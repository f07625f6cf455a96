/** Exclusive or on naturals, defined digit by digit, and the laws the checksum proofs use. */
module Gf2 {
  import opened Bytes

  function Xor(a: nat, b: nat): nat
    decreases a + b
  {
    if a == 0 && b == 0 then 0 else 2 * Xor(a / 2, b / 2) + (a + b) % 2
  }

  function Pow2(n: nat): nat {
    if n == 0 then 1 else 2 * Pow2(n - 1)
  }

  /** One digit at a time: the only fact about Xor that the laws below use. */
  lemma XorDigits(a: nat, b: nat)
    ensures Xor(a, b) == 2 * Xor(a / 2, b / 2) + (a + b) % 2
    ensures Xor(a, b) / 2 == Xor(a / 2, b / 2) && Xor(a, b) % 2 == (a + b) % 2
  {
  }

  lemma {:induction false} XorZero(a: nat)
    ensures Xor(a, 0) == a
  {
    hide Xor;
    XorDigits(a, 0);
    if a != 0 {
      XorZero(a / 2);
    }
  }

  lemma {:induction false} XorComm(a: nat, b: nat)
    ensures Xor(a, b) == Xor(b, a)
    decreases a + b
  {
    hide Xor;
    XorDigits(a, b);
    XorDigits(b, a);
    if a + b != 0 {
      XorComm(a / 2, b / 2);
    }
  }

  lemma {:induction false} XorAssoc(a: nat, b: nat, c: nat)
    ensures Xor(Xor(a, b), c) == Xor(a, Xor(b, c))
    decreases a + b + c
  {
    hide Xor;
    XorDigits(a, b);
    XorDigits(b, c);
    XorDigits(Xor(a, b), c);
    XorDigits(a, Xor(b, c));
    if a + b + c != 0 {
      XorAssoc(a / 2, b / 2, c / 2);
    }
  }

  lemma {:induction false} XorSelf(a: nat)
    ensures Xor(a, a) == 0
  {
    hide Xor;
    XorDigits(a, a);
    if a != 0 {
      XorSelf(a / 2);
    }
  }

  lemma {:induction false} XorCancel(a: nat, b: nat)
    ensures Xor(a, b) == 0 <==> a == b
    decreases a + b
  {
    hide Xor;
    XorDigits(a, b);
    if a + b != 0 {
      XorCancel(a / 2, b / 2);
    }
  }

  lemma {:induction false} XorBound(a: nat, b: nat, n: nat)
    requires a < Pow2(n) && b < Pow2(n)
    ensures Xor(a, b) < Pow2(n)
  {
    hide Xor;
    XorDigits(a, b);
    if n != 0 {
      XorBound(a / 2, b / 2, n - 1);
    }
  }

  /** Pairing off four operands: the law behind every linearity proof below. */
  lemma XorPairs(a: nat, b: nat, c: nat, d: nat)
    ensures Xor(Xor(a, b), Xor(c, d)) == Xor(Xor(a, c), Xor(b, d))
  {
    hide Xor;
    XorAssoc(a, b, Xor(c, d));
    XorAssoc(b, c, d);
    XorComm(b, c);
    XorAssoc(c, b, d);
    XorAssoc(a, c, Xor(b, d));
  }

  lemma {:induction false} XorDisjoint(low: nat, high: nat, n: nat)
    requires low < Pow2(n)
    ensures Xor(low, Pow2(n) * high) == low + Pow2(n) * high
    decreases n
  {
    hide Xor;
    if n == 0 {
      XorZero(high);
      XorComm(0, high);
    } else {
      var h := Pow2(n - 1) * high;
      DoubledProduct(Pow2(n - 1), high);
      assert Pow2(n) * high == 2 * h;
      XorDisjoint(low / 2, high, n - 1);
      XorAboveLowest(low, h);
    }
  }

  lemma XorAboveLowest(low: nat, h: nat)
    ensures Xor(low, 2 * h) == 2 * Xor(low / 2, h) + low % 2
  {
    hide Xor;
    XorDigits(low, 2 * h);
  }

  lemma DoubledProduct(p: nat, high: nat)
    ensures 2 * p * high == 2 * (p * high)
  {
  }

  lemma Pow2Values()
    ensures Pow2(8) == 256 && Pow2(16) == 0x1_0000
  {
    assert Pow2(4) == 16;
    assert Pow2(8) == 256;
    assert Pow2(12) == 4096;
  }

  function XorByte(a: byte, b: byte): byte {
    Pow2Values();
    XorBound(a, b, 8);
    Xor(a, b)
  }

  function Xor16(a: uint16, b: uint16): uint16 {
    Pow2Values();
    XorBound(a, b, 16);
    Xor(a, b)
  }

  /** The parity of the number of ones in the binary form. */
  predicate Parity(a: nat) {
    if a == 0 then false else (a % 2 == 1) != Parity(a / 2)
  }

  lemma ParityDigits(a: nat)
    ensures Parity(a) == ((a % 2 == 1) != Parity(a / 2))
    ensures a == 0 ==> !Parity(a)
  {
  }

  lemma {:induction false} ParityXor(a: nat, b: nat)
    ensures Parity(Xor(a, b)) == (Parity(a) != Parity(b))
    decreases a + b
  {
    hide Xor, Parity;
    XorDigits(a, b);
    ParityDigits(a);
    ParityDigits(b);
    ParityDigits(Xor(a, b));
    if a + b != 0 {
      ParityXor(a / 2, b / 2);
    }
  }
}

/** The checksum of RTU frames: crc16 of clients/modbus/stub_clients.go. */
module Crc {
  import opened Bytes
  import opened Gf2

  const POLYNOMIAL: uint16 := 0xA001

  const START: uint16 := 0xFFFF

  /** One pass of the inner loop: shift right, and fold the polynomial in when a one fell out. */
  function Shift(c: uint16): uint16 {
    if c % 2 == 1 then Xor16(c / 2, POLYNOMIAL) else c / 2
  }

  function Shifts(c: uint16, n: nat): uint16
    decreases n, c
  {
    if n == 0 then c else Shifts(Shift(c), n - 1)
  }

  function FeedByte(c: uint16, b: byte): uint16 {
    Shifts(Xor16(c, b), 8)
  }

  /** The register after feeding data to a register that held c. */
  function Register(c: uint16, data: seq<byte>): uint16
    decreases |data|
  {
    if data == [] then c else Register(FeedByte(c, data[0]), data[1..])
  }

  function Crc16(data: seq<byte>): uint16 {
    Register(START, data)
  }

  /** The two nested loops of crc16. */
  method ComputeCrc16(data: seq<byte>) returns (crc: uint16)
    ensures crc == Crc16(data)
  {
    crc := START;
    for k := 0 to |data|
      invariant Register(crc, data[k..]) == Crc16(data)
    {
      ghost var before := crc;
      crc := Xor16(crc, data[k]);
      for i := 0 to 8
        invariant Shifts(crc, 8 - i) == FeedByte(before, data[k])
      {
        if crc % 2 != 0 {
          crc := Xor16(crc / 2, 0xA001);
        } else {
          crc := crc / 2;
        }
      }
      assert data[k..][1..] == data[k + 1..];
    }
  }

  /** The register carries all that the data seen so far contributes. */
  lemma {:induction false} CrcResumes(c: uint16, a: seq<byte>, b: seq<byte>)
    ensures Register(c, a + b) == Register(Register(c, a), b)
    decreases |a|
  {
    if a == [] {
      assert a + b == b;
    } else {
      assert (a + b)[1..] == a[1..] + b;
      CrcResumes(FeedByte(c, a[0]), a[1..], b);
    }
  }

  /** The sender's two bytes are the register, low byte first. */
  function Sealed(body: seq<byte>): seq<byte> {
    body + Little(Crc16(body))
  }

  /** The receiver's test of a whole frame. */
  predicate Intact(frame: seq<byte>)
    requires |frame| >= 2
  {
    Crc16(frame[..|frame| - 2]) == FromLittle(frame[|frame| - 2..])
  }
}
