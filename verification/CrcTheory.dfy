/** The register as a machine that eats one bit at a time, and what follows for damaged frames. */
module CrcBits {
  import opened Bytes
  import opened Gf2
  import opened Crc

  /** The n low binary digits of v, least significant first: the order on the serial line. */
  function Bits(v: nat, n: nat): (r: seq<bool>)
    ensures |r| == n
    decreases n, v
  {
    if n == 0 then [] else [v % 2 == 1] + Bits(v / 2, n - 1)
  }

  function Value(bits: seq<bool>): nat {
    if bits == [] then 0 else (if bits[0] then 1 else 0) + 2 * Value(bits[1..])
  }

  function LineBits(data: seq<byte>): (r: seq<bool>)
    ensures |r| == 8 * |data|
  {
    if data == [] then [] else Bits(data[0], 8) + LineBits(data[1..])
  }

  function FeedBit(c: uint16, bit: bool): uint16 {
    Shift(Xor16(c, if bit then 1 else 0))
  }

  function FeedBits(c: uint16, bits: seq<bool>): uint16
    decreases |bits|
  {
    if bits == [] then c else FeedBits(FeedBit(c, bits[0]), bits[1..])
  }

  function XorBits(a: seq<bool>, b: seq<bool>): seq<bool>
    requires |a| == |b|
  {
    seq(|a|, i requires 0 <= i < |a| => a[i] != b[i])
  }

  /** A frame that arrives with the bits of damage flipped. */
  function Damaged(frame: seq<byte>, damage: seq<byte>): (r: seq<byte>)
    requires |frame| == |damage|
    ensures |r| == |frame|
  {
    seq(|frame|, i requires 0 <= i < |frame| => XorByte(frame[i], damage[i]))
  }

  /** A byte arrives as it was sent exactly when none of its bits is flipped. */
  lemma SameByte(a: byte, d: byte)
    ensures XorByte(a, d) == a <==> d == 0
  {
    hide Xor;
    XorComm(a, d);
    XorAssoc(d, a, a);
    XorSelf(a);
    XorZero(d);
    XorZero(a);
    XorCancel(Xor(a, d), a);
  }

  lemma FoldLinear(a: nat, b: nat, p: nat)
    ensures Xor(Xor(a / 2, if a % 2 == 1 then p else 0), Xor(b / 2, if b % 2 == 1 then p else 0))
         == Xor(Xor(a / 2, b / 2), if (a + b) % 2 == 1 then p else 0)
  {
    hide Xor;
    var x := if a % 2 == 1 then p else 0;
    var y := if b % 2 == 1 then p else 0;
    XorPairs(a / 2, x, b / 2, y);
    XorSelf(p);
    XorZero(p);
    XorZero(0);
    XorComm(0, p);
  }

  lemma ShiftIsFold(c: uint16)
    ensures Shift(c) == Xor(c / 2, if c % 2 == 1 then POLYNOMIAL else 0)
  {
    XorZero(c / 2);
  }

  lemma ShiftLinear(a: uint16, b: uint16)
    ensures Shift(Xor16(a, b)) == Xor16(Shift(a), Shift(b))
  {
    hide Xor, Shift;
    FoldLinear(a, b, POLYNOMIAL);
    ShiftIsFold(a);
    ShiftIsFold(b);
    ShiftIsFold(Xor16(a, b));
    XorDigits(a, b);
  }

  /** No nonzero register is shifted to zero, so a difference between registers never dies out. */
  lemma ShiftKeepsNonzero(c: uint16)
    ensures Shift(c) == 0 <==> c == 0
  {
    XorCancel(c / 2, POLYNOMIAL);
  }

  lemma {:induction false} ShiftsKeepNonzero(c: uint16, n: nat)
    ensures Shifts(c, n) == 0 <==> c == 0
    decreases n
  {
    ShiftKeepsNonzero(c);
    if n != 0 {
      ShiftsKeepNonzero(Shift(c), n - 1);
    }
  }

  lemma ShiftEven(h: nat)
    requires 2 * h < 0x1_0000
    ensures Shift(2 * h) == h
  {
  }

  /** Adding n bits at once and shifting n times is feeding them one by one. */
  lemma {:induction false} ShiftsAreBits(c: uint16, v: uint16, n: nat)
    requires v < Pow2(n)
    ensures Shifts(Xor16(c, v), n) == FeedBits(c, Bits(v, n))
    decreases n
  {
    hide Xor, Shift;
    XorZero(c);
    if n != 0 {
      var low: uint16 := v % 2;
      var high: uint16 := v / 2;
      XorDisjoint(low, high, 1);
      XorAssoc(c, low, 2 * high);
      ShiftLinear(Xor16(c, low), 2 * high);
      ShiftEven(high);
      ShiftsAreBits(FeedBit(c, low == 1), high, n - 1);
      assert Bits(v, n)[1..] == Bits(high, n - 1);
    }
  }

  lemma {:induction false} FeedBitsResumes(c: uint16, a: seq<bool>, b: seq<bool>)
    ensures FeedBits(c, a + b) == FeedBits(FeedBits(c, a), b)
    decreases |a|
  {
    if a == [] {
      assert a + b == b;
    } else {
      assert (a + b)[1..] == a[1..] + b;
      FeedBitsResumes(FeedBit(c, a[0]), a[1..], b);
    }
  }

  /** The byte loop of crc16 is the bit-serial division of the standard. */
  lemma {:induction false} CrcIsBitSerial(c: uint16, data: seq<byte>)
    ensures Register(c, data) == FeedBits(c, LineBits(data))
    decreases |data|
  {
    if data != [] {
      Pow2Values();
      ShiftsAreBits(c, data[0], 8);
      FeedBitsResumes(c, Bits(data[0], 8), LineBits(data[1..]));
      CrcIsBitSerial(FeedByte(c, data[0]), data[1..]);
    }
  }

  lemma {:induction false} FeedBitsLinear(c: uint16, d: uint16, a: seq<bool>, b: seq<bool>)
    requires |a| == |b|
    ensures FeedBits(Xor16(c, d), XorBits(a, b)) == Xor16(FeedBits(c, a), FeedBits(d, b))
    decreases |a|
  {
    hide Xor, Shift;
    if a != [] {
      var x: uint16 := if a[0] then 1 else 0;
      var y: uint16 := if b[0] then 1 else 0;
      XorPairs(c, d, x, y);
      XorZero(x);
      XorZero(1);
      XorComm(0, 1);
      XorSelf(1);
      ShiftLinear(Xor16(c, x), Xor16(d, y));
      assert XorBits(a, b)[1..] == XorBits(a[1..], b[1..]);
      FeedBitsLinear(FeedBit(c, a[0]), FeedBit(d, b[0]), a[1..], b[1..]);
    }
  }

  lemma BitsStep(v: nat, n: nat)
    ensures Bits(v, n) == if n == 0 then [] else [v % 2 == 1] + Bits(v / 2, n - 1)
  {
  }

  lemma XorNothing()
    ensures XorBits([], []) == []
  {
  }

  lemma XorBitsCons(x: bool, a: seq<bool>, y: bool, b: seq<bool>)
    requires |a| == |b|
    ensures XorBits([x] + a, [y] + b) == [x != y] + XorBits(a, b)
  {
  }

  lemma {:induction false} BitsOfXor(a: nat, b: nat, n: nat)
    ensures Bits(Xor(a, b), n) == XorBits(Bits(a, n), Bits(b, n))
    decreases n
  {
    hide Xor, XorBits, Bits;
    BitsStep(a, n);
    BitsStep(b, n);
    BitsStep(Xor(a, b), n);
    if n == 0 {
      XorNothing();
    } else {
      XorDigits(a, b);
      BitsOfXor(a / 2, b / 2, n - 1);
      XorBitsCons(a % 2 == 1, Bits(a / 2, n - 1), b % 2 == 1, Bits(b / 2, n - 1));
    }
  }

  lemma {:induction false} LineBitsOfDamaged(frame: seq<byte>, damage: seq<byte>)
    requires |frame| == |damage|
    ensures LineBits(Damaged(frame, damage)) == XorBits(LineBits(frame), LineBits(damage))
    decreases |frame|
  {
    hide Bits;
    if frame != [] {
      assert Damaged(frame, damage)[1..] == Damaged(frame[1..], damage[1..]);
      BitsOfXor(frame[0], damage[0], 8);
      LineBitsOfDamaged(frame[1..], damage[1..]);
    }
  }

  lemma {:induction false} ShiftsLinear(a: uint16, b: uint16, n: nat)
    ensures Shifts(Xor16(a, b), n) == Xor16(Shifts(a, n), Shifts(b, n))
    decreases n
  {
    if n != 0 {
      ShiftLinear(a, b);
      ShiftsLinear(Shift(a), Shift(b), n - 1);
    }
  }

  lemma {:induction false} ShiftsAdd(c: uint16, m: nat, n: nat)
    ensures Shifts(c, m + n) == Shifts(Shifts(c, m), n)
    decreases m
  {
    if m != 0 {
      ShiftsAdd(Shift(c), m - 1, n);
    }
  }

  lemma {:induction false} ShiftsOfMultiple(h: nat, n: nat)
    requires Pow2(n) * h < 0x1_0000
    ensures h < 0x1_0000 && Shifts(Pow2(n) * h, n) == h
    decreases n
  {
    if n != 0 {
      var half := Pow2(n - 1) * h;
      assert Pow2(n) * h == 2 * half;
      ShiftEven(half);
      ShiftsOfMultiple(h, n - 1);
    }
  }

  /** Feeding a word in two halves, low half first, is feeding it at once. */
  lemma FeedHalves(c: uint16, low: uint16, high: uint16, n: nat)
    requires low < Pow2(n) && Pow2(n) * high < 0x1_0000 && low + Pow2(n) * high < 0x1_0000
    ensures Shifts(Xor16(Shifts(Xor16(c, low), n), high), n) == Shifts(Xor16(c, low + Pow2(n) * high), n + n)
  {
    hide Xor, Shifts, Pow2;
    var top: uint16 := Pow2(n) * high;
    XorDisjoint(low, high, n);
    XorAssoc(c, low, top);
    ShiftsLinear(Xor16(c, low), top, n);
    ShiftsOfMultiple(high, n);
    ShiftsAdd(Xor16(c, low + top), n, n);
  }

  lemma FeedTrailer(c: uint16, trailer: seq<byte>)
    requires |trailer| == 2
    ensures Register(c, trailer) == Shifts(Xor16(c, FromLittle(trailer)), 16)
  {
    hide Shifts, Xor;
    Pow2Values();
    FeedHalves(c, trailer[0], trailer[1], 8);
    assert trailer == [trailer[0]] + [trailer[1]];
    CrcResumes(c, [trailer[0]], [trailer[1]]);
  }

  lemma {:induction false} BitsJoin(low: nat, high: nat, n: nat, m: nat)
    requires low < Pow2(n)
    ensures Bits(low, n) + Bits(high, m) == Bits(low + Pow2(n) * high, n + m)
    decreases n
  {
    if n != 0 {
      BitsJoin(low / 2, high, n - 1, m);
      var h := Pow2(n - 1) * high;
      assert Pow2(n) * high == 2 * h;
      assert (low + 2 * h) / 2 == low / 2 + h;
      assert Bits(low, n) + Bits(high, m) == [low % 2 == 1] + (Bits(low / 2, n - 1) + Bits(high, m));
    }
  }

  /** A frame passes the receiver's test exactly when the register ends at zero. */
  lemma IntactMeansZero(frame: seq<byte>)
    requires |frame| >= 2
    ensures Intact(frame) <==> Crc16(frame) == 0
  {
    var body, trailer := frame[..|frame| - 2], frame[|frame| - 2..];
    var c, w := Crc16(body), FromLittle(trailer);
    assert frame == body + trailer;
    CrcResumes(START, body, trailer);
    FeedTrailer(c, trailer);
    ShiftsKeepNonzero(Xor16(c, w), 16);
    XorCancel(c, w);
  }

  /** Appending the checksum, low byte first, always brings the register to zero. */
  lemma SealedIsIntact(body: seq<byte>)
    ensures Intact(Sealed(body)) && Crc16(Sealed(body)) == 0
  {
    var frame := Sealed(body);
    assert frame[..|frame| - 2] == body && frame[|frame| - 2..] == Little(Crc16(body));
    IntactMeansZero(frame);
  }

  /** A damaged frame is accepted exactly when the damage, on its own, leaves a zero register at zero. */
  lemma DamageGoesUnnoticed(frame: seq<byte>, damage: seq<byte>)
    requires |frame| == |damage| >= 2 && Intact(frame)
    ensures Intact(Damaged(frame, damage)) <==> FeedBits(0, LineBits(damage)) == 0
  {
    var hit := Damaged(frame, damage);
    IntactMeansZero(frame);
    IntactMeansZero(hit);
    CrcIsBitSerial(START, frame);
    CrcIsBitSerial(START, hit);
    LineBitsOfDamaged(frame, damage);
    FeedBitsLinear(START, 0, LineBits(frame), LineBits(damage));
    XorZero(START);
    var d := FeedBits(0, LineBits(damage));
    XorZero(d);
    XorComm(0, d);
  }

  // ----- bursts

  /** All flipped bits lie among the sixteen that start at bit k, and there is one. */
  predicate Burst(bits: seq<bool>, k: nat) {
    && (exists i :: 0 <= i < |bits| && bits[i])
    && (forall i :: 0 <= i < |bits| && bits[i] ==> k <= i < k + 16)
  }

  lemma {:induction false} QuietLine(bits: seq<bool>)
    requires forall i :: 0 <= i < |bits| ==> !bits[i]
    ensures FeedBits(0, bits) == 0
    decreases |bits|
  {
    if bits != [] {
      QuietLine(bits[1..]);
    }
  }

  lemma {:induction false} QuietTail(c: uint16, bits: seq<bool>)
    requires forall i :: 0 <= i < |bits| ==> !bits[i]
    ensures FeedBits(c, bits) == Shifts(c, |bits|)
    decreases |bits|
  {
    if bits != [] {
      XorZero(c);
      QuietTail(Shift(c), bits[1..]);
    }
  }

  lemma {:induction false} BitsOfValue(bits: seq<bool>)
    ensures Value(bits) < Pow2(|bits|) && Bits(Value(bits), |bits|) == bits
    ensures (exists i :: 0 <= i < |bits| && bits[i]) ==> Value(bits) != 0
    decreases |bits|
  {
    if bits != [] {
      BitsOfValue(bits[1..]);
      if i :| 0 <= i < |bits| && bits[i] {
        assert i > 0 ==> bits[1..][i - 1];
      }
      assert Value(bits) / 2 == Value(bits[1..]);
    }
  }

  lemma {:induction false} Pow2Grows(n: nat, m: nat)
    requires n <= m
    ensures Pow2(n) <= Pow2(m)
    decreases m
  {
    if n < m {
      Pow2Grows(n, m - 1);
    }
  }

  lemma WindowLeavesTrace(hit: seq<bool>, i: nat)
    requires |hit| <= 16 && i < |hit| && hit[i]
    ensures FeedBits(0, hit) != 0
  {
    BitsOfValue(hit);
    Pow2Grows(|hit|, 16);
    Pow2Values();
    var v: uint16 := Value(hit);
    ShiftsAreBits(0, v, |hit|);
    XorZero(v);
    XorComm(0, v);
    ShiftsKeepNonzero(v, |hit|);
  }

  /** Quiet bits before and after do not hide the trace of the window between them. */
  lemma QuietAround(quiet: seq<bool>, hit: seq<bool>, tail: seq<bool>)
    requires forall i :: 0 <= i < |quiet| ==> !quiet[i]
    requires forall i :: 0 <= i < |tail| ==> !tail[i]
    requires FeedBits(0, hit) != 0
    ensures FeedBits(0, quiet + (hit + tail)) != 0
  {
    hide FeedBits, Shifts;
    FeedBitsResumes(0, quiet, hit + tail);
    QuietLine(quiet);
    FeedBitsResumes(0, hit, tail);
    QuietTail(FeedBits(0, hit), tail);
    ShiftsKeepNonzero(FeedBits(0, hit), |tail|);
  }

  /** The window of a burst, with nothing but quiet bits around it. */
  lemma BurstWindow(bits: seq<bool>, k: nat) returns (quiet: seq<bool>, hit: seq<bool>, tail: seq<bool>, i: nat)
    requires Burst(bits, k)
    ensures bits == quiet + (hit + tail) && |hit| <= 16 && i < |hit| && hit[i]
    ensures forall j :: 0 <= j < |quiet| ==> !quiet[j]
    ensures forall j :: 0 <= j < |tail| ==> !tail[j]
  {
    var at :| 0 <= at < |bits| && bits[at];
    var m := if k + 16 < |bits| then k + 16 else |bits|;
    quiet, hit, tail, i := bits[..k], bits[k..m], bits[m..], at - k;
  }

  lemma BurstLeavesTrace(bits: seq<bool>, k: nat)
    requires Burst(bits, k)
    ensures FeedBits(0, bits) != 0
  {
    hide FeedBits, Burst;
    var quiet, hit, tail, i := BurstWindow(bits, k);
    WindowLeavesTrace(hit, i);
    QuietAround(quiet, hit, tail);
  }

  /** Any damage confined to sixteen consecutive bits of a frame, checksum included, is caught. */
  lemma BurstIsCaught(frame: seq<byte>, damage: seq<byte>, k: nat)
    requires |frame| == |damage| >= 2 && Intact(frame)
    requires Burst(LineBits(damage), k)
    ensures !Intact(Damaged(frame, damage))
  {
    DamageGoesUnnoticed(frame, damage);
    BurstLeavesTrace(LineBits(damage), k);
  }

  // ----- odd numbers of flipped bits

  function Ones(bits: seq<bool>): nat {
    if bits == [] then 0 else (if bits[0] then 1 else 0) + Ones(bits[1..])
  }

  lemma PolynomialIsOdd()
    ensures Parity(POLYNOMIAL)
  {
    assert !Parity(40);
    assert !Parity(40960 / 128);
    assert Parity(40960 / 8192) == false;
    assert Parity(40960 / 64) == false;
    assert Parity(40960 / 8) == false;
    assert Parity(40960 / 2) == false;
  }

  lemma FeedBitParity(c: uint16, bit: bool)
    ensures Parity(FeedBit(c, bit)) == (Parity(c) != bit)
  {
    hide Xor;
    var x: uint16 := if bit then 1 else 0;
    ParityXor(c, x);
    assert Parity(x) == bit;
    var s := Xor16(c, x);
    PolynomialIsOdd();
    ParityXor(s / 2, POLYNOMIAL);
  }

  lemma {:induction false} FeedBitsParity(c: uint16, bits: seq<bool>)
    ensures Parity(FeedBits(c, bits)) == (Parity(c) != (Ones(bits) % 2 == 1))
    decreases |bits|
  {
    hide FeedBit, Parity;
    if bits != [] {
      FeedBitParity(c, bits[0]);
      FeedBitsParity(FeedBit(c, bits[0]), bits[1..]);
    }
  }

  /** Flipping an odd number of bits, wherever they are, is caught. */
  lemma OddDamageIsCaught(frame: seq<byte>, damage: seq<byte>)
    requires |frame| == |damage| >= 2 && Intact(frame)
    requires Ones(LineBits(damage)) % 2 == 1
    ensures !Intact(Damaged(frame, damage))
  {
    DamageGoesUnnoticed(frame, damage);
    FeedBitsParity(0, LineBits(damage));
  }
}

/** Polynomials over GF(2) as coefficient lists, highest power first, and division by x^16+x^15+x^2+1. */
module CrcPolynomial {
  import opened Bytes
  import opened Gf2
  import opened Crc
  import opened CrcBits

  /**
   * The generator x^16 + x^15 + x^2 + 1 of section 6.2.2 of MODBUS over Serial Line V1.02,
   * below its leading term: x^15 + x^2 + 1.
   */
  const TAPS: seq<bool> :=
    [true, false, false, false] + [false, false, false, false] +
    ([false, false, false, false] + [false, true, false, true])

  function Zeros(n: nat): seq<bool> {
    seq(n, _ => false)
  }

  /** Schoolbook multiplication by x^16 + taps. */
  function Times(q: seq<bool>, taps: seq<bool>): (r: seq<bool>)
    requires |taps| == 16
    ensures |r| == |q| + 16
    decreases |q|
  {
    if q == [] then Zeros(16)
    else XorBits(Row(q[0], taps, |q| - 1), [false] + Times(q[1..], taps))
  }

  function Row(t: bool, taps: seq<bool>, n: nat): (r: seq<bool>)
    requires |taps| == 16
    ensures |r| == n + 17
  {
    if t then [true] + taps + Zeros(n) else Zeros(n + 17)
  }

  function TimesGenerator(q: seq<bool>): (r: seq<bool>)
    ensures |r| == |q| + 16
  {
    Times(q, TAPS)
  }

  /** The register as a polynomial of degree below 16: its lowest bit is the coefficient of x^15. */
  function Remainder(c: uint16): (r: seq<bool>)
    ensures |r| == 16
  {
    Bits(c, 16)
  }

  /** The dividend: the message shifted up by 16 places, with the start value added to its top. */
  function Dividend(c: uint16, bits: seq<bool>): (r: seq<bool>)
    ensures |r| == |bits| + 16
  {
    XorBits(bits + Zeros(16), Remainder(c) + Zeros(|bits|))
  }

  ghost function Quotient(c: uint16, bits: seq<bool>): (q: seq<bool>)
    ensures |q| == |bits|
    decreases |bits|
  {
    if bits == [] then [] else [bits[0] != (c % 2 == 1)] + Quotient(FeedBit(c, bits[0]), bits[1..])
  }

  lemma {:induction false} BitsAt(v: nat, n: nat, i: nat)
    requires i < n
    ensures i + 1 < n ==> Bits(v, n)[i + 1] == Bits(v / 2, n)[i]
    ensures v < Pow2(n) && i + 1 == n ==> !Bits(v / 2, n)[i]
    decreases n
  {
    assert Bits(v, n) == [v % 2 == 1] + Bits(v / 2, n - 1);
    if i > 0 {
      BitsAt(v / 2, n - 1, i - 1);
      assert Bits(v / 2, n) == [v / 2 % 2 == 1] + Bits(v / 2 / 2, n - 1);
    }
  }

  /** Shifting the register drops its top coefficient and multiplies the rest by x. */
  lemma HalfAsRemainder(v: uint16)
    ensures Remainder(v / 2) == Remainder(v)[1..] + [false]
  {
    Pow2Values();
    forall i | 0 <= i < 16 ensures Remainder(v / 2)[i] == (Remainder(v)[1..] + [false])[i] {
      BitsAt(v, 16, i);
    }
  }

  lemma PolynomialAsRemainder()
    ensures Remainder(POLYNOMIAL) == TAPS
  {
    hide Bits;
    PolynomialNibbles();
    NibbleValues();
  }

  lemma NibbleValues()
    ensures Bits(1, 4) == [true, false, false, false]
    ensures Bits(0, 4) == [false, false, false, false]
    ensures Bits(10, 4) == [false, true, false, true]
  {
  }

  lemma PolynomialNibbles()
    ensures Bits(POLYNOMIAL, 16) == Bits(1, 4) + Bits(0, 4) + (Bits(0, 4) + Bits(10, 4))
  {
    hide Bits;
    BitsJoin(1, 0, 4, 4);
    BitsJoin(0, 10, 4, 4);
    Pow2Values();
    BitsJoin(1, 160, 8, 8);
  }

  lemma XorRemainder(a: uint16, b: uint16)
    ensures Remainder(Xor16(a, b)) == XorBits(Remainder(a), Remainder(b))
  {
    BitsOfXor(a, b, 16);
  }

  lemma ShiftAsRemainder(c: uint16)
    ensures Remainder(Shift(c)) == XorBits(Remainder(c)[1..] + [false], if c % 2 == 1 then TAPS else Zeros(16))
  {
    HalfAsRemainder(c);
    if c % 2 == 1 {
      PolynomialAsRemainder();
      XorRemainder(c / 2, POLYNOMIAL);
    } else {
      var low := Remainder(c / 2);
      assert XorBits(low, Zeros(16)) == low;
    }
  }

  /** One step of the register is one step of long division. */
  lemma DivisionStep(c: uint16, bit: bool)
    ensures Remainder(FeedBit(c, bit)) ==
            XorBits(Remainder(c)[1..] + [false], if bit != (c % 2 == 1) then TAPS else Zeros(16))
  {
    hide Xor, Remainder;
    var x: uint16 := if bit then 1 else 0;
    var s := Xor16(c, x);
    XorZero(c / 2);
    XorDigits(c, x);
    ShiftAsRemainder(s);
    HalfAsRemainder(c);
    HalfAsRemainder(s);
  }

  /** What subtracting t times the generator from the top does to coefficient i + 1. */
  predicate Tap(t: bool, taps: seq<bool>, i: nat)
    requires |taps| == 16
  {
    t && i < 16 && taps[i]
  }

  lemma ProductStep(q: seq<bool>, taps: seq<bool>, i: nat)
    requires |taps| == 16 && q != [] && i < |q| + 15
    ensures Times(q, taps)[0] == q[0]
    ensures Times(q, taps)[i + 1] == (Tap(q[0], taps, i) != Times(q[1..], taps)[i])
  {
  }

  lemma DividendStep(c: uint16, bits: seq<bool>, i: nat)
    requires bits != [] && i < |bits| + 15
    ensures var t := bits[0] != (c % 2 == 1);
            && Dividend(c, bits)[0] == t
            && Dividend(c, bits)[i + 1] == (Tap(t, TAPS, i) != Dividend(FeedBit(c, bits[0]), bits[1..])[i])
  {
    DivisionStep(c, bits[0]);
    assert Remainder(c)[0] == (c % 2 == 1);
    var next := Remainder(FeedBit(c, bits[0]));
    assert i < 16 ==> next[i] == ((Remainder(c)[1..] + [false])[i] != Tap(bits[0] != (c % 2 == 1), TAPS, i));
  }

  lemma NothingToDivide(c: uint16)
    ensures Dividend(c, []) == XorBits(TimesGenerator(Quotient(c, [])), Zeros(0) + Remainder(FeedBits(c, [])))
  {
    assert Dividend(c, []) == Remainder(c) == XorBits(Zeros(16), Zeros(0) + Remainder(c));
  }

  lemma QuotientStep(c: uint16, bits: seq<bool>)
    requires bits != []
    ensures var next := FeedBit(c, bits[0]);
            && Quotient(c, bits)[0] == (bits[0] != (c % 2 == 1))
            && Quotient(c, bits)[1..] == Quotient(next, bits[1..])
            && FeedBits(c, bits) == FeedBits(next, bits[1..])
  {
  }

  /**
   * The checksum is the polynomial remainder: dividend = quotient * generator + register,
   * for every start value and every message.
   */
  lemma {:induction false} CrcDivides(c: uint16, bits: seq<bool>)
    ensures Dividend(c, bits)
         == XorBits(TimesGenerator(Quotient(c, bits)), Zeros(|bits|) + Remainder(FeedBits(c, bits)))
    decreases |bits|
  {
    hide Dividend, Times, FeedBit, FeedBits, Quotient, Remainder;
    if bits == [] {
      NothingToDivide(c);
    } else {
      var n := |bits|;
      var next := FeedBit(c, bits[0]);
      var q, r := Quotient(c, bits), Remainder(FeedBits(c, bits));
      QuotientStep(c, bits);
      CrcDivides(next, bits[1..]);
      var lhs, rhs := Dividend(c, bits), XorBits(TimesGenerator(q), Zeros(n) + r);
      forall i | 0 <= i < n + 16 ensures lhs[i] == rhs[i] {
        var k := if i == 0 then 0 else i - 1;
        ProductStep(q, TAPS, k);
        DividendStep(c, bits, k);
        assert (Zeros(n) + r)[k + 1] == (Zeros(n - 1) + r)[k];
      }
    }
  }

  /** A product whose first |q| coefficients vanish comes from the zero polynomial. */
  lemma {:induction false} LeadingTerms(q: seq<bool>, taps: seq<bool>)
    requires |taps| == 16
    requires forall i :: 0 <= i < |q| ==> !Times(q, taps)[i]
    ensures q == Zeros(|q|)
    decreases |q|
  {
    if q != [] {
      ProductStep(q, taps, 0);
      forall i | 0 <= i < |q| - 1 ensures !Times(q[1..], taps)[i] {
        ProductStep(q, taps, i);
        assert !Times(q, taps)[i + 1];
      }
      LeadingTerms(q[1..], taps);
      assert q == [q[0]] + q[1..];
    }
  }

  lemma {:induction false} TimesLinear(p: seq<bool>, q: seq<bool>, taps: seq<bool>)
    requires |p| == |q| && |taps| == 16
    ensures Times(XorBits(p, q), taps) == XorBits(Times(p, taps), Times(q, taps))
    decreases |p|
  {
    if p != [] {
      TimesLinear(p[1..], q[1..], taps);
      assert XorBits(p, q)[1..] == XorBits(p[1..], q[1..]);
    }
  }

  lemma {:induction false} TimesZero(n: nat, taps: seq<bool>)
    requires |taps| == 16
    ensures Times(Zeros(n), taps) == Zeros(n + 16)
    decreases n
  {
    if n > 0 {
      assert Zeros(n)[1..] == Zeros(n - 1);
      TimesZero(n - 1, taps);
    }
  }

  /** Division by the generator has only one remainder, so the register is the only value that satisfies the law. */
  lemma RemainderIsUnique(c: uint16, bits: seq<bool>, q: seq<bool>, r: seq<bool>)
    requires |q| == |bits| && |r| == 16
    requires Dividend(c, bits) == XorBits(TimesGenerator(q), Zeros(|bits|) + r)
    ensures r == Remainder(FeedBits(c, bits))
  {
    var n := |bits|;
    var q0, r0 := Quotient(c, bits), Remainder(FeedBits(c, bits));
    CrcDivides(c, bits);
    var d := XorBits(q, q0);
    TimesLinear(q, q0, TAPS);
    var a, b := XorBits(TimesGenerator(q), Zeros(n) + r), XorBits(TimesGenerator(q0), Zeros(n) + r0);
    forall i | 0 <= i < n + 16
      ensures Times(d, TAPS)[i] == ((Zeros(n) + r)[i] != (Zeros(n) + r0)[i])
    {
      assert a[i] == b[i];
    }
    forall i | 0 <= i < n ensures !Times(d, TAPS)[i] {
      assert (Zeros(n) + r)[i] == (Zeros(n) + r0)[i];
    }
    LeadingTerms(d, TAPS);
    TimesZero(n, TAPS);
    forall i | 0 <= i < 16 ensures r[i] == r0[i] {
      assert !Times(d, TAPS)[n + i];
      assert (Zeros(n) + r)[n + i] == r[i] && (Zeros(n) + r0)[n + i] == r0[i];
    }
  }

  /** The register before the first byte, as a polynomial: sixteen ones. */
  lemma StartIsOnes()
    ensures Remainder(Crc16([])) == seq(16, _ => true)
    ensures Crc16([]) == 0xFFFF
  {
    hide Bits;
    AllOnes(4);
    MoreOnes(15, 4);
    MoreOnes(0xFF, 8);
    MoreOnes(0xFFF, 12);
    assert Bits(0xFFFF, 16) == seq(16, _ => true);
  }

  lemma MoreOnes(v: nat, m: nat)
    ensures Bits(15 + 16 * v, 4 + m) == [true, true, true, true] + Bits(v, m)
  {
    hide Bits;
    AllOnes(4);
    BitsJoin(15, v, 4, m);
  }

  lemma AllOnes(n: nat)
    requires n == 4
    ensures Pow2(4) == 16 && Bits(15, n) == [true, true, true, true]
  {
  }

  /**
   * The law for crc16 itself. Take the bits of the message in line order, sixteen zeros behind them, and
   * complement the first sixteen: that is the dividend. Sixteen coefficients r complete its division by
   * x^16 + x^15 + x^2 + 1, with some quotient, exactly when they are the checksum.
   */
  lemma Crc16IsTheRemainder(data: seq<byte>, r: seq<bool>)
    requires |r| == 16
    ensures var n := 8 * |data|;
            var dividend := XorBits(LineBits(data) + Zeros(16), seq(16, _ => true) + Zeros(n));
            (exists q :: |q| == n && dividend == XorBits(TimesGenerator(q), Zeros(n) + r))
            <==> r == Remainder(Crc16(data))
  {
    hide FeedBits, FeedBit, Remainder, Times, Quotient;
    var bits := LineBits(data);
    var n := 8 * |data|;
    StartIsOnes();
    CrcIsBitSerial(START, data);
    CrcDivides(START, bits);
    assert |Quotient(START, bits)| == n;
    var dividend := XorBits(bits + Zeros(16), seq(16, _ => true) + Zeros(n));
    assert Dividend(START, bits) == dividend;
    if q :| |q| == n && dividend == XorBits(TimesGenerator(q), Zeros(n) + r) {
      RemainderIsUnique(START, bits, q, r);
    }
  }
}
