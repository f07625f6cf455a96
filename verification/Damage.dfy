/** Replies damaged on the line: what the framings catch, what slips through them, and what operations make of it. */
module Damage {
  import opened Bytes
  import opened Replies
  import opened Gf2
  import opened Crc
  import opened CrcBits
  import opened ModbusSession
  import RtuFraming
  import AsciiFraming

  // ----- RTU

  /** The reply that was sent answers the operation, and what arrived instead does not. */
  predicate Slips(op: Op, r: Result<seq<byte>>) {
    r.Ok? && Interpret(op, r.value).Ok?
  }

  lemma InterpretedHead(op: Op, pdu: seq<byte>)
    requires Interpret(op, pdu).Ok?
    ensures |pdu| >= 2 && pdu[0] == (match op case ReadRegisters(_, _) => 0x03 case WriteRegisters(_, _) => 0x10 case _ => 0x05)
    ensures op.ReadRegisters? ==> pdu[1] as int == 2 * (op.count as int) && |pdu| == 2 + pdu[1] as int
    ensures !op.ReadRegisters? ==> |pdu| == 5
  {
  }

  /** What the reader takes for the PDU starts with the second byte of what arrived. */
  lemma DecodedHead(s: seq<byte>, unit: byte)
    requires RtuFraming.Decode(s, unit).0.Ok? && |RtuFraming.Decode(s, unit).0.value| >= 2
    ensures |s| >= 3
    ensures var pdu := RtuFraming.Decode(s, unit).0.value; s[1] == pdu[0] && s[2] == pdu[1]
  {
    hide Crc16;
  }

  /**
   * In RTU mode damage never makes an operation succeed. Whatever a burst of at most sixteen bits, or an odd
   * number of flipped bits, does to the reply to an operation, in any of its bytes, and whatever follows on the
   * line: the exchange fails, or what it returns is refused by the operation.
   */
  lemma RtuDamageNeverSucceeds(op: Op, unit: byte, pdu: seq<byte>, damage: seq<byte>, k: nat, tail: seq<byte>)
    requires WellFormedReply(pdu) && Interpret(op, pdu).Ok? && |damage| == |pdu| + 3
    requires Burst(LineBits(damage), k) || Ones(LineBits(damage)) % 2 == 1
    ensures !Slips(op, RtuFraming.Decode(Damaged(RtuFraming.Frame(unit, pdu), damage) + tail, unit).0)
  {
    hide Burst, LineBits, Ones, Crc16, Interpret, RtuFraming.Decode, WellFormedReply;
    var f := RtuFraming.Frame(unit, pdu);
    var hit := Damaged(f, damage);
    var r := RtuFraming.Decode(hit + tail, unit).0;
    if Slips(op, r) {
      InterpretedHead(op, pdu);
      InterpretedHead(op, r.value);
      DecodedHead(hit + tail, unit);
      RtuFraming.FrameHead(unit, pdu);
      assert hit[1] == pdu[0] && (op.ReadRegisters? ==> hit[2] == pdu[1]);
      RtuFraming.DamagedReplyIsRejected(unit, pdu, damage, k, tail);
    }
  }

  /** The damage that turns byte a at position 2 of a frame of n bytes into b, and nothing else. */
  function CountDamage(n: nat, a: byte, b: byte): (r: seq<byte>)
    requires n >= 3
    ensures |r| == n
  {
    [0, 0, XorByte(a, b)] + Zeros(n - 3)
  }

  lemma CountIsHit(f: seq<byte>, b: byte)
    requires |f| >= 3
    ensures Damaged(f, CountDamage(|f|, f[2], b)) == f[2 := b]
  {
    hide Xor;
    var d := CountDamage(|f|, f[2], b);
    var hit := Damaged(f, d);
    forall i | 0 <= i < |f| ensures hit[i] == f[2 := b][i] {
      if i == 2 {
        XorAssoc(f[2], f[2], b);
        XorSelf(f[2]);
        XorComm(0, b);
        XorZero(b);
      } else {
        SameByte(f[i], 0);
      }
    }
  }

  /** A frame of a reply to a read, followed by anything, is read as that reply. */
  lemma ReadReplyDecodes(unit: byte, c: byte, data: seq<byte>, tail: seq<byte>)
    requires |data| == c as int
    ensures RtuFraming.Decode(RtuFraming.Frame(unit, [0x03, c] + data) + tail, unit) == (Ok([0x03, c] + data), tail)
  {
    hide Crc16;
    RtuFraming.RoundTrip(unit, [0x03, c] + data, tail);
  }

  /**
   * The exchange itself can be deceived. The count byte decides how many bytes are checked, and it is not
   * checked before: for any two different even counts there are registers, and bytes after the reply, with
   * which a reply of one count that arrives with the other in its count byte is accepted.
   */
  lemma CountByteIsUnprotected(unit: byte, c: byte, b: byte) returns (data: seq<byte>, tail: seq<byte>)
    requires c != b && c % 2 == 0 && b % 2 == 0
    ensures |data| == c as int
    ensures var f := RtuFraming.Frame(unit, [0x03, c] + data);
            RtuFraming.Decode(Damaged(f, CountDamage(|f|, c, b)) + tail, unit).0.Ok?
  {
    hide Crc16, RtuFraming.Decode, Damaged, CountDamage;
    if b < c {
      var crc := Little(Crc16([unit, 0x03, b] + Zeros(b)));
      data, tail := Zeros(b) + crc + Zeros(c - b - 2), [];
      var f := RtuFraming.Frame(unit, [0x03, c] + data);
      CountIsHit(f, b);
      var rest := Zeros(c - b - 2) + Little(Crc16([unit] + ([0x03, c] + data)));
      assert [unit, 0x03, b] + Zeros(b) == [unit] + ([0x03, b] + Zeros(b));
      assert f[2 := b] + [] == RtuFraming.Frame(unit, [0x03, b] + Zeros(b)) + rest;
      ReadReplyDecodes(unit, b, Zeros(b), rest);
    } else {
      data := Zeros(c);
      var f := RtuFraming.Frame(unit, [0x03, c] + data);
      var more := data + Little(Crc16([unit] + ([0x03, c] + data))) + Zeros(b - c - 2);
      tail := Zeros(b - c - 2) + Little(Crc16([unit] + ([0x03, b] + more)));
      CountIsHit(f, b);
      assert f[2 := b] + tail == RtuFraming.Frame(unit, [0x03, b] + more) + [];
      ReadReplyDecodes(unit, b, more, []);
    }
  }

  /** One flipped bit is enough: a reply to a read of two registers whose count byte arrives as 0. */
  lemma OneBitDeceives(unit: byte, x: byte, y: byte)
    ensures var f := RtuFraming.Frame(unit, [0x03, 4] + Little(Crc16([unit, 0x03, 0])) + [x, y]);
            && Ones(LineBits(CountDamage(|f|, 4, 0))) == 1
            && RtuFraming.Decode(Damaged(f, CountDamage(|f|, 4, 0)), unit).0 == Ok([0x03, 0])
  {
    hide Crc16, RtuFraming.Decode, Damaged, CountDamage, LineBits, Ones;
    var pdu := [0x03, 4] + Little(Crc16([unit, 0x03, 0])) + [x, y];
    var f := RtuFraming.Frame(unit, pdu);
    CountIsHit(f, 0);
    assert [unit, 0x03, 0] == [unit] + ([0x03, 0] + []);
    var rest := [x, y] + Little(Crc16([unit] + pdu));
    assert f[2 := 0] == RtuFraming.Frame(unit, [0x03, 0] + []) + rest;
    ReadReplyDecodes(unit, 0, [], rest);
    assert [0x03, 0] + [] == [0x03, 0];
    OneBit(|f|);
  }

  lemma {:induction false} OnesOfParts(a: seq<bool>, b: seq<bool>)
    ensures Ones(a + b) == Ones(a) + Ones(b)
  {
    if a == [] {
      assert a + b == b;
    } else {
      assert (a + b)[1..] == a[1..] + b;
      OnesOfParts(a[1..], b);
    }
  }

  lemma OnesOfByte(b: byte, s: seq<byte>)
    ensures Ones(LineBits([b] + s)) == Ones(Bits(b, 8)) + Ones(LineBits(s))
  {
    hide Ones, Bits;
    assert ([b] + s)[1..] == s;
    OnesOfParts(Bits(b, 8), LineBits(s));
  }

  lemma SmallBytes()
    ensures Ones(Bits(0, 8)) == 0 && Ones(Bits(4, 8)) == 1
  {
    assert Bits(0, 4) == [false, false, false, false];
    assert Bits(1, 2) == [true, false];
  }

  lemma {:induction false} NoOnes(n: nat)
    ensures Ones(LineBits(Zeros(n))) == 0
  {
    hide Bits;
    if n > 0 {
      NoOnes(n - 1);
      SmallBytes();
      OnesOfByte(0, Zeros(n - 1));
      assert Zeros(n) == [0] + Zeros(n - 1);
    }
  }

  lemma OneBit(n: nat)
    requires n >= 3
    ensures Ones(LineBits(CountDamage(n, 4, 0))) == 1
  {
    hide Ones, LineBits, Bits, Zeros;
    XorZero(4);
    SmallBytes();
    NoOnes(n - 3);
    OnesOfByte(4, Zeros(n - 3));
    OnesOfByte(0, [4] + Zeros(n - 3));
    OnesOfByte(0, [0] + ([4] + Zeros(n - 3)));
    assert CountDamage(n, 4, 0) == [0] + ([0] + ([4] + Zeros(n - 3)));
  }

  // ----- ASCII

  /** A proper beginning of the reply to an operation does not answer it. */
  lemma PrefixIsRefused(op: Op, pdu: seq<byte>, n: nat)
    requires Interpret(op, pdu).Ok? && n < |pdu|
    ensures Interpret(op, pdu[..n]).Err?
  {
    if Interpret(op, pdu[..n]).Ok? {
      InterpretedHead(op, pdu);
      InterpretedHead(op, pdu[..n]);
    }
  }

  /**
   * In ASCII mode one damaged character never makes an operation succeed wrongly. Any one character of the
   * reply to it, colon, carriage return and newline included, replaced by any byte, and whatever follows on
   * the line: the exchange fails, or gives the PDU that was sent, or one that is refused by the operation.
   */
  lemma AsciiDamageNeverSucceeds(op: Op, unit: byte, pdu: seq<byte>, upper: bool, p: nat, c: byte, tail: seq<byte>)
    requires pdu != [] && |AsciiFraming.Frame(unit, pdu, upper)| <= AsciiFraming.LONGEST_LINE
    requires Interpret(op, pdu).Ok? && p < |AsciiFraming.Frame(unit, pdu, upper)|
    ensures var r := AsciiFraming.Decode(AsciiFraming.Frame(unit, pdu, upper)[p := c] + tail, unit).0;
            Slips(op, r) ==> r.value == pdu
  {
    hide AsciiFraming.Decode, AsciiFraming.HexEncode, AsciiFraming.Sum, Interpret;
    var f := AsciiFraming.Frame(unit, pdu, upper);
    var r := AsciiFraming.Decode(f[p := c] + tail, unit).0;
    if p == |f| - 1 {
      if c == AsciiFraming.NEWLINE {
        AsciiFraming.FrameLine(unit, pdu, upper);
        assert f[p := c] == f;
        AsciiFraming.RoundTrip(unit, pdu, upper, tail);
        AsciiFraming.ClassifyKeeps(pdu);
      } else {
        AsciiFraming.NewlineLost(unit, pdu, upper, c, tail);
      }
    } else if c == AsciiFraming.NEWLINE {
      AsciiFraming.NewlineForCharacter(unit, pdu, upper, p, tail);
      if r.Ok? {
        if p / 2 - 2 < |pdu| {
          PrefixIsRefused(op, pdu, p / 2 - 2);
        } else {
          assert pdu[..|pdu|] == pdu;
        }
      }
    } else {
      AsciiFraming.OneDamagedCharacter(unit, pdu, upper, p, c, tail);
    }
  }

  /** The exchange itself can be deceived here, too: a newline for the tenth character, and half a reply. */
  lemma NewlineDeceives(y: byte, upper: bool, tail: seq<byte>)
    ensures AsciiFraming.Decode(AsciiFraming.Frame(1, [0x03, 2, 250, y], upper)[9 := AsciiFraming.NEWLINE] + tail, 1).0
         == Ok([0x03, 2])
  {
    hide AsciiFraming.Decode;
    var pdu := [0x03, 2, 250, y];
    AsciiFraming.NewlineForCharacter(1, pdu, upper, 9, tail);
    assert AsciiFraming.Raw(1, pdu)[..4] == [1, 0x03, 2, 250];
    AsciiFraming.SumOfParts([1, 0x03], [2, 250]);
    AsciiFraming.SumOfParts([1], [0x03]);
    AsciiFraming.SumOfParts([2], [250]);
    AsciiFraming.SumOfOne(1);
    AsciiFraming.SumOfOne(0x03);
    AsciiFraming.SumOfOne(2);
    AsciiFraming.SumOfOne(250);
    assert [1, 0x03, 2, 250] == [1, 0x03] + [2, 250] && [1, 0x03] == [1] + [0x03] && [2, 250] == [2] + [250];
    assert pdu[..2] == [0x03, 2];
    assert AsciiFraming.Accepts(1, pdu, 4);
  }
}
