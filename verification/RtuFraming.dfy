/** RTU framing: sendRTUFrameLocked and readRTUResponse. */
module RtuFraming {
  import opened Bytes
  import opened Replies
  import opened Gf2
  import opened Crc
  import opened CrcBits

  function Frame(unit: byte, pdu: seq<byte>): (r: seq<byte>)
    ensures |r| == |pdu| + 3
  {
    Sealed([unit] + pdu)
  }

  /** readRTUResponse: the length of a reply follows from its function code, and for reads from its count byte. */
  function ReadReply(s: seq<byte>): (Result<seq<byte>>, seq<byte>) {
    if |s| < 2 then (Err(Io), [])
    else if s[1] >= 0x80 then Fixed(s, 5)
    else if s[1] in {0x01, 0x02, 0x03, 0x04} then
      if |s| < 3 then (Err(Io), []) else Fixed(s, 5 + s[2] as int)
    else if s[1] in {0x05, 0x06, 0x0F, 0x10} then Fixed(s, 8)
    else (Err(UnsupportedFunction), s[2..])
  }

  function Fixed(s: seq<byte>, n: nat): (Result<seq<byte>>, seq<byte>) {
    if |s| < n then (Err(Io), []) else (Ok(s[..n]), s[n..])
  }

  function Check(frame: seq<byte>, unit: byte): Result<seq<byte>> {
    if |frame| < 4 then Err(BadLength)
    else if frame[0] != unit then Err(UnitMismatch)
    else if !Intact(frame) then Err(BadChecksum)
    else Classify(frame[1..|frame| - 2])
  }

  function Decode(s: seq<byte>, unit: byte): (Result<seq<byte>>, seq<byte>) {
    var (r, rest) := ReadReply(s);
    match r
    case Ok(frame) => (Check(frame, unit), rest)
    case Err(e) => (Err(e), rest)
  }

  lemma FrameHead(unit: byte, pdu: seq<byte>)
    requires |pdu| >= 2
    ensures Frame(unit, pdu)[0] == unit && Frame(unit, pdu)[1] == pdu[0] && Frame(unit, pdu)[2] == pdu[1]
  {
  }

  /** The reader takes exactly one frame off the stream. */
  lemma ReadsOneFrame(unit: byte, pdu: seq<byte>, tail: seq<byte>)
    requires WellFormedReply(pdu)
    ensures ReadReply(Frame(unit, pdu) + tail) == (Ok(Frame(unit, pdu)), tail)
  {
    var f := Frame(unit, pdu);
    FrameHead(unit, pdu);
    assert (f + tail)[..|f|] == f && (f + tail)[|f|..] == tail;
  }

  lemma RoundTrip(unit: byte, pdu: seq<byte>, tail: seq<byte>)
    requires WellFormedReply(pdu)
    ensures Decode(Frame(unit, pdu) + tail, unit) == (Classify(pdu), tail)
  {
    ReadsOneFrame(unit, pdu, tail);
    SealedIsIntact([unit] + pdu);
    assert Frame(unit, pdu)[1..|pdu| + 1] == pdu;
  }

  /**
   * Nothing else is accepted: what is taken for the PDU is a well-formed reply and no exception, and stood on
   * the stream in a frame of this unit with the right checksum.
   */
  lemma AcceptsOnlyOwn(s: seq<byte>, unit: byte, pdu: seq<byte>, tail: seq<byte>)
    ensures Decode(s, unit) == (Ok(pdu), tail) <==>
      && WellFormedReply(pdu) && Classify(pdu).Ok?
      && s == [unit] + pdu + [Crc16([unit] + pdu) % 256, Crc16([unit] + pdu) / 256] + tail
  {
    hide Crc16;
    if Decode(s, unit) == (Ok(pdu), tail) {
      var frame := ReadReply(s).0.value;
      var n := |frame|;
      assert s == frame + tail;
      assert frame[..n - 2] == [unit] + pdu;
      assert frame[n - 2..] == [frame[n - 2], frame[n - 1]];
      assert frame == frame[..n - 2] + frame[n - 2..];
      LittleOf(Crc16([unit] + pdu), frame[n - 2], frame[n - 1]);
    } else if WellFormedReply(pdu) {
      RoundTrip(unit, pdu, tail);
    }
  }

  lemma LittleOf(w: uint16, low: byte, high: byte)
    ensures w == FromLittle([low, high]) <==> low == w % 256 && high == w / 256
  {
  }

  /** Every error has its cause: an unknown function, a missing byte, the unit, the checksum, an exception. */
  lemma EachErrorHasItsCause(s: seq<byte>, unit: byte, n: nat)
    requires |s| >= 3
    requires n == if s[1] >= 128 then 5
                  else if 1 <= s[1] <= 4 then 5 + s[2] as int
                  else if s[1] in {5, 6, 15, 16} then 8 else 2
    ensures var (r, rest) := Decode(s, unit);
            if n == 2 then r == Err(UnsupportedFunction) && rest == s[2..]
            else if |s| < n then r == Err(Io) && rest == []
            else
              && rest == s[n..]
              && r == if s[0] != unit then Err(UnitMismatch)
                      else if Crc16(s[..n - 2]) as int != s[n - 2] as int + 256 * s[n - 1] as int then Err(BadChecksum)
                      else if s[1] >= 128 then Err(Exception(s[2]))
                      else Ok(s[1..n - 2])
  {
    hide Crc16;
    if 2 < n <= |s| {
      var f := s[..n];
      assert f[..n - 2] == s[..n - 2] && f[n - 2..] == [s[n - 2], s[n - 1]] && f[1..n - 2] == s[1..n - 2];
      var p := s[1..n - 2];
      assert p[0] == s[1] && (|p| >= 2 ==> p[1] == s[2]);
    }
  }

  lemma CutShort(unit: byte, pdu: seq<byte>, n: nat)
    requires WellFormedReply(pdu) && n < |Frame(unit, pdu)|
    ensures Decode(Frame(unit, pdu)[..n], unit) == (Err(Io), [])
  {
    FrameHead(unit, pdu);
  }

  function FramesOf(unit: byte, pdus: seq<seq<byte>>): seq<byte> {
    if pdus == [] then [] else Frame(unit, pdus[0]) + FramesOf(unit, pdus[1..])
  }

  function Framed(unit: byte, pdus: seq<seq<byte>>): seq<seq<byte>> {
    seq(|pdus|, k requires 0 <= k < |pdus| => Frame(unit, pdus[k]))
  }

  /** n replies read one after the other, with what is left; the first failure ends it. */
  function ReadReplies(s: seq<byte>, n: nat): (Result<seq<seq<byte>>>, seq<byte>) {
    if n == 0 then (Ok([]), s)
    else
      var (first, rest) := ReadReply(s);
      match first
      case Err(e) => (Err(e), rest)
      case Ok(frame) =>
        var (more, tail) := ReadReplies(rest, n - 1);
        (match more case Err(e) => Err(e) case Ok(fs) => Ok([frame] + fs), tail)
  }

  /** RTU replies are self-delimiting: a run of them is read back frame by frame, whatever follows. */
  lemma {:induction false} RepliesAreSelfDelimiting(unit: byte, pdus: seq<seq<byte>>, tail: seq<byte>)
    requires forall k :: 0 <= k < |pdus| ==> WellFormedReply(pdus[k])
    ensures ReadReplies(FramesOf(unit, pdus) + tail, |pdus|)
         == (Ok(Framed(unit, pdus)), tail)
    decreases |pdus|
  {
    if pdus == [] {
      assert FramesOf(unit, pdus) + tail == tail;
    } else {
      var more := FramesOf(unit, pdus[1..]) + tail;
      assert FramesOf(unit, pdus) + tail == Frame(unit, pdus[0]) + more;
      ReadsOneFrame(unit, pdus[0], more);
      RepliesAreSelfDelimiting(unit, pdus[1..], tail);
      assert [Frame(unit, pdus[0])] + Framed(unit, pdus[1..]) == Framed(unit, pdus);
    }
  }

  /** Consequently no reply frame is the beginning of another one. */
  lemma PrefixFree(unit: byte, p: seq<byte>, other: byte, q: seq<byte>)
    requires WellFormedReply(p) && WellFormedReply(q)
    requires Frame(unit, p) <= Frame(other, q)
    ensures unit == other && p == q
  {
    var f, g := Frame(unit, p), Frame(other, q);
    ReadsOneFrame(unit, p, g[|f|..]);
    ReadsOneFrame(other, q, []);
    assert g == f + g[|f|..] && g + [] == g;
    assert f[..|f| - 2] == [unit] + p && g[..|g| - 2] == [other] + q;
    assert ([unit] + p)[1..] == p && ([other] + q)[1..] == q;
  }

  /** How long a reply is that starts with these three bytes; nothing for an unknown function. */
  function ReplyLength(s: seq<byte>): Option<nat>
    requires |s| >= 3
  {
    if s[1] >= 0x80 then Some(5)
    else if s[1] in {0x01, 0x02, 0x03, 0x04} then Some(5 + s[2] as int)
    else if s[1] in {0x05, 0x06, 0x0F, 0x10} then Some(8)
    else None
  }

  lemma TakesAsLong(s: seq<byte>, tail: seq<byte>)
    requires |s| >= 3 && ReplyLength(s) == Some(|s|)
    ensures ReadReply(s + tail) == (Ok(s), tail)
  {
    assert (s + tail)[..|s|] == s && (s + tail)[|s|..] == tail;
  }

  lemma FrameIsIntact(unit: byte, pdu: seq<byte>)
    ensures Intact(Frame(unit, pdu))
  {
    SealedIsIntact([unit] + pdu);
  }

  /**
   * Damage that leaves the length of a reply alone: the reader takes the same number of bytes and refuses
   * them, whenever the damage is a burst of at most sixteen bits or hits an odd number of bits.
   */
  lemma DamagedReplyIsRejected(unit: byte, pdu: seq<byte>, damage: seq<byte>, k: nat, tail: seq<byte>)
    requires WellFormedReply(pdu) && |damage| == |pdu| + 3
    requires ReplyLength(Damaged(Frame(unit, pdu), damage)) == Some(|pdu| + 3)
    requires Burst(LineBits(damage), k) || Ones(LineBits(damage)) % 2 == 1
    ensures var hit := Damaged(Frame(unit, pdu), damage);
            Decode(hit + tail, unit) == (Err(if hit[0] != unit then UnitMismatch else BadChecksum), tail)
  {
    hide Burst, LineBits, Ones, Intact, Damaged, Frame, ReadReply, ReplyLength, Classify;
    var f := Frame(unit, pdu);
    var hit := Damaged(f, damage);
    TakesAsLong(hit, tail);
    FrameIsIntact(unit, pdu);
    if Burst(LineBits(damage), k) {
      BurstIsCaught(f, damage, k);
    } else {
      OddDamageIsCaught(f, damage);
    }
  }

  /** The client asks for nothing beyond these bytes: a whole reply, or one of a function it does not know. */
  predicate Complete(got: seq<byte>) {
    && |got| >= 2
    && (if got[1] >= 0x80 then |got| == 5
        else if got[1] in {0x01, 0x02, 0x03, 0x04} then |got| >= 3 && |got| == 5 + got[2] as int
        else got[1] !in {0x05, 0x06, 0x0F, 0x10} || |got| == 8)
  }

  /** The client reads up to the first point at which what it has is complete, and judges that. */
  lemma DecodeTakesShortest(s: seq<byte>, n: nat, unit: byte)
    requires n <= |s| && Complete(s[..n])
    requires forall k :: 0 <= k < n ==> !Complete(s[..k])
    ensures Decode(s, unit) == (Decode(s[..n], unit).0, s[n..])
  {
    hide Check;
    var t := s[..n];
    assert t[1] == s[1] && (n >= 3 ==> t[2] == s[2]);
    assert n > 2 ==> !Complete(s[..2]);
    assert t[..n] == t;
  }
}
