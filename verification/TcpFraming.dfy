/** MBAP framing: sendTCPFrameLocked. */
module TcpFraming {
  import opened Bytes
  import opened Replies

  function Frame(tid: uint16, unit: byte, pdu: seq<byte>): seq<byte> {
    Big(tid) + [0, 0] + Big(Wrap16(|pdu| + 1)) + [unit] + pdu
  }

  /** What the client makes of a byte stream, and what it leaves unread. */
  function Decode(s: seq<byte>, tid: uint16, unit: byte): (Result<seq<byte>>, seq<byte>) {
    match Take(s, 7)
    case None => (Err(Io), [])
    case Some(head) =>
      var rest := Rest(s, 7);
      if FromBig(head[0..2]) != tid then (Err(TransactionMismatch), rest)
      else if head[6] != unit then (Err(UnitMismatch), rest)
      else
        var length := FromBig(head[4..6]) as int - 1;
        if length <= 0 then (Err(BadLength), rest)
        else match Take(rest, length)
             case None => (Err(Io), [])
             case Some(pdu) => (Classify(pdu), Rest(rest, length))
  }

  /** What a frame starts with, whatever part of it is there. */
  lemma HeaderFields(tid: uint16, unit: byte, pdu: seq<byte>, got: seq<byte>)
    requires |got| >= 7 && got <= Frame(tid, unit, pdu)
    ensures got[0..2] == Big(tid) && got[4..6] == Big(Wrap16(|pdu| + 1)) && got[6] == unit
  {
    hide Big;
    var a, b := Big(tid), Big(Wrap16(|pdu| + 1));
    var f := Frame(tid, unit, pdu);
    assert f[0] == a[0] && f[1] == a[1] && f[4] == b[0] && f[5] == b[1] && f[6] == unit;
    assert got[0..2] == [f[0], f[1]] && got[4..6] == [f[4], f[5]];
  }

  /** A frame holds exactly one PDU: it comes back whole, and what follows the frame stays unread. */
  lemma RoundTrip(tid: uint16, unit: byte, pdu: seq<byte>, tail: seq<byte>)
    requires 1 <= |pdu| <= 65534
    ensures Decode(Frame(tid, unit, pdu) + tail, tid, unit) == (Classify(pdu), tail)
  {
    var s := Frame(tid, unit, pdu) + tail;
    assert s == Big(tid) + [0, 0] + Big(|pdu| + 1) + [unit] + (pdu + tail);
    assert s[..7][0..2] == Big(tid) && s[..7][4..6] == Big(|pdu| + 1) && s[7..] == pdu + tail;
    assert (pdu + tail)[..|pdu|] == pdu && (pdu + tail)[|pdu|..] == tail;
  }

  /** A frame cut short anywhere is never taken for a reply. */
  lemma CutShort(tid: uint16, unit: byte, pdu: seq<byte>, n: nat)
    requires 1 <= |pdu| <= 65534 && n < |Frame(tid, unit, pdu)|
    ensures Decode(Frame(tid, unit, pdu)[..n], tid, unit) == (Err(Io), [])
  {
    hide Big, FromBig;
    var f := Frame(tid, unit, pdu);
    if n >= 7 {
      var s := f[..n];
      assert s[..7] == f[..7];
      assert f[..7][0..2] == Big(tid) && f[..7][4..6] == Big(|pdu| + 1);
      BigRoundTrip(tid);
      BigRoundTrip(|pdu| + 1);
    }
  }

  /**
   * Nothing else is accepted: what is taken for the PDU stood behind a header with this transaction, its own
   * length and this unit, whatever the protocol id, and is no exception.
   */
  lemma AcceptsOnlyOwn(s: seq<byte>, tid: uint16, unit: byte, pdu: seq<byte>, tail: seq<byte>)
    ensures Decode(s, tid, unit) == (Ok(pdu), tail) <==>
      && |s| >= 8 && pdu != [] && s[7..] == pdu + tail && Classify(pdu).Ok?
      && (s[0] as int) * 256 + s[1] as int == tid as int
      && (s[4] as int) * 256 + s[5] as int == |pdu| + 1
      && s[6] == unit
  {
    if |s| >= 7 {
      assert s[..7][0..2] == [s[0], s[1]] && s[..7][4..6] == [s[4], s[5]];
      var n := FromBig(s[..7][4..6]) as int - 1;
      if 0 < n <= |s| - 7 {
        assert s[7..] == s[7..][..n] + s[7..][n..];
      }
      if s[7..] == pdu + tail && n == |pdu| {
        assert s[7..][..n] == pdu && s[7..][n..] == tail;
      }
    }
  }

  /** Every error has its cause, looked for in this order: nothing, transaction, unit, length, body, exception. */
  lemma EachErrorHasItsCause(s: seq<byte>, tid: uint16, unit: byte)
    ensures |s| < 7 ==> Decode(s, tid, unit) == (Err(Io), [])
    ensures |s| >= 7 ==>
      var (r, rest) := Decode(s, tid, unit);
      var n := 256 * s[4] as int + s[5] as int - 1;
      if 256 * s[0] as int + s[1] as int != tid as int then r == Err(TransactionMismatch) && rest == s[7..]
      else if s[6] != unit then r == Err(UnitMismatch) && rest == s[7..]
      else if n <= 0 then r == Err(BadLength) && rest == s[7..]
      else if |s| < 7 + n then r == Err(Io) && rest == []
      else rest == s[7 + n..] && r == if n >= 2 && s[7] >= 128 then Err(Exception(s[8])) else Ok(s[7..7 + n])
  {
    if |s| >= 7 {
      assert s[..7][0..2] == [s[0], s[1]] && s[..7][4..6] == [s[4], s[5]];
      var n := 256 * s[4] as int + s[5] as int - 1;
      if 0 < n <= |s| - 7 {
        assert s[7..][..n] == s[7..7 + n] && s[7..][n..] == s[7 + n..];
      }
    }
  }

  /** The length field is 16 bits wide: it tells the truth exactly up to 65534 bytes of PDU. */
  lemma LengthFieldWraps(tid: uint16, unit: byte, pdu: seq<byte>)
    ensures FromBig(Frame(tid, unit, pdu)[4..6]) as int == |pdu| + 1 <==> |pdu| <= 65534
  {
    assert Frame(tid, unit, pdu)[4..6] == Big(Wrap16(|pdu| + 1));
  }

  /** The client asks for nothing beyond these bytes: a bad header, or a whole frame. */
  predicate Complete(got: seq<byte>, tid: uint16, unit: byte) {
    && |got| >= 7
    && (|| FromBig(got[0..2]) != tid || got[6] != unit || FromBig(got[4..6]) <= 1
        || |got| == 6 + FromBig(got[4..6]) as int)
  }

  /** The client reads up to the first point at which what it has is complete, and judges that. */
  lemma DecodeTakesShortest(s: seq<byte>, n: nat, tid: uint16, unit: byte)
    requires n <= |s| && Complete(s[..n], tid, unit)
    requires forall k :: 0 <= k < n ==> !Complete(s[..k], tid, unit)
    ensures Decode(s, tid, unit) == (Decode(s[..n], tid, unit).0, s[n..])
  {
    SameHead(s, s[..n]);
    SameHead(s, s[..7]);
    assert s[..n][..7] == s[..7] == s[..7][..7];
    if n > 7 {
      assert !Complete(s[..7], tid, unit);
      assert s[7..][..n - 7] == s[7..n] == s[..n][7..];
      assert s[..n][7..][..n - 7] == s[..n][7..];
      assert s[7..][n - 7..] == s[n..];
    }
  }

  lemma SameHead(s: seq<byte>, t: seq<byte>)
    requires |s| >= 7 && |t| >= 7 && s[..7] == t[..7]
    ensures s[0..2] == t[0..2] == s[..7][0..2] && s[4..6] == t[4..6] == s[..7][4..6] && s[6] == t[6] == s[..7][6]
  {
    SliceOfPrefix(s, 7, 0, 2);
    SliceOfPrefix(t, 7, 0, 2);
    SliceOfPrefix(s, 7, 4, 6);
    SliceOfPrefix(t, 7, 4, 6);
    assert s[6] == s[..7][6] && t[6] == t[..7][6];
  }
}
