/** The Allen-Bradley command frames: layout, construction in place, and the peer's offset parser. */
module AllenBradleyFrames {
  import opened Bytes
  import opened WhiteSpace

  /** The 24 bytes of the encapsulation header; `content` is what follows it. */
  function Encapsulation(content: nat, session: uint32): (r: seq<byte>)
    ensures |r| == 24
  {
    [0x6F, 0x00] + Little(Wrap16(content)) + Little32(session) + Zeros(16)
  }

  /** The 26 bytes before the service: item list, item length, unconnected send, embedded message length. */
  function Routing(item: nat, message: nat): (r: seq<byte>)
    ensures |r| == 26
  {
    Zeros(4) + [0x01, 0x00, 0x02] + Zeros(5) + [0xB2] + Zeros(1) + Little(Wrap16(item))
    + [0x52, 0x02, 0x20, 0x06, 0x24, 0x01, 0x0A, 0xF0] + Little(Wrap16(message))
  }

  /** Service code, path length in words, and the symbolic path; lengths are cut to a byte. */
  function Path(service: byte, tag: seq<byte>): (r: seq<byte>)
    ensures |r| == 4 + |Padded(tag)|
  {
    [service, (|Padded(tag)| + 2) / 2 % 256, 0x91, |tag| % 256] + Padded(tag)
  }

  function Slot(slot: byte): seq<byte> {
    [0x01, 0x00, 0x01, slot]
  }

  const READ: byte := 0x4C
  const WRITE: byte := 0x4D

  function ReadCommand(session: uint32, slot: byte, tag: seq<byte>, length: uint16): seq<byte> {
    var a := |Padded(tag)|;
    Encapsulation(36 + a, session) + Routing(20 + a, 6 + a) + Path(READ, tag) + Little(length) + Slot(slot)
  }

  function WriteCommand(
    session: uint32, slot: byte, tag: seq<byte>, typeCode: uint16, data: seq<byte>, count: uint16): seq<byte>
  {
    var n := |Padded(tag)| + |data|;
    Encapsulation(38 + n, session) + Routing(22 + n, 8 + n)
    + Path(WRITE, tag) + Little(typeCode) + Little(count) + data + Slot(slot)
  }

  // ----- construction in place

  /**
   * Stores s at offset `at` of a buffer that so far holds `done` and zeros. The result says what it holds then.
   */
  method Put(out: array<byte>, at: nat, s: seq<byte>, ghost done: seq<byte>) returns (ghost done': seq<byte>)
    requires |done| <= at && at + |s| <= out.Length
    requires out[..] == done + Zeros(out.Length - |done|)
    modifies out
    ensures done' == done + Zeros(at - |done|) + s
    ensures out[..] == done' + Zeros(out.Length - |done'|)
  {
    ghost var n := out.Length;
    forall i | 0 <= i < |s| {
      out[at + i] := s[i];
    }
    done' := done + Zeros(at - |done|) + s;
    assert out[..] == done' + Zeros(n - |done'|) by {
      forall i | 0 <= i < n ensures out[i] == (done' + Zeros(n - |done'|))[i] {
        assert i < at || i >= at + |s| ==> old(out[..])[i] == (done + Zeros(n - |done|))[i];
      }
    }
  }

  lemma ZerosJoin(n: nat, m: nat)
    ensures Zeros(n) + Zeros(m) == Zeros(n + m)
  {
  }

  method PutEncapsulation(out: array<byte>, session: uint32) returns (ghost done: seq<byte>)
    requires out.Length >= 50 && out[..] == Zeros(out.Length)
    modifies out
    ensures done == Encapsulation(out.Length - 24, session) + Zeros(4)
    ensures out[..] == done + Zeros(out.Length - 28)
  {
    hide Little, Little32, Zeros;
    assert [] + Zeros(out.Length) == Zeros(out.Length);
    done := Put(out, 0, [0x6F, 0x00], []);
    done := Put(out, 2, Little(Wrap16(out.Length - 24)), done);
    done := Put(out, 4, Little32(session), done);
    done := Put(out, 24 + 4, [], done);
    ZerosJoin(16, 4);
    assert done == [0x6F, 0x00] + Little(Wrap16(out.Length - 24)) + Little32(session) + Zeros(20);
  }

  method PutRouting(out: array<byte>, message: nat, ghost e: seq<byte>) returns (ghost done: seq<byte>)
    requires out.Length >= 50 && |e| == 24 && out[..] == e + Zeros(4) + Zeros(out.Length - 28)
    modifies out
    ensures done == e + Routing(out.Length - 40, message)
    ensures out[..] == done + Zeros(out.Length - 50)
  {
    hide Little, Zeros;
    done := Append(out, 24 + 4, [0x01, 0x00, 0x02], e + Zeros(4));
    ghost var r := Zeros(4) + [0x01, 0x00, 0x02];
    assert done == e + r;
    done := Put(out, 24 + 12, [0xB2], done);
    r := Extended(e, r, Zeros(5), [0xB2]);
    done := Put(out, 24 + 14, Little(Wrap16(out.Length - 40)), done);
    r := Extended(e, r, Zeros(1), Little(Wrap16(out.Length - 40)));
    done := Append(out, 24 + 16, [0x52, 0x02, 0x20, 0x06, 0x24, 0x01, 0x0A, 0xF0], done);
    done := Append(out, 24 + 24, Little(Wrap16(message)), done);
    r := Extended(e, r, [0x52, 0x02, 0x20, 0x06, 0x24, 0x01, 0x0A, 0xF0], Little(Wrap16(message)));
  }

  lemma Extended(e: seq<byte>, r: seq<byte>, gap: seq<byte>, s: seq<byte>) returns (r': seq<byte>)
    ensures r' == r + gap + s && e + r + gap + s == e + r'
  {
    r' := r + gap + s;
    assert e + r + gap + s == e + r';
  }

  method NewBuffer(n: nat) returns (out: array<byte>)
    ensures fresh(out) && out.Length == n && out[..] == Zeros(n)
  {
    out := new byte[n](_ => 0);
  }

  /** Put where nothing is skipped. */
  method Append(out: array<byte>, at: nat, s: seq<byte>, ghost done: seq<byte>) returns (ghost done': seq<byte>)
    requires |done| == at && at + |s| <= out.Length
    requires out[..] == done + Zeros(out.Length - |done|)
    modifies out
    ensures done' == done + s
    ensures out[..] == done' + Zeros(out.Length - |done'|)
  {
    done' := Put(out, at, s, done);
  }

  method PutPath(out: array<byte>, service: byte, tag: seq<byte>, ghost done: seq<byte>)
    returns (ghost done': seq<byte>)
    requires |done| == 50 && 54 + |Padded(tag)| <= out.Length
    requires out[..] == done + Zeros(out.Length - |done|)
    modifies out
    ensures done' == done + Path(service, tag)
    ensures out[..] == done' + Zeros(out.Length - |done'|)
  {
    hide Zeros;
    var addrAligned := if |tag| % 2 != 0 then tag + [0x00] else tag;
    var head: seq<byte> := [service, (|addrAligned| + 2) / 2 % 256, 0x91, |tag| % 256];
    done' := Append(out, 50, head, done);
    done' := Append(out, 54, addrAligned, done');
    assert done' == done + (head + addrAligned);
  }

  method PutSlot(out: array<byte>, at: nat, slot: byte, ghost done: seq<byte>) returns (ghost done': seq<byte>)
    requires |done| == at && out.Length == at + 4
    requires out[..] == done + Zeros(out.Length - |done|)
    modifies out
    ensures out[..] == done' == done + Slot(slot)
  {
    done' := Put(out, at, [0x01], done);
    done' := Put(out, at + 2, [0x01], done');
    done' := Put(out, at + 3, [slot], done');
  }

  method BuildReadCommand(session: uint32, slot: byte, tag: seq<byte>, length: uint16) returns (cmd: seq<byte>)
    ensures cmd == ReadCommand(session, slot, tag, length)
  {
    hide Encapsulation, Routing, Path, Padded, Slot, Zeros, Little;
    var a := |Padded(tag)|;
    var out := NewBuffer(9 + 26 + a + 1 + 24);
    ghost var done := PutEncapsulation(out, session);
    done := PutRouting(out, 6 + a, Encapsulation(36 + a, session));
    var svc := 24 + 26;
    done := PutPath(out, READ, tag, done);
    done := Append(out, svc + 4 + a, Little(length), done);
    done := PutSlot(out, svc + 6 + a, slot, done);
    cmd := out[..];
  }

  method BuildWriteCommand(
    session: uint32, slot: byte, tag: seq<byte>, typeCode: uint16, data: seq<byte>, count: uint16)
    returns (cmd: seq<byte>)
    ensures cmd == WriteCommand(session, slot, tag, typeCode, data, count)
  {
    hide Encapsulation, Routing, Path, Padded, Slot, Zeros, Little;
    var a, d := |Padded(tag)|, |data|;
    var out := NewBuffer(8 + 26 + a + d + 4 + 24);
    ghost var done := PutEncapsulation(out, session);
    done := PutRouting(out, 8 + d + a, Encapsulation(38 + a + d, session));
    var svc := 24 + 26;
    done := PutPath(out, WRITE, tag, done);
    done := Append(out, svc + 4 + a, Little(typeCode), done);
    done := Append(out, svc + 6 + a, Little(count), done);
    done := Append(out, svc + 8 + a, data, done);
    done := PutSlot(out, svc + 8 + a + d, slot, done);
    cmd := out[..];
  }

  // ----- the peer

  datatype Command =
    | Reading(session: uint32, tag: seq<byte>, length: uint16, slot: byte)
    | Writing(session: uint32, tag: seq<byte>, typeCode: uint16, count: uint16, data: seq<byte>, slot: byte)

  /** The peer takes 24 bytes and as many more as the length field says. */
  function TakeFrame(s: seq<byte>): Option<seq<byte>> {
    if |s| < 24 then None
    else
      var n := 24 + FromLittle(s[2..4]) as int;
      if |s| < n then None else Some(s[..n])
  }

  /** The offsets of the test server, which also give the fields it does not look at; None where it would fail. */
  function Parse(full: seq<byte>): Option<Command> {
    if |full| < 54 then None
    else
      var tagLength := full[53] as int;
      var field := 52 + 2 * (full[51] as int);
      var session := FromLittle32(full[4..8]);
      if |full| < 54 + tagLength || |full| < field + 4 then None
      else if full[50] == WRITE then
        var from, to := field + 4, |full| - 4;
        Some(Writing(session, full[54..54 + tagLength], FromLittle(full[field..field + 2]),
                     FromLittle(full[field + 2..field + 4]), if to < from then [] else full[from..to],
                     full[|full| - 1]))
      else
        Some(Reading(session, full[54..54 + tagLength], FromLittle(full[field..field + 2]), full[|full| - 1]))
  }

  function Receive(s: seq<byte>): Option<Command> {
    match TakeFrame(s)
    case None => None
    case Some(full) => Parse(full)
  }

  lemma EncapsulationFields(content: nat, session: uint32)
    ensures Encapsulation(content, session)[2..4] == Little(Wrap16(content))
    ensures Encapsulation(content, session)[4..8] == Little32(session)
  {
  }

  lemma RoutingFields(item: nat, message: nat)
    ensures Routing(item, message)[14..16] == Little(Wrap16(item))
    ensures Routing(item, message)[24..26] == Little(Wrap16(message))
  {
  }

  /** Where the fields of the two headers lie. */
  lemma HeaderOffsets(e: seq<byte>, r: seq<byte>, rest: seq<byte>)
    requires |e| == 24 && |r| == 26
    ensures var s := e + r + rest;
            && s[2..4] == e[2..4] && s[4..8] == e[4..8]
            && s[38..40] == r[14..16] && s[48..50] == r[24..26] && s[50..] == rest
  {
  }

  /** Where the fields of the path lie, and what follows it. */
  lemma PathOffsets(s: seq<byte>, p: seq<byte>, tag: seq<byte>, rest: seq<byte>)
    requires |s| >= 50 && s[50..] == p + rest && |p| >= 4 + |tag| && p[4..4 + |tag|] == tag
    ensures s[50] == p[0] && s[51] == p[1] && s[53] == p[3] && s[54..54 + |tag|] == tag
    ensures |s| == 50 + |p| + |rest| && s[50 + |p|..] == rest
  {
    var u := s[50..];
    assert forall i :: 0 <= i < |u| ==> s[50 + i] == u[i];
  }

  lemma FieldAt(s: seq<byte>, n: nat, i: nat, j: nat)
    requires n <= |s| && i <= j <= |s| - n
    ensures s[n + i..n + j] == s[n..][i..j]
  {
  }

  lemma PathFields(service: byte, tag: seq<byte>)
    ensures var p := Path(service, tag);
            && p[0] == service && p[3] as int == |tag| % 256 && p[4..4 + |tag|] == tag
            && (|tag| <= 255 ==> 2 * (p[1] as int) == |Padded(tag)| + 2)
  {
    PaddedPrefix(tag);
    hide Padded;
    var p := Path(service, tag);
    assert p[4..] == Padded(tag);
    assert p[4..4 + |tag|] == p[4..][..|tag|];
  }

  lemma PaddedPrefix(tag: seq<byte>)
    ensures Padded(tag)[..|tag|] == tag
  {
  }

  function ReadFields(slot: byte, length: uint16): seq<byte> {
    Little(length) + Slot(slot)
  }

  function WriteFields(slot: byte, typeCode: uint16, count: uint16, data: seq<byte>): seq<byte> {
    Little(typeCode) + Little(count) + data + Slot(slot)
  }

  /** The frame and each of the two lengths inside it say where the frame, the item and the message end. */
  lemma LengthsAgree(session: uint32, slot: byte, tag: seq<byte>, typeCode: uint16, data: seq<byte>, count: uint16)
    ensures var s := WriteCommand(session, slot, tag, typeCode, data, count);
            38 + |Padded(tag)| + |data| <= 65535 ==>
            && 24 + FromLittle(s[2..4]) as int == |s|
            && 40 + FromLittle(s[38..40]) as int == |s|
            && 50 + FromLittle(s[48..50]) as int + |Slot(slot)| == |s|
            && TakeFrame(s) == Some(s)
    ensures var s := WriteCommand(session, slot, tag, typeCode, data, count);
            && |s| == 62 + |Padded(tag)| + |data|
            && s[50..] == Path(WRITE, tag) + WriteFields(slot, typeCode, count, data)
            && s[4..8] == Little32(session) && s[2..4] == Little(Wrap16(38 + |Padded(tag)| + |data|))
  {
    hide Path, Encapsulation, Routing, Padded, Little32, Little, FromLittle;
    var n := |Padded(tag)| + |data|;
    var e, r := Encapsulation(38 + n, session), Routing(22 + n, 8 + n);
    var s := WriteCommand(session, slot, tag, typeCode, data, count);
    var rest := Path(WRITE, tag) + WriteFields(slot, typeCode, count, data);
    assert s == e + r + rest;
    HeaderOffsets(e, r, rest);
    EncapsulationFields(38 + n, session);
    LittleRoundTrip(Wrap16(38 + n));
    LittleRoundTrip(Wrap16(22 + n));
    LittleRoundTrip(Wrap16(8 + n));
    RoutingFields(22 + n, 8 + n);
    assert s[..|s|] == s;
  }

  lemma ReadLengthsAgree(session: uint32, slot: byte, tag: seq<byte>, length: uint16)
    requires 36 + |Padded(tag)| <= 65535
    ensures var s := ReadCommand(session, slot, tag, length);
            && 24 + FromLittle(s[2..4]) as int == |s|
            && 40 + FromLittle(s[38..40]) as int == |s|
            && 50 + FromLittle(s[48..50]) as int + |Slot(slot)| == |s|
            && TakeFrame(s) == Some(s)
    ensures var s := ReadCommand(session, slot, tag, length);
            && |s| == 60 + |Padded(tag)|
            && s[50..] == Path(READ, tag) + ReadFields(slot, length)
            && s[4..8] == Little32(session)
  {
    hide Path, Encapsulation, Routing, Padded, Little32, Little, FromLittle;
    var n := |Padded(tag)|;
    var e, r := Encapsulation(36 + n, session), Routing(20 + n, 6 + n);
    var s := ReadCommand(session, slot, tag, length);
    var rest := Path(READ, tag) + ReadFields(slot, length);
    assert s == e + r + rest;
    HeaderOffsets(e, r, rest);
    EncapsulationFields(36 + n, session);
    LittleRoundTrip(Wrap16(36 + n));
    LittleRoundTrip(Wrap16(20 + n));
    LittleRoundTrip(Wrap16(6 + n));
    RoutingFields(20 + n, 6 + n);
    assert s[..|s|] == s;
  }

  lemma ReadInvertsWhenItFits(session: uint32, slot: byte, tag: seq<byte>, length: uint16)
    requires 1 <= |tag| <= 255
    ensures Receive(ReadCommand(session, slot, tag, length)) == Some(Reading(session, tag, length, slot))
  {
    hide ReadCommand, Little32, FromLittle32, Path, Padded, Little, FromLittle;
    LittleRoundTrip(length);
    ReadLengthsAgree(session, slot, tag, length);
    var a := |Padded(tag)|;
    var p, rest := Path(READ, tag), ReadFields(slot, length);
    var s := ReadCommand(session, slot, tag, length);
    PathFields(READ, tag);
    PathOffsets(s, p, tag, rest);
    FieldAt(s, 54 + a, 0, 2);
    assert rest[0..2] == Little(length);
    assert s[|s| - 1] == s[54 + a..][5];
    Little32RoundTrip(session);
  }

  lemma ReceivedTagIsShort(s: seq<byte>)
    ensures Receive(s).Some? ==> |Receive(s).value.tag| <= 255
  {
  }

  /** A read command is understood exactly when the tag's length fits its byte. */
  lemma ReadInverts(session: uint32, slot: byte, tag: seq<byte>, length: uint16)
    requires tag != []
    ensures Receive(ReadCommand(session, slot, tag, length)) == Some(Reading(session, tag, length, slot))
        <==> |tag| <= 255
  {
    hide ReadCommand, Receive;
    ReceivedTagIsShort(ReadCommand(session, slot, tag, length));
    if |tag| <= 255 {
      ReadInvertsWhenItFits(session, slot, tag, length);
    }
  }

  /** validateAllenTag: what is measured is the tag without the white space around it. */
  predicate ValidTag(address: seq<byte>) {
    1 <= |Trim(address)| <= 255
  }

  function Spaces(n: nat): seq<byte> {
    seq(n, _ => 32)
  }

  lemma {:induction false} TrimsSpaces(tag: seq<byte>, n: nat)
    requires tag != [] && Solid(tag[|tag| - 1])
    ensures TrimRight(tag + Spaces(n)) == tag
    decreases n, tag
  {
    hide TrimRight;
    if n == 0 {
      SolidBack(tag);
      assert tag + Spaces(0) == tag;
    } else {
      TrimsSpaces(tag, n - 1);
      WhiteBack(tag + Spaces(n - 1), 32);
      assert tag + Spaces(n) == tag + Spaces(n - 1) + [32];
    }
  }

  /**
   * The guard does not measure what is sent: a tag with white space after it passes exactly as long as the tag
   * itself has at most 255 bytes, and its command is understood exactly as long as the tag and the white space
   * together fit the length byte.
   */
  lemma GuardMissesWhiteSpace(session: uint32, slot: byte, tag: seq<byte>, spaces: nat, length: uint16)
    requires tag != [] && Solid(tag[0]) && Solid(tag[|tag| - 1])
    ensures var address := tag + Spaces(spaces);
            && (ValidTag(address) <==> |tag| <= 255)
            && (Receive(ReadCommand(session, slot, address, length)) == Some(Reading(session, address, length, slot))
                <==> |tag| + spaces <= 255)
  {
    hide TrimLeft, TrimRight, Receive, ReadCommand;
    var address := tag + Spaces(spaces);
    SolidFront(address);
    TrimsSpaces(tag, spaces);
    ReadInverts(session, slot, address, length);
  }

  lemma WriteFieldOffsets(slot: byte, typeCode: uint16, count: uint16, data: seq<byte>)
    ensures var f := WriteFields(slot, typeCode, count, data);
            && |f| == 8 + |data| && f[0..2] == Little(typeCode) && f[2..4] == Little(count)
            && f[4..4 + |data|] == data && f[|f| - 1] == slot
  {
    hide Little;
  }

  /** The parser on a frame of which only the fields it looks at are known. */
  lemma ParsesWriting(
    s: seq<byte>, a: nat, session: uint32, tag: seq<byte>, typeCode: uint16, count: uint16, data: seq<byte>, slot: byte)
    requires |s| == 62 + a + |data| && |tag| <= a
    requires s[50] == WRITE && 2 * (s[51] as int) == a + 2 && s[53] as int == |tag|
    requires s[4..8] == Little32(session) && s[54..54 + |tag|] == tag
    requires s[54 + a..56 + a] == Little(typeCode) && s[56 + a..58 + a] == Little(count)
    requires s[58 + a..58 + a + |data|] == data && s[|s| - 1] == slot
    ensures Parse(s) == Some(Writing(session, tag, typeCode, count, data, slot))
  {
    hide Little, Little32, FromLittle, FromLittle32;
    LittleRoundTrip(typeCode);
    LittleRoundTrip(count);
    Little32RoundTrip(session);
  }

  lemma WriteInvertsWhenItFits(
    session: uint32, slot: byte, tag: seq<byte>, typeCode: uint16, data: seq<byte>, count: uint16)
    requires 1 <= |tag| <= 255 && 38 + |Padded(tag)| + |data| <= 65535
    ensures Receive(WriteCommand(session, slot, tag, typeCode, data, count))
         == Some(Writing(session, tag, typeCode, count, data, slot))
  {
    hide WriteCommand, WriteFields, Little32, FromLittle32, Path, Padded, Little, FromLittle, TakeFrame, Parse;
    LengthsAgree(session, slot, tag, typeCode, data, count);
    var a, d := |Padded(tag)|, |data|;
    var p, rest := Path(WRITE, tag), WriteFields(slot, typeCode, count, data);
    var s := WriteCommand(session, slot, tag, typeCode, data, count);
    PathFields(WRITE, tag);
    PathOffsets(s, p, tag, rest);
    WriteFieldOffsets(slot, typeCode, count, data);
    FieldAt(s, 54 + a, 0, 2);
    FieldAt(s, 54 + a, 2, 4);
    FieldAt(s, 54 + a, 4, 4 + d);
    assert s[|s| - 1] == s[54 + a..][|rest| - 1];
    ParsesWriting(s, a, session, tag, typeCode, count, data, slot);
  }

  /** A write command is understood exactly when the tag fits its byte and the frame fits its length field. */
  lemma WriteInverts(
    session: uint32, slot: byte, tag: seq<byte>, typeCode: uint16, data: seq<byte>, count: uint16)
    requires tag != []
    ensures Receive(WriteCommand(session, slot, tag, typeCode, data, count))
         == Some(Writing(session, tag, typeCode, count, data, slot))
        <==> |tag| <= 255 && 38 + |Padded(tag)| + |data| <= 65535
  {
    hide WriteCommand, WriteFields, Little32, FromLittle32, Path, Padded, Little, FromLittle;
    LengthsAgree(session, slot, tag, typeCode, data, count);
    var a, d := |Padded(tag)|, |data|;
    var s := WriteCommand(session, slot, tag, typeCode, data, count);
    PathFields(WRITE, tag);
    PathOffsets(s, Path(WRITE, tag), tag, WriteFields(slot, typeCode, count, data));
    if |tag| <= 255 {
      if 38 + a + d <= 65535 {
        WriteInvertsWhenItFits(session, slot, tag, typeCode, data, count);
      } else {
        LittleRoundTrip(Wrap16(38 + a + d));
        WrappedFrameLosesData(s, a, d);
      }
    }
  }

  /** With a wrapped length field the peer takes fewer bytes than were sent, and finds less data. */
  lemma WrappedFrameLosesData(s: seq<byte>, a: nat, d: nat)
    requires |s| == 62 + a + d && a <= 256 && 38 + a + d > 65535
    requires s[2..4] == Little(Wrap16(38 + a + d)) && s[51] as int == (a + 2) / 2 && a % 2 == 0
    requires s[50] == WRITE
    ensures Receive(s).Some? ==> Receive(s).value.Writing? && |Receive(s).value.data| < d
  {
    var n := 24 + Wrap16(38 + a + d) as int;
    assert n < |s|;
    var full := s[..n];
    assert TakeFrame(s) == Some(full);
    if n >= 54 {
      assert full[50] == s[50] && full[51] == s[51];
    }
  }

  // ----- replies

  /** readRaw's view of a reply. */
  function RawData(resp: seq<byte>): Option<seq<byte>> {
    if |resp| < 46 then None
    else
      var count := FromLittle(resp[38..40]) as int;
      if count < 6 || |resp| < 46 + count - 6 then None else Some(resp[46..46 + count - 6])
  }

  /** The reply the test server builds around a payload. */
  function DataReply(session: uint32, payload: seq<byte>): seq<byte> {
    [0x6F, 0x00] + Little(Wrap16(22 + |payload|)) + Little32(session) + Zeros(16)
    + Zeros(14) + Little(Wrap16(6 + |payload|)) + Zeros(6) + payload
  }

  lemma ReplyInverts(session: uint32, payload: seq<byte>)
    requires 22 + |payload| <= 65535
    ensures TakeFrame(DataReply(session, payload)) == Some(DataReply(session, payload))
    ensures RawData(DataReply(session, payload)) == Some(payload)
  {
    hide Little, Little32, FromLittle;
    LittleRoundTrip(22 + |payload|);
    LittleRoundTrip(6 + |payload|);
    var s := DataReply(session, payload);
    assert s[2..4] == Little(22 + |payload|) && s[38..40] == Little(6 + |payload|);
    assert s[46..] == payload;
    assert s[..|s|] == s;
  }
}
