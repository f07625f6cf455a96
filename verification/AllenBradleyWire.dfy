/** The Allen-Bradley frames byte by byte, at the offsets of allen_bradley_client.go and its test server. */
module AllenBradleyWire {
  import opened Bytes
  import opened Network
  import opened AllenBradleyFrames
  import opened AllenBradleySession
  import opened AllenBradleyTags

  /** A 16-bit field, low byte first. */
  function Number(s: seq<byte>, i: nat): int
    requires i + 1 < |s|
  {
    s[i] as int + 256 * s[i + 1] as int
  }

  function Number32(s: seq<byte>, i: nat): int
    requires i + 3 < |s|
  {
    s[i] as int + 0x100 * s[i + 1] as int + 0x1_0000 * s[i + 2] as int + 0x100_0000 * s[i + 3] as int
  }

  predicate Blank(s: seq<byte>, from: nat, to: nat)
    requires from <= to <= |s|
  {
    forall i :: from <= i < to ==> s[i] == 0
  }

  // ----- commands

  /** The encapsulation header: command 6F, the length of what follows it, the session. */
  predicate Encapsulated(f: seq<byte>)
    requires |f| >= 24
  {
    f[0] == 0x6F && f[1] == 0x00 && Number(f, 2) == |f| - 24 && Blank(f, 8, 24)
  }

  /** Two items, the second of them an unconnected message with its length; then the embedded message. */
  predicate Routed(f: seq<byte>)
    requires |f| >= 54
  {
    && Blank(f, 24, 28) && f[28] == 0x01 && f[29] == 0x00 && f[30] == 0x02 && Blank(f, 31, 36)
    && f[36] == 0xB2 && f[37] == 0x00 && Number(f, 38) == |f| - 40
    && f[40] == 0x52 && f[41] == 0x02 && f[42] == 0x20 && f[43] == 0x06 && f[44] == 0x24 && f[45] == 0x01
    && f[46] == 0x0A && f[47] == 0xF0 && Number(f, 48) == |f| - 54
  }

  /** The path: its length in words, the symbolic segment, the tag's length, the tag, a zero if that is odd. */
  predicate Addressed(f: seq<byte>, tag: nat)
    requires |f| >= 60 + tag + tag % 2
  {
    && 2 * f[51] as int == tag + tag % 2 + 2 && f[52] == 0x91 && f[53] as int == tag
    && Blank(f, 54 + tag, 54 + tag + tag % 2)
  }

  predicate Slotted(f: seq<byte>)
    requires |f| >= 4
  {
    f[|f| - 4] == 0x01 && f[|f| - 3] == 0x00 && f[|f| - 2] == 0x01
  }

  /** A reader that looks at every byte. */
  function Read(f: seq<byte>): Option<Command> {
    if |f| < 60 || !Encapsulated(f) || !Routed(f) || !Slotted(f) then None
    else
      var n := f[53] as int;
      var at := 54 + n + n % 2;
      if |f| < at + 6 || !Addressed(f, n) then None
      else if f[50] == 0x4C && |f| == at + 6 then
        Some(Reading(Number32(f, 4), f[54..54 + n], Number(f, at), f[|f| - 1]))
      else if f[50] == 0x4D && |f| >= at + 8 then
        Some(Writing(Number32(f, 4), f[54..54 + n], Number(f, at), Number(f, at + 2), f[at + 4..|f| - 4], f[|f| - 1]))
      else None
  }

  lemma EncapsulationBytes(content: nat, session: uint32)
    ensures var e := Encapsulation(content, session);
            && e[0] == 0x6F && e[1] == 0x00 && Number(e, 2) == content % 0x1_0000
            && Number32(e, 4) == session as int && Blank(e, 8, 24)
  {
  }

  lemma RoutingBytes(item: nat, message: nat)
    ensures var r := Routing(item, message);
            && Blank(r, 0, 4) && r[4] == 0x01 && r[5] == 0x00 && r[6] == 0x02 && Blank(r, 7, 12)
            && r[12] == 0xB2 && r[13] == 0x00 && Number(r, 14) == item % 0x1_0000
            && r[16] == 0x52 && r[17] == 0x02 && r[18] == 0x20 && r[19] == 0x06 && r[20] == 0x24 && r[21] == 0x01
            && r[22] == 0x0A && r[23] == 0xF0 && Number(r, 24) == message % 0x1_0000
  {
  }

  lemma PathBytes(service: byte, tag: seq<byte>)
    ensures var p := Path(service, tag);
            var a := |tag| + |tag| % 2;
            && |p| == 4 + a
            && p[0] == service && p[1] as int == (a + 2) / 2 % 256 && p[2] == 0x91 && p[3] as int == |tag| % 256
            && p[4..4 + |tag|] == tag && Blank(p, 4 + |tag|, 4 + a)
  {
    PathFields(service, tag);
  }

  /** The bytes of a frame are those of its parts, each at its offset. */
  lemma Assembled(e: seq<byte>, r: seq<byte>, p: seq<byte>, rest: seq<byte>)
    requires |e| == 24 && |r| == 26
    ensures var f := e + r + p + rest;
            && |f| == 50 + |p| + |rest|
            && (forall i :: 0 <= i < 24 ==> f[i] == e[i])
            && (forall i :: 24 <= i < 50 ==> f[i] == r[i - 24])
            && (forall i :: 50 <= i < 50 + |p| ==> f[i] == p[i - 50])
            && (forall i :: 50 + |p| <= i < |f| ==> f[i] == rest[i - 50 - |p|])
  {
  }

  /** The first 54 bytes of a frame, and the tag behind them. */
  ghost predicate Fronted(f: seq<byte>, session: uint32, service: byte, tag: seq<byte>) {
    var a := |tag| + |tag| % 2;
    && |f| >= 54 + a
    && f[0] == 0x6F && f[1] == 0x00 && Number(f, 2) == (|f| - 24) % 0x1_0000 && Number32(f, 4) == session as int
    && Blank(f, 8, 28) && f[28] == 0x01 && f[29] == 0x00 && f[30] == 0x02 && Blank(f, 31, 36)
    && f[36] == 0xB2 && f[37] == 0x00 && Number(f, 38) == (|f| - 40) % 0x1_0000
    && f[40] == 0x52 && f[41] == 0x02 && f[42] == 0x20 && f[43] == 0x06 && f[44] == 0x24 && f[45] == 0x01
    && f[46] == 0x0A && f[47] == 0xF0 && Number(f, 48) == (|f| - 54) % 0x1_0000
    && f[50] == service && f[51] as int == (a + 2) / 2 % 256 && f[52] == 0x91 && f[53] as int == |tag| % 256
    && f[54..54 + |tag|] == tag && Blank(f, 54 + |tag|, 54 + a)
  }

  lemma FrontBytes(session: uint32, service: byte, tag: seq<byte>, rest: seq<byte>)
    requires |rest| >= 6
    ensures var n := |Padded(tag)| + |rest|;
            Fronted(Encapsulation(30 + n, session) + Routing(14 + n, n) + Path(service, tag) + rest, session, service, tag)
  {
    hide Encapsulation, Routing, Path;
    var n := |Padded(tag)| + |rest|;
    var e, r, p := Encapsulation(30 + n, session), Routing(14 + n, n), Path(service, tag);
    Assembled(e, r, p, rest);
    EncapsulationBytes(30 + n, session);
    RoutingBytes(14 + n, n);
    PathBytes(service, tag);
    var f := e + r + p + rest;
    TagBehind(f, p, tag);
  }

  lemma TagBehind(f: seq<byte>, p: seq<byte>, tag: seq<byte>)
    requires |p| >= 4 + |tag| && p[4..4 + |tag|] == tag
    requires |f| >= 50 + |p| && forall i :: 50 <= i < 50 + |p| ==> f[i] == p[i - 50]
    ensures f[54..54 + |tag|] == tag
  {
    forall k | 0 <= k < |tag| ensures f[54..54 + |tag|][k] == tag[k] {
      assert p[4..4 + |tag|][k] == tag[k];
    }
  }

  /** What follows the tag. */
  ghost predicate Ends(f: seq<byte>, at: nat, rest: seq<byte>) {
    |f| == at + |rest| && forall i :: 0 <= i < |rest| ==> f[at + i] == rest[i]
  }

  lemma ReadBytes(session: uint32, slot: byte, tag: seq<byte>, length: uint16)
    ensures var f := ReadCommand(session, slot, tag, length);
            Fronted(f, session, 0x4C, tag) && Ends(f, 54 + |tag| + |tag| % 2, ReadFields(slot, length))
  {
    hide Encapsulation, Routing, Path, Fronted, Padded;
    var rest := ReadFields(slot, length);
    var n := |Padded(tag)| + |rest|;
    var e, r, p := Encapsulation(30 + n, session), Routing(14 + n, n), Path(READ, tag);
    assert ReadCommand(session, slot, tag, length) == e + r + p + rest;
    FrontBytes(session, READ, tag, rest);
    Assembled(e, r, p, rest);
  }

  lemma WriteBytes(session: uint32, slot: byte, tag: seq<byte>, typeCode: uint16, data: seq<byte>, count: uint16)
    ensures var f := WriteCommand(session, slot, tag, typeCode, data, count);
            && Fronted(f, session, 0x4D, tag)
            && Ends(f, 54 + |tag| + |tag| % 2, WriteFields(slot, typeCode, count, data))
  {
    hide Encapsulation, Routing, Path, Fronted, Padded, Little;
    var rest := WriteFields(slot, typeCode, count, data);
    var n := |Padded(tag)| + |rest|;
    var e, r, p := Encapsulation(30 + n, session), Routing(14 + n, n), Path(WRITE, tag);
    assert WriteCommand(session, slot, tag, typeCode, data, count) == e + r + p + rest;
    FrontBytes(session, WRITE, tag, rest);
    Assembled(e, r, p, rest);
  }

  lemma ReadTagIsShort(f: seq<byte>)
    ensures Read(f).Some? ==> |Read(f).value.tag| <= 255 && |f| - 24 <= 65535
  {
  }

  /** The reader that looks at every byte understands a read exactly when the tag's length fits its byte. */
  lemma ReadConforms(session: uint32, slot: byte, tag: seq<byte>, length: uint16)
    ensures Read(ReadCommand(session, slot, tag, length)) == Some(Reading(session, tag, length, slot))
        <==> |tag| <= 255
  {
    hide ReadCommand, Encapsulation, Routing, Path, Padded;
    ReadBytes(session, slot, tag, length);
    ReadTagIsShort(ReadCommand(session, slot, tag, length));
    if |tag| <= 255 {
      ReadsReading(ReadCommand(session, slot, tag, length), session, slot, tag, length);
    }
  }

  lemma FrontIsRouted(f: seq<byte>, session: uint32, service: byte, tag: seq<byte>)
    requires |f| - 24 <= 65535 && |f| >= 60 && Fronted(f, session, service, tag)
    ensures Encapsulated(f) && Routed(f)
  {
  }

  lemma FrontIsAddressed(f: seq<byte>, session: uint32, service: byte, tag: seq<byte>)
    requires |tag| <= 255 && |f| >= 60 + |tag| + |tag| % 2 && Fronted(f, session, service, tag)
    ensures Addressed(f, |tag|)
    ensures Number32(f, 4) == session as int && f[50] == service && f[53] as int == |tag| && f[54..54 + |tag|] == tag
  {
  }

  lemma ReadsReading(f: seq<byte>, session: uint32, slot: byte, tag: seq<byte>, length: uint16)
    requires |tag| <= 255 && Fronted(f, session, 0x4C, tag)
    requires Ends(f, 54 + |tag| + |tag| % 2, ReadFields(slot, length))
    ensures Read(f) == Some(Reading(session, tag, length, slot))
  {
    hide Fronted, Encapsulated, Routed, Addressed;
    FrontIsRouted(f, session, 0x4C, tag);
    FrontIsAddressed(f, session, 0x4C, tag);
    var at := 54 + |tag| + |tag| % 2;
    var rest := ReadFields(slot, length);
    assert f[at] == rest[0] && f[at + 1] == rest[1] && f[at + 2] == rest[2] && f[at + 3] == rest[3]
        && f[at + 4] == rest[4] && f[at + 5] == rest[5];
  }

  lemma WriteConforms(session: uint32, slot: byte, tag: seq<byte>, typeCode: uint16, data: seq<byte>, count: uint16)
    ensures Read(WriteCommand(session, slot, tag, typeCode, data, count))
         == Some(Writing(session, tag, typeCode, count, data, slot))
        <==> |tag| <= 255 && 38 + |tag| + |tag| % 2 + |data| <= 65535
  {
    hide WriteCommand, WriteFields, Encapsulation, Routing, Path, Padded;
    var f := WriteCommand(session, slot, tag, typeCode, data, count);
    WriteBytes(session, slot, tag, typeCode, data, count);
    WriteFieldBytes(slot, typeCode, count, data);
    ReadTagIsShort(f);
    if |tag| <= 255 && |f| - 24 <= 65535 {
      ReadsWriting(f, session, slot, tag, typeCode, data, count);
    }
  }

  lemma WriteFieldBytes(slot: byte, typeCode: uint16, count: uint16, data: seq<byte>)
    ensures var rest := WriteFields(slot, typeCode, count, data);
            var d := |data|;
            && |rest| == 8 + d && Number(rest, 0) == typeCode as int && Number(rest, 2) == count as int
            && rest[4 + d] == 1 && rest[5 + d] == 0 && rest[6 + d] == 1 && rest[7 + d] == slot
            && forall k :: 0 <= k < d ==> rest[4 + k] == data[k]
  {
  }

  /** The fields of a write behind the tag, by their offsets in the frame. */
  lemma WriteTail(f: seq<byte>, at: nat, slot: byte, typeCode: uint16, data: seq<byte>, count: uint16)
    requires Ends(f, at, WriteFields(slot, typeCode, count, data))
    ensures |f| == at + 8 + |data|
    ensures Number(f, at) == typeCode as int && Number(f, at + 2) == count as int
    ensures f[|f| - 4] == 1 && f[|f| - 3] == 0 && f[|f| - 2] == 1 && f[|f| - 1] == slot
    ensures f[at + 4..|f| - 4] == data
  {
    hide WriteFields;
    var d := |data|;
    var rest := WriteFields(slot, typeCode, count, data);
    WriteFieldBytes(slot, typeCode, count, data);
    assert f[at] == rest[0] && f[at + 1] == rest[1] && f[at + 2] == rest[2] && f[at + 3] == rest[3];
    assert f[at + (4 + d)] == rest[4 + d] && f[at + (5 + d)] == rest[5 + d]
        && f[at + (6 + d)] == rest[6 + d] && f[at + (7 + d)] == rest[7 + d];
    forall k | 0 <= k < d ensures f[at + 4..|f| - 4][k] == data[k] {
      assert f[at + (4 + k)] == rest[4 + k];
    }
  }

  lemma ReadsWriting(
    f: seq<byte>, session: uint32, slot: byte, tag: seq<byte>, typeCode: uint16, data: seq<byte>, count: uint16)
    requires |tag| <= 255 && |f| - 24 <= 65535 && Fronted(f, session, 0x4D, tag)
    requires Ends(f, 54 + |tag| + |tag| % 2, WriteFields(slot, typeCode, count, data))
    ensures Read(f) == Some(Writing(session, tag, typeCode, count, data, slot))
  {
    hide Fronted, Encapsulated, Routed, Addressed, WriteFields, Ends;
    WriteTail(f, 54 + |tag| + |tag| % 2, slot, typeCode, data, count);
    FrontIsRouted(f, session, 0x4D, tag);
    FrontIsAddressed(f, session, 0x4D, tag);
  }

  // ----- registration and replies

  /** The registration: command 65, four bytes of content, no session; protocol version 1. */
  lemma RegistrationBytes()
    ensures |REGISTER| == 28 && REGISTER[0] == 0x65 && Number(REGISTER, 2) == 4 && REGISTER[24] == 1
    ensures forall i :: 0 <= i < 28 && i !in {0, 2, 24} ==> REGISTER[i] == 0
    ensures |REGISTERED| == 28 && REGISTERED[0] == 0x65 && Number(REGISTERED, 2) == 4 && REGISTERED[24] == 1
    ensures Number32(REGISTERED, 4) == 0x0102_0304
    ensures forall i :: 0 <= i < 28 && i !in {0, 2, 4, 5, 6, 7, 24} ==> REGISTERED[i] == 0
  {
  }

  lemma SessionBytes(s: seq<byte>)
    requires |s| >= 8
    ensures FromLittle32(s[4..8]) as int == Number32(s, 4)
  {
    var t := s[4..8];
    assert t[..2] == [s[4], s[5]] && t[2..] == [s[6], s[7]];
  }

  /** The session that the test server gives, to those who receive all of its answer. */
  lemma ServerGivesSession(plan: Plan, peer: Peer, t: nat, m: Memory)
    requires plan(t).served ==> peer(t) == Serve(m, REGISTER).1
    ensures Given(plan, peer, t) == if plan(t).served && plan(t).keep >= 28 then 0x0102_0304 else 0
  {
    hide REGISTER, REGISTERED, FromLittle32, Serve;
    RegisterIsServed(m);
    RegistrationBytes();
    if plan(t).served && plan(t).keep >= 28 {
      assert Arrived(plan, peer, t) == REGISTERED;
      SessionBytes(REGISTERED);
    }
  }

  /** A registration is nothing but a write and 28 bytes; what stands at 4 is the session, if it is not 0. */
  lemma EachErrorHasItsCause(plan: Plan, peer: Peer, st: State, h: nat)
    requires h in st.links.open
    ensures var (st', r) := Registered(plan, peer, st, h);
            var s := st.links.open[h] + Arrived(plan, peer, st.links.clock);
            if !plan(st.links.clock).sent || |s| < 28 then r == Err(Io) && st'.session == st.session
            else st'.session as int == Number32(s, 4) && r == if st'.session == 0 then Err(BadSession) else Ok(())
  {
    hide REGISTER, FromLittle32;
    var s := st.links.open[h] + Arrived(plan, peer, st.links.clock);
    if |s| >= 28 {
      SliceOfPrefix(s, 28, 4, 8);
      SessionBytes(s);
    }
  }

  /** The reply around a payload: its two lengths, the session, and zeros elsewhere. */
  lemma DataReplyBytes(session: uint32, payload: seq<byte>)
    ensures var f := DataReply(session, payload);
            && |f| == 46 + |payload| && f[0] == 0x6F && f[1] == 0 && Number(f, 2) == (22 + |payload|) % 0x1_0000
            && Number32(f, 4) == session as int && Blank(f, 8, 38)
            && Number(f, 38) == (6 + |payload|) % 0x1_0000 && Blank(f, 40, 46) && f[46..] == payload
  {
  }

  lemma RawDataExactly(resp: seq<byte>, data: seq<byte>)
    ensures RawData(resp) == Some(data) <==>
            |resp| >= 46 && Number(resp, 38) == 6 + |data| && |resp| >= 46 + |data| && resp[46..46 + |data|] == data
  {
    if |resp| >= 46 {
      assert resp[38..40] == [resp[38], resp[39]];
    }
  }

  /** What the client takes off its stream for a reply. */
  lemma DecodesExactly(s: seq<byte>)
    ensures Decode(s) ==
      if |s| < 24 || |s| < 24 + Number(s, 2) then (Err(Io), [])
      else (Ok(s[..24 + Number(s, 2)]), s[24 + Number(s, 2)..])
  {
    if |s| >= 24 {
      assert s[..24][2..4] == [s[2], s[3]];
      var n := Number(s, 2);
      if |s| >= 24 + n {
        assert s[..24] + s[24..][..n] == s[..24 + n] && s[24..][n..] == s[24 + n..];
      }
    }
  }

  /** Close forgets the session, with or without a connection. */
  lemma ClosedForgets(plan: Plan, peer: Peer, st: State)
    ensures Closed(st).session == 0 && Closed(st).conn == None
    ensures st.conn.Some? ==> st.conn.value !in Closed(st).links.open
    ensures st.conn.Some? ==> Disconnected(st).session == 0 && Disconnected(st).conn == None
  {
  }

  // ----- attempts

  lemma AttemptDials(plan: Plan, peer: Peer, st: State, cmd: seq<byte>)
    requires Attached(st) && forall t :: plan(t).up
    ensures var (st', r) := SendOnce(plan, peer, st, cmd);
            && Attached(st') && Disconnected(st').conn == None
            && st'.links.dialed == st.links.dialed + (if st.conn.None? then 1 else 0)
            && Disconnected(st').links.dialed == st'.links.dialed
  {
    hide Decode, REGISTER, FromLittle32;
  }

  /** A call that fails although every dial works has made all its attempts, each on a connection of its own. */
  lemma {:induction false} AttemptsAreMade(plan: Plan, peer: Peer, st: State, cmd: seq<byte>, left: nat)
    requires Attached(st) && forall t :: plan(t).up
    ensures var (st', r) := Send(plan, peer, st, cmd, left);
            r.Err? ==> && st'.conn == None
                       && st'.links.dialed == st.links.dialed + left + (if st.conn.None? then 1 else 0)
    decreases left
  {
    hide SendOnce;
    AttemptDials(plan, peer, st, cmd);
    var (st1, r) := SendOnce(plan, peer, st, cmd);
    if r.Err? && left > 0 {
      AttemptsAreMade(plan, peer, Disconnected(st1), cmd, left - 1);
    }
  }

  /** Open drops what is there, dials once, and keeps the new connection exactly if its registration succeeds. */
  lemma OpenIsFresh(plan: Plan, peer: Peer, st: State)
    requires Attached(st)
    ensures var (st', r) := Opened(plan, peer, st);
            && st'.conn == (if r.Ok? then Some(st.links.dialed) else None)
            && st'.links.dialed == st.links.dialed + (if plan(st.links.clock).up then 1 else 0)
            && (r.Ok? ==> st'.session != 0)
  {
    hide REGISTER, FromLittle32;
  }

  /** A reply that arrives whole is the end of the call: one command has been written, and nothing else. */
  lemma OneCommandSuffices(plan: Plan, peer: Peer, st: State, cmd: seq<byte>, left: nat)
    requires Attached(st) && st.conn.Some? && plan(st.links.clock).sent
    requires Decode(st.links.open[st.conn.value] + Arrived(plan, peer, st.links.clock)).0.Ok?
    ensures var (st', r) := Send(plan, peer, st, cmd, left);
            && r == Decode(st.links.open[st.conn.value] + Arrived(plan, peer, st.links.clock)).0
            && st'.links.log == st.links.log + [Sending(st.conn.value, st.links.clock, cmd)]
            && st'.conn == st.conn && st'.session == st.session && st'.links.dialed == st.links.dialed
  {
    hide Decode;
  }
}
