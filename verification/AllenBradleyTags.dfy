/** The Allen-Bradley client against the test server and its tags: what was written is read back. */
module AllenBradleyTags {
  import opened Bytes
  import opened Network
  import opened AllenBradleyFrames
  import opened AllenBradleySession

  // ----- the server

  /** `malformed`: the next command is to be answered with a reply that says nothing. */
  datatype Memory = Memory(tags: map<seq<byte>, seq<byte>>, malformed: bool)

  const REGISTERED: seq<byte> :=
    [0x65, 0x00, 0x04, 0x00] + Little32(0x0102_0304) + Zeros(16) + [0x01, 0x00, 0x00, 0x00]

  function Malformed(session: uint32): (r: seq<byte>)
    ensures |r| == 28
  {
    [0x6F, 0x00, 0x04, 0x00] + Little32(session) + Zeros(20)
  }

  /** A tag's bytes cut or filled with zeros to the length asked for. */
  function Fitted(raw: seq<byte>, n: nat): (r: seq<byte>)
    ensures |r| == n
  {
    if |raw| < n then raw + Zeros(n - |raw|) else raw[..n]
  }

  function TagOf(tags: map<seq<byte>, seq<byte>>, tag: seq<byte>): seq<byte> {
    if tag in tags then tags[tag] else []
  }

  function Perform(tags: map<seq<byte>, seq<byte>>, c: Command): (map<seq<byte>, seq<byte>>, seq<byte>) {
    match c
    case Reading(session, tag, length, _) => (tags, DataReply(session, Fitted(TagOf(tags, tag), length)))
    case Writing(session, tag, _, _, data, _) => (tags[tag := data], DataReply(session, []))
  }

  /** One frame from the client: the memory afterwards, and the reply. */
  function Serve(m: Memory, frame: seq<byte>): (Memory, seq<byte>) {
    match TakeFrame(frame)
    case None => (m, [])
    case Some(full) =>
      if FromLittle(full[0..2]) == 0x0065 then (m, REGISTERED)
      else if m.malformed then (m.(malformed := false), Malformed(FromLittle32(full[4..8])))
      else match Parse(full)
           case None => (m, [])
           case Some(c) =>
             var (tags, reply) := Perform(m.tags, c);
             (m.(tags := tags), reply)
  }

  // ----- a peer that is this server

  function Met(f: Fate, m: Memory): Memory {
    if f.inject.Some? then m.(malformed := true) else m
  }

  /** The server's memory after all that was written, given the environment's choices. */
  function MemoryAfter(plan: Plan, log: seq<Sending>, m: Memory): Memory {
    if log == [] then m
    else
      var n := |log| - 1;
      Step(plan, MemoryAfter(plan, log[..n], m), log[n]).0
  }

  function Step(plan: Plan, m: Memory, e: Sending): (Memory, seq<byte>) {
    var f := plan(e.tick);
    if f.served then Serve(Met(f, m), e.frame) else (Met(f, m), [])
  }

  /** What came back to every write is what the server answers to it. */
  predicate Answers(plan: Plan, peer: Peer, log: seq<Sending>, m: Memory) {
    forall i :: 0 <= i < |log| && plan(log[i].tick).served ==>
      peer(log[i].tick) == Step(plan, MemoryAfter(plan, log[..i], m), log[i]).1
  }

  /** Nobody asks for malformed replies. */
  ghost predicate Sane(plan: Plan, m: Memory) {
    !m.malformed && forall t: nat :: plan(t).inject.None?
  }

  lemma MemoryMore(plan: Plan, log: seq<Sending>, e: Sending, m: Memory)
    ensures MemoryAfter(plan, log + [e], m) == Step(plan, MemoryAfter(plan, log, m), e).0
  {
    assert (log + [e])[..|log|] == log;
  }

  lemma AnswersPrefix(plan: Plan, peer: Peer, log: seq<Sending>, more: seq<Sending>, m: Memory)
    requires Answers(plan, peer, more, m) && log <= more
    ensures Answers(plan, peer, log, m)
  {
    hide Step;
    forall i | 0 <= i < |log| && plan(log[i].tick).served
      ensures peer(log[i].tick) == Step(plan, MemoryAfter(plan, log[..i], m), log[i]).1
    {
      assert more[i] == log[i] && more[..i] == log[..i];
    }
  }

  lemma AnswersLast(plan: Plan, peer: Peer, log: seq<Sending>, e: Sending, m: Memory)
    requires Answers(plan, peer, log + [e], m) && plan(e.tick).served
    ensures peer(e.tick) == Step(plan, MemoryAfter(plan, log, m), e).1
  {
    assert (log + [e])[..|log|] == log && (log + [e])[|log|] == e;
  }

  // ----- registration and commands, one at a time

  lemma RegisterIsServed(m: Memory)
    ensures Serve(m, REGISTER) == (m, REGISTERED)
  {
    assert REGISTER[2..4] == [REGISTER[2], REGISTER[3]] && REGISTER[0..2] == [REGISTER[0], REGISTER[1]];
    assert REGISTER[..28] == REGISTER;
  }

  /** A whole command is one frame for the server, and no registration. */
  ghost predicate Whole(cmd: seq<byte>, c: Command) {
    && TakeFrame(cmd) == Some(cmd) && |cmd| >= 24
    && FromLittle(cmd[0..2]) != 0x0065
    && Parse(cmd) == Some(c)
  }

  lemma CommandIsServed(m: Memory, cmd: seq<byte>, c: Command)
    requires Whole(cmd, c) && !m.malformed
    ensures Serve(m, cmd) == (m.(tags := Perform(m.tags, c).0), Perform(m.tags, c).1)
  {
  }

  /** Whatever part of a reply arrives: the client takes the first frame of the reply, or nothing. */
  lemma ReplyArrives(f: Fate, reply: seq<byte>)
    ensures var (r, rest) := Decode(Delivered(f, reply));
            && (r.Ok? ==> TakeFrame(reply) == Some(r.value))
            && (r.Ok? && TakeFrame(reply) == Some(reply) ==> rest == [])
  {
    var s := Delivered(f, reply);
    if Decode(s).0.Ok? {
      SliceOfPrefix(s, 24, 2, 4);
      assert s[2..4] == reply[2..4];
      var n := FromLittle(s[2..4]) as int;
      assert s[..24] + s[24..][..n] == s[..24 + n] == reply[..24 + n];
    }
  }

  /** What one registration does: the tags stay, and success leaves a clean connection. */
  lemma RegisterMeans(plan: Plan, peer: Peer, st: State, h: nat, m: Memory)
    requires st.conn == Some(h) && Clean(st.links, st.conn) && Sane(plan, m)
    requires !MemoryAfter(plan, st.links.log, m).malformed
    requires Answers(plan, peer, AfterTransmit(plan, peer, st.links, h, REGISTER).log, m)
    ensures var (st', r) := Registered(plan, peer, st, h);
            && st'.conn == Some(h) && Holding(st'.links, st'.conn)
            && MemoryAfter(plan, st'.links.log, m) == MemoryAfter(plan, st.links.log, m)
            && (r.Ok? ==> Clean(st'.links, st'.conn))
  {
    hide REGISTER, REGISTERED, Serve, FromLittle32, MemoryAfter;
    var e := Sending(h, st.links.clock, REGISTER);
    var before := MemoryAfter(plan, st.links.log, m);
    RegisterIsServed(before);
    MemoryMore(plan, st.links.log, e, m);
    var f := plan(st.links.clock);
    var l := AfterTransmit(plan, peer, st.links, h, REGISTER);
    assert l.log == st.links.log + [e];
    if f.served {
      AnswersLast(plan, peer, st.links.log, e, m);
      RegisteredLength();
    }
    assert l.open[h] == [] + Arrived(plan, peer, st.links.clock) == Arrived(plan, peer, st.links.clock);
  }

  lemma RegisteredLength()
    ensures |REGISTERED| == 28
  {
  }

  /** What one command does on a clean connection. */
  lemma CommandMeans(plan: Plan, peer: Peer, st: State, h: nat, cmd: seq<byte>, c: Command, m: Memory)
    requires st.conn == Some(h) && Clean(st.links, st.conn) && Sane(plan, m) && Whole(cmd, c)
    requires !MemoryAfter(plan, st.links.log, m).malformed
    requires Answers(plan, peer, AfterTransmit(plan, peer, st.links, h, cmd).log, m)
    ensures var l := AfterTransmit(plan, peer, st.links, h, cmd);
            var (r, rest) := Decode(l.open[h]);
            var before := MemoryAfter(plan, st.links.log, m);
            var (tags, reply) := Perform(before.tags, c);
            && (MemoryAfter(plan, l.log, m) == before || MemoryAfter(plan, l.log, m) == before.(tags := tags))
            && (r.Ok? ==> TakeFrame(reply) == Some(r.value) && MemoryAfter(plan, l.log, m) == before.(tags := tags))
            && (r.Ok? && TakeFrame(reply) == Some(reply) ==> rest == [])
  {
    hide Serve, MemoryAfter, Decode, Perform, Parse, TakeFrame;
    var e := Sending(h, st.links.clock, cmd);
    var before := MemoryAfter(plan, st.links.log, m);
    MemoryMore(plan, st.links.log, e, m);
    var f := plan(st.links.clock);
    var l := AfterTransmit(plan, peer, st.links, h, cmd);
    assert l.log == st.links.log + [e];
    CommandIsServed(before, cmd, c);
    var reply := if f.served then peer(st.links.clock) else [];
    if f.served {
      AnswersLast(plan, peer, st.links.log, e, m);
    }
    ReplyArrives(f, reply);
    NothingArrives(f);
    assert l.open[h] == [] + Delivered(f, reply) == Delivered(f, reply);
  }

  lemma NothingArrives(f: Fate)
    ensures Decode(Delivered(f, [])).0.Err?
  {
  }

  // ----- whole calls

  /** Doing a command again changes nothing. */
  lemma PerformTwice(tags: map<seq<byte>, seq<byte>>, c: Command)
    ensures Perform(Perform(tags, c).0, c) == Perform(tags, c)
  {
    if c.Writing? {
      assert tags[c.tag := c.data][c.tag := c.data] == tags[c.tag := c.data];
    }
  }

  lemma LogGrows(plan: Plan, peer: Peer, st: State, cmd: seq<byte>)
    requires Attached(st)
    ensures var (st1, ok) := Ensured(plan, peer, st);
            var (st', _) := SendOnce(plan, peer, st, cmd);
            && st.links.log <= st1.links.log <= st'.links.log
            && (ok.Ok? ==> st1.conn.Some? && Attached(st1)
                           && st'.links.log == st1.links.log + [Sending(st1.conn.value, st1.links.clock, cmd)])
            && (ok.Err? ==> st' == st1)
            && Disconnected(st').links.log == st'.links.log
  {
    hide Decode, REGISTER, FromLittle32;
  }

  lemma {:induction false} SendGrows(plan: Plan, peer: Peer, st: State, cmd: seq<byte>, left: nat)
    requires Attached(st)
    ensures SendOnce(plan, peer, st, cmd).0.links.log <= Send(plan, peer, st, cmd, left).0.links.log
    ensures st.links.log <= Send(plan, peer, st, cmd, left).0.links.log
    decreases left
  {
    hide SendOnce, Ensured;
    LogGrows(plan, peer, st, cmd);
    var (st1, r) := SendOnce(plan, peer, st, cmd);
    if r.Err? && left > 0 {
      SendGrows(plan, peer, Disconnected(st1), cmd, left - 1);
    }
  }

  lemma {:induction false} SendAttached(plan: Plan, peer: Peer, st: State, cmd: seq<byte>, left: nat)
    requires Attached(st)
    ensures Attached(Send(plan, peer, st, cmd, left).0)
    decreases left
  {
    hide SendOnce;
    AttemptAttached(plan, peer, st, cmd);
    var (st1, r) := SendOnce(plan, peer, st, cmd);
    if r.Err? && left > 0 {
      SendAttached(plan, peer, Disconnected(st1), cmd, left - 1);
    }
  }

  lemma AttemptAttached(plan: Plan, peer: Peer, st: State, cmd: seq<byte>)
    requires Attached(st)
    ensures Attached(SendOnce(plan, peer, st, cmd).0) && Disconnected(SendOnce(plan, peer, st, cmd).0).conn == None
  {
    hide Decode, REGISTER, FromLittle32;
  }

  lemma EnsureMeans(plan: Plan, peer: Peer, st: State, m: Memory)
    requires Clean(st.links, st.conn) && Sane(plan, m) && !MemoryAfter(plan, st.links.log, m).malformed
    requires Answers(plan, peer, Ensured(plan, peer, st).0.links.log, m)
    ensures var (st', r) := Ensured(plan, peer, st);
            && Holding(st'.links, st'.conn)
            && MemoryAfter(plan, st'.links.log, m) == MemoryAfter(plan, st.links.log, m)
            && (r.Ok? ==> st'.conn.Some? && Clean(st'.links, st'.conn))
  {
    hide Registered, MemoryAfter;
    if st.conn.None? {
      var st1 := st.(conn := DialResult(plan, st.links), links := AfterDial(plan, st.links));
      if st1.conn.Some? {
        RegisterFrame(plan, peer, st1, st1.conn.value);
        RegisterMeans(plan, peer, st1, st1.conn.value, m);
      }
    }
  }

  /** The tags after an attempt or a call: as before, or as after the command. */
  predicate Moved(before: Memory, after: Memory, c: Command) {
    after == before || after == before.(tags := Perform(before.tags, c).0)
  }

  lemma AttemptMeans(plan: Plan, peer: Peer, st: State, cmd: seq<byte>, c: Command, m: Memory)
    requires Clean(st.links, st.conn) && Sane(plan, m) && Whole(cmd, c)
    requires !MemoryAfter(plan, st.links.log, m).malformed
    requires Answers(plan, peer, SendOnce(plan, peer, st, cmd).0.links.log, m)
    ensures var (st', r) := SendOnce(plan, peer, st, cmd);
            var before := MemoryAfter(plan, st.links.log, m);
            var (tags, reply) := Perform(before.tags, c);
            && Attached(st') && Clean(Disconnected(st').links, None) && Disconnected(st').conn == None
            && Moved(before, MemoryAfter(plan, st'.links.log, m), c)
            && (r.Ok? ==> TakeFrame(reply) == Some(r.value)
                          && MemoryAfter(plan, st'.links.log, m) == before.(tags := tags))
            && (r.Ok? && TakeFrame(reply) == Some(reply) ==> Clean(st'.links, st'.conn))
  {
    hide Ensured, Decode, Perform, MemoryAfter, TakeFrame, Parse, Whole, Answers, REGISTER, Serve, Sane;
    LogGrows(plan, peer, st, cmd);
    var (st1, ok) := Ensured(plan, peer, st);
    AnswersPrefix(plan, peer, st1.links.log, SendOnce(plan, peer, st, cmd).0.links.log, m);
    EnsureMeans(plan, peer, st, m);
    if ok.Ok? {
      CommandMeans(plan, peer, st1, st1.conn.value, cmd, c, m);
    }
    var st' := SendOnce(plan, peer, st, cmd).0;
    assert Disconnected(st').links.open == map[];
  }

  /** All attempts of a call together. */
  lemma {:induction false} SendMeans(
    plan: Plan, peer: Peer, st: State, cmd: seq<byte>, c: Command, m: Memory, left: nat)
    requires Clean(st.links, st.conn) && Sane(plan, m) && Whole(cmd, c)
    requires !MemoryAfter(plan, st.links.log, m).malformed
    requires Answers(plan, peer, Send(plan, peer, st, cmd, left).0.links.log, m)
    ensures var (st', r) := Send(plan, peer, st, cmd, left);
            var before := MemoryAfter(plan, st.links.log, m);
            && Moved(before, MemoryAfter(plan, st'.links.log, m), c)
            && (r.Ok? ==> && MemoryAfter(plan, st'.links.log, m) == before.(tags := Perform(before.tags, c).0)
                          && TakeFrame(Perform(before.tags, c).1) == Some(r.value))
            && (r.Err? || TakeFrame(Perform(before.tags, c).1) == Some(Perform(before.tags, c).1) ==>
                  Clean(st'.links, st'.conn))
    decreases left
  {
    hide SendOnce, Perform, MemoryAfter, TakeFrame, Whole;
    var before := MemoryAfter(plan, st.links.log, m);
    SendGrows(plan, peer, st, cmd, left);
    LogGrows(plan, peer, st, cmd);
    var (st1, r) := SendOnce(plan, peer, st, cmd);
    AnswersPrefix(plan, peer, st1.links.log, Send(plan, peer, st, cmd, left).0.links.log, m);
    AttemptMeans(plan, peer, st, cmd, c, m);
    PerformTwice(before.tags, c);
    if r.Err? && left > 0 {
      SendMeans(plan, peer, Disconnected(st1), cmd, c, m, left - 1);
    }
  }

  // ----- what was written is read back

  lemma CommandStart(content: nat, session: uint32, rest: seq<byte>)
    ensures FromLittle((Encapsulation(content, session) + rest)[0..2]) == 0x6F
  {
    var s := Encapsulation(content, session) + rest;
    assert s[0] == 0x6F && s[1] == 0x00;
    assert s[0..2] == [s[0], s[1]];
  }

  lemma WriteIsWhole(session: uint32, slot: byte, tag: seq<byte>, typeCode: uint16, data: seq<byte>, count: uint16)
    requires 1 <= |tag| <= 255 && 38 + |Padded(tag)| + |data| <= 65535
    ensures Whole(WriteCommand(session, slot, tag, typeCode, data, count), Writing(session, tag, typeCode, count, data, slot))
  {
    hide Parse, Padded, Encapsulation, Routing, Path, FromLittle, Little, Slot;
    WriteInvertsWhenItFits(session, slot, tag, typeCode, data, count);
    LengthsAgree(session, slot, tag, typeCode, data, count);
    var n := |Padded(tag)| + |data|;
    var rest := Routing(22 + n, 8 + n) + Path(WRITE, tag) + Little(typeCode) + Little(count) + data + Slot(slot);
    assert WriteCommand(session, slot, tag, typeCode, data, count) == Encapsulation(38 + n, session) + rest;
    CommandStart(38 + n, session, rest);
  }

  lemma ReadIsWhole(session: uint32, slot: byte, tag: seq<byte>, length: uint16)
    requires 1 <= |tag| <= 255
    ensures Whole(ReadCommand(session, slot, tag, length), Reading(session, tag, length, slot))
  {
    hide Parse, Padded, Encapsulation, Routing, Path, FromLittle, Little, Slot;
    ReadInvertsWhenItFits(session, slot, tag, length);
    ReadLengthsAgree(session, slot, tag, length);
    var a := |Padded(tag)|;
    var rest := Routing(20 + a, 6 + a) + Path(READ, tag) + Little(length) + Slot(slot);
    assert ReadCommand(session, slot, tag, length) == Encapsulation(36 + a, session) + rest;
    CommandStart(36 + a, session, rest);
  }

  /** A reply to a read of more than 65513 bytes has wrapped lengths, and holds no data for the client. */
  lemma LongReplyIsEmpty(session: uint32, payload: seq<byte>)
    requires 65513 < |payload| <= 65535
    ensures TakeFrame(DataReply(session, payload)).Some?
    ensures RawData(TakeFrame(DataReply(session, payload)).value) == None
  {
    hide Little, Little32, FromLittle;
    LittleRoundTrip(Wrap16(22 + |payload|));
    var s := DataReply(session, payload);
    assert s[2..4] == Little(Wrap16(22 + |payload|));
  }

  /** What a read of `length` bytes gives when the tag holds `raw`. */
  function ReadOf(raw: seq<byte>, length: uint16): Option<seq<byte>> {
    if length <= 65513 then Some(Fitted(raw, length)) else None
  }

  lemma ReadReplyMeans(session: uint32, raw: seq<byte>, length: uint16)
    ensures var t := TakeFrame(DataReply(session, Fitted(raw, length)));
            t.Some? && RawData(t.value) == ReadOf(raw, length)
  {
    hide TakeFrame, RawData, DataReply;
    if length <= 65513 {
      ReplyInverts(session, Fitted(raw, length));
    } else {
      LongReplyIsEmpty(session, Fitted(raw, length));
    }
  }

  /**
   * Read back: against the test server and its tags, under every plan in which nobody asks for malformed
   * replies, the data of a write that succeeded are what a read of the tag that succeeds returns, cut or
   * filled with zeros to the length asked for; whatever was lost, retried or registered anew in between.
   */
  lemma TagComesBack(
    plan: Plan, peer: Peer, st: State, m: Memory, slot: byte, tag: seq<byte>, typeCode: uint16, data: seq<byte>,
    count: uint16, length: uint16, left: nat)
    requires Clean(st.links, st.conn) && Sane(plan, m) && !MemoryAfter(plan, st.links.log, m).malformed
    requires 1 <= |tag| <= 255 && 38 + |Padded(tag)| + |data| <= 65535
    ensures Attached(Send(plan, peer, st, WriteCommand(st.session, slot, tag, typeCode, data, count), left).0)
    ensures var (st1, w) := Send(plan, peer, st, WriteCommand(st.session, slot, tag, typeCode, data, count), left);
            var (st2, r) := Send(plan, peer, st1, ReadCommand(st1.session, slot, tag, length), left);
            Answers(plan, peer, st2.links.log, m) && w.Ok? && r.Ok? ==> RawData(r.value) == ReadOf(data, length)
  {
    hide Send, MemoryAfter, WriteCommand, ReadCommand, Whole, RawData, DataReply, TakeFrame, Answers;
    var cmd := WriteCommand(st.session, slot, tag, typeCode, data, count);
    var c := Writing(st.session, tag, typeCode, count, data, slot);
    WriteIsWhole(st.session, slot, tag, typeCode, data, count);
    ReplyInverts(st.session, []);
    SendAttached(plan, peer, st, cmd, left);
    var (st1, w) := Send(plan, peer, st, cmd, left);
    var cmd2 := ReadCommand(st1.session, slot, tag, length);
    var c2 := Reading(st1.session, tag, length, slot);
    SendGrows(plan, peer, st1, cmd2, left);
    var st2 := Send(plan, peer, st1, cmd2, left).0;
    if Answers(plan, peer, st2.links.log, m) && w.Ok? {
      AnswersPrefix(plan, peer, st1.links.log, st2.links.log, m);
      SendMeans(plan, peer, st, cmd, c, m, left);
      ReadIsWhole(st1.session, slot, tag, length);
      SendMeans(plan, peer, st1, cmd2, c2, m, left);
      ReadReplyMeans(st1.session, data, length);
    }
  }

  // ----- and with malformed replies

  lemma TakenWhole(s: seq<byte>, n: nat)
    requires |s| == 24 + n && FromLittle(s[..24][2..4]) as int == n
    ensures Decode(s) == (Ok(s), [])
  {
    hide FromLittle;
    assert s[24..][..n] == s[24..] && s[24..][n..] == [];
    assert s[..24] + s[24..] == s;
  }

  lemma MalformedIsTaken(session: uint32)
    ensures Decode(Malformed(session)) == (Ok(Malformed(session)), [])
  {
    hide Little32;
    var s := Malformed(session);
    assert s[2] == 4 && s[3] == 0 && s[..24][2..4] == [s[2], s[3]];
    TakenWhole(s, 4);
  }

  /** From this tick on everything gets through whole, and nobody asks for malformed replies. */
  ghost predicate Calm(plan: Plan, from: nat) {
    forall t :: t >= from ==>
      plan(t).up && plan(t).sent && plan(t).served && plan(t).keep >= 0x2_0000 && plan(t).inject.None?
  }

  /**
   * The client does not look at the reply to a write. Where everything gets through, a write on an open
   * connection always succeeds, and it has stored its data exactly if no malformed reply was pending.
   */
  lemma WriteStoresExactly(
    plan: Plan, peer: Peer, st: State, m: Memory, slot: byte, tag: seq<byte>, typeCode: uint16, data: seq<byte>,
    count: uint16, left: nat)
    requires Clean(st.links, st.conn) && st.conn.Some? && Calm(plan, st.links.clock)
    requires 1 <= |tag| <= 255 && 38 + |Padded(tag)| + |data| <= 65535
    requires tag !in MemoryAfter(plan, st.links.log, m).tags
    requires Answers(plan, peer, Send(plan, peer, st, WriteCommand(st.session, slot, tag, typeCode, data, count), left).0.links.log, m)
    ensures var before := MemoryAfter(plan, st.links.log, m);
            var (st', r) := Send(plan, peer, st, WriteCommand(st.session, slot, tag, typeCode, data, count), left);
            && r.Ok?
            && (tag in MemoryAfter(plan, st'.links.log, m).tags <==> !before.malformed)
            && (!before.malformed ==> MemoryAfter(plan, st'.links.log, m).tags == before.tags[tag := data])
  {
    hide MemoryAfter, WriteCommand, Parse, TakeFrame, Decode, DataReply, Malformed;
    var cmd := WriteCommand(st.session, slot, tag, typeCode, data, count);
    var c := Writing(st.session, tag, typeCode, count, data, slot);
    var before := MemoryAfter(plan, st.links.log, m);
    var h := st.conn.value;
    var e := Sending(h, st.links.clock, cmd);
    WriteIsWhole(st.session, slot, tag, typeCode, data, count);
    var l := AfterTransmit(plan, peer, st.links, h, cmd);
    SendGrows(plan, peer, st, cmd, left);
    AnswersPrefix(plan, peer, l.log, Send(plan, peer, st, cmd, left).0.links.log, m);
    AnswersLast(plan, peer, st.links.log, e, m);
    MemoryMore(plan, st.links.log, e, m);
    MalformedIsTaken(FromLittle32(cmd[4..8]));
    DataReplyIsTaken(st.session);
    var reply := peer(st.links.clock);
    var bad := Malformed(FromLittle32(cmd[4..8]));
    assert |bad| == 28;
    assert reply == if before.malformed then bad else DataReply(st.session, []);
    ArrivesAlone(plan(st.links.clock), reply);
  }

  lemma ArrivesAlone(f: Fate, reply: seq<byte>)
    requires |reply| <= 46 <= f.keep
    ensures [] + Delivered(f, reply) == reply
  {
  }

  lemma DataReplyIsTaken(session: uint32)
    ensures Decode(DataReply(session, [])) == (Ok(DataReply(session, [])), [])
    ensures |DataReply(session, [])| == 46
  {
    hide Little, Little32;
    ReplyInverts(session, []);
    var s := DataReply(session, []);
    SliceOfPrefix(s, 24, 2, 4);
    assert |s| == 46 && s[2..4] == Little(22);
    LittleRoundTrip(22);
    TakenWhole(s, 22);
  }
}
