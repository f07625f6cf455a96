/** The 3E client's request cycle as a function of its state, and what it does to the word map. */
module MelsecSession {
  import opened Bytes
  import opened RegisterMap
  import opened Network
  import opened MockServer

  datatype Error = Io | TooShort | EndCode(code: uint16) | InvalidAddress | InvalidLength | UnsupportedType

  datatype Result<+T> = Ok(value: T) | Err(error: Error)

  datatype Route = Route(network: byte, station: byte, moduleIO: uint16, multidrop: byte, timer: uint16)

  datatype Config = Config(route: Route, retries: nat)

  datatype State = State(conn: Option<nat>, links: Links, memory: Memory)

  predicate Attached(st: State) {
    st.conn.Some? ==> st.conn.value in st.links.open
  }

  // ----- frames

  /** Seven bytes of subheader and route. */
  function Head(route: Route): (r: seq<byte>)
    ensures |r| == 7
  {
    [0x50, 0x00, route.network, route.station] + Little(route.moduleIO) + [route.multidrop]
  }

  function Body(route: Route, command: uint16, subcommand: uint16, payload: seq<byte>): (r: seq<byte>)
    ensures |r| == 6 + |payload|
  {
    Little(route.timer) + Little(command) + Little(subcommand) + payload
  }

  /** The length field has 16 bits, whatever the payload. */
  function Frame(route: Route, command: uint16, subcommand: uint16, payload: seq<byte>): seq<byte> {
    Head(route) + Little(Wrap16(6 + |payload|)) + Body(route, command, subcommand, payload)
  }

  /** What the client makes of its stream: head, body, end code. */
  function Decode(s: seq<byte>): (Result<seq<byte>>, seq<byte>) {
    match Take(s, 9)
    case None => (Err(Io), [])
    case Some(head) =>
      var rest := Rest(s, 9);
      var length := FromLittle(head[7..9]) as int;
      match Take(rest, length)
      case None => (Err(Io), [])
      case Some(body) =>
        (if |body| < 2 then Err(TooShort)
         else if FromLittle(body[0..2]) != 0 then Err(EndCode(FromLittle(body[0..2])))
         else Ok(body[2..]),
         Rest(rest, length))
  }

  // ----- the request cycle

  function Met(f: Fate, m: Memory): Memory {
    if f.inject.Some? then m.(fail := f.inject) else m
  }

  function Served(f: Fate, m: Memory, frame: seq<byte>): (Memory, seq<byte>) {
    if f.served then ServeStream(Met(f, m), frame) else (Met(f, m), [])
  }

  function AfterTransmit(plan: Plan, st: State, h: nat, frame: seq<byte>): State
    requires h in st.links.open
  {
    var (m, reply) := Served(plan(st.links.clock), st.memory, frame);
    st.(memory := m, links := AfterWrite(plan, st.links, h, frame, reply))
  }

  /** Close what is open. */
  function Disconnected(st: State): State {
    match st.conn
    case None => st
    case Some(h) => st.(conn := None, links := AfterClose(st.links, h))
  }

  /** reconnectLocked. */
  function Reconnected(plan: Plan, st: State): State {
    var st1 := Disconnected(st);
    st1.(conn := DialResult(plan, st1.links), links := AfterDial(plan, st1.links))
  }

  function Exchange(plan: Plan, st: State, h: nat, frame: seq<byte>): (State, Result<seq<byte>>)
    requires h in st.links.open
  {
    var st' := AfterTransmit(plan, st, h, frame);
    if !plan(st.links.clock).sent then (st', Err(Io))
    else
      var (r, rest) := Decode(st'.links.open[h]);
      (st'.(links := Unread(st'.links, h, rest)), r)
  }

  /** sendRequestOnceLocked. */
  function SendOnce(plan: Plan, st: State, frame: seq<byte>): (State, Result<seq<byte>>)
    requires Attached(st)
  {
    var st1 := if st.conn.None? then Reconnected(plan, st) else st;
    match st1.conn
    case None => (st1, Err(Io))
    case Some(h) => Exchange(plan, st1, h, frame)
  }

  /** sendRequest, with `left` attempts after the next one: every failure is followed by a reconnect. */
  function Send(plan: Plan, st: State, frame: seq<byte>, left: nat): (State, Result<seq<byte>>)
    requires Attached(st)
    decreases left
  {
    var (st1, r) := SendOnce(plan, st, frame);
    if r.Ok? then (st1, r)
    else if left == 0 then (Reconnected(plan, st1), r)
    else Send(plan, Reconnected(plan, st1), frame, left - 1)
  }

  // ----- operations

  datatype Op =
    | ReadWords(address: uint16, count: uint16)
    | WriteWords(address: uint16, values: seq<uint16>)

  function Payload(address: uint16, count: uint16, data: seq<byte>): (r: seq<byte>)
    ensures |r| == 6 + |data|
  {
    Little(address) + [0x00, DEVICE_D] + Little(count) + data
  }

  function RequestFrame(route: Route, op: Op): seq<byte> {
    match op
    case ReadWords(a, n) => Frame(route, CMD_READ, SUBCMD_WORD, Payload(a, n, []))
    case WriteWords(a, vs) => Frame(route, CMD_WRITE, SUBCMD_WORD, Payload(a, Wrap16(|vs|), PackLittle(vs)))
  }

  function Interpret(op: Op, resp: seq<byte>): Result<seq<uint16>> {
    match op
    case ReadWords(_, n) =>
      if |resp| < 2 * (n as int) then Err(TooShort) else Ok(UnpackLittle(resp[..2 * (n as int)]))
    case WriteWords(_, _) => Ok([])
  }

  /** readWords and writeWords; more than 65535 values would run past the payload buffer. */
  function Run(cfg: Config, plan: Plan, st: State, op: Op): (State, Result<seq<uint16>>)
    requires Attached(st)
  {
    if op.ReadWords? && op.count == 0 then (st, Ok([]))
    else
      var (st', r) := Send(plan, st, RequestFrame(cfg.route, op), cfg.retries);
      match r
      case Err(e) => (st', Err(e))
      case Ok(resp) => (st', Interpret(op, resp))
  }

  // ----- meaning

  function Direct(words: map<uint16, uint16>, op: Op): (map<uint16, uint16>, seq<uint16>) {
    match op
    case ReadWords(a, n) => (words, Load(words, a, n))
    case WriteWords(a, vs) => (Store(words, a, vs), [])
  }

  /** The sizes at which neither the request's nor the reply's 16-bit length field wraps. */
  predicate Fits(op: Op) {
    match op
    case ReadWords(_, n) => n <= 32766
    case WriteWords(_, vs) => |vs| <= 32761
  }

  /** Writes whose length field tells the truth; reads of any count. */
  predicate Bounded(op: Op) {
    op.WriteWords? ==> |op.values| <= 32761
  }

  /** Writes that the client can count in 16 bits; with more values it would overrun its own buffer. */
  predicate Countable(op: Op) {
    op.WriteWords? ==> |op.values| < 0x1_0000
  }

  lemma DirectTwice(words: map<uint16, uint16>, op: Op)
    requires Bounded(op)
    ensures Direct(Direct(words, op).0, op) == Direct(words, op)
  {
    if op.WriteWords? {
      StoreTwice(words, op.address, op.values);
    }
  }

  function AnswerData(words: map<uint16, uint16>, op: Op): seq<byte> {
    match op
    case ReadWords(a, n) => PackLittle(Load(words, a, n))
    case WriteWords(_, _) => []
  }

  function HeaderOf(route: Route, op: Op): (r: seq<byte>)
    ensures |r| == 9
  {
    match op
    case ReadWords(_, _) => Head(route) + Little(12)
    case WriteWords(_, vs) => Head(route) + Little(Wrap16(12 + 2 * |vs|))
  }

  function BodyOf(route: Route, op: Op): seq<byte> {
    match op
    case ReadWords(a, n) => Body(route, CMD_READ, SUBCMD_WORD, Payload(a, n, []))
    case WriteWords(a, vs) => Body(route, CMD_WRITE, SUBCMD_WORD, Payload(a, Wrap16(|vs|), PackLittle(vs)))
  }

  lemma FrameParts(route: Route, op: Op)
    ensures RequestFrame(route, op) == HeaderOf(route, op) + BodyOf(route, op)
  {
  }

  /** The server finds exactly one request in a frame that fits. */
  lemma ArrivesWhole(route: Route, op: Op)
    requires Bounded(op)
    ensures FirstRequest(RequestFrame(route, op)) == Some((HeaderOf(route, op), BodyOf(route, op)))
    ensures |RequestFrame(route, op)| == 9 + |BodyOf(route, op)|
  {
    hide Head, Body, PackLittle, Payload;
    FrameParts(route, op);
    var h, b := HeaderOf(route, op), BodyOf(route, op);
    assert h[7..9] == Little(|b|);
    assert (h + b)[7..9] == h[7..9] && (h + b)[..9] == h && (h + b)[9..9 + |b|] == b;
  }

  /** Slices of a body, whatever its parts hold. */
  lemma BodySlices(t: seq<byte>, c: seq<byte>, u: seq<byte>, a: seq<byte>, k: seq<byte>, n: seq<byte>, data: seq<byte>)
    requires |t| == |c| == |u| == |a| == |k| == |n| == 2
    ensures var b := t + c + u + (a + k + n + data);
            && b[2..4] == c && b[4..6] == u && b[9] == b[6..][3] == k[1] && b[6..][0..2] == a
            && b[10..12] == b[6..][4..6] == n && b[6..][6..] == data
  {
    var b := t + c + u + (a + k + n + data);
    assert b[6..] == a + k + n + data;
  }

  lemma BodyFields(route: Route, op: Op)
    requires Countable(op)
    ensures var b := BodyOf(route, op);
            && |b| >= 12 && FromLittle(b[4..6]) == SUBCMD_WORD
            && FromLittle(b[2..4]) == (if op.ReadWords? then CMD_READ else CMD_WRITE)
            && b[9] == b[6..][3] == DEVICE_D
            && FromLittle(b[6..][0..2]) == op.address
            && b[10..12] == b[6..][4..6] == Little(if op.ReadWords? then op.count else |op.values|)
            && (op.WriteWords? ==> b[6..][6..] == PackLittle(op.values))
  {
    hide PackLittle, Little, FromLittle;
    var n: uint16 := if op.ReadWords? then op.count else |op.values|;
    var command: uint16 := if op.ReadWords? then CMD_READ else CMD_WRITE;
    var data := if op.ReadWords? then [] else PackLittle(op.values);
    BodySlices(Little(route.timer), Little(command), Little(SUBCMD_WORD),
               Little(op.address), [0x00, DEVICE_D], Little(n), data);
    LittleRoundTrip(command);
    LittleRoundTrip(SUBCMD_WORD);
    LittleRoundTrip(op.address);
  }

  /** The server does to its map what the operation means, and answers with end code 0 and the data. */
  lemma ServerPerforms(route: Route, words: map<uint16, uint16>, op: Op)
    requires Fits(op)
    ensures Survives(BodyOf(route, op))
    ensures Process(Memory(words, None), HeaderOf(route, op), BodyOf(route, op))
         == (Memory(Direct(words, op).0, None), Reply(HeaderOf(route, op), 0, AnswerData(words, op)))
  {
    hide Body, Head, HeaderOf, BodyOf, PackLittle, Load, Store, Reply;
    BodyFields(route, op);
    var b := BodyOf(route, op);
    var data := b[6..];
    if op.WriteWords? {
      UnpackPackLittle(op.values);
      assert data[6..] == PackLittle(op.values) && |data| == 6 + 2 * |op.values|;
      assert data[6..6 + 2 * |op.values|] == PackLittle(op.values);
    }
  }

  /** A read of 32767 words has a reply with a wrapped length field; longer ones the server does not survive. */
  lemma OverlongReadIsServed(route: Route, words: map<uint16, uint16>, op: Op)
    requires op.ReadWords? && op.count > 32766
    ensures Survives(BodyOf(route, op)) <==> op.count == 32767
    ensures op.count == 32767 ==>
              Process(Memory(words, None), HeaderOf(route, op), BodyOf(route, op))
              == (Memory(words, None), Reply(HeaderOf(route, op), 0, AnswerData(words, op)))
  {
    hide Body, Head, HeaderOf, BodyOf, PackLittle, Load, Reply;
    BodyFields(route, op);
    LittleRoundTrip(op.count);
  }

  /** What the server does with the frame of an operation, all of it. */
  lemma ServedAlone(route: Route, m: Memory, op: Op)
    requires Bounded(op)
    ensures ServeStream(m, RequestFrame(route, op)) ==
      match m.fail
      case Some(c) => (m.(fail := None), Reply(HeaderOf(route, op), if c == 0 then INJECTED else c, []))
      case None =>
        if op.ReadWords? && op.count >= 0x8000 then (m, [])
        else (m.(words := Direct(m.words, op).0), Reply(HeaderOf(route, op), 0, AnswerData(m.words, op)))
  {
    hide RequestFrame, HeaderOf, BodyOf, Reply, AnswerData, Survives;
    ArrivesWhole(route, op);
    var s := RequestFrame(route, op);
    if m.fail.None? {
      if Fits(op) {
        ServerPerforms(route, m.words, op);
      } else {
        OverlongReadIsServed(route, m.words, op);
      }
    }
    if m.fail.Some? || Survives(BodyOf(route, op)) {
      var (m1, reply) := Process(m, HeaderOf(route, op), BodyOf(route, op));
      assert s[9 + |BodyOf(route, op)|..] == [];
      assert ServeStream(m1, []) == (m1, []);
      assert reply + [] == reply;
    }
  }

  // ----- replies on the stream

  lemma ReplyDecodes(header: seq<byte>, endCode: uint16, body: seq<byte>, tail: seq<byte>)
    requires |header| == 9 && |body| <= 65533
    ensures Decode(Reply(header, endCode, body) + tail)
         == (if endCode == 0 then Ok(body) else Err(EndCode(endCode)), tail)
  {
    hide Little, FromLittle;
    LittleRoundTrip(endCode);
    LittleRoundTrip(2 + |body|);
    var s := Reply(header, endCode, body) + tail;
    var inner := Little(endCode) + body;
    assert s == (Little(0xD000) + header[2..7] + Little(2 + |body|)) + (inner + tail);
    assert s[..9][7..9] == Little(2 + |body|) && s[9..] == inner + tail;
    assert (inner + tail)[..|inner|] == inner && (inner + tail)[|inner|..] == tail;
    assert inner[0..2] == Little(endCode) && inner[2..] == body;
  }

  lemma CutShort(header: seq<byte>, endCode: uint16, body: seq<byte>, n: nat)
    requires |header| == 9 && |body| <= 65533 && n < |Reply(header, endCode, body)|
    ensures Decode(Reply(header, endCode, body)[..n]).0.Err?
  {
    var s := Reply(header, endCode, body);
    assert s[7..9] == Little(2 + |body|);
    if n >= 9 {
      assert s[..n][..9] == s[..9];
      SliceOfPrefix(s, 9, 7, 9);
    }
  }

  /** Reading the answer back gives what the map says. */
  lemma AnswerMeans(words: map<uint16, uint16>, op: Op)
    requires Fits(op)
    ensures |AnswerData(words, op)| <= 65532
    ensures Interpret(op, AnswerData(words, op)) == Ok(Direct(words, op).1)
  {
    hide PackLittle, UnpackLittle, Load;
    if op.ReadWords? {
      var values := Load(words, op.address, op.count);
      UnpackPackLittle(values);
      assert PackLittle(values)[..2 * (op.count as int)] == PackLittle(values);
    }
  }

  predicate Moved(before: map<uint16, uint16>, after: map<uint16, uint16>, op: Op) {
    after == before || after == Direct(before, op).0
  }

  predicate Fair(f: Fate) {
    f.up && f.sent && f.served && f.keep >= 0x1_0000 + 9 && f.inject.None?
  }

  /** A reply with a wrapped length field looks empty, and is refused for that. */
  lemma WrappedReplyIsUnreadable(header: seq<byte>, body: seq<byte>, keep: nat)
    requires |header| == 9 && |body| == 65534
    ensures var reply := Reply(header, 0, body);
            Decode(if keep < |reply| then reply[..keep] else reply).0.Err?
  {
    var reply := Reply(header, 0, body);
    assert reply[7..9] == Little(0);
    SliceOfPrefix(reply, 9, 7, 9);
    if 9 <= keep < |reply| {
      assert reply[..keep][..9] == reply[..9];
    }
  }

  /** Whatever part of a whole reply arrives, it is read as what it says or not at all. */
  lemma ReplyArrives(f: Fate, header: seq<byte>, code: uint16, data: seq<byte>)
    requires |header| == 9 && |data| <= 65532
    ensures var reply := Reply(header, code, data);
            var (r, rest) := Decode(Delivered(f, reply));
            && (r.Ok? ==> code == 0 && r.value == data && rest == [])
            && (f.keep >= |reply| ==> r == if code == 0 then Ok(data) else Err(EndCode(code)))
            && |reply| == 11 + |data|
  {
    hide Decode;
    var reply := Reply(header, code, data);
    ReplyDecodes(header, code, data, []);
    assert reply + [] == reply;
    if f.keep < |reply| {
      CutShort(header, code, data, f.keep);
    }
  }

  /**
   * Whatever part of the server's answer arrives, it is read as the right answer or not at all, and never
   * for a read that is too long.
   */
  lemma ArrivalMeans(route: Route, f: Fate, before: Memory, op: Op)
    requires Bounded(op)
    ensures var (m, reply) := Served(f, before, RequestFrame(route, op));
            var (r, rest) := Decode(Delivered(f, reply));
            && Moved(before.words, m.words, op)
            && (r.Ok? ==> && Fits(op) && r.value == AnswerData(before.words, op) && rest == []
                          && m.words == Direct(before.words, op).0)
            && (Fair(f) ==> m.fail.None? && (Fits(op) && before.fail.None? ==> r.Ok?))
  {
    hide ServeStream, Decode, RequestFrame, HeaderOf, Reply, PackLittle;
    NothingDecodes();
    if f.served {
      var m := Met(f, before);
      ServedAlone(route, m, op);
      var header := HeaderOf(route, op);
      match m.fail
      case Some(c) => ReplyArrives(f, header, if c == 0 then INJECTED else c, []);
      case None =>
        if Fits(op) {
          AnswerMeans(m.words, op);
          ReplyArrives(f, header, 0, AnswerData(m.words, op));
        } else if op.count < 0x8000 {
          WrappedReplyIsUnreadable(header, AnswerData(m.words, op), f.keep);
        }
    }
  }

  lemma NothingDecodes()
    ensures Decode([]).0.Err?
  {
  }

  /** A reconnect leaves nothing of the old connection. */
  lemma ReconnectIsClean(plan: Plan, st: State)
    requires Holding(st.links, st.conn)
    ensures var st' := Reconnected(plan, st);
            && Clean(st'.links, st'.conn) && Attached(st') && st'.memory == st.memory
            && st'.links.clock == st.links.clock + 1 && st'.links.log == st.links.log
            && st.links.dialed <= st'.links.dialed <= st.links.dialed + 1
            && (plan(st.links.clock).up ==> st'.conn.Some?)
  {
    var st1 := Disconnected(st);
    assert st1.links.open == map[];
  }

  lemma ExchangeMeans(route: Route, plan: Plan, st: State, h: nat, op: Op)
    requires Bounded(op) && st.conn == Some(h) && Clean(st.links, st.conn)
    ensures var (st', r) := Exchange(plan, st, h, RequestFrame(route, op));
            && st'.conn == st.conn && Holding(st'.links, st'.conn)
            && Moved(st.memory.words, st'.memory.words, op)
            && st'.links.clock == st.links.clock + 1
            && (r.Ok? ==> && Fits(op) && Clean(st'.links, st'.conn)
                          && r.value == AnswerData(st.memory.words, op)
                          && st'.memory.words == Direct(st.memory.words, op).0)
            && (Fair(plan(st.links.clock)) ==> st'.memory.fail.None? && (Fits(op) && st.memory.fail.None? ==> r.Ok?))
  {
    hide Decode, RequestFrame, Direct, AnswerData, ServeStream;
    var f := plan(st.links.clock);
    ArrivalMeans(route, f, st.memory, op);
    var (m, reply) := Served(f, st.memory, RequestFrame(route, op));
    assert st.links.open[h] + Delivered(f, reply) == Delivered(f, reply);
  }

  lemma AttemptMeans(route: Route, plan: Plan, st: State, op: Op)
    requires Bounded(op) && Clean(st.links, st.conn)
    ensures var (st', r) := SendOnce(plan, st, RequestFrame(route, op));
            && Attached(st') && Holding(st'.links, st'.conn)
            && st'.links.clock > st.links.clock
            && Moved(st.memory.words, st'.memory.words, op)
            && (r.Ok? ==> && Fits(op) && Clean(st'.links, st'.conn)
                          && r.value == AnswerData(st.memory.words, op)
                          && st'.memory.words == Direct(st.memory.words, op).0)
            && ((forall t :: t >= st.links.clock ==> Fair(plan(t))) ==>
                  st'.memory.fail.None? && (Fits(op) && st.memory.fail.None? ==> r.Ok?))
  {
    hide RequestFrame, Direct, AnswerData, Exchange;
    var st1 := st;
    if st.conn.None? {
      ReconnectIsClean(plan, st);
      st1 := Reconnected(plan, st);
    }
    if st1.conn.Some? {
      ExchangeMeans(route, plan, st1, st1.conn.value, op);
    }
    if forall t :: t >= st.links.clock ==> Fair(plan(t)) {
      assert Fair(plan(st.links.clock)) && Fair(plan(st1.links.clock));
    }
  }

  lemma {:induction false} SendMeans(route: Route, plan: Plan, st: State, op: Op, left: nat)
    requires Bounded(op) && Clean(st.links, st.conn)
    ensures var (st', r) := Send(plan, st, RequestFrame(route, op), left);
            && Clean(st'.links, st'.conn)
            && Moved(st.memory.words, st'.memory.words, op)
            && (r.Ok? ==> && Interpret(op, r.value) == Ok(Direct(st.memory.words, op).1)
                          && st'.memory.words == Direct(st.memory.words, op).0)
    decreases left
  {
    hide RequestFrame, Direct, AnswerData, Interpret, SendOnce;
    var (st1, r) := SendOnce(plan, st, RequestFrame(route, op));
    AttemptMeans(route, plan, st, op);
    if Fits(op) {
      AnswerMeans(st.memory.words, op);
    }
    DirectTwice(st.memory.words, op);
    if r.Err? {
      ReconnectIsClean(plan, st1);
      if left > 0 {
        SendMeans(route, plan, Reconnected(plan, st1), op, left - 1);
      }
    }
  }

  /**
   * A call did what it should: success means the map is as after exactly one such operation and a read
   * returned what the map held; failure means that a write has been done completely or not at all. Either
   * way at most one connection is open, and it is quiet.
   */
  predicate Faithful(cfg: Config, plan: Plan, st: State, op: Op)
    requires Attached(st)
  {
    var (st', r) := Run(cfg, plan, st, op);
    && Clean(st'.links, st'.conn)
    && (r.Ok? ==> && r.value == Direct(st.memory.words, op).1
                  && st'.memory.words == Direct(st.memory.words, op).0)
    && (r.Err? ==> Moved(st.memory.words, st'.memory.words, op))
  }

  /**
   * Retries do not change what an operation means, under every schedule of lost requests, lost and cut
   * replies, refused connections and injected end codes: for every read, and for every write of at most
   * 32761 words. MelsecBounds.MeaningIsExact says that this bound is exact.
   */
  lemma OperationMeans(cfg: Config, plan: Plan, st: State, op: Op)
    requires Bounded(op) && Clean(st.links, st.conn)
    ensures Faithful(cfg, plan, st, op)
  {
    hide RequestFrame, Send;
    SendMeans(cfg.route, plan, st, op, cfg.retries);
    var (st', r) := Send(plan, st, RequestFrame(cfg.route, op), cfg.retries);
    assert r.Ok? && Run(cfg, plan, st, op).0 != st ==> Run(cfg, plan, st, op) == (st', Interpret(op, r.value));
  }

  /** The plain map, where `took` says which of the operations had an effect. */
  function Replay(words: map<uint16, uint16>, ops: seq<Op>, took: seq<bool>): map<uint16, uint16>
    requires |ops| == |took|
    decreases |ops|
  {
    if ops == [] then words
    else Replay(if took[0] then Direct(words, ops[0]).0 else words, ops[1..], took[1..])
  }

  /** Every success is an operation that took effect and returned what the map said at that point. */
  predicate Explains(words: map<uint16, uint16>, ops: seq<Op>, took: seq<bool>, results: seq<Result<seq<uint16>>>)
    requires |ops| == |took| == |results|
    decreases |ops|
  {
    ops == [] ||
    (&& (results[0].Ok? ==> took[0] && results[0].value == Direct(words, ops[0]).1)
     && Explains(if took[0] then Direct(words, ops[0]).0 else words, ops[1..], took[1..], results[1..]))
  }

  function RunAll(cfg: Config, plan: Plan, st: State, ops: seq<Op>): (State, seq<Result<seq<uint16>>>)
    requires Clean(st.links, st.conn) && forall k :: 0 <= k < |ops| ==> Bounded(ops[k])
    decreases |ops|
  {
    if ops == [] then (st, [])
    else
      var (st1, r) := Run(cfg, plan, st, ops[0]);
      OperationMeans(cfg, plan, st, ops[0]);
      var (st2, rs) := RunAll(cfg, plan, st1, ops[1..]);
      (st2, [r] + rs)
  }

  /** Every run is a run on a plain map in which each operation took effect once or, if it failed, perhaps not. */
  lemma {:induction false} RunIsSequential(cfg: Config, plan: Plan, st: State, ops: seq<Op>) returns (took: seq<bool>)
    requires Clean(st.links, st.conn) && forall k :: 0 <= k < |ops| ==> Bounded(ops[k])
    ensures |took| == |ops|
    ensures var (st', rs) := RunAll(cfg, plan, st, ops);
            && |rs| == |ops| && Clean(st'.links, st'.conn)
            && st'.memory.words == Replay(st.memory.words, ops, took)
            && Explains(st.memory.words, ops, took, rs)
    decreases |ops|
  {
    hide Run, Direct, Bounded;
    took := [];
    if ops != [] {
      OperationMeans(cfg, plan, st, ops[0]);
      var (st1, r) := Run(cfg, plan, st, ops[0]);
      var more := RunIsSequential(cfg, plan, st1, ops[1..]);
      took := [st1.memory.words == Direct(st.memory.words, ops[0]).0] + more;
      assert took[1..] == more;
    }
  }

  /** If the environment becomes fair by tick `calm`, a call whose retries reach that far succeeds. */
  lemma {:induction false} RetriesOutlastTrouble(
    route: Route, plan: Plan, st: State, op: Op, calm: nat, left: nat)
    requires Fits(op) && Clean(st.links, st.conn)
    requires forall t :: t >= calm ==> Fair(plan(t))
    requires (left > 0 && calm < st.links.clock + left) || (calm <= st.links.clock && st.memory.fail.None?)
    ensures Send(plan, st, RequestFrame(route, op), left).1.Ok?
    decreases left
  {
    hide RequestFrame, SendOnce;
    var (st1, r) := SendOnce(plan, st, RequestFrame(route, op));
    AttemptMeans(route, plan, st, op);
    if r.Err? {
      ReconnectIsClean(plan, st1);
      RetriesOutlastTrouble(route, plan, Reconnected(plan, st1), op, calm, left - 1);
    }
  }

  /** A call writes at most once and dials at most twice per attempt, and leaves at most one connection open. */
  lemma {:induction false} EffortIsBounded(plan: Plan, st: State, frame: seq<byte>, left: nat)
    requires Holding(st.links, st.conn)
    ensures var (st', r) := Send(plan, st, frame, left);
            && Holding(st'.links, st'.conn)
            && (r.Err? ==> Clean(st'.links, st'.conn))
            && |st.links.log| <= |st'.links.log| <= |st.links.log| + left + 1
            && st.links.dialed <= st'.links.dialed <= st.links.dialed + 2 * (left + 1)
    decreases left
  {
    hide SendOnce;
    AttemptEffort(plan, st, frame);
    var (st1, r) := SendOnce(plan, st, frame);
    if r.Err? {
      ReconnectIsClean(plan, st1);
      if left > 0 {
        EffortIsBounded(plan, Reconnected(plan, st1), frame, left - 1);
      }
    }
  }

  lemma AttemptEffort(plan: Plan, st: State, frame: seq<byte>)
    requires Holding(st.links, st.conn)
    ensures var (st', r) := SendOnce(plan, st, frame);
            && Attached(st') && Holding(st'.links, st'.conn)
            && |st.links.log| <= |st'.links.log| <= |st.links.log| + 1
            && st.links.dialed <= st'.links.dialed <= st.links.dialed + 1
  {
    hide Decode, ServeStream, Reconnected;
    if st.conn.None? {
      ReconnectIsClean(plan, st);
    }
  }

  // ----- connections over whole lives of a client

  datatype Call = Open | Close | Request(frame: seq<byte>)

  /** Open, Close, and a request with any frame at all. */
  function Called(plan: Plan, st: State, call: Call, retries: nat): State
    requires Attached(st)
  {
    match call
    case Open => Reconnected(plan, st)
    case Close => Disconnected(st)
    case Request(frame) => Send(plan, st, frame, retries).0
  }

  lemma CallHolds(plan: Plan, st: State, call: Call, retries: nat)
    requires Holding(st.links, st.conn)
    ensures var st' := Called(plan, st, call, retries); Holding(st'.links, st'.conn)
    ensures call.Close? ==> Called(plan, st, call, retries).conn == None
    ensures call.Open? ==>
              Called(plan, st, call, retries).conn == if plan(st.links.clock).up then Some(st.links.dialed) else None
  {
    hide Send;
    match call
    case Open => ReconnectIsClean(plan, st);
    case Close =>
    case Request(frame) => EffortIsBounded(plan, st, frame, retries);
  }

  function Life(plan: Plan, st: State, calls: seq<Call>, retries: nat): State
    requires Holding(st.links, st.conn)
    decreases |calls|
  {
    if calls == [] then st
    else
      CallHolds(plan, st, calls[0], retries);
      Life(plan, Called(plan, st, calls[0], retries), calls[1..], retries)
  }

  /** Connections are conserved: those dialled and not closed are the one the client holds, or none. */
  lemma {:induction false} ConnectionsAreConserved(plan: Plan, st: State, calls: seq<Call>, retries: nat)
    requires Holding(st.links, st.conn)
    ensures var st' := Life(plan, st, calls, retries);
            st'.links.open.Keys == (match st'.conn case None => {} case Some(h) => {h})
    decreases |calls|
  {
    hide Called;
    if calls != [] {
      CallHolds(plan, st, calls[0], retries);
      ConnectionsAreConserved(plan, Called(plan, st, calls[0], retries), calls[1..], retries);
    }
  }
}
