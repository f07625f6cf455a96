/** The Allen-Bradley client's connection life cycle, against a peer that may answer anything. */
module AllenBradleySession {
  import opened Bytes
  import opened Network

  datatype Error = Io | BadSession

  datatype Result<+T> = Ok(value: T) | Err(error: Error)

  /** What the peer sends back to the write at each tick. */
  type Peer = nat -> seq<byte>

  datatype State = State(conn: Option<nat>, session: uint32, links: Links)

  predicate Attached(st: State) {
    st.conn.Some? ==> st.conn.value in st.links.open
  }

  const REGISTER: seq<byte> :=
    [0x65, 0x00, 0x04, 0x00,
     0x00, 0x00, 0x00, 0x00, 0x00, 0x00, 0x00, 0x00, 0x00, 0x00,
     0x00, 0x00, 0x00, 0x00, 0x00, 0x00, 0x00, 0x00, 0x00, 0x00,
     0x01, 0x00, 0x00, 0x00]

  function AfterTransmit(plan: Plan, peer: Peer, l: Links, h: nat, frame: seq<byte>): Links
    requires h in l.open
  {
    AfterWrite(plan, l, h, frame, if plan(l.clock).served then peer(l.clock) else [])
  }

  /** registerSessionLocked. */
  function Registered(plan: Plan, peer: Peer, st: State, h: nat): (State, Result<()>)
    requires h in st.links.open
  {
    var l := AfterTransmit(plan, peer, st.links, h, REGISTER);
    var s := l.open[h];
    if !plan(st.links.clock).sent then (st.(links := l), Err(Io))
    else match Take(s, 28)
         case None => (st.(links := Unread(l, h, [])), Err(Io))
         case Some(resp) =>
           var session := FromLittle32(resp[4..8]);
           (st.(links := Unread(l, h, Rest(s, 28)), session := session),
            if session == 0 then Err(BadSession) else Ok(()))
  }

  /** ensureConnLocked: a new connection is registered at once. */
  function Ensured(plan: Plan, peer: Peer, st: State): (State, Result<()>) {
    if st.conn.Some? then (st, Ok(()))
    else
      var st1 := st.(conn := DialResult(plan, st.links), links := AfterDial(plan, st.links));
      match st1.conn
      case None => (st1, Err(Io))
      case Some(h) => Registered(plan, peer, st1, h)
  }

  function Decode(s: seq<byte>): (Result<seq<byte>>, seq<byte>) {
    match Take(s, 24)
    case None => (Err(Io), [])
    case Some(head) =>
      var rest := Rest(s, 24);
      var n := FromLittle(head[2..4]) as int;
      match Take(rest, n)
      case None => (Err(Io), [])
      case Some(content) => (Ok(head + content), Rest(rest, n))
  }

  /** sendCommandOnceLocked. */
  function SendOnce(plan: Plan, peer: Peer, st: State, cmd: seq<byte>): (State, Result<seq<byte>>)
    requires Attached(st)
  {
    var (st1, ok) := Ensured(plan, peer, st);
    match ok
    case Err(e) => (st1, Err(e))
    case Ok(_) =>
      var h := st1.conn.value;
      var l := AfterTransmit(plan, peer, st1.links, h, cmd);
      if !plan(st1.links.clock).sent then (st1.(links := l), Err(Io))
      else
        var (r, rest) := Decode(l.open[h]);
        (st1.(links := Unread(l, h, rest)), r)
  }

  /** closeLocked. */
  function Disconnected(st: State): State {
    match st.conn
    case None => st
    case Some(h) => st.(conn := None, session := 0, links := AfterClose(st.links, h))
  }

  /** sendCommand, with `left` attempts after the next one. */
  function Send(plan: Plan, peer: Peer, st: State, cmd: seq<byte>, left: nat): (State, Result<seq<byte>>)
    requires Attached(st)
    decreases left
  {
    var (st1, r) := SendOnce(plan, peer, st, cmd);
    if r.Ok? then (st1, r)
    else if left == 0 then (Disconnected(st1), r)
    else Send(plan, peer, Disconnected(st1), cmd, left - 1)
  }

  /** The part of Open and of a failed registration that closes without forgetting the session. */
  function Dropped(st: State): State {
    match st.conn
    case None => st
    case Some(h) => st.(conn := None, links := AfterClose(st.links, h))
  }

  function Opened(plan: Plan, peer: Peer, st: State): (State, Result<()>) {
    var (st1, r) := Ensured(plan, peer, Dropped(st));
    (if r.Ok? then st1 else Dropped(st1), r)
  }

  function Closed(st: State): State {
    Dropped(st).(session := 0)
  }

  // ----- what travels on a connection

  /** Everything written on connection h, in order. */
  function Trace(log: seq<Sending>, h: nat): seq<Sending> {
    if log == [] then []
    else
      var n := |log| - 1;
      Trace(log[..n], h) + if log[n].conn == h then [log[n]] else []
  }

  lemma TraceMore(log: seq<Sending>, e: Sending, k: nat)
    ensures Trace(log + [e], k) == Trace(log, k) + (if e.conn == k then [e] else [])
  {
    assert (log + [e])[..|log|] == log;
  }

  /** Encapsulated commands start with 0x6F; registrations with 0x65. */
  predicate IsCommand(frame: seq<byte>) {
    frame != [] && frame[0] == 0x6F
  }

  /** What reaches the client of the peer's answer to the write at tick t. */
  function Arrived(plan: Plan, peer: Peer, t: nat): seq<byte> {
    Delivered(plan(t), if plan(t).served then peer(t) else [])
  }

  /** The session in the answer to the write at tick t, or 0. */
  function Given(plan: Plan, peer: Peer, t: nat): uint32 {
    if |Arrived(plan, peer, t)| < 28 then 0 else FromLittle32(Arrived(plan, peer, t)[4..8])
  }

  /** This very write got through, and the answer to it, as far as it arrived, gave a session. */
  predicate Granted(plan: Plan, peer: Peer, e: Sending) {
    plan(e.tick).sent && plan(e.tick).served && Given(plan, peer, e.tick) != 0
  }

  /** Nothing, or one registration, followed by commands only if it was granted, and only later. */
  predicate Orderly(plan: Plan, peer: Peer, l: Links, h: nat) {
    var t := Trace(l.log, h);
    t == [] || (&& t[0].frame == REGISTER && t[0].tick < l.clock
                && (forall k :: 1 <= k < |t| ==> IsCommand(t[k].frame) && t[0].tick < t[k].tick)
                && (|t| > 1 ==> Granted(plan, peer, t[0])))
  }

  /** The registration on h was granted, with this session. */
  predicate Enrolled(plan: Plan, peer: Peer, log: seq<Sending>, h: nat, session: uint32) {
    var t := Trace(log, h);
    t != [] && Granted(plan, peer, t[0]) && session == Given(plan, peer, t[0].tick)
  }

  /** What holds at every moment. */
  ghost predicate Sound(plan: Plan, peer: Peer, st: State) {
    && (forall h: nat :: Orderly(plan, peer, st.links, h))
    && (forall h: nat :: Trace(st.links.log, h) != [] ==> h < st.links.dialed)
    && (forall h :: h in st.links.open ==> h < st.links.dialed)
    && st.links.open.Keys == (match st.conn case None => {} case Some(h) => {h})
  }

  /** What holds whenever the mutex is free: an open connection is enrolled, and its session is current. */
  ghost predicate Inv(plan: Plan, peer: Peer, st: State) {
    && Sound(plan, peer, st)
    && (st.conn.Some? ==> Enrolled(plan, peer, st.links.log, st.conn.value, st.session))
  }

  lemma TransmitKeeps(plan: Plan, peer: Peer, st: State, h: nat, frame: seq<byte>)
    requires Sound(plan, peer, st) && st.conn == Some(h)
    requires var t := Trace(st.links.log, h);
             if frame == REGISTER then t == [] else IsCommand(frame) && t != [] && Granted(plan, peer, t[0])
    ensures var st' := st.(links := AfterTransmit(plan, peer, st.links, h, frame));
            && Sound(plan, peer, st') && st'.links.dialed == st.links.dialed
            && Trace(st'.links.log, h) == Trace(st.links.log, h) + [Sending(h, st.links.clock, frame)]
  {
    hide Trace, Granted;
    var st' := st.(links := AfterTransmit(plan, peer, st.links, h, frame));
    var e := Sending(h, st.links.clock, frame);
    assert st'.links.log == st.links.log + [e];
    forall k: nat
      ensures Orderly(plan, peer, st'.links, k) && (k != h ==> Trace(st'.links.log, k) == Trace(st.links.log, k))
    {
      TraceMore(st.links.log, e, k);
      assert Orderly(plan, peer, st.links, k);
    }
    TraceMore(st.links.log, e, h);
  }

  /** A registration that succeeds was granted by the answer to its own write. */
  lemma RegisterIsAnswered(plan: Plan, peer: Peer, st: State, h: nat)
    requires h in st.links.open && st.links.open[h] == []
    ensures var (st', r) := Registered(plan, peer, st, h);
            r.Ok? ==> && Granted(plan, peer, Sending(h, st.links.clock, REGISTER))
                      && st'.session == Given(plan, peer, st.links.clock)
  {
    var (st', r) := Registered(plan, peer, st, h);
    if r.Ok? {
      var got := Arrived(plan, peer, st.links.clock);
      assert AfterTransmit(plan, peer, st.links, h, REGISTER).open[h] == [] + got == got;
      SliceOfPrefix(got, 28, 4, 8);
    }
  }

  lemma RegisterFrame(plan: Plan, peer: Peer, st: State, h: nat)
    requires h in st.links.open
    ensures var (st', r) := Registered(plan, peer, st, h);
            var l := AfterTransmit(plan, peer, st.links, h, REGISTER);
            && st'.conn == st.conn && st'.links.log == l.log && st'.links.dialed == l.dialed
            && st'.links.clock == l.clock && st'.links.open.Keys == l.open.Keys
  {
    hide REGISTER;
  }

  lemma RegisterKeeps(plan: Plan, peer: Peer, st: State, h: nat)
    requires Sound(plan, peer, st) && st.conn == Some(h) && Trace(st.links.log, h) == [] && st.links.open[h] == []
    ensures var (st', r) := Registered(plan, peer, st, h);
            Sound(plan, peer, st') && st'.conn == st.conn && (r.Ok? ==> Inv(plan, peer, st'))
            && |st'.links.log| == |st.links.log| + 1 && st'.links.dialed == st.links.dialed
  {
    hide Trace, Granted, Registered, REGISTER;
    TransmitKeeps(plan, peer, st, h, REGISTER);
    RegisterIsAnswered(plan, peer, st, h);
    RegisterFrame(plan, peer, st, h);
    var st1 := st.(links := AfterTransmit(plan, peer, st.links, h, REGISTER));
    var (st', r) := Registered(plan, peer, st, h);
    forall k: nat ensures Orderly(plan, peer, st'.links, k) {
      assert Orderly(plan, peer, st1.links, k);
    }
  }

  lemma EnsureKeeps(plan: Plan, peer: Peer, st: State)
    requires Inv(plan, peer, st)
    ensures var (st', r) := Ensured(plan, peer, st);
            Sound(plan, peer, st') && (r.Ok? ==> Inv(plan, peer, st') && st'.conn.Some?) && Attached(st')
            && |st'.links.log| <= |st.links.log| + 1 && st'.links.dialed <= st.links.dialed + 1
  {
    hide Trace, Registered;
    if st.conn.None? {
      var st1 := st.(conn := DialResult(plan, st.links), links := AfterDial(plan, st.links));
      forall k ensures Orderly(plan, peer, st1.links, k) {
        assert Orderly(plan, peer, st.links, k);
      }
      if st1.conn.Some? {
        RegisterKeeps(plan, peer, st1, st1.conn.value);
      }
    }
  }

  lemma DropKeeps(plan: Plan, peer: Peer, st: State)
    requires Sound(plan, peer, st)
    ensures Inv(plan, peer, Dropped(st)) && Inv(plan, peer, Disconnected(st)) && Dropped(st).conn == None
  {
    hide Trace;
    forall k ensures Orderly(plan, peer, Dropped(st).links, k) && Orderly(plan, peer, Disconnected(st).links, k) {
      assert Orderly(plan, peer, st.links, k);
    }
  }

  lemma AttemptKeeps(plan: Plan, peer: Peer, st: State, cmd: seq<byte>)
    requires Inv(plan, peer, st) && IsCommand(cmd)
    ensures var (st', r) := SendOnce(plan, peer, st, cmd);
            Sound(plan, peer, st') && Attached(st') && (r.Ok? ==> Inv(plan, peer, st'))
            && |st'.links.log| <= |st.links.log| + 2 && st'.links.dialed <= st.links.dialed + 1
  {
    hide Trace, Ensured, Decode;
    EnsureKeeps(plan, peer, st);
    var (st1, ok) := Ensured(plan, peer, st);
    if ok.Ok? {
      var h := st1.conn.value;
      TransmitKeeps(plan, peer, st1, h, cmd);
      var st2 := st1.(links := AfterTransmit(plan, peer, st1.links, h, cmd));
      var st' := SendOnce(plan, peer, st, cmd).0;
      assert st'.links.log == st2.links.log && st'.links.clock == st2.links.clock;
      forall k ensures Orderly(plan, peer, st'.links, k) {
        assert Orderly(plan, peer, st2.links, k);
      }
    }
  }

  lemma {:induction false} SendKeeps(plan: Plan, peer: Peer, st: State, cmd: seq<byte>, left: nat)
    requires Inv(plan, peer, st) && IsCommand(cmd)
    ensures var (st', r) := Send(plan, peer, st, cmd, left);
            && Inv(plan, peer, st') && (r.Err? ==> st'.conn == None)
            && |st'.links.log| <= |st.links.log| + 2 * (left + 1)
            && st'.links.dialed <= st.links.dialed + left + 1
    decreases left
  {
    hide Orderly, Trace, SendOnce;
    AttemptKeeps(plan, peer, st, cmd);
    var (st1, r) := SendOnce(plan, peer, st, cmd);
    if r.Err? {
      DropKeeps(plan, peer, st1);
      assert Disconnected(st1).links.log == st1.links.log && Disconnected(st1).links.dialed == st1.links.dialed;
      if left > 0 {
        SendKeeps(plan, peer, Disconnected(st1), cmd, left - 1);
      }
    }
  }

  // ----- whole runs

  datatype Call = Open | Close | Command(frame: seq<byte>)

  function Next(plan: Plan, peer: Peer, st: State, call: Call, retries: nat): State
    requires Attached(st)
  {
    match call
    case Open => Opened(plan, peer, st).0
    case Close => Closed(st)
    case Command(frame) => Send(plan, peer, st, frame, retries).0
  }

  lemma CallKeeps(plan: Plan, peer: Peer, st: State, call: Call, retries: nat)
    requires Inv(plan, peer, st) && (call.Command? ==> IsCommand(call.frame))
    ensures Inv(plan, peer, Next(plan, peer, st, call, retries))
    ensures call.Close? ==> Next(plan, peer, st, call, retries).conn == None && Next(plan, peer, st, call, retries).session == 0
  {
    hide Sound, Ensured, Send;
    DropKeeps(plan, peer, st);
    match call
    case Open =>
      EnsureKeeps(plan, peer, Dropped(st));
      DropKeeps(plan, peer, Ensured(plan, peer, Dropped(st)).0);
    case Close => CloseForgets(plan, peer, Dropped(st));
    case Command(frame) => SendKeeps(plan, peer, st, frame, retries);
  }

  lemma CloseForgets(plan: Plan, peer: Peer, st: State)
    requires Inv(plan, peer, st) && st.conn == None
    ensures Inv(plan, peer, st.(session := 0))
  {
    forall k ensures Orderly(plan, peer, st.(session := 0).links, k) {
      assert Orderly(plan, peer, st.links, k);
    }
  }

  predicate Commands(calls: seq<Call>) {
    forall k :: 0 <= k < |calls| && calls[k].Command? ==> IsCommand(calls[k].frame)
  }

  function After(plan: Plan, peer: Peer, st: State, calls: seq<Call>, retries: nat): State
    requires Inv(plan, peer, st) && Commands(calls)
    decreases |calls|
  {
    if calls == [] then st
    else
      CallKeeps(plan, peer, st, calls[0], retries);
      After(plan, peer, Next(plan, peer, st, calls[0], retries), calls[1..], retries)
  }

  const INITIAL := State(None, 0, Links(map[], 0, 0, []))

  lemma InitialHolds(plan: Plan, peer: Peer)
    ensures Inv(plan, peer, INITIAL)
  {
  }

  /** A run from a new client. */
  function Outcome(plan: Plan, peer: Peer, calls: seq<Call>, retries: nat): State
    requires Commands(calls)
  {
    InitialHolds(plan, peer);
    After(plan, peer, INITIAL, calls, retries)
  }

  lemma {:induction false} RunKeeps(plan: Plan, peer: Peer, st: State, calls: seq<Call>, retries: nat)
    requires Inv(plan, peer, st) && Commands(calls)
    ensures Inv(plan, peer, After(plan, peer, st, calls, retries))
    decreases |calls|
  {
    hide Orderly, Trace, Next;
    if calls != [] {
      CallKeeps(plan, peer, st, calls[0], retries);
      RunKeeps(plan, peer, Next(plan, peer, st, calls[0], retries), calls[1..], retries);
    }
  }

  /**
   * Register before command: in every run, against every peer and under every failure, what was written on
   * a connection is nothing, or one registration, or one registration followed by commands. There are
   * commands only if that registration was delivered and the answer to it, as it arrived, gave a nonzero
   * session, and they were all written later. Between calls an open connection is enrolled in this way, and
   * the session it was given is the current one.
   */
  lemma RegisterBeforeCommand(plan: Plan, peer: Peer, calls: seq<Call>, retries: nat, h: nat)
    requires Commands(calls)
    ensures var st := Outcome(plan, peer, calls, retries);
            var t := Trace(st.links.log, h);
            && (t != [] ==> t[0].frame == REGISTER)
            && (forall k :: 1 <= k < |t| ==>
                  && IsCommand(t[k].frame)
                  && plan(t[0].tick).sent && plan(t[0].tick).served
                  && Given(plan, peer, t[0].tick) != 0
                  && t[0].tick < t[k].tick)
            && (st.conn == Some(h) ==>
                  && t != [] && plan(t[0].tick).sent && plan(t[0].tick).served
                  && st.session == Given(plan, peer, t[0].tick) != 0)
            && st.links.open.Keys == (match st.conn case None => {} case Some(c) => {c})
  {
    hide Trace, Given;
    InitialHolds(plan, peer);
    RunKeeps(plan, peer, INITIAL, calls, retries);
    var st := Outcome(plan, peer, calls, retries);
    assert Orderly(plan, peer, st.links, h);
  }
}
