/** Many callers sharing one Modbus client, with the device and its memory at the other end: linearizability. */
module SharedClient {
  import opened Bytes
  import opened Replies
  import opened ModbusDevice
  import opened ModbusSession
  import O = OwnReply

  /** A call that is over: whether it took effect, and what its caller was told. */
  datatype Call = Call(id: nat, op: Op, took: bool, result: Result<seq<uint16>>)

  /**
   * `base` is the device's data when the holder of the mutex acquired it; `history` are the calls that are
   * over, in the order in which they held the mutex.
   */
  datatype Sys = Sys(client: O.Sys, memory: Memory, base: Data, history: seq<Call>)

  /** The device serves the oldest pending request; anybody may ask it for an exception. */
  datatype Step = Client(step: O.Step) | Serve | Inject(code: (byte, byte))

  function Start(m: Memory): Sys {
    Sys(O.INITIAL, m, m.data, [])
  }

  function Served(s: Sys, op: Op): (Memory, seq<byte>)
    requires s.memory.fail.None? ==> Indexable(Pdu(op))
  {
    Apply(s.memory, Pdu(op))
  }

  predicate Enabled(cfg: Config, s: Sys, step: Step) {
    match step
    case Client(c) => !c.Answer? && O.Enabled(cfg, s.client, c)
    case Serve =>
      && s.client.conn.Some? && s.client.conn.value.pending != []
      && (var op := s.client.conn.value.pending[0].op;
          && (s.memory.fail.None? ==> Indexable(Pdu(op)))
          && O.Enabled(cfg, s.client, O.Answer(Served(s, op).1)))
    case Inject(_) => true
  }

  /** What the caller of a call that has just ended was told. */
  function Told(before: O.Sys, after: O.Sys): Result<seq<uint16>> {
    if |after.done| > |before.done| then Ok(after.done[|after.done| - 1].words) else Err(Io)
  }

  function Next(cfg: Config, s: Sys, step: Step): Sys
    requires Enabled(cfg, s, step)
  {
    match step
    case Client(c) =>
      var client := O.Next(cfg, s.client, c);
      s.(client := client,
         base := if c.Acquire? then s.memory.data else s.base,
         history :=
           if s.client.mutex.Some? && client.mutex.None? then
             var job := s.client.mutex.value;
             s.history + [Call(job.call, job.op, s.memory.data == Direct(s.base, job.op).0, Told(s.client, client))]
           else s.history)
    case Serve =>
      var (m, reply) := Served(s, s.client.conn.value.pending[0].op);
      s.(client := O.Next(cfg, s.client, O.Answer(reply)), memory := m)
    case Inject(code) => s.(memory := s.memory.(fail := Some(code)))
  }

  predicate ValidRun(cfg: Config, s: Sys, steps: seq<Step>)
    decreases |steps|
  {
    steps == [] || (Enabled(cfg, s, steps[0]) && ValidRun(cfg, Next(cfg, s, steps[0]), steps[1..]))
  }

  function After(cfg: Config, s: Sys, steps: seq<Step>): Sys
    requires ValidRun(cfg, s, steps)
    decreases |steps|
  {
    if steps == [] then s else After(cfg, Next(cfg, s, steps[0]), steps[1..])
  }

  predicate StepContained(cfg: Config, step: Step) {
    step.Client? && step.step.Acquire? ==> Contained(cfg, step.step.op)
  }

  predicate AllContained(cfg: Config, steps: seq<Step>) {
    forall k :: 0 <= k < |steps| ==> StepContained(cfg, steps[k])
  }

  // ----- histories

  function Ops(h: seq<Call>): (r: seq<Op>)
    ensures |r| == |h|
  {
    seq(|h|, k requires 0 <= k < |h| => h[k].op)
  }

  function Tooks(h: seq<Call>): (r: seq<bool>)
    ensures |r| == |h|
  {
    seq(|h|, k requires 0 <= k < |h| => h[k].took)
  }

  function Results(h: seq<Call>): (r: seq<Result<seq<uint16>>>)
    ensures |r| == |h|
  {
    seq(|h|, k requires 0 <= k < |h| => h[k].result)
  }

  /** The plain map after the calls of a history, each at once. */
  function Final(d: Data, h: seq<Call>): Data {
    Replay(d, Ops(h), Tooks(h))
  }

  /** Every call that succeeded took effect and returned what the plain map held at its place. */
  predicate Legal(d: Data, h: seq<Call>) {
    Explains(d, Ops(h), Tooks(h), Results(h))
  }

  lemma {:induction false} ReplayMore(d: Data, ops: seq<Op>, took: seq<bool>, op: Op, t: bool)
    requires |ops| == |took|
    ensures Replay(d, ops + [op], took + [t]) ==
            var e := Replay(d, ops, took); if t then Direct(e, op).0 else e
    decreases |ops|
  {
    hide Direct;
    if ops == [] {
      assert [op][1..] == [] && [t][1..] == [];
      assert ops + [op] == [op] && took + [t] == [t];
    } else {
      assert (ops + [op])[1..] == ops[1..] + [op] && (took + [t])[1..] == took[1..] + [t];
      ReplayMore(if took[0] then Direct(d, ops[0]).0 else d, ops[1..], took[1..], op, t);
    }
  }

  lemma {:induction false} ExplainsMore(
    d: Data, ops: seq<Op>, took: seq<bool>, rs: seq<Result<seq<uint16>>>, op: Op, t: bool, r: Result<seq<uint16>>)
    requires |ops| == |took| == |rs| && Explains(d, ops, took, rs)
    requires r.Ok? ==> t && r.value == Direct(Replay(d, ops, took), op).1
    ensures Explains(d, ops + [op], took + [t], rs + [r])
    decreases |ops|
  {
    hide Direct;
    if ops == [] {
      assert ops + [op] == [op] && took + [t] == [t] && rs + [r] == [r];
      assert Explains(if t then Direct(d, op).0 else d, [op][1..], [t][1..], [r][1..]);
    } else {
      assert (ops + [op])[1..] == ops[1..] + [op] && (took + [t])[1..] == took[1..] + [t];
      assert (rs + [r])[1..] == rs[1..] + [r];
      ExplainsMore(if took[0] then Direct(d, ops[0]).0 else d, ops[1..], took[1..], rs[1..], op, t, r);
    }
  }

  lemma HistoryMore(d: Data, h: seq<Call>, c: Call)
    requires Legal(d, h)
    requires c.result.Ok? ==> c.took && c.result.value == Direct(Final(d, h), c.op).1
    ensures Legal(d, h + [c])
    ensures Final(d, h + [c]) == if c.took then Direct(Final(d, h), c.op).0 else Final(d, h)
  {
    hide Direct, Replay, Explains;
    assert Ops(h + [c]) == Ops(h) + [c.op] && Tooks(h + [c]) == Tooks(h) + [c.took];
    assert Results(h + [c]) == Results(h) + [c.result];
    ReplayMore(d, Ops(h), Tooks(h), c.op, c.took);
    ExplainsMore(d, Ops(h), Tooks(h), Results(h), c.op, c.took, c.result);
  }

  // ----- the invariant

  /** If this answer is a good one, the device has done the operation, and the answer carries its result. */
  predicate Backed(s: Sys, op: Op, reply: seq<byte>) {
    Classify(reply).Ok? && Answerable(op) ==>
      s.memory.data == Direct(s.base, op).0 && Interpret(op, reply) == Ok(Direct(s.base, op).1)
  }

  /** The history holds the calls once, in the order of the mutex, among them all that succeeded. */
  predicate Ordered(s: Sys) {
    && (forall j, k :: 0 <= j < k < |s.history| ==> s.history[j].id < s.history[k].id)
    && (forall k :: 0 <= k < |s.history| ==> s.history[k].id < s.client.calls)
    && (s.client.mutex.Some? ==> forall k :: 0 <= k < |s.history| ==> s.history[k].id < s.client.mutex.value.call)
    && (forall k :: 0 <= k < |s.client.done| ==> Recorded(s.history, s.client.done[k]))
  }

  predicate Recorded(h: seq<Call>, d: O.Success) {
    exists j :: 0 <= j < |h| && h[j] == Call(d.call, d.op, true, Ok(d.words))
  }

  /** The device's data: the end of the history, or on the way of the one call that holds the mutex. */
  predicate Current(d: Data, s: Sys) {
    match s.client.mutex
    case None => s.memory.data == Final(d, s.history)
    case Some(job) =>
      && s.base == Final(d, s.history)
      && Moved(s.base, s.memory.data, job.op)
      && (job.stage.Waiting? && job.stage.serial in s.client.answers ==>
            Backed(s, job.op, s.client.answers[job.stage.serial]))
  }

  predicate Inv(cfg: Config, d: Data, s: Sys) {
    && O.Inv(cfg, s.client)
    && Legal(d, s.history)
    && Current(d, s)
    && Ordered(s)
    && (forall k <- s.client.answers :: k < s.client.serials)
  }

  lemma StartHolds(cfg: Config, m: Memory)
    ensures Inv(cfg, m.data, Start(m))
  {
    O.InitialHolds(cfg);
  }

  /** A request that is pending is that of the holder of the mutex. */
  lemma PendingIsOwn(cfg: Config, s: O.Sys)
    requires O.Inv(cfg, s) && s.conn.Some? && s.conn.value.pending != []
    ensures s.mutex.Some? && s.mutex.value.stage.Waiting? && Issued(s.mutex.value.op)
    ensures s.conn.value.pending[0].serial == s.mutex.value.stage.serial && s.conn.value.pending[0].op == s.mutex.value.op
    ensures s.conn.value.pending[0].serial < s.serials
  {
    hide O.OwnReplies, O.Complete, O.Possible, ReplyFrame;
    assert s.conn.value.pending[0] in s.conn.value.pending;
  }

  /** A request that the device survives is always served: its answer is a possible one. */
  lemma ServeIsNeverBlocked(cfg: Config, s: Sys)
    requires O.Inv(cfg, s.client) && s.client.conn.Some? && s.client.conn.value.pending != []
    requires s.memory.fail.None? ==> Indexable(Pdu(s.client.conn.value.pending[0].op))
    ensures Enabled(cfg, s, Serve)
  {
    hide O.Inv, O.Possible, Pdu, Apply;
    PendingIsOwn(cfg, s.client);
    O.DeviceAnswersPossibly(s.memory, s.client.conn.value.pending[0].op);
  }

  /** What the device does with a request, seen from where the call began. */
  lemma ServedMeans(s: Sys, op: Op)
    requires Issued(op) && (s.memory.fail.None? ==> Indexable(Pdu(op))) && Moved(s.base, s.memory.data, op)
    ensures var (m, reply) := Served(s, op);
            Moved(s.base, m.data, op) && Backed(s.(memory := m), op, reply)
  {
    hide Direct, Pdu, Interpret;
    if s.memory.fail.Some? {
      InsteadIsError(s.memory.fail.value, Pdu(op));
    } else {
      DirectTwice(s.base, op);
      if Answerable(op) {
        PeerPerforms(s.memory.data, op);
      } else {
        PeerReadsAny(s.memory.data, op.address, op.count);
        ReadsMoveNothing(s.memory.data, op);
      }
    }
  }

  lemma ServeKeeps(cfg: Config, d: Data, s: Sys)
    requires Inv(cfg, d, s) && Enabled(cfg, s, Serve)
    ensures Inv(cfg, d, Next(cfg, s, Serve))
  {
    hide O.Inv, O.Possible, Legal, Final, Served, Moved, Backed, ReplyFrame, Recorded;
    PendingIsOwn(cfg, s.client);
    var op := s.client.conn.value.pending[0].op;
    ServedMeans(s, op);
    var (m, reply) := Served(s, op);
    O.StepKeeps(cfg, s.client, O.Answer(reply));
    SameBacked(s.(memory := m), Next(cfg, s, Serve), op, reply);
  }

  lemma SameBacked(s: Sys, s': Sys, op: Op, reply: seq<byte>)
    requires Backed(s, op, reply) && s'.memory == s.memory && s'.base == s.base
    ensures Backed(s', op, reply)
  {
  }

  /** A caller that is told of a success got its result from an answer that is backed. */
  lemma SuccessIsBacked(cfg: Config, d: Data, s: Sys, c: O.Step)
    requires Inv(cfg, d, s) && Enabled(cfg, s, Client(c))
    requires |O.Next(cfg, s.client, c).done| > |s.client.done|
    ensures s.client.mutex.Some?
    ensures var job := s.client.mutex.value;
            var after := O.Next(cfg, s.client, c).done;
            && after == s.client.done + [O.Success(job.call, job.op, job.stage.serial, Direct(s.base, job.op).1)]
            && s.memory.data == Direct(s.base, job.op).0
  {
    hide Direct, Interpret, Classify, O.Possible, O.Inv, Tidy, O.Outcome, Legal, Final;
    O.FinishReadsOwnReply(cfg, s.client);
    var job := s.client.mutex.value;
    var pdu := O.Outcome(cfg, s.client).value;
    if !Answerable(job.op) {
      OverlongIsInvalid(job.op, pdu);
    }
    AnswerableIsTidy(cfg.mode, job.op);
    O.ClassifiedIsItself(s.client.answers[job.stage.serial]);
  }

  lemma AnswerableIsTidy(mode: Mode, op: Op)
    requires Answerable(op)
    ensures Tidy(mode, op)
  {
  }

  /** How the client's own steps change what the rest of the invariant speaks about. */
  lemma ClientFrame(cfg: Config, s: O.Sys, c: O.Step)
    requires O.Inv(cfg, s) && O.Enabled(cfg, s, c) && !c.Answer?
    ensures var t := O.Next(cfg, s, c);
            && t.answers == s.answers && t.serials >= s.serials && t.calls >= s.calls
            && (t.done == s.done || (|t.done| == |s.done| + 1 && s.mutex.Some? && t.mutex.None?))
            && (s.mutex.None? && t.mutex.Some? ==> c.Acquire? && t.mutex.value == O.Job(s.calls, c.op, cfg.retries, O.Ready)
                                                   && t.calls == s.calls + 1)
            && (c.Acquire? ==> s.mutex.None?)
            && (s.mutex.Some? && t.mutex.Some? ==>
                  && t.mutex.value.call == s.mutex.value.call && t.mutex.value.op == s.mutex.value.op
                  && (t.mutex.value.stage.Waiting? ==>
                        || t.mutex.value.stage.serial == s.serials
                        || (s.mutex.value.stage.Waiting? && t.mutex.value.stage.serial == s.mutex.value.stage.serial)))
  {
    hide O.Inv, O.Outcome, Interpret, O.Complete;
  }

  lemma EndKeeps(cfg: Config, d: Data, s: Sys, c: O.Step)
    requires Inv(cfg, d, s) && Enabled(cfg, s, Client(c))
    requires s.client.mutex.Some? && O.Next(cfg, s.client, c).mutex.None?
    ensures var s' := Next(cfg, s, Client(c));
            Legal(d, s'.history) && Current(d, s') && Ordered(s')
  {
    hide O.Inv, O.Next, Legal, Final, Direct, Backed;
    var job := s.client.mutex.value;
    var client := O.Next(cfg, s.client, c);
    ClientFrame(cfg, s.client, c);
    CallOver(cfg, s.client);
    if |client.done| > |s.client.done| {
      SuccessIsBacked(cfg, d, s, c);
    }
    var call := Call(job.call, job.op, s.memory.data == Direct(s.base, job.op).0, Told(s.client, client));
    HistoryMore(d, s.history, call);
    var s' := Next(cfg, s, Client(c));
    forall k | 0 <= k < |s'.client.done| ensures Recorded(s'.history, s'.client.done[k]) {
      if k < |s.client.done| {
        RecordedStays(s.history, s'.history, s.client.done[k]);
      } else {
        assert s'.history[|s.history|] == call;
      }
    }
  }

  lemma CallOver(cfg: Config, s: O.Sys)
    requires O.Inv(cfg, s) && s.mutex.Some?
    ensures s.mutex.value.call < s.calls
  {
  }

  lemma RecordedStays(h: seq<Call>, h': seq<Call>, d: O.Success)
    requires Recorded(h, d) && h <= h'
    ensures Recorded(h', d)
  {
    var j :| 0 <= j < |h| && h[j] == Call(d.call, d.op, true, Ok(d.words));
    assert h'[j] == h[j];
  }

  lemma ClientKeeps(cfg: Config, d: Data, s: Sys, c: O.Step)
    requires Inv(cfg, d, s) && Enabled(cfg, s, Client(c)) && StepContained(cfg, Client(c))
    ensures Inv(cfg, d, Next(cfg, s, Client(c)))
  {
    hide O.Inv, O.Next, Legal, Final, Direct, Backed, Recorded;
    O.StepKeeps(cfg, s.client, c);
    ClientFrame(cfg, s.client, c);
    var s' := Next(cfg, s, Client(c));
    if s.client.mutex.Some? && s'.client.mutex.None? {
      EndKeeps(cfg, d, s, c);
    } else if s'.client.mutex.Some? {
      var job := s'.client.mutex.value;
      if job.stage.Waiting? && job.stage.serial in s'.client.answers {
        SameBacked(s, s', job.op, s.client.answers[job.stage.serial]);
      }
    }
  }

  lemma InjectKeeps(cfg: Config, d: Data, s: Sys, code: (byte, byte))
    requires Inv(cfg, d, s)
    ensures Inv(cfg, d, Next(cfg, s, Inject(code)))
  {
    hide O.Inv, Legal, Final, Recorded;
  }

  lemma {:induction false} RunKeeps(cfg: Config, d: Data, s: Sys, steps: seq<Step>)
    requires Inv(cfg, d, s) && ValidRun(cfg, s, steps) && AllContained(cfg, steps)
    ensures Inv(cfg, d, After(cfg, s, steps)) && s.history <= After(cfg, s, steps).history
    decreases |steps|
  {
    hide Inv, O.Next, O.Enabled;
    if steps != [] {
      assert StepContained(cfg, steps[0]);
      match steps[0] {
        case Client(c) => ClientKeeps(cfg, d, s, c);
        case Serve => ServeKeeps(cfg, d, s);
        case Inject(code) => InjectKeeps(cfg, d, s, code);
      }
      RunKeeps(cfg, d, Next(cfg, s, steps[0]), steps[1..]);
    }
  }

  /**
   * One client shared by any number of callers is linearizable to the device's maps, with retries, losses,
   * time-outs and injected exceptions, in every mode: the calls that are over, in the order in which they
   * held the mutex, are a run on a plain map in which each took effect once or, if it failed, perhaps not.
   * Every success took effect and returned what that map held at its place; every success that a caller saw
   * is in this history; and whenever the mutex is free the device's data are the map at its end. A call that
   * ended before another began comes before it, as the history only ever grows at its end.
   */
  lemma CallersAreLinearizable(cfg: Config, m: Memory, steps: seq<Step>, later: seq<Step>)
    requires ValidRun(cfg, Start(m), steps) && AllContained(cfg, steps)
    requires ValidRun(cfg, After(cfg, Start(m), steps), later) && AllContained(cfg, later)
    ensures var s := After(cfg, Start(m), steps);
            && Explains(m.data, Ops(s.history), Tooks(s.history), Results(s.history))
            && (s.client.mutex.None? ==> s.memory.data == Replay(m.data, Ops(s.history), Tooks(s.history)))
            && (forall j, k :: 0 <= j < k < |s.history| ==> s.history[j].id < s.history[k].id)
            && (forall k :: 0 <= k < |s.client.done| ==> Recorded(s.history, s.client.done[k]))
            && s.history <= After(cfg, s, later).history
  {
    hide ValidRun, After, O.Inv, Replay, Explains;
    StartHolds(cfg, m);
    RunKeeps(cfg, m.data, Start(m), steps);
    var s := After(cfg, Start(m), steps);
    RunKeeps(cfg, m.data, s, later);
  }
}
