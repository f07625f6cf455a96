/** Many connections to one mock server: handlers that interleave word by word around the server's mutex. */
module MockServerThreads {
  import opened Bytes
  import opened RegisterMap
  import opened MelsecSession

  /**
   * Where a connection's handler is with request `id`: it has read it, it has passed the check for an
   * injected failure, it holds the mutex and has done `i` words, or it has its reply ready.
   */
  datatype Phase =
    | Idle
    | Received(id: nat, op: Op)
    | Queued(id: nat, op: Op)
    | Working(id: nat, op: Op, i: nat, body: seq<uint16>)
    | Replying(id: nat, reply: Answer)

  datatype Answer = Done(data: seq<uint16>) | Failed(code: uint16)

  /** A request in the order in which the handlers left the mutex, with what a read collected. */
  datatype Entry = Entry(id: nat, op: Op, data: seq<uint16>)

  /**
   * `asked` and `answers` are what the clients see: the operation that each request carried, and the
   * answer that it was given. `failed` are the requests answered with an injected failure.
   */
  datatype Sys = Sys(
    words: map<uint16, uint16>,
    fail: Option<uint16>,
    mutex: Option<nat>,
    threads: seq<Phase>,
    ids: nat,
    log: seq<Entry>,
    failed: set<nat>,
    asked: map<nat, Op>,
    answers: map<nat, Answer>)

  datatype Step =
    | Receive(t: nat, op: Op)
    | Check(t: nat)
    | Enter(t: nat)
    | Touch(t: nat)
    | Leave(t: nat)
    | Reply(t: nat)
    | Inject(code: uint16)
    | Set(address: uint16, value: uint16)
    | Get(address: uint16)

  function Init(connections: nat): Sys {
    Sys(map[], None, None, seq(connections, _ => Idle), 0, [], {}, map[], map[])
  }

  function Size(op: Op): nat {
    match op
    case ReadWords(_, n) => n
    case WriteWords(_, vs) => |vs|
  }

  predicate Enabled(s: Sys, step: Step) {
    match step
    case Receive(t, op) => t < |s.threads| && s.threads[t].Idle? && (op.ReadWords? ==> op.count < 0x8000)
    case Check(t) => t < |s.threads| && s.threads[t].Received? && s.mutex.None?
    case Enter(t) => t < |s.threads| && s.threads[t].Queued? && s.mutex.None?
    case Touch(t) => t < |s.threads| && s.threads[t].Working? && s.threads[t].i < Size(s.threads[t].op)
    case Leave(t) => t < |s.threads| && s.threads[t].Working? && s.threads[t].i == Size(s.threads[t].op)
    case Reply(t) => t < |s.threads| && s.threads[t].Replying?
    case Inject(_) => s.mutex.None?
    case Set(_, _) => s.mutex.None?
    case Get(_) => s.mutex.None?
  }

  /** SetWord and GetWord: a request of one word from inside the process, done in one piece. */
  function AtOnce(s: Sys, op: Op, words: map<uint16, uint16>, data: seq<uint16>): Sys {
    s.(words := words, ids := s.ids + 1, log := s.log + [Entry(s.ids, op, data)],
       asked := s.asked[s.ids := op], answers := s.answers[s.ids := Done(data)])
  }

  function Next(s: Sys, step: Step): Sys
    requires Enabled(s, step)
  {
    match step
    case Receive(t, op) => 
      s.(threads := s.threads[t := Received(s.ids, op)], ids := s.ids + 1, asked := s.asked[s.ids := op])
    case Check(t) =>
      var id := s.threads[t].id;
      if s.fail.Some? then
        s.(fail := None, failed := s.failed + {id}, threads := s.threads[t := Replying(id, Failed(Shown(s.fail.value)))])
      else s.(threads := s.threads[t := Queued(id, s.threads[t].op)])
    case Enter(t) =>
      s.(mutex := Some(t), threads := s.threads[t := Working(s.threads[t].id, s.threads[t].op, 0, [])])
    case Touch(t) =>
      var Working(id, op, i, body) := s.threads[t];
      (match op
       case ReadWords(a, _) =>
         s.(threads := s.threads[t := Working(id, op, i + 1, body + [Lookup(s.words, At(a, i))])])
       case WriteWords(a, vs) =>
         s.(words := s.words[At(a, i) := vs[i]], threads := s.threads[t := Working(id, op, i + 1, body)]))
    case Leave(t) =>
      var Working(id, op, _, body) := s.threads[t];
      s.(mutex := None, log := s.log + [Entry(id, op, body)], threads := s.threads[t := Replying(id, Done(body))])
    case Reply(t) =>
      s.(answers := s.answers[s.threads[t].id := s.threads[t].reply], threads := s.threads[t := Idle])
    case Inject(code) => s.(fail := Some(code))
    case Set(a, v) => AtOnce(s, WriteWords(a, [v]), s.words[a := v], [])
    case Get(a) => AtOnce(s, ReadWords(a, 1), s.words, [Lookup(s.words, a)])
  }

  /** The end code that a request is answered with when somebody has asked for this one. */
  function Shown(code: uint16): uint16 {
    if code == 0 then 0xC020 else code
  }

  predicate ValidRun(s: Sys, steps: seq<Step>)
    decreases |steps|
  {
    steps == [] || (Enabled(s, steps[0]) && ValidRun(Next(s, steps[0]), steps[1..]))
  }

  function After(s: Sys, steps: seq<Step>): Sys
    requires ValidRun(s, steps)
    decreases |steps|
  {
    if steps == [] then s else After(Next(s, steps[0]), steps[1..])
  }

  // ----- the sequential word map

  /** The map after doing the logged operations one after the other, each at once. */
  function Replay(log: seq<Entry>): map<uint16, uint16> {
    if log == [] then map[] else Direct(Replay(log[..|log| - 1]), log[|log| - 1].op).0
  }

  /** Every logged operation returned what it returns on the sequential map at its place. */
  predicate Legal(log: seq<Entry>) {
    forall k :: 0 <= k < |log| ==> log[k].data == Direct(Replay(log[..k]), log[k].op).1
  }

  // ----- the invariant

  /** The words as seen from the mutex: nobody inside, or a handler part of the way through. */
  predicate Consistent(s: Sys) {
    match s.mutex
    case None => s.words == Replay(s.log)
    case Some(t) =>
      && t < |s.threads| && s.threads[t].Working? && s.threads[t].i <= Size(s.threads[t].op)
      && (match s.threads[t].op
          case ReadWords(a, _) => s.words == Replay(s.log) && s.threads[t].body == Load(s.words, a, s.threads[t].i)
          case WriteWords(a, vs) =>
            s.words == Store(Replay(s.log), a, vs[..s.threads[t].i]) && s.threads[t].body == [])
  }

  predicate Logged(s: Sys, id: nat) {
    exists k :: 0 <= k < |s.log| && s.log[k].id == id
  }

  /** The answer to request id is in the log, under the operation that was asked for; or it is a failure. */
  predicate Backed(s: Sys, id: nat, answer: Answer) {
    && id < s.ids && id in s.asked
    && match answer
       case Done(data) => exists k :: 0 <= k < |s.log| && s.log[k] == Entry(id, s.asked[id], data)
       case Failed(_) => id in s.failed
  }

  /** A request still on its way carries what was asked and is not in the log; one with a reply is backed. */
  predicate Tracked(s: Sys, t: nat)
    requires t < |s.threads|
  {
    match s.threads[t]
    case Idle => true
    case Replying(id, reply) => id !in s.answers && Backed(s, id, reply)
    case p =>
      && p.id < s.ids && p.id in s.asked && s.asked[p.id] == p.op
      && !Logged(s, p.id) && p.id !in s.failed && p.id !in s.answers
      && (p.Working? ==> s.mutex == Some(t))
  }

  /** The log holds each request at most once, with the operation that was asked for, and no failed ones. */
  predicate Kept(s: Sys) {
    && (forall k :: 0 <= k < |s.log| ==>
          && s.log[k].id < s.ids && s.log[k].id !in s.failed
          && s.log[k].id in s.asked && s.log[k].op == s.asked[s.log[k].id])
    && (forall j, k :: 0 <= j < k < |s.log| ==> s.log[j].id != s.log[k].id)
    && (forall id <- s.answers :: Backed(s, id, s.answers[id]))
    && (forall id <- s.failed :: id < s.ids)
    && (forall id <- s.asked :: id < s.ids)
  }

  predicate Inv(s: Sys) {
    && Consistent(s)
    && Legal(s.log)
    && Kept(s)
    && (forall t :: 0 <= t < |s.threads| ==> Tracked(s, t))
    && (forall t, u :: 0 <= t < u < |s.threads| && !s.threads[t].Idle? && !s.threads[u].Idle?
          ==> s.threads[t].id != s.threads[u].id)
  }

  lemma InitHolds(connections: nat)
    ensures Inv(Init(connections))
  {
  }

  lemma LoadOneMore(words: map<uint16, uint16>, a: uint16, i: nat)
    ensures Load(words, a, i) + [Lookup(words, At(a, i))] == Load(words, a, i + 1)
  {
  }

  lemma TouchKeepsWords(s: Sys, t: nat)
    requires Inv(s) && Enabled(s, Touch(t))
    ensures Consistent(Next(s, Touch(t)))
  {
    hide Replay, Legal, Kept, Load, Store, Logged, Backed;
    assert Tracked(s, t);
    match s.threads[t].op
    case ReadWords(a, _) => LoadOneMore(s.words, a, s.threads[t].i);
    case WriteWords(a, vs) => StoreOneMore(Replay(s.log), a, vs, s.threads[t].i);
  }

  lemma ReplayMore(log: seq<Entry>, e: Entry)
    ensures Replay(log + [e]) == Direct(Replay(log), e.op).0
  {
    assert (log + [e])[..|log|] == log;
  }

  /** A handler that leaves the mutex has done its operation on the sequential map, as a whole. */
  lemma LeaveKeepsWords(s: Sys, t: nat)
    requires Inv(s) && Enabled(s, Leave(t))
    ensures Consistent(Next(s, Leave(t))) && Legal(Next(s, Leave(t)).log)
  {
    hide Replay;
    assert Tracked(s, t);
    var Working(id, op, i, body) := s.threads[t];
    var e := Entry(id, op, body);
    ReplayMore(s.log, e);
    if op.WriteWords? {
      assert op.values[..i] == op.values;
    }
    var log := s.log + [e];
    forall k | 0 <= k < |log| ensures log[k].data == Direct(Replay(log[..k]), log[k].op).1 {
      assert k < |s.log| ==> log[..k] == s.log[..k];
      assert k == |s.log| ==> log[..k] == s.log;
    }
  }

  lemma BackedStays(s: Sys, s': Sys, id: nat, answer: Answer)
    requires Backed(s, id, answer)
    requires s.log <= s'.log && s.failed <= s'.failed && s.ids <= s'.ids
    requires id in s.asked ==> id in s'.asked && s'.asked[id] == s.asked[id]
    ensures Backed(s', id, answer)
  {
    if answer.Done? {
      var k :| 0 <= k < |s.log| && s.log[k] == Entry(id, s.asked[id], answer.data);
      assert s'.log[k] == s.log[k];
    }
  }

  lemma LeaveKeepsLog(s: Sys, t: nat)
    requires Inv(s) && Enabled(s, Leave(t))
    ensures Kept(Next(s, Leave(t)))
  {
    hide Replay, Legal, Consistent, Direct, Backed;
    var s' := Next(s, Leave(t));
    assert Tracked(s, t);
    assert !Logged(s, s.threads[t].id);
    forall id <- s'.answers ensures Backed(s', id, s'.answers[id]) {
      BackedStays(s, s', id, s.answers[id]);
    }
  }

  lemma LeaveKeeps(s: Sys, t: nat)
    requires Inv(s) && Enabled(s, Leave(t))
    ensures Inv(Next(s, Leave(t)))
  {
    hide Replay, Legal, Consistent, Direct, Kept;
    LeaveKeepsWords(s, t);
    LeaveKeepsLog(s, t);
    var s' := Next(s, Leave(t));
    var id := s.threads[t].id;
    assert Tracked(s, t);
    assert s'.log[|s.log|] == Entry(id, s'.asked[id], s'.threads[t].reply.data);
    forall u | 0 <= u < |s'.threads| ensures Tracked(s', u) {
      assert Tracked(s, u);
      if u != t && s.threads[u].Replying? {
        BackedStays(s, s', s.threads[u].id, s.threads[u].reply);
      }
    }
  }

  /** The steps that add an entry to the history. */
  predicate Logs(step: Step) {
    step.Leave? || step.Set? || step.Get?
  }

  lemma AtOnceKeepsWords(s: Sys, op: Op)
    requires Inv(s) && s.mutex.None? && Size(op) == 1
    ensures var (words, data) := Direct(s.words, op);
            var s' := AtOnce(s, op, words, data);
            Consistent(s') && Legal(s'.log)
  {
    hide Replay;
    var (words, data) := Direct(s.words, op);
    var e := Entry(s.ids, op, data);
    ReplayMore(s.log, e);
    var log := s.log + [e];
    forall k | 0 <= k < |log| ensures log[k].data == Direct(Replay(log[..k]), log[k].op).1 {
      assert k < |s.log| ==> log[..k] == s.log[..k];
      assert k == |s.log| ==> log[..k] == s.log;
    }
  }

  lemma AtOnceKeepsLog(s: Sys, op: Op, words: map<uint16, uint16>, data: seq<uint16>)
    requires Inv(s)
    ensures Kept(AtOnce(s, op, words, data))
  {
    hide Replay, Legal, Consistent, Direct, Backed;
    var s' := AtOnce(s, op, words, data);
    FreshIsUnknown(s);
    forall id <- s'.answers ensures Backed(s', id, s'.answers[id]) {
      if id == s.ids {
        LastIsBacked(s');
      } else {
        BackedStays(s, s', id, s.answers[id]);
      }
    }
  }

  lemma LastIsBacked(s: Sys)
    requires s.log != []
    requires var e := s.log[|s.log| - 1]; e.id < s.ids && e.id in s.asked && s.asked[e.id] == e.op
    ensures var e := s.log[|s.log| - 1]; Backed(s, e.id, Done(e.data))
  {
    var e := s.log[|s.log| - 1];
    assert s.log[|s.log| - 1] == Entry(e.id, s.asked[e.id], e.data);
  }

  /** SetWord and GetWord are operations of the history like any other. */
  lemma AtOnceKeeps(s: Sys, op: Op)
    requires Inv(s) && s.mutex.None? && Size(op) == 1
    ensures var (words, data) := Direct(s.words, op); Inv(AtOnce(s, op, words, data))
  {
    hide Replay, Legal, Consistent, Direct, Kept;
    var (words, data) := Direct(s.words, op);
    AtOnceKeepsWords(s, op);
    AtOnceKeepsLog(s, op, words, data);
    var s' := AtOnce(s, op, words, data);
    FreshIsUnknown(s);
    forall u | 0 <= u < |s'.threads| ensures Tracked(s', u) {
      assert Tracked(s, u);
      if s.threads[u].Replying? {
        BackedStays(s, s', s.threads[u].id, s.threads[u].reply);
      }
    }
  }

  lemma SetIsWrite(s: Sys, a: uint16, v: uint16)
    ensures Direct(s.words, WriteWords(a, [v])) == (s.words[a := v], [])
    ensures Direct(s.words, ReadWords(a, 1)) == (s.words, [Lookup(s.words, a)])
  {
    assert Store(s.words, a, [v]) == s.words[a := v];
    assert Load(s.words, a, 1) == [Lookup(s.words, a)];
  }

  lemma TrackingKeeps(s: Sys, step: Step, u: nat)
    requires Inv(s) && Enabled(s, step) && !Logs(step) && u < |s.threads|
    ensures Tracked(Next(s, step), u)
  {
    hide Replay, Legal, Consistent, Direct, Load, Store, Backed, Kept, Logged;
    var s' := Next(s, step);
    SameLog(s, s');
    FreshIsUnknown(s);
    assert Tracked(s, u);
    if !step.Inject? {
      assert Tracked(s, step.t);
    }
    if s.threads[u].Replying? {
      BackedStays(s, s', s.threads[u].id, s.threads[u].reply);
    }
    if step.Check? && s.fail.Some? {
      FailedIsBacked(s', s.threads[step.t].id, Shown(s.fail.value));
    }
  }

  lemma SameLog(s: Sys, s': Sys)
    requires s'.log == s.log
    ensures forall id :: Logged(s', id) <==> Logged(s, id)
  {
  }

  /** The next number has not been used. */
  lemma FreshIsUnknown(s: Sys)
    requires Inv(s)
    ensures s.ids !in s.answers && s.ids !in s.failed && s.ids !in s.asked && !Logged(s, s.ids)
    ensures forall id <- s.answers :: id in s.asked
  {
    hide Consistent, Legal, Tracked;
  }

  lemma FailedIsBacked(s: Sys, id: nat, code: uint16)
    requires id < s.ids && id in s.asked && id in s.failed
    ensures Backed(s, id, Failed(code))
  {
  }

  lemma OtherStepsKeep(s: Sys, step: Step)
    requires Inv(s) && Enabled(s, step) && !Logs(step)
    ensures Inv(Next(s, step))
  {
    hide Replay, Legal, Direct, Load, Store, Tracked, Kept;
    var s' := Next(s, step);
    forall u | 0 <= u < |s'.threads| ensures Tracked(s', u) {
      TrackingKeeps(s, step, u);
    }
    OtherStepsKeepLog(s, step);
    match step
    case Receive(t, op) => ReceiveKeepsDistinct(s, t, op);
    case Touch(t) => TouchKeepsWords(s, t);
    case Enter(t) => EnterKeepsWords(s, t);
    case _ =>
  }

  lemma OtherStepsKeepLog(s: Sys, step: Step)
    requires Inv(s) && Enabled(s, step) && !Logs(step)
    ensures Kept(Next(s, step))
  {
    hide Replay, Legal, Consistent, Direct, Load, Store, Backed;
    var s' := Next(s, step);
    if step.Check? || step.Reply? {
      assert Tracked(s, step.t);
      var id := s.threads[step.t].id;
      assert step.Check? ==> !Logged(s, id) && forall k :: 0 <= k < |s.log| ==> s.log[k].id != id;
    }
    forall id <- s'.answers ensures Backed(s', id, s'.answers[id]) {
      BackedStays(s, s', id, s'.answers[id]);
    }
  }

  lemma ReceiveKeepsDistinct(s: Sys, t: nat, op: Op)
    requires Inv(s) && Enabled(s, Receive(t, op))
    ensures var s' := Next(s, Receive(t, op));
            forall v, u :: 0 <= v < u < |s'.threads| && !s'.threads[v].Idle? && !s'.threads[u].Idle?
              ==> s'.threads[v].id != s'.threads[u].id
  {
    hide Replay, Legal, Consistent;
    forall u | 0 <= u < |s.threads| && !s.threads[u].Idle? ensures s.threads[u].id < s.ids {
      assert Tracked(s, u);
    }
  }

  lemma EnterKeepsWords(s: Sys, t: nat)
    requires Inv(s) && Enabled(s, Enter(t))
    ensures Consistent(Next(s, Enter(t)))
  {
    hide Replay;
  }

  lemma {:induction false} RunKeeps(s: Sys, steps: seq<Step>)
    requires Inv(s) && ValidRun(s, steps)
    ensures Inv(After(s, steps)) && s.log <= After(s, steps).log
    decreases |steps|
  {
    hide Inv;
    if steps != [] {
      if steps[0].Leave? {
        LeaveKeeps(s, steps[0].t);
      } else if steps[0].Set? {
        SetIsWrite(s, steps[0].address, steps[0].value);
        AtOnceKeeps(s, WriteWords(steps[0].address, [steps[0].value]));
      } else if steps[0].Get? {
        SetIsWrite(s, steps[0].address, 0);
        AtOnceKeeps(s, ReadWords(steps[0].address, 1));
      } else {
        OtherStepsKeep(s, steps[0]);
      }
      RunKeeps(Next(s, steps[0]), steps[1..]);
    }
  }

  /**
   * Linearizability of what the clients see: under every interleaving of any number of connections, the
   * order in which handlers left the mutex is a sequential history that explains every answer. Each answer
   * with data, given or about to be given, belongs to exactly one entry, that of the operation asked for,
   * and its data are what this operation returns on the sequential map at that place: no read is torn. A
   * request answered with a failure has no entry and so no effect. And whenever the mutex is free, the
   * server's words are the map at the end of the history.
   */
  lemma ReadsAreAtomic(connections: nat, steps: seq<Step>)
    requires ValidRun(Init(connections), steps)
    ensures var s := After(Init(connections), steps);
            && (s.mutex.None? ==> s.words == Replay(s.log))
            && (forall k :: 0 <= k < |s.log| ==> s.log[k].data == Direct(Replay(s.log[..k]), s.log[k].op).1)
            && (forall j, k :: 0 <= j < k < |s.log| ==> s.log[j].id != s.log[k].id)
            && (forall k :: 0 <= k < |s.log| ==> s.log[k].id in s.asked && s.log[k].op == s.asked[s.log[k].id])
            && (forall id <- s.answers :: id in s.asked && Explained(s, id, s.answers[id]))
            && (forall t :: 0 <= t < |s.threads| && s.threads[t].Replying? ==>
                  s.threads[t].id in s.asked && Explained(s, s.threads[t].id, s.threads[t].reply))
  {
    hide Replay, Direct, Tracked;
    InitHolds(connections);
    RunKeeps(Init(connections), steps);
    var s := After(Init(connections), steps);
    forall id <- s.answers ensures Explained(s, id, s.answers[id]) {
      AnswerExplained(s, id, s.answers[id]);
    }
    forall t | 0 <= t < |s.threads| && s.threads[t].Replying?
      ensures s.threads[t].id in s.asked && Explained(s, s.threads[t].id, s.threads[t].reply)
    {
      ReplyBacked(s, t);
      AnswerExplained(s, s.threads[t].id, s.threads[t].reply);
    }
  }

  /** The history contains the operation asked for with the data answered, or nothing if it failed. */
  predicate Explained(s: Sys, id: nat, answer: Answer)
    requires id in s.asked
  {
    match answer
    case Done(data) => exists k :: 0 <= k < |s.log| && s.log[k] == Entry(id, s.asked[id], data)
    case Failed(_) => !Logged(s, id)
  }

  lemma ReplyBacked(s: Sys, t: nat)
    requires Inv(s) && t < |s.threads| && s.threads[t].Replying?
    ensures Backed(s, s.threads[t].id, s.threads[t].reply)
  {
    assert Tracked(s, t);
  }

  lemma AnswerExplained(s: Sys, id: nat, answer: Answer)
    requires Inv(s) && Backed(s, id, answer)
    ensures Explained(s, id, answer)
  {
  }

  /**
   * The history respects real time: if request a had been answered, and not by an injected failure, before
   * request b was even received, then a comes before b.
   */
  lemma LogRespectsRealTime(connections: nat, before: seq<Step>, after: seq<Step>, j: nat, k: nat)
    requires ValidRun(Init(connections), before) && ValidRun(After(Init(connections), before), after)
    requires var s1 := After(Init(connections), before);
             var s2 := After(s1, after);
             && j < |s2.log| && k < |s2.log|
             && s2.log[j].id in s1.answers
             && s2.log[k].id >= s1.ids
    ensures j < k
  {
    hide Replay, Legal, Consistent, Tracked, Next, Enabled;
    var s1 := After(Init(connections), before);
    var s2 := After(s1, after);
    InitHolds(connections);
    RunKeeps(Init(connections), before);
    RunKeeps(s1, after);
    assert s2.log[j].id !in s2.failed;
    FailedStays(s1, after);
    var a := s2.log[j].id;
    assert Backed(s1, a, s1.answers[a]) && s1.answers[a].Done?;
    var i :| 0 <= i < |s1.log| && s1.log[i] == Entry(a, s1.asked[a], s1.answers[a].data);
    assert s2.log[i] == s1.log[i];
    assert i == j;
    assert forall m :: 0 <= m < |s1.log| ==> s2.log[m] == s1.log[m];
  }

  lemma {:induction false} FailedStays(s: Sys, steps: seq<Step>)
    requires ValidRun(s, steps)
    ensures s.failed <= After(s, steps).failed
    decreases |steps|
  {
    if steps != [] {
      FailedStays(Next(s, steps[0]), steps[1..]);
    }
  }

  // ----- injected failures

  /** The end codes that were asked for during a run. */
  function Injected(steps: seq<Step>): seq<uint16>
    decreases |steps|
  {
    if steps == [] then []
    else (if steps[0].Inject? then [steps[0].code] else []) + Injected(steps[1..])
  }

  function Pending(s: Sys): nat {
    if s.fail.Some? then 1 else 0
  }

  /** One failure at most for each end code that was asked for. */
  lemma {:induction false} FailuresAreSpent(s: Sys, steps: seq<Step>)
    requires ValidRun(s, steps)
    ensures var s' := After(s, steps);
            |s'.failed| + Pending(s') <= |s.failed| + Pending(s) + |Injected(steps)|
    decreases |steps|
  {
    if steps != [] {
      FailuresAreSpent(Next(s, steps[0]), steps[1..]);
    }
  }

  /** An answer that is a failure shows an end code that was asked for; 0 is shown as C020. */
  predicate Asked(codes: seq<uint16>, answer: Answer) {
    answer.Failed? ==> exists c :: c in codes && answer.code == if c == 0 then 0xC020 else c
  }

  predicate CodesKnown(s: Sys, codes: seq<uint16>) {
    && (s.fail.Some? ==> s.fail.value in codes)
    && (forall t :: 0 <= t < |s.threads| && s.threads[t].Replying? ==> Asked(codes, s.threads[t].reply))
    && (forall id <- s.answers :: Asked(codes, s.answers[id]))
  }

  lemma StepKeepsCodes(s: Sys, step: Step, codes: seq<uint16>)
    requires Enabled(s, step) && CodesKnown(s, codes) && (step.Inject? ==> step.code in codes)
    ensures CodesKnown(Next(s, step), codes)
  {
    hide Asked;
    DataIsNoFailure(codes);
    if step.Check? && s.fail.Some? {
      AskedCode(s, codes);
    }
  }

  lemma AskedCode(s: Sys, codes: seq<uint16>)
    requires s.fail.Some? && s.fail.value in codes
    ensures Asked(codes, Failed(Shown(s.fail.value)))
  {
  }

  lemma DataIsNoFailure(codes: seq<uint16>)
    ensures forall data :: Asked(codes, Done(data))
  {
  }

  lemma {:induction false} RunKeepsCodes(s: Sys, steps: seq<Step>, codes: seq<uint16>)
    requires ValidRun(s, steps) && CodesKnown(s, codes) && forall c :: c in Injected(steps) ==> c in codes
    ensures CodesKnown(After(s, steps), codes)
    decreases |steps|
  {
    hide CodesKnown, Enabled, Next;
    if steps != [] {
      var first := if steps[0].Inject? then [steps[0].code] else [];
      assert Injected(steps) == first + Injected(steps[1..]);
      StepKeepsCodes(s, steps[0], codes);
      RunKeepsCodes(Next(s, steps[0]), steps[1..], codes);
    }
  }

  /** No failure without somebody who asked for it, and none twice. */
  lemma FailuresWereAskedFor(connections: nat, steps: seq<Step>)
    requires ValidRun(Init(connections), steps)
    ensures var s := After(Init(connections), steps);
            && |s.failed| <= |Injected(steps)|
            && forall id <- s.answers :: s.answers[id].Failed? ==>
                 exists c :: c in Injected(steps) && s.answers[id].code == if c == 0 then 0xC020 else c
  {
    hide Injected;
    FailuresAreSpent(Init(connections), steps);
    RunKeepsCodes(Init(connections), steps, Injected(steps));
    var s := After(Init(connections), steps);
    forall id <- s.answers | s.answers[id].Failed?
      ensures exists c :: c in Injected(steps) && s.answers[id].code == if c == 0 then 0xC020 else c
    {
      assert Asked(Injected(steps), s.answers[id]);
    }
  }

  // ----- a handler that is not disturbed

  function Touches(t: nat, n: nat): seq<Step> {
    seq(n, _ => Touch(t))
  }

  lemma {:induction false} TouchesWork(s: Sys, t: nat, left: nat)
    requires Inv(s) && t < |s.threads| && s.threads[t].Working? && s.threads[t].i + left == Size(s.threads[t].op)
    ensures ValidRun(s, Touches(t, left))
    ensures var s' := After(s, Touches(t, left));
            && Inv(s') && |s'.threads| == |s.threads| && Enabled(s', Leave(t))
            && s'.threads[t].id == s.threads[t].id && s'.threads[t].op == s.threads[t].op
            && s'.log == s.log && s'.asked == s.asked && s'.answers == s.answers
    decreases left
  {
    hide Inv;
    if left > 0 {
      assert Touches(t, left)[1..] == Touches(t, left - 1);
      OtherStepsKeep(s, Touch(t));
      TouchesWork(Next(s, Touch(t)), t, left - 1);
    }
  }

  lemma {:induction false} RunsInTurn(s: Sys, a: seq<Step>, b: seq<Step>)
    requires ValidRun(s, a) && ValidRun(After(s, a), b)
    ensures ValidRun(s, a + b) && After(s, a + b) == After(After(s, a), b)
    decreases |a|
  {
    hide Next, Enabled;
    if a == [] {
      assert a + b == b;
    } else {
      assert (a + b)[0] == a[0] && (a + b)[1..] == a[1..] + b;
      RunsInTurn(Next(s, a[0]), a[1..], b);
    }
  }

  /**
   * The steps of one request, from the check to the reply, with nobody in between: they can be taken whenever
   * the mutex is free and no failure is pending, and they do to the words what the operation means and answer
   * with what it returns.
   */
  lemma UndisturbedRequest(s: Sys, t: nat)
    requires Inv(s) && s.mutex.None? && s.fail.None? && t < |s.threads| && s.threads[t].Received?
    ensures var op := s.threads[t].op;
            var steps := [Check(t), Enter(t)] + Touches(t, Size(op)) + [Leave(t), Reply(t)];
            && ValidRun(s, steps)
            && var s' := After(s, steps);
               && s'.words == Direct(s.words, op).0 && s'.mutex.None?
               && |s'.threads| == |s.threads| && s'.threads[t] == Idle
               && s'.answers == s.answers[s.threads[t].id := Done(Direct(s.words, op).1)]
  {
    hide Inv, Touches;
    var op, id := s.threads[t].op, s.threads[t].id;
    var s1 := Next(s, Check(t));
    OtherStepsKeep(s, Check(t));
    var s2 := Next(s1, Enter(t));
    OtherStepsKeep(s1, Enter(t));
    TouchesWork(s2, t, Size(op));
    var s3 := After(s2, Touches(t, Size(op)));
    LeaveKeeps(s3, t);
    var s4 := Next(s3, Leave(t));
    WordsBetween(s, s4, op, id, t);
    var first, last := [Check(t), Enter(t)], [Leave(t), Reply(t)];
    TwoSteps(s, Check(t), Enter(t));
    TwoSteps(s3, Leave(t), Reply(t));
    RunsInTurn(s, first, Touches(t, Size(op)));
    RunsInTurn(s, first + Touches(t, Size(op)), last);
  }

  lemma TwoSteps(s: Sys, a: Step, b: Step)
    requires Enabled(s, a) && Enabled(Next(s, a), b)
    ensures ValidRun(s, [a, b]) && After(s, [a, b]) == Next(Next(s, a), b)
  {
    hide Enabled, Next;
    assert [a, b][1..] == [b] && [b][1..] == [];
    var s' := Next(s, a);
    assert After(s', [b]) == After(Next(s', b), []);
    assert After(s, [a, b]) == After(s', [b]);
  }

  /** What one more entry of the history says about the words and the reply. */
  lemma WordsBetween(s: Sys, s': Sys, op: Op, id: nat, t: nat)
    requires Inv(s) && Inv(s') && s.mutex.None? && s'.mutex.None?
    requires t < |s'.threads| && s'.threads[t].Replying? && s'.threads[t].reply.Done?
    requires s'.log == s.log + [Entry(id, op, s'.threads[t].reply.data)]
    ensures s'.words == Direct(s.words, op).0 && s'.threads[t].reply.data == Direct(s.words, op).1
  {
    hide Replay, Kept, Tracked;
    var e := Entry(id, op, s'.threads[t].reply.data);
    ReplayMore(s.log, e);
    assert s'.log[|s.log|] == e && s'.log[..|s.log|] == s.log;
  }
}
