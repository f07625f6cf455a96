/** Many callers sharing one Modbus client: the mutex, the connection and the peer as a transition system. */
module OwnReply {
  import opened Bytes
  import opened Replies
  import opened ModbusDevice
  import opened ModbusSession
  import OverlongReads
  import TcpFraming
  import RtuFraming
  import AsciiFraming

  /** The holder of the mutex is about to send, or has sent request `serial` and read `got` so far. */
  datatype Stage = Ready | Waiting(serial: nat, got: seq<byte>)

  datatype Job = Job(call: nat, op: Op, left: nat, stage: Stage)

  /** A request on its way to the peer. */
  datatype Asking = Asking(serial: nat, tid: uint16, op: Op)

  datatype Stream = Stream(pending: seq<Asking>, unread: seq<byte>)

  /** A successful call: its number, its operation, the request that was answered, and what it returned. */
  datatype Success = Success(call: nat, op: Op, serial: nat, words: seq<uint16>)

  /**
   * Calls and requests are numbered as they are made; `asked` says which call, with which operation, sent a
   * request, and `answers` what the peer answered to it.
   */
  datatype Sys = Sys(
    tid: uint16,
    calls: nat,
    serials: nat,
    mutex: Option<Job>,
    conn: Option<Stream>,
    asked: map<nat, (nat, Op)>,
    answers: map<nat, seq<byte>>,
    done: seq<Success>)

  /**
   * GiveUp stands for every error and time-out the holder of the mutex can run into. A connection that is
   * closed takes its pending requests and their answers with it.
   */
  datatype Step =
    | Acquire(op: Op)
    | Dial
    | Write
    | Answer(reply: seq<byte>)
    | Lose
    | Arrive
    | Finish
    | GiveUp
    | Reopen(up: bool)
    | Shut

  const INITIAL := Sys(0, 0, 0, None, None, map[], map[], [])

  /** The client asks the stream for nothing beyond the bytes read so far. */
  predicate Complete(mode: Mode, got: seq<byte>, tid: uint16, unit: byte) {
    match mode
    case Tcp => TcpFraming.Complete(got, tid, unit)
    case RtuOverTcp => RtuFraming.Complete(got)
    case Rtu => RtuFraming.Complete(got)
    case Ascii => AsciiFraming.Complete(got)
  }

  /** A reply of the shapes of the standard, or what applyPDU answers to a read of too many registers. */
  predicate Possible(op: Op, reply: seq<byte>) {
    || WellFormedReply(reply)
    || (op.ReadRegisters? && op.count <= 32766
        && |reply| == 2 + 2 * (op.count as int) && reply[0] == 0x03 && reply[1] == (2 * op.count) % 256)
  }

  /** Whatever the device holds and whatever exception was asked for, its answer is a possible one. */
  lemma DeviceAnswersPossibly(m: Memory, op: Op)
    requires Issued(op) && (m.fail.None? ==> Indexable(Pdu(op)))
    ensures Possible(op, Apply(m, Pdu(op)).1)
  {
    hide Pdu, Reply;
    if m.fail.Some? {
      InsteadIsError(m.fail.value, Pdu(op));
    } else if op.ReadRegisters? {
      PeerReadsAny(m.data, op.address, op.count);
      LongReplyIsPossible(m.data, op);
    } else {
      PeerPerforms(m.data, op);
    }
  }

  lemma LongReplyIsPossible(d: Data, op: Op)
    requires op.ReadRegisters? && Replied(op)
    ensures Possible(op, Reply(d, op))
  {
  }

  predicate AtStage(s: Sys, waiting: bool) {
    s.mutex.Some? && s.mutex.value.stage.Waiting? == waiting
  }

  predicate Enabled(cfg: Config, s: Sys, step: Step) {
    match step
    case Acquire(op) => s.mutex.None? && Issued(op)
    case Dial => AtStage(s, false) && s.conn.None?
    case Write => AtStage(s, false) && s.conn.Some?
    case Answer(reply) => s.conn.Some? && s.conn.value.pending != [] && Possible(s.conn.value.pending[0].op, reply)
    case Lose => s.conn.Some? && s.conn.value.pending != []
    case Arrive => AtStage(s, true) && s.conn.Some? && s.conn.value.unread != []
                   && !Complete(cfg.mode, s.mutex.value.stage.got, s.tid, cfg.unit)
    case Finish => AtStage(s, true) && s.conn.Some? && Complete(cfg.mode, s.mutex.value.stage.got, s.tid, cfg.unit)
    case GiveUp => s.mutex.Some?
    case Reopen(_) => s.mutex.None?
    case Shut => s.mutex.None?
  }

  /** The connection is closed; another attempt follows unless none is left. */
  function Failed(s: Sys): Sys
    requires s.mutex.Some?
  {
    var job := s.mutex.value;
    s.(conn := None,
       mutex := if job.left == 0 then None else Some(job.(left := job.left - 1, stage := Ready)))
  }

  /** The call is over: it keeps the connection unless connections are closed after each call. */
  function Over(cfg: Config, s: Sys): Sys {
    s.(mutex := None, conn := if cfg.autoClose then None else s.conn)
  }

  function Outcome(cfg: Config, s: Sys): Result<seq<byte>>
    requires AtStage(s, true)
  {
    Decode(cfg.mode, s.mutex.value.stage.got, s.tid, cfg.unit).0
  }

  function Next(cfg: Config, s: Sys, step: Step): Sys
    requires Enabled(cfg, s, step)
  {
    match step
    case Acquire(op) => s.(mutex := Some(Job(s.calls, op, cfg.retries, Ready)), calls := s.calls + 1)
    case Dial => s.(conn := Some(Stream([], [])))
    case Write =>
      var job := s.mutex.value;
      var tid := NextTid(cfg.mode, s.tid);
      s.(tid := tid,
         serials := s.serials + 1,
         mutex := Some(job.(stage := Waiting(s.serials, []))),
         conn := Some(s.conn.value.(pending := s.conn.value.pending + [Asking(s.serials, tid, job.op)])),
         asked := s.asked[s.serials := (job.call, job.op)])
    case Answer(reply) =>
      var head := s.conn.value.pending[0];
      var frame := ReplyFrame(cfg.mode, head.tid, cfg.unit, reply);
      s.(conn := Some(Stream(s.conn.value.pending[1..], s.conn.value.unread + frame)),
         answers := s.answers[head.serial := reply])
    case Lose => s.(conn := Some(s.conn.value.(pending := s.conn.value.pending[1..])))
    case Arrive =>
      var job := s.mutex.value;
      var stream := s.conn.value;
      s.(mutex := Some(job.(stage := job.stage.(got := job.stage.got + [stream.unread[0]]))),
         conn := Some(stream.(unread := stream.unread[1..])))
    case Finish =>
      var job := s.mutex.value;
      (match Outcome(cfg, s)
       case Ok(pdu) =>
         (match Interpret(job.op, pdu)
          case Ok(words) => Over(cfg, s).(done := s.done + [Success(job.call, job.op, job.stage.serial, words)])
          case Err(_) => Over(cfg, s))
       case Err(_) => Failed(s))
    case GiveUp => Failed(s)
    case Reopen(up) => s.(conn := if up then Some(Stream([], [])) else None)
    case Shut => s.(conn := None)
  }

  predicate ValidRun(cfg: Config, s: Sys, steps: seq<Step>)
    decreases |steps|
  {
    steps == [] || (Enabled(cfg, s, steps[0]) && ValidRun(cfg, Next(cfg, s, steps[0]), steps[1..]))
  }

  function After(cfg: Config, s: Sys, steps: seq<Step>): Sys
    requires ValidRun(cfg, s, steps)
    decreases |steps|
  {
    if steps == [] then s else After(cfg, Next(cfg, s, steps[0]), steps[1..])
  }

  /** Every call of the run asks for something that leaves nothing behind on the connection. */
  predicate AllContained(cfg: Config, steps: seq<Step>) {
    forall k :: 0 <= k < |steps| && steps[k].Acquire? ==> Contained(cfg, steps[k].op)
  }

  // ----- the invariant

  predicate Quiet(conn: Option<Stream>) {
    conn.None? || conn.value == Stream([], [])
  }

  /** What is between the peer and a caller that waits for the answer to its request. */
  predicate InFlight(cfg: Config, s: Sys, serial: nat, op: Op, got: seq<byte>) {
    && s.conn.Some?
    && (forall k :: 0 <= k < |got| ==> !Complete(cfg.mode, got[..k], s.tid, cfg.unit))
    && (var stream := s.conn.value;
        || (stream.pending == [Asking(serial, s.tid, op)] && stream.unread == [] && got == [])
        || (stream.pending == [] && stream.unread == [] && got == [])
        || (&& stream.pending == []
            && serial in s.answers && Possible(op, s.answers[serial])
            && got + stream.unread == ReplyFrame(cfg.mode, s.tid, cfg.unit, s.answers[serial])))
  }

  /** The call returned what the peer's answer to this request means. */
  predicate Own(s: Sys, d: Success) {
    && d.serial in s.asked && s.asked[d.serial] == (d.call, d.op)
    && d.serial in s.answers && Classify(s.answers[d.serial]).Ok?
    && Interpret(d.op, s.answers[d.serial]) == Ok(d.words)
  }

  predicate OwnReplies(s: Sys) {
    && (forall k :: 0 <= k < |s.done| ==>
          Own(s, s.done[k]) && s.done[k].serial < s.serials && s.done[k].call < s.calls)
    && (forall j, k :: 0 <= j < k < |s.done| ==>
          s.done[j].serial < s.done[k].serial && s.done[j].call < s.done[k].call)
  }

  /**
   * A free mutex means a quiet connection or none; a caller that waits has its own request, and nothing
   * else, between itself and the peer; and whoever succeeded got the answer to its own request.
   */
  predicate Inv(cfg: Config, s: Sys) {
    && OwnReplies(s)
    && (s.conn.Some? ==> forall r <- s.conn.value.pending :: AtStage(s, true) && r.serial == s.mutex.value.stage.serial)
    && (match s.mutex
        case None => Quiet(s.conn)
        case Some(job) =>
          && job.call < s.calls && Issued(job.op) && Contained(cfg, job.op)
          && (forall k :: 0 <= k < |s.done| ==> s.done[k].call < job.call)
          && match job.stage
             case Ready => Quiet(s.conn)
             case Waiting(serial, got) =>
               && serial < s.serials
               && serial in s.asked && s.asked[serial] == (job.call, job.op)
               && (forall k :: 0 <= k < |s.done| ==> s.done[k].serial < serial)
               && InFlight(cfg, s, serial, job.op, got))
  }

  lemma InitialHolds(cfg: Config)
    ensures Inv(cfg, INITIAL)
  {
  }

  // ----- what a caller makes of its answer

  /** In every mode: the client reads to the first point where what it has is complete, and judges that. */
  lemma DecodeTakesShortest(mode: Mode, s: seq<byte>, n: nat, tid: uint16, unit: byte)
    requires n <= |s| && Complete(mode, s[..n], tid, unit)
    requires forall k :: 0 <= k < n ==> !Complete(mode, s[..k], tid, unit)
    ensures Decode(mode, s, tid, unit) == (Decode(mode, s[..n], tid, unit).0, s[n..])
  {
    hide TcpFraming.Decode, RtuFraming.Decode, AsciiFraming.Decode;
    match mode
    case Tcp => TcpFraming.DecodeTakesShortest(s, n, tid, unit);
    case RtuOverTcp | Rtu => RtuFraming.DecodeTakesShortest(s, n, unit);
    case Ascii => AsciiFraming.DecodeTakesShortest(s, n, unit);
  }

  /** ASCII replies whose line is too long for the client. */
  predicate TooLong(mode: Mode, reply: seq<byte>) {
    mode.Ascii? && |reply| > 508
  }

  lemma AsciiReplyDecodes(unit: byte, reply: seq<byte>)
    requires reply != []
    ensures var (r, rest) := AsciiFraming.Decode(AsciiFraming.Frame(unit, reply, false), unit);
            if |reply| > 508 then r == Err(BadLength) else r == Classify(reply) && rest == []
  {
    hide AsciiFraming.ReadLine, AsciiFraming.Check, AsciiFraming.HexEncode, Classify;
    var frame := AsciiFraming.Frame(unit, reply, false);
    if |reply| <= 508 {
      AsciiFraming.RoundTrip(unit, reply, false, []);
      assert frame + [] == frame;
    } else {
      AsciiFraming.FrameLine(unit, reply, false);
      AsciiFraming.LineTooLong([], frame, AsciiFraming.LONGEST_LINE);
    }
  }

  lemma RtuReplyIsWellFormed(mode: Mode, op: Op, reply: seq<byte>)
    requires Possible(op, reply) && Tidy(mode, op) && IsRtu(mode)
    ensures WellFormedReply(reply)
  {
  }

  lemma PossibleLength(op: Op, reply: seq<byte>)
    requires Possible(op, reply)
    ensures 2 <= |reply| <= 65534
  {
  }

  /** The whole frame of a possible reply to a tidy operation: judged right, with nothing left over. */
  lemma TidyReplyDecodes(mode: Mode, tid: uint16, unit: byte, op: Op, reply: seq<byte>)
    requires Possible(op, reply) && Tidy(mode, op)
    ensures var (r, rest) := Decode(mode, ReplyFrame(mode, tid, unit, reply), tid, unit);
            if TooLong(mode, reply) then r == Err(BadLength) else r == Classify(reply) && rest == []
  {
    hide Classify, Possible, TcpFraming.Decode, RtuFraming.Decode, AsciiFraming.Decode,
      TcpFraming.Frame, RtuFraming.Frame, AsciiFraming.Frame;
    PossibleLength(op, reply);
    var frame := ReplyFrame(mode, tid, unit, reply);
    assert frame + [] == frame;
    match mode
    case Tcp => TcpFraming.RoundTrip(tid, unit, reply, []);
    case RtuOverTcp | Rtu =>
      RtuReplyIsWellFormed(mode, op, reply);
      RtuFraming.RoundTrip(unit, reply, []);
    case Ascii => AsciiReplyDecodes(unit, reply);
  }

  /** The bytes in flight, taken together, when something has been read. */
  lemma ReadIsOwn(cfg: Config, s: Sys)
    requires Inv(cfg, s) && AtStage(s, true) && s.mutex.value.stage.got != []
    ensures var serial := s.mutex.value.stage.serial;
            && s.conn.Some?
            && serial in s.answers && Possible(s.mutex.value.op, s.answers[serial])
            && s.mutex.value.stage.got + s.conn.value.unread == ReplyFrame(cfg.mode, s.tid, cfg.unit, s.answers[serial])
            && s.conn.value.pending == []
  {
    hide Possible, ReplyFrame, Complete, OwnReplies;
  }

  lemma NothingIsComplete(mode: Mode, tid: uint16, unit: byte)
    ensures !Complete(mode, [], tid, unit)
  {
  }

  /**
   * When a caller has read all it wants, that is the answer to its own request: for a tidy operation it is
   * judged as that answer and leaves the connection quiet, unless an ASCII line was too long.
   */
  lemma FinishReadsOwnReply(cfg: Config, s: Sys)
    requires Inv(cfg, s) && Enabled(cfg, s, Finish)
    ensures var serial := s.mutex.value.stage.serial;
            && serial in s.answers && Possible(s.mutex.value.op, s.answers[serial])
            && (Tidy(cfg.mode, s.mutex.value.op) ==>
                  if TooLong(cfg.mode, s.answers[serial]) then Outcome(cfg, s) == Err(BadLength)
                  else Outcome(cfg, s) == Classify(s.answers[serial]) && Quiet(s.conn))
  {
    hide Decode, ReplyFrame, Complete, OwnReplies, Possible, Classify;
    var Waiting(serial, got) := s.mutex.value.stage;
    NothingIsComplete(cfg.mode, s.tid, cfg.unit);
    ReadIsOwn(cfg, s);
    var reply := s.answers[serial];
    var frame := ReplyFrame(cfg.mode, s.tid, cfg.unit, reply);
    assert got == frame[..|got|] && s.conn.value.unread == frame[|got|..];
    forall k | 0 <= k < |got| ensures !Complete(cfg.mode, frame[..k], s.tid, cfg.unit) {
      assert frame[..k] == got[..k];
    }
    DecodeTakesShortest(cfg.mode, frame, |got|, s.tid, cfg.unit);
    if Tidy(cfg.mode, s.mutex.value.op) {
      TidyReplyDecodes(cfg.mode, s.tid, cfg.unit, s.mutex.value.op, reply);
    }
  }

  // ----- every step keeps the invariant

  lemma ArriveKeeps(cfg: Config, s: Sys)
    requires Inv(cfg, s) && Enabled(cfg, s, Arrive)
    ensures Inv(cfg, Next(cfg, s, Arrive))
  {
    hide ReplyFrame, Complete, Possible, Interpret, Classify;
    var got, unread := s.mutex.value.stage.got, s.conn.value.unread;
    assert got + [unread[0]] + unread[1..] == got + unread;
    var more := got + [unread[0]];
    forall k | 0 <= k < |more| ensures !Complete(cfg.mode, more[..k], s.tid, cfg.unit) {
      assert more[..k] == got[..k];
      assert got[..|got|] == got;
    }
  }

  lemma AnswerKeeps(cfg: Config, s: Sys, reply: seq<byte>)
    requires Inv(cfg, s) && Enabled(cfg, s, Answer(reply))
    ensures Inv(cfg, Next(cfg, s, Answer(reply)))
  {
    hide ReplyFrame, Possible, Interpret, Classify, Complete;
    var serial := s.mutex.value.stage.serial;
    assert s.conn.value.pending == [Asking(serial, s.tid, s.mutex.value.op)] by {
      assert s.conn.value.pending[0].serial == serial;
    }
    var frame := ReplyFrame(cfg.mode, s.tid, cfg.unit, reply);
    assert [] + frame == frame;
  }

  lemma WriteKeeps(cfg: Config, s: Sys)
    requires Inv(cfg, s) && Enabled(cfg, s, Write)
    ensures Inv(cfg, Next(cfg, s, Write))
  {
    hide ReplyFrame, Possible, Interpret, Classify, Complete;
  }

  lemma LoseKeeps(cfg: Config, s: Sys)
    requires Inv(cfg, s) && Enabled(cfg, s, Lose)
    ensures Inv(cfg, Next(cfg, s, Lose))
  {
    hide ReplyFrame, Possible, Interpret, Classify, Complete;
  }

  lemma FinishKeeps(cfg: Config, s: Sys)
    requires Inv(cfg, s) && Enabled(cfg, s, Finish)
    ensures Inv(cfg, Next(cfg, s, Finish))
  {
    hide ReplyFrame, Possible, Interpret, Classify, Complete, Outcome, Tidy, InFlight, TooLong;
    FinishReadsOwnReply(cfg, s);
    var job := s.mutex.value;
    if Outcome(cfg, s).Ok? && !Tidy(cfg.mode, job.op) {
      UntidyIsOverlong(cfg.mode, job.op);
      OverlongIsInvalid(job.op, Outcome(cfg, s).value);
    }
    if Outcome(cfg, s).Ok? {
      ClassifiedIsItself(s.answers[job.stage.serial]);
    }
  }

  lemma UntidyIsOverlong(mode: Mode, op: Op)
    requires !Tidy(mode, op)
    ensures !Answerable(op)
  {
  }

  lemma ClassifiedIsItself(pdu: seq<byte>)
    ensures Classify(pdu).Ok? ==> Classify(pdu).value == pdu
  {
  }

  lemma StepKeeps(cfg: Config, s: Sys, step: Step)
    requires Inv(cfg, s) && Enabled(cfg, s, step)
    requires step.Acquire? ==> Contained(cfg, step.op)
    ensures Inv(cfg, Next(cfg, s, step))
  {
    hide ReplyFrame, Possible, Interpret, Classify, Complete, Outcome, InFlight;
    match step
    case Answer(reply) => AnswerKeeps(cfg, s, reply);
    case Arrive => ArriveKeeps(cfg, s);
    case Finish => FinishKeeps(cfg, s);
    case Write => WriteKeeps(cfg, s);
    case Lose => LoseKeeps(cfg, s);
    case _ =>
  }

  lemma {:induction false} RunKeeps(cfg: Config, s: Sys, steps: seq<Step>)
    requires Inv(cfg, s) && ValidRun(cfg, s, steps) && AllContained(cfg, steps)
    ensures Inv(cfg, After(cfg, s, steps))
    decreases |steps|
  {
    hide Inv, Next, Enabled;
    if steps != [] {
      StepKeeps(cfg, s, steps[0]);
      RunKeeps(cfg, Next(cfg, s, steps[0]), steps[1..]);
    }
  }

  // ----- the theorems

  /**
   * Own reply: in every run of any number of callers whose operations are contained, in every mode, with any
   * losses and time-outs and any answers of the device, each successful call returned what the peer's answer
   * to a request of this very call means, and no two calls ever shared a request.
   */
  lemma EveryCallerGetsItsOwnReply(cfg: Config, steps: seq<Step>, k: nat)
    requires ValidRun(cfg, INITIAL, steps) && AllContained(cfg, steps) && k < |After(cfg, INITIAL, steps).done|
    ensures var s := After(cfg, INITIAL, steps);
            && Own(s, s.done[k])
            && forall j :: 0 <= j < |s.done| && j != k ==>
                 s.done[j].serial != s.done[k].serial && s.done[j].call != s.done[k].call
  {
    hide Own;
    RunKeeps(cfg, INITIAL, steps);
  }

  /**
   * With a conforming peer no test ever fires wrongly. As soon as a TCP caller has its seven header bytes,
   * their transaction and unit are its own, also after the id wraps, and the length is positive; and what is
   * read in full is judged as the peer's answer, except for an ASCII line that is too long.
   */
  lemma ChecksNeverFire(cfg: Config, steps: seq<Step>)
    requires ValidRun(cfg, INITIAL, steps) && AllContained(cfg, steps)
    ensures var s := After(cfg, INITIAL, steps);
            AtStage(s, true) && cfg.mode.Tcp? && |s.mutex.value.stage.got| >= 7 ==>
              var got := s.mutex.value.stage.got;
              FromBig(got[0..2]) == s.tid && got[6] == cfg.unit && FromBig(got[4..6]) > 1
    ensures var s := After(cfg, INITIAL, steps);
            Enabled(cfg, s, Finish) && Tidy(cfg.mode, s.mutex.value.op) ==>
              || Outcome(cfg, s).Ok? || Outcome(cfg, s).error.Exception?
              || (cfg.mode.Ascii? && Outcome(cfg, s).error.BadLength?)
  {
    hide Complete, ReplyFrame, Outcome, Inv;
    InitialHolds(cfg);
    RunKeeps(cfg, INITIAL, steps);
    var s := After(cfg, INITIAL, steps);
    if AtStage(s, true) && cfg.mode.Tcp? && |s.mutex.value.stage.got| >= 7 {
      ReadIsOwn(cfg, s);
      var reply := s.answers[s.mutex.value.stage.serial];
      HeaderIsOwn(s.mutex.value.stage.got, s.conn.value.unread, s.tid, cfg.unit, reply);
      assert ReplyFrame(cfg.mode, s.tid, cfg.unit, reply) == TcpFraming.Frame(s.tid, cfg.unit, reply) by {
        FrameInTcp(cfg.mode, s.tid, cfg.unit, reply);
      }
    }
    if Enabled(cfg, s, Finish) {
      FinishReadsOwnReply(cfg, s);
    }
  }

  lemma FrameInTcp(mode: Mode, tid: uint16, unit: byte, reply: seq<byte>)
    requires mode.Tcp?
    ensures ReplyFrame(mode, tid, unit, reply) == TcpFraming.Frame(tid, unit, reply)
  {
  }

  lemma HeaderIsOwn(got: seq<byte>, unread: seq<byte>, tid: uint16, unit: byte, reply: seq<byte>)
    requires |got| >= 7 && 1 <= |reply| <= 65534
    ensures got + unread == TcpFraming.Frame(tid, unit, reply) ==>
              FromBig(got[0..2]) == tid && got[6] == unit && FromBig(got[4..6]) > 1
  {
    hide TcpFraming.Frame, Big, FromBig;
    if got + unread == TcpFraming.Frame(tid, unit, reply) {
      assert got <= got + unread;
      TcpFraming.HeaderFields(tid, unit, reply, got);
      BigRoundTrip(tid);
      BigRoundTrip(|reply| + 1);
    }
  }

  /** Whenever nobody holds the mutex, the connection carries nothing left over from an earlier call. */
  lemma FreeMutexMeansQuiet(cfg: Config, steps: seq<Step>)
    requires ValidRun(cfg, INITIAL, steps) && AllContained(cfg, steps) && After(cfg, INITIAL, steps).mutex.None?
    ensures Quiet(After(cfg, INITIAL, steps).conn)
  {
    RunKeeps(cfg, INITIAL, steps);
  }

  // ----- and only then

  /** All calls of the run are this operation. */
  predicate Only(op: Op, steps: seq<Step>) {
    forall k :: 0 <= k < |steps| && steps[k].Acquire? ==> steps[k].op == op
  }

  /** A caller reads n more bytes, one by one, and judges them. */
  lemma {:induction false} Drains(cfg: Config, s: Sys, op: Op, n: nat) returns (steps: seq<Step>)
    requires AtStage(s, true) && s.conn.Some? && n <= |s.conn.value.unread|
    requires var all := s.mutex.value.stage.got + s.conn.value.unread;
             var m := |s.mutex.value.stage.got|;
             && Complete(cfg.mode, all[..m + n], s.tid, cfg.unit)
             && (forall k :: m <= k < m + n ==> !Complete(cfg.mode, all[..k], s.tid, cfg.unit))
    ensures ValidRun(cfg, s, steps) && Only(op, steps)
    ensures var got := (s.mutex.value.stage.got + s.conn.value.unread)[..|s.mutex.value.stage.got| + n];
            var s' := s.(mutex := Some(s.mutex.value.(stage := s.mutex.value.stage.(got := got))),
                         conn := Some(s.conn.value.(unread := s.conn.value.unread[n..])));
            Enabled(cfg, s', Finish) && After(cfg, s, steps) == Next(cfg, s', Finish)
    decreases n
  {
    hide Complete, Outcome, Interpret;
    var got, unread := s.mutex.value.stage.got, s.conn.value.unread;
    var all := got + unread;
    if n == 0 {
      assert all[..|got|] == got && unread[0..] == unread;
      steps := [Finish];
      assert steps[1..] == [];
    } else {
      assert all[..|got|] == got;
      var s1 := Next(cfg, s, Arrive);
      assert got + [unread[0]] + unread[1..] == all;
      var more := Drains(cfg, s1, op, n - 1);
      assert unread[1..][n - 1..] == unread[n..];
      steps := [Arrive] + more;
      assert steps[1..] == more;
    }
  }

  /** The RTU reader is content with the frame of a reply to a read, and not before. */
  lemma ReadReplyIsComplete(unit: byte, pdu: seq<byte>, rest: seq<byte>)
    requires |pdu| >= 2 && pdu[0] == 0x03 && |pdu| == 2 + pdu[1] as int
    ensures var f := RtuFraming.Frame(unit, pdu);
            && RtuFraming.Complete((f + rest)[..|f|])
            && (forall k :: 0 <= k < |f| ==> !RtuFraming.Complete((f + rest)[..k]))
            && RtuFraming.Decode(f, unit) == (Ok(pdu), [])
  {
    hide RtuFraming.Decode;
    var f := RtuFraming.Frame(unit, pdu);
    RtuFraming.FrameHead(unit, pdu);
    assert (f + rest)[..|f|] == f;
    RtuFraming.RoundTrip(unit, pdu, []);
    assert f + [] == f;
  }

  lemma Prefixed(cfg: Config, s: Sys, step: Step, steps: seq<Step>)
    requires Enabled(cfg, s, step) && ValidRun(cfg, Next(cfg, s, step), steps)
    ensures ValidRun(cfg, s, [step] + steps) && After(cfg, s, [step] + steps) == After(cfg, Next(cfg, s, step), steps)
  {
    assert ([step] + steps)[1..] == steps;
  }

  lemma {:induction false} RunsJoin(cfg: Config, s: Sys, first: seq<Step>, second: seq<Step>)
    requires ValidRun(cfg, s, first) && ValidRun(cfg, After(cfg, s, first), second)
    ensures ValidRun(cfg, s, first + second)
    ensures After(cfg, s, first + second) == After(cfg, After(cfg, s, first), second)
    decreases |first|
  {
    hide Next, Enabled;
    if first == [] {
      assert first + second == second;
    } else {
      assert (first + second)[1..] == first[1..] + second;
      RunsJoin(cfg, Next(cfg, s, first[0]), first[1..], second);
    }
  }

  /**
   * One call for a read that is not contained, one answer that a device gives, and the mutex is free while
   * the connection carries a frame of the device's choosing.
   */
  lemma LeavesBytes(cfg: Config, a: uint16, n: uint16, x: byte, y: byte) returns (steps: seq<Step>, tail: seq<byte>)
    requires !Contained(cfg, ReadRegisters(a, n))
    ensures ValidRun(cfg, INITIAL, steps) && Only(ReadRegisters(a, n), steps)
    ensures var s := After(cfg, INITIAL, steps);
            && s.mutex.None? && s.done == [] && s.serials !in s.answers
            && s.conn == Some(Stream([], RtuFraming.Frame(cfg.unit, OverlongReads.Fake(x, y)) + tail))
  {
    hide OverlongReads.Trap, OverlongReads.Fake, Reply, Interpret, RtuFraming.Frame, RtuFraming.Decode, Possible,
      RtuFraming.Complete, ValidRun, After;
    var op := ReadRegisters(a, n);
    var d := Data(OverlongReads.Trap(cfg.unit, a, n, x, y), map[]);
    tail := OverlongReads.ReplySplits(cfg.unit, d, a, n, x, y);
    LongReplyIsPossible(d, op);
    var head := RtuFraming.Frame(cfg.unit, OverlongReads.Head(n));
    var rest := RtuFraming.Frame(cfg.unit, OverlongReads.Fake(x, y)) + tail;
    var s1 := Next(cfg, INITIAL, Acquire(op));
    var s2 := Next(cfg, s1, Dial);
    var s3 := Next(cfg, s2, Write);
    var s4 := Next(cfg, s3, Answer(Reply(d, op)));
    assert s3.conn.value.pending[1..] == [];
    assert ReplyFrame(cfg.mode, s3.tid, cfg.unit, Reply(d, op)) == head + rest;
    assert s4.conn == Some(Stream([], [] + (head + rest)));
    assert [] + (head + rest) == head + rest;
    ReadReplyIsComplete(cfg.unit, OverlongReads.Head(n), rest);
    var more := Drains(cfg, s4, op, |head|);
    assert (head + rest)[..|head|] == head && (head + rest)[|head|..] == rest;
    OverlongIsInvalid(op, OverlongReads.Head(n));
    Prefixed(cfg, s3, Answer(Reply(d, op)), more);
    Prefixed(cfg, s2, Write, [Answer(Reply(d, op))] + more);
    Prefixed(cfg, s1, Dial, [Write] + ([Answer(Reply(d, op))] + more));
    Prefixed(cfg, INITIAL, Acquire(op), [Dial] + ([Write] + ([Answer(Reply(d, op))] + more)));
    steps := [Acquire(op)] + ([Dial] + ([Write] + ([Answer(Reply(d, op))] + more)));
  }

  /** The next caller reads that frame, and succeeds before its own request has been answered. */
  lemma TakesForeignBytes(cfg: Config, s: Sys, b: uint16, x: byte, y: byte, tail: seq<byte>)
    returns (steps: seq<Step>)
    requires IsRtu(cfg.mode) && s.mutex.None? && s.done == [] && s.serials !in s.answers
    requires s.conn == Some(Stream([], RtuFraming.Frame(cfg.unit, OverlongReads.Fake(x, y)) + tail))
    ensures ValidRun(cfg, s, steps) && Only(ReadRegisters(b, 1), steps)
    ensures var s' := After(cfg, s, steps); |s'.done| == 1 && !Own(s', s'.done[0])
  {
    hide Interpret, RtuFraming.Frame, RtuFraming.Decode, RtuFraming.Complete, ValidRun, After;
    var op := ReadRegisters(b, 1);
    var fake := RtuFraming.Frame(cfg.unit, OverlongReads.Fake(x, y));
    var s1 := Next(cfg, s, Acquire(op));
    var s2 := Next(cfg, s1, Write);
    assert [] + (fake + tail) == fake + tail;
    ReadReplyIsComplete(cfg.unit, OverlongReads.Fake(x, y), tail);
    var more := Drains(cfg, s2, op, |fake|);
    assert (fake + tail)[..|fake|] == fake;
    OverlongReads.FakeIsRead(b, x, y);
    Prefixed(cfg, s1, Write, more);
    Prefixed(cfg, s, Acquire(op), [Write] + more);
    steps := [Acquire(op)] + ([Write] + more);
  }

  /** The calls of the run are this operation, and others that are contained. */
  predicate Besides(cfg: Config, op: Op, steps: seq<Step>) {
    forall k :: 0 <= k < |steps| && steps[k].Acquire? ==> steps[k].op == op || Contained(cfg, steps[k].op)
  }

  /**
   * Own reply is exact, too: in every run whose calls are this operation and contained ones, every success is
   * the caller's own, if and only if this operation is contained.
   */
  lemma OwnIsExact(cfg: Config, op: Op)
    requires Issued(op)
    ensures (forall steps, k ::
              ValidRun(cfg, INITIAL, steps) && Besides(cfg, op, steps) && 0 <= k < |After(cfg, INITIAL, steps).done| ==>
                Own(After(cfg, INITIAL, steps), After(cfg, INITIAL, steps).done[k]))
        <==> Contained(cfg, op)
  {
    hide ValidRun, After, Own;
    if Contained(cfg, op) {
      forall steps, k
        | ValidRun(cfg, INITIAL, steps) && Besides(cfg, op, steps) && 0 <= k < |After(cfg, INITIAL, steps).done|
        ensures Own(After(cfg, INITIAL, steps), After(cfg, INITIAL, steps).done[k])
      {
        EveryCallerGetsItsOwnReply(cfg, steps, k);
      }
    } else {
      var first, tail := LeavesBytes(cfg, op.address, op.count, 0, 0);
      var second := TakesForeignBytes(cfg, After(cfg, INITIAL, first), 0, 0, 0, tail);
      RunsJoin(cfg, INITIAL, first, second);
      assert Besides(cfg, op, first + second);
    }
  }

  lemma NotQuiet(frame: seq<byte>, tail: seq<byte>)
    requires frame != []
    ensures !Quiet(Some(Stream([], frame + tail)))
  {
    assert |frame + tail| > 0;
  }

  /**
   * A free mutex means a quiet connection, in every run whose calls are all this operation, exactly when
   * the operation is contained.
   */
  lemma QuietIsExact(cfg: Config, op: Op)
    requires Issued(op)
    ensures (forall steps ::
              ValidRun(cfg, INITIAL, steps) && Only(op, steps) && After(cfg, INITIAL, steps).mutex.None? ==>
                Quiet(After(cfg, INITIAL, steps).conn))
        <==> Contained(cfg, op)
  {
    hide ValidRun, After, Quiet;
    if Contained(cfg, op) {
      forall steps | ValidRun(cfg, INITIAL, steps) && Only(op, steps) && After(cfg, INITIAL, steps).mutex.None?
        ensures Quiet(After(cfg, INITIAL, steps).conn)
      {
        FreeMutexMeansQuiet(cfg, steps);
      }
    } else {
      var steps, tail := LeavesBytes(cfg, op.address, op.count, 0, 0);
      NotQuiet(RtuFraming.Frame(cfg.unit, OverlongReads.Fake(0, 0)), tail);
    }
  }

  // ----- attempts

  /** The requests that a call has sent. */
  function Sent(s: Sys, call: nat): set<nat> {
    set k | k in s.asked && s.asked[k].0 == call
  }

  /** A call that is under way has its attempts so far and those left within the limit. */
  predicate Limited(cfg: Config, s: Sys) {
    && (forall k <- s.asked :: k < s.serials && s.asked[k].0 < s.calls)
    && (s.mutex.Some? ==>
          var job := s.mutex.value;
          && job.call < s.calls
          && |Sent(s, job.call)| + job.left + (if job.stage.Ready? then 1 else 0) <= cfg.retries + 1)
  }

  ghost predicate Counted(cfg: Config, s: Sys) {
    forall call: nat :: |Sent(s, call)| <= cfg.retries + 1
  }

  lemma OneMoreSent(s: Sys, s': Sys, call: nat, op: Op, other: nat)
    requires s.serials !in s.asked && s'.asked == s.asked[s.serials := (call, op)]
    ensures Sent(s', other) == Sent(s, other) + if other == call then {s.serials} else {}
  {
  }

  lemma WriteStaysLimited(cfg: Config, s: Sys)
    requires Limited(cfg, s) && Counted(cfg, s) && Enabled(cfg, s, Write)
    ensures Limited(cfg, Next(cfg, s, Write)) && Counted(cfg, Next(cfg, s, Write))
  {
    hide Outcome, Interpret, Complete, Possible, Issued, NextTid, Sent;
    var s' := Next(cfg, s, Write);
    var job := s.mutex.value;
    forall call: nat ensures |Sent(s', call)| <= cfg.retries + 1 {
      OneMoreSent(s, s', job.call, job.op, call);
      assert |Sent(s, call)| <= cfg.retries + 1;
    }
    OneMoreSent(s, s', job.call, job.op, job.call);
  }

  /** No other step sends anything, and none gives a call more attempts than it had. */
  lemma OthersSendNothing(cfg: Config, s: Sys, step: Step)
    requires Enabled(cfg, s, step) && !step.Write?
    ensures var s' := Next(cfg, s, step);
            && s'.asked == s.asked && s'.serials == s.serials && s'.calls >= s.calls
            && (step.Acquire? ==> s'.calls == s.calls + 1 && s'.mutex == Some(Job(s.calls, step.op, cfg.retries, Ready)))
            && (!step.Acquire? && s'.mutex.Some? ==>
                  var job, job' := s.mutex, s'.mutex.value;
                  && job.Some? && job'.call == job.value.call
                  && job'.left + (if job'.stage.Ready? then 1 else 0)
                     <= job.value.left + (if job.value.stage.Ready? then 1 else 0))
  {
    hide Outcome, Interpret, Complete, Possible, Issued;
  }

  lemma StepStaysLimited(cfg: Config, s: Sys, step: Step)
    requires Limited(cfg, s) && Counted(cfg, s) && Enabled(cfg, s, step)
    ensures Limited(cfg, Next(cfg, s, step)) && Counted(cfg, Next(cfg, s, step))
  {
    hide Next, Enabled;
    if step.Write? {
      WriteStaysLimited(cfg, s);
    } else {
      var s' := Next(cfg, s, step);
      OthersSendNothing(cfg, s, step);
      forall call: nat ensures Sent(s', call) == Sent(s, call) && |Sent(s', call)| <= cfg.retries + 1 {
        assert |Sent(s, call)| <= cfg.retries + 1;
      }
      if step.Acquire? {
        assert Sent(s, s.calls) == {};
      }
    }
  }

  lemma {:induction false} RunStaysLimited(cfg: Config, s: Sys, steps: seq<Step>)
    requires Limited(cfg, s) && Counted(cfg, s) && ValidRun(cfg, s, steps)
    ensures Counted(cfg, After(cfg, s, steps))
    decreases |steps|
  {
    hide Limited, Counted, Enabled, Next;
    if steps != [] {
      StepStaysLimited(cfg, s, steps[0]);
      RunStaysLimited(cfg, Next(cfg, s, steps[0]), steps[1..]);
    }
  }

  /** However the callers interleave and whatever goes wrong, no call sends more than retries + 1 requests. */
  lemma AttemptsAreBounded(cfg: Config, steps: seq<Step>, call: nat)
    requires ValidRun(cfg, INITIAL, steps)
    ensures |set k | k in After(cfg, INITIAL, steps).asked && After(cfg, INITIAL, steps).asked[k].0 == call|
         <= cfg.retries + 1
  {
    hide Enabled, Next;
    NothingSent(cfg);
    RunStaysLimited(cfg, INITIAL, steps);
    assert Sent(After(cfg, INITIAL, steps), call)
        == set k | k in After(cfg, INITIAL, steps).asked && After(cfg, INITIAL, steps).asked[k].0 == call;
  }

  lemma NothingSent(cfg: Config)
    ensures Limited(cfg, INITIAL) && Counted(cfg, INITIAL)
  {
    forall call: nat ensures |Sent(INITIAL, call)| <= cfg.retries + 1 {
      assert Sent(INITIAL, call) == {};
    }
  }
}
