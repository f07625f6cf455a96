/** The client's request cycle as a function of its state, and what a run of it means. */
module ModbusSession {
  import opened Bytes
  import opened Replies
  import opened RegisterMap
  import opened Network
  import opened ModbusDevice
  import TcpFraming
  import RtuFraming
  import AsciiFraming

  datatype Config = Config(mode: Mode, unit: byte, retries: nat, autoClose: bool)

  datatype State = State(conn: Option<nat>, tid: uint16, links: Links, memory: Memory)

  predicate Attached(st: State) {
    st.conn.Some? ==> st.conn.value in st.links.open
  }

  // ----- one exchange

  function Decode(mode: Mode, s: seq<byte>, tid: uint16, unit: byte): (Result<seq<byte>>, seq<byte>) {
    match mode
    case Tcp => TcpFraming.Decode(s, tid, unit)
    case RtuOverTcp => RtuFraming.Decode(s, unit)
    case Rtu => RtuFraming.Decode(s, unit)
    case Ascii => AsciiFraming.Decode(s, unit)
  }

  /** The memory a request meets: somebody may have asked for an exception just before. */
  function Met(f: Fate, m: Memory): Memory {
    match f.inject
    case None => m
    case Some(w) => m.(fail := Some((w / 256, w % 256)))
  }

  /** What the peer does with a frame at this tick. */
  function Served(mode: Mode, f: Fate, m: Memory, frame: seq<byte>): (Memory, seq<byte>) {
    if f.served then Serve(mode, Met(f, m), frame) else (Met(f, m), [])
  }

  function AfterTransmit(mode: Mode, plan: Plan, st: State, h: nat, frame: seq<byte>): State
    requires h in st.links.open
  {
    var (m, reply) := Served(mode, plan(st.links.clock), st.memory, frame);
    st.(memory := m, links := AfterWrite(plan, st.links, h, frame, reply))
  }

  /** ensureConnLocked. */
  function Ensured(plan: Plan, st: State): State {
    if st.conn.Some? then st
    else st.(conn := DialResult(plan, st.links), links := AfterDial(plan, st.links))
  }

  function NextTid(mode: Mode, tid: uint16): uint16 {
    if mode.Tcp? then Wrap16(tid + 1) else tid
  }

  /** sendPDUOnceLocked. */
  function SendOnce(cfg: Config, plan: Plan, st: State, pdu: seq<byte>): (State, Result<seq<byte>>)
    requires Attached(st)
  {
    var st1 := Ensured(plan, st);
    match st1.conn
    case None => (st1, Err(Io))
    case Some(h) => Exchange(cfg, plan, st1.(tid := NextTid(cfg.mode, st1.tid)), h, pdu)
  }

  function Exchange(cfg: Config, plan: Plan, st: State, h: nat, pdu: seq<byte>): (State, Result<seq<byte>>)
    requires h in st.links.open
  {
    var st' := AfterTransmit(cfg.mode, plan, st, h, RequestFrame(cfg.mode, st.tid, cfg.unit, pdu));
    if !plan(st.links.clock).sent then (st', Err(Io))
    else
      var (r, rest) := Decode(cfg.mode, st'.links.open[h], st.tid, cfg.unit);
      (st'.(links := Unread(st'.links, h, rest)), r)
  }

  /** closeLocked. */
  function Disconnected(st: State): State {
    match st.conn
    case None => st
    case Some(h) => st.(conn := None, links := AfterClose(st.links, h))
  }

  /** sendPDU, with `left` attempts after the next one. */
  function Send(cfg: Config, plan: Plan, st: State, pdu: seq<byte>, left: nat): (State, Result<seq<byte>>)
    requires Attached(st)
    decreases left
  {
    var (st', r) := SendOnce(cfg, plan, st, pdu);
    if r.Ok? then (if cfg.autoClose then Disconnected(st') else st', r)
    else if left == 0 then (Disconnected(st'), r)
    else Send(cfg, plan, Disconnected(st'), pdu, left - 1)
  }

  // ----- operations

  datatype Op =
    | ReadRegisters(address: uint16, count: uint16)
    | WriteRegisters(address: uint16, values: seq<uint16>)
    | WriteCoil(address: uint16, on: bool)

  function Pdu(op: Op): (r: seq<byte>)
    ensures |r| >= 5
  {
    match op
    case ReadRegisters(a, n) => [0x03] + Big(a) + Big(n)
    case WriteRegisters(a, vs) =>
      [0x10] + Big(a) + Big(Wrap16(|vs|)) + [(2 * |vs|) % 256] + PackBig(vs)
    case WriteCoil(a, on) => [0x05] + Big(a) + Big(if on then 0xFF00 else 0)
  }

  /** The client's last look at a reply: write replies are checked for function code and length only. */
  function Interpret(op: Op, resp: seq<byte>): Result<seq<uint16>> {
    match op
    case ReadRegisters(_, n) =>
      if |resp| < 2 || resp[0] != 0x03 then Err(InvalidReply)
      else if |resp| != resp[1] as int + 2 || resp[1] as int != 2 * (n as int) then Err(InvalidReply)
      else Ok(UnpackBig(resp[2..]))
    case WriteRegisters(_, _) => if |resp| != 5 || resp[0] != 0x10 then Err(InvalidReply) else Ok([])
    case WriteCoil(_, _) => if |resp| != 5 || resp[0] != 0x05 then Err(InvalidReply) else Ok([])
  }

  /** readRegisters, writeRegisters and writeCoil. */
  function Run(cfg: Config, plan: Plan, st: State, op: Op): (State, Result<seq<uint16>>)
    requires Attached(st)
  {
    if op.WriteRegisters? && op.values == [] then (st, Ok([]))
    else if op.WriteRegisters? && |op.values| > 123 then (st, Err(TooManyRegisters))
    else
      var (st', r) := Send(cfg, plan, st, Pdu(op), cfg.retries);
      match r
      case Err(e) => (st', Err(e))
      case Ok(resp) => (st', Interpret(op, resp))
  }

  // ----- the meaning of an operation: no frames, no connection, just a map

  function Direct(d: Data, op: Op): (Data, seq<uint16>) {
    match op
    case ReadRegisters(a, n) => (d, Load(d.regs, a, n))
    case WriteRegisters(a, vs) => (d.(regs := Store(d.regs, a, vs)), [])
    case WriteCoil(a, on) => (d.(coils := d.coils[a := on]), [])
  }

  /** Operations that reach the wire: writes of the sizes the client lets through, and reads of any count. */
  predicate Issued(op: Op) {
    op.WriteRegisters? ==> 1 <= |op.values| <= 123
  }

  /** Reads that a reply's count byte can answer, and all writes. */
  predicate Answerable(op: Op) {
    op.ReadRegisters? ==> op.count <= 127
  }

  predicate Sendable(op: Op) {
    Issued(op) && Answerable(op)
  }

  /** Operations that the peer answers; it does not survive longer reads. */
  predicate Replied(op: Op) {
    Issued(op) && (op.ReadRegisters? ==> op.count <= 32766)
  }

  predicate IsRtu(mode: Mode) {
    mode.Rtu? || mode.RtuOverTcp?
  }

  /** Operations whose reply is taken off the stream as a whole, whatever the peer's registers hold. */
  predicate Tidy(mode: Mode, op: Op) {
    IsRtu(mode) && op.ReadRegisters? ==> op.count <= 127 || op.count > 32766
  }

  /** Operations that leave nothing behind on the connection. */
  predicate Contained(cfg: Config, op: Op) {
    cfg.autoClose || Tidy(cfg.mode, op)
  }

  lemma DirectTwice(d: Data, op: Op)
    requires Issued(op)
    ensures Direct(Direct(d, op).0, op) == Direct(d, op)
  {
    match op
    case ReadRegisters(_, _) =>
    case WriteRegisters(a, vs) => StoreTwice(d.regs, a, vs);
    case WriteCoil(a, on) => assert d.coils[a := on][a := on] == d.coils[a := on];
  }

  function Reply(d: Data, op: Op): seq<byte>
    requires Replied(op)
  {
    match op
    case ReadRegisters(a, n) => [0x03, (2 * n) % 256] + PackBig(Load(d.regs, a, n))
    case WriteRegisters(_, _) => Pdu(op)[..5]
    case WriteCoil(_, _) => Pdu(op)
  }

  /** The peer does to its maps what the operation means, and its reply carries the result. */
  ghost predicate Performed(d: Data, op: Op)
    requires Sendable(op)
  {
    && 2 <= |Pdu(op)| <= 253
    && Indexable(Pdu(op))
    && Perform(d, Pdu(op)) == (Direct(d, op).0, Reply(d, op))
    && WellFormedReply(Reply(d, op)) && Classify(Reply(d, op)).Ok? && |Reply(d, op)| <= 256
    && Interpret(op, Reply(d, op)) == Ok(Direct(d, op).1)
  }

  /** Reads of any count that the peer survives: the count byte of the reply is what is left of the count. */
  lemma PeerReadsAny(d: Data, a: uint16, n: uint16)
    ensures var op := ReadRegisters(a, n);
            && |Pdu(op)| == 5 && (Indexable(Pdu(op)) <==> Replied(op))
            && (Replied(op) ==> Perform(d, Pdu(op)) == (d, Reply(d, op)) && |Reply(d, op)| == 2 + 2 * (n as int))
  {
    hide Load, PackBig;
    var pdu := Pdu(ReadRegisters(a, n));
    assert pdu[1..3] == Big(a) && pdu[3..5] == Big(n);
  }

  lemma PeerReads(d: Data, a: uint16, n: uint16)
    requires n <= 127
    ensures Performed(d, ReadRegisters(a, n))
  {
    hide Load, PackBig, UnpackBig;
    var op := ReadRegisters(a, n);
    PeerReadsAny(d, a, n);
    var words := Load(d.regs, a, n);
    assert Reply(d, op)[2..] == PackBig(words);
    UnpackPackBig(words);
  }

  lemma PeerWrites(d: Data, a: uint16, vs: seq<uint16>)
    requires 1 <= |vs| <= 123
    ensures Performed(d, WriteRegisters(a, vs))
  {
    hide PackBig, UnpackBig, Store, Big, FromBig;
    var pdu := Pdu(WriteRegisters(a, vs));
    assert pdu[1..3] == Big(a) && pdu[3..5] == Big(|vs|);
    assert pdu[6..6 + 2 * |vs|] == PackBig(vs);
    assert pdu[..5] == Reply(d, WriteRegisters(a, vs));
    UnpackPackBig(vs);
    BigRoundTrip(a);
    BigRoundTrip(|vs|);
  }

  lemma PeerSwitches(d: Data, a: uint16, on: bool)
    ensures Performed(d, WriteCoil(a, on))
  {
    var pdu := Pdu(WriteCoil(a, on));
    assert pdu[1..3] == Big(a) && pdu[3..5] == Big(if on then 0xFF00 else 0);
    assert pdu[..5] == pdu;
  }

  lemma PeerPerforms(d: Data, op: Op)
    requires Sendable(op)
    ensures Performed(d, op)
  {
    match op
    case ReadRegisters(a, n) => PeerReads(d, a, n);
    case WriteRegisters(a, vs) => PeerWrites(d, a, vs);
    case WriteCoil(a, on) => PeerSwitches(d, a, on);
  }

  // ----- one attempt

  lemma ReplyDecodes(mode: Mode, tid: uint16, unit: byte, pdu: seq<byte>)
    requires WellFormedReply(pdu) && |pdu| <= 257
    ensures Decode(mode, ReplyFrame(mode, tid, unit, pdu), tid, unit) == (Classify(pdu), [])
    ensures forall n :: 0 <= n < |ReplyFrame(mode, tid, unit, pdu)|
              ==> Decode(mode, ReplyFrame(mode, tid, unit, pdu)[..n], tid, unit).0.Err?
  {
    var f := ReplyFrame(mode, tid, unit, pdu);
    assert f + [] == f;
    match mode
    case Tcp =>
      TcpFraming.RoundTrip(tid, unit, pdu, []);
      forall n | 0 <= n < |f| ensures Decode(mode, f[..n], tid, unit).0.Err? {
        TcpFraming.CutShort(tid, unit, pdu, n);
      }
    case RtuOverTcp | Rtu =>
      RtuFraming.RoundTrip(unit, pdu, []);
      forall n | 0 <= n < |f| ensures Decode(mode, f[..n], tid, unit).0.Err? {
        RtuFraming.CutShort(unit, pdu, n);
      }
    case Ascii =>
      AsciiFraming.RoundTrip(unit, pdu, false, []);
      forall n | 0 <= n < |f| ensures Decode(mode, f[..n], tid, unit).0.Err? {
        AsciiFraming.CutShort(unit, pdu, false, n);
      }
  }

  lemma NothingDecodes(mode: Mode, tid: uint16, unit: byte)
    ensures Decode(mode, [], tid, unit).0.Err?
  {
  }

  /** How the peer answers the frame of an operation. */
  lemma ServeOp(cfg: Config, tid: uint16, m: Memory, op: Op)
    requires Issued(op)
    ensures var (m', reply) := Serve(cfg.mode, m, RequestFrame(cfg.mode, tid, cfg.unit, Pdu(op)));
            match m.fail
            case Some(f) => && m' == m.(fail := None)
                            && reply == ReplyFrame(cfg.mode, tid, cfg.unit, Instead(f, Pdu(op)))
            case None => && m' == m.(data := Direct(m.data, op).0)
                         && reply == if Replied(op) then ReplyFrame(cfg.mode, tid, cfg.unit, Reply(m.data, op)) else []
  {
    hide RequestFrame, ReplyFrame, Pdu, Reply;
    if op.ReadRegisters? {
      PeerReadsAny(m.data, op.address, op.count);
    } else {
      PeerPerforms(m.data, op);
    }
    RequestArrives(cfg.mode, tid, cfg.unit, Pdu(op));
    if m.fail.Some? {
      SenderIrrelevant(cfg.mode, tid, cfg.unit, Instead(m.fail.value, Pdu(op)));
    } else if Replied(op) {
      SenderIrrelevant(cfg.mode, tid, cfg.unit, Reply(m.data, op));
    }
  }

  lemma InsteadIsError(f: (byte, byte), pdu: seq<byte>)
    requires pdu != []
    ensures WellFormedReply(Instead(f, pdu)) && Classify(Instead(f, pdu)).Err?
  {
  }

  /** The data after an attempt: untouched, or as if the operation had been done on the map. */
  predicate Moved(before: Data, after: Data, op: Op) {
    after == before || after == Direct(before, op).0
  }

  lemma EnsuredIsClean(plan: Plan, st: State)
    requires Clean(st.links, st.conn)
    ensures Clean(Ensured(plan, st).links, Ensured(plan, st).conn)
    ensures Ensured(plan, st).memory == st.memory && Ensured(plan, st).tid == st.tid
  {
  }

  /** A tick at which dialling works and requests and replies get through, on time and unharmed. */
  predicate Fair(f: Fate) {
    f.up && f.sent && f.served && f.keep >= 1024 && f.inject.None?
  }

  lemma ReplyFits(mode: Mode, tid: uint16, unit: byte, pdu: seq<byte>)
    requires |pdu| <= 257
    ensures |ReplyFrame(mode, tid, unit, pdu)| <= 1024
  {
  }

  /** Whatever part of a well-formed reply arrives, it is read as what it says or not at all. */
  lemma ReplyArrives(mode: Mode, f: Fate, tid: uint16, unit: byte, pdu: seq<byte>)
    requires WellFormedReply(pdu) && |pdu| <= 257
    ensures var (r, rest) := Decode(mode, Delivered(f, ReplyFrame(mode, tid, unit, pdu)), tid, unit);
            && (r.Ok? ==> Classify(pdu) == r && rest == [])
            && (f.keep >= 1024 ==> r == Classify(pdu))
  {
    hide Decode, ReplyFrame;
    ReplyFits(mode, tid, unit, pdu);
    ReplyDecodes(mode, tid, unit, pdu);
  }

  /** In TCP and ASCII mode a reply of any size is taken off the stream as a whole, or fails. */
  lemma LongReplyArrives(mode: Mode, f: Fate, tid: uint16, unit: byte, pdu: seq<byte>)
    requires !IsRtu(mode) && 1 <= |pdu| <= 65534
    ensures var (r, rest) := Decode(mode, Delivered(f, ReplyFrame(mode, tid, unit, pdu)), tid, unit);
            r.Ok? ==> rest == []
  {
    var frame := ReplyFrame(mode, tid, unit, pdu);
    assert frame + [] == frame;
    if mode.Tcp? {
      TcpFraming.RoundTrip(tid, unit, pdu, []);
      if f.keep < |frame| {
        TcpFraming.CutShort(tid, unit, pdu, f.keep);
      }
    } else {
      AsciiFraming.FrameLine(unit, pdu, false);
      if |frame| > AsciiFraming.LONGEST_LINE {
        AsciiFraming.LongLineIsRefused([], Delivered(f, frame));
      } else {
        AsciiFraming.RoundTrip(unit, pdu, false, []);
        if f.keep < |frame| {
          AsciiFraming.CutShort(unit, pdu, false, f.keep);
        }
      }
    }
  }

  /**
   * Whatever part of the peer's answer arrives: the map is untouched or as after the operation, the reply
   * to an answerable operation is read as the right one or not at all, and a tidy one leaves nothing over.
   */
  lemma ArrivalMeans(cfg: Config, f: Fate, tid: uint16, before: Memory, op: Op)
    requires Issued(op)
    ensures var (m, reply) := Served(cfg.mode, f, before, RequestFrame(cfg.mode, tid, cfg.unit, Pdu(op)));
            var (r, rest) := Decode(cfg.mode, Delivered(f, reply), tid, cfg.unit);
            && Moved(before.data, m.data, op)
            && (r.Ok? && Tidy(cfg.mode, op) ==> rest == [])
            && (r.Ok? && Answerable(op) ==> r.value == Reply(before.data, op) && m.data == Direct(before.data, op).0)
            && (Fair(f) ==> m.fail.None? && (Answerable(op) && before.fail.None? ==> r.Ok?))
  {
    hide Serve, Decode, RequestFrame, ReplyFrame, Reply, Pdu, Direct;
    NothingDecodes(cfg.mode, tid, cfg.unit);
    if f.served {
      var m := Met(f, before);
      ServeOp(cfg, tid, m, op);
      if m.fail.Some? {
        InsteadIsError(m.fail.value, Pdu(op));
        ReplyArrives(cfg.mode, f, tid, cfg.unit, Instead(m.fail.value, Pdu(op)));
      } else if Answerable(op) {
        PeerPerforms(m.data, op);
        ReplyArrives(cfg.mode, f, tid, cfg.unit, Reply(m.data, op));
      } else {
        PeerReadsAny(m.data, op.address, op.count);
        if Replied(op) && !IsRtu(cfg.mode) {
          LongReplyArrives(cfg.mode, f, tid, cfg.unit, Reply(m.data, op));
        }
      }
    }
    ReadsMoveNothing(before.data, op);
  }

  lemma ReadsMoveNothing(d: Data, op: Op)
    ensures op.ReadRegisters? ==> Direct(d, op).0 == d
  {
  }

  lemma ExchangeMeans(cfg: Config, plan: Plan, st: State, h: nat, op: Op)
    requires Issued(op) && st.conn == Some(h) && Clean(st.links, st.conn)
    ensures var (st', r) := Exchange(cfg, plan, st, h, Pdu(op));
            && st'.conn == st.conn && Holding(st'.links, st'.conn)
            && Moved(st.memory.data, st'.memory.data, op)
            && (r.Ok? && Tidy(cfg.mode, op) ==> Clean(st'.links, st'.conn))
            && (r.Ok? && Answerable(op) ==> && r.value == Reply(st.memory.data, op)
                                            && st'.memory.data == Direct(st.memory.data, op).0)
            && (Fair(plan(st.links.clock)) ==>
                  st'.memory.fail.None? && (Answerable(op) && st.memory.fail.None? ==> r.Ok?))
  {
    hide Decode, RequestFrame, Serve, Reply, Pdu, Direct;
    var f := plan(st.links.clock);
    ArrivalMeans(cfg, f, st.tid, st.memory, op);
    var frame := RequestFrame(cfg.mode, st.tid, cfg.unit, Pdu(op));
    var (m', reply) := Served(cfg.mode, f, st.memory, frame);
    assert st.links.open[h] + Delivered(f, reply) == Delivered(f, reply);
  }

  lemma SenderIrrelevant(mode: Mode, tid: uint16, unit: byte, pdu: seq<byte>)
    ensures ReplyFrame(mode, if mode.Tcp? then tid else 0, unit, pdu) == ReplyFrame(mode, tid, unit, pdu)
  {
  }

  lemma AttemptMeans(cfg: Config, plan: Plan, st: State, op: Op)
    requires Issued(op) && Clean(st.links, st.conn)
    ensures var (st', r) := SendOnce(cfg, plan, st, Pdu(op));
            && Attached(st') && Holding(st'.links, st'.conn)
            && Clean(Disconnected(st').links, None) && Disconnected(st').conn == None
            && Moved(st.memory.data, st'.memory.data, op)
            && (r.Ok? && Tidy(cfg.mode, op) ==> Clean(st'.links, st'.conn))
            && (r.Ok? && Answerable(op) ==> && r.value == Reply(st.memory.data, op)
                                            && st'.memory.data == Direct(st.memory.data, op).0)
  {
    hide Pdu, Reply, Direct;
    var st1 := Ensured(plan, st);
    EnsuredIsClean(plan, st);
    if st1.conn.Some? {
      var h := st1.conn.value;
      var st2 := st1.(tid := NextTid(cfg.mode, st1.tid));
      ExchangeMeans(cfg, plan, st2, h, op);
      var st' := Exchange(cfg, plan, st2, h, Pdu(op)).0;
      assert st'.links.open - {h} == map[];
    }
  }

  /** What the client makes of a reply to a read that no count byte can answer. */
  lemma OverlongIsInvalid(op: Op, resp: seq<byte>)
    requires !Answerable(op)
    ensures Interpret(op, resp) == Err(InvalidReply)
  {
  }

  /** All attempts of a call together. */
  lemma {:induction false} SendMeans(cfg: Config, plan: Plan, st: State, op: Op, left: nat)
    requires Issued(op) && Clean(st.links, st.conn)
    ensures var (st', r) := Send(cfg, plan, st, Pdu(op), left);
            && Holding(st'.links, st'.conn)
            && (Contained(cfg, op) || r.Err? ==> Clean(st'.links, st'.conn))
            && Moved(st.memory.data, st'.memory.data, op)
            && (r.Err? ==> st'.conn == None)
            && (r.Ok? && Answerable(op) ==> && Interpret(op, r.value) == Ok(Direct(st.memory.data, op).1)
                                            && st'.memory.data == Direct(st.memory.data, op).0)
    decreases left
  {
    hide Pdu, Reply, SendOnce, Interpret, Direct;
    var (st1, r) := SendOnce(cfg, plan, st, Pdu(op));
    AttemptMeans(cfg, plan, st, op);
    if Answerable(op) {
      PeerPerforms(st.memory.data, op);
    }
    DirectTwice(st.memory.data, op);
    if r.Err? && left > 0 {
      SendMeans(cfg, plan, Disconnected(st1), op, left - 1);
    }
  }

  /**
   * Retries never change what an operation means. Whatever the environment does, and whatever is read or
   * written, a call that reports success returned what the map says and left the map as one operation does;
   * a call that reports failure left the map untouched or as one operation does. At most one connection is
   * open, and it is quiet if the operation is contained; OverlongReads.QuietIsExact says that this is exact.
   */
  lemma OperationMeans(cfg: Config, plan: Plan, st: State, op: Op)
    requires Clean(st.links, st.conn)
    ensures var (st', r) := Run(cfg, plan, st, op);
            && Holding(st'.links, st'.conn)
            && (Contained(cfg, op) ==> Clean(st'.links, st'.conn))
            && (r.Ok? ==> && r.value == Direct(st.memory.data, op).1
                          && st'.memory.data == Direct(st.memory.data, op).0)
            && (r.Err? ==> Moved(st.memory.data, st'.memory.data, op))
            && (r.Err? && Sendable(op) ==> st'.conn == None)
  {
    hide Pdu, Send;
    if Issued(op) {
      SendMeans(cfg, plan, st, op, cfg.retries);
      var (st', r) := Send(cfg, plan, st, Pdu(op), cfg.retries);
      assert r.Ok? ==> Run(cfg, plan, st, op) == (st', Interpret(op, r.value));
      if !Answerable(op) && r.Ok? {
        OverlongIsInvalid(op, r.value);
      }
    }
  }

  // ----- whole runs

  lemma RunHolds(cfg: Config, plan: Plan, st: State, op: Op)
    requires Holding(st.links, st.conn)
    ensures var (st', _) := Run(cfg, plan, st, op); Holding(st'.links, st'.conn)
  {
    hide Send;
    EffortIsBounded(cfg, plan, st, Pdu(op), cfg.retries);
  }

  function RunAll(cfg: Config, plan: Plan, st: State, ops: seq<Op>): (State, seq<Result<seq<uint16>>>)
    requires Holding(st.links, st.conn)
    decreases |ops|
  {
    if ops == [] then (st, [])
    else
      var (st1, r) := Run(cfg, plan, st, ops[0]);
      RunHolds(cfg, plan, st, ops[0]);
      var (st2, rs) := RunAll(cfg, plan, st1, ops[1..]);
      (st2, [r] + rs)
  }

  /** The plain map, where `took` says which of the operations had an effect. */
  function Replay(d: Data, ops: seq<Op>, took: seq<bool>): Data
    requires |ops| == |took|
    decreases |ops|
  {
    if ops == [] then d
    else Replay(if took[0] then Direct(d, ops[0]).0 else d, ops[1..], took[1..])
  }

  /** Every success is an operation that took effect and returned what the map said at that point. */
  predicate Explains(d: Data, ops: seq<Op>, took: seq<bool>, results: seq<Result<seq<uint16>>>)
    requires |ops| == |took| == |results|
    decreases |ops|
  {
    ops == [] ||
    (&& (results[0].Ok? ==> took[0] && results[0].value == Direct(d, ops[0]).1)
     && Explains(if took[0] then Direct(d, ops[0]).0 else d, ops[1..], took[1..], results[1..]))
  }

  /**
   * Every run, under every behaviour of the environment, is a run on a plain map in which each operation
   * took effect once or, if it failed, perhaps not at all.
   */
  lemma {:induction false} RunIsSequential(cfg: Config, plan: Plan, st: State, ops: seq<Op>) returns (took: seq<bool>)
    requires Clean(st.links, st.conn) && forall k :: 0 <= k < |ops| ==> Contained(cfg, ops[k])
    ensures |took| == |ops|
    ensures var (st', rs) := RunAll(cfg, plan, st, ops);
            && |rs| == |ops| && Clean(st'.links, st'.conn)
            && st'.memory.data == Replay(st.memory.data, ops, took)
            && Explains(st.memory.data, ops, took, rs)
    decreases |ops|
  {
    took := [];
    if ops != [] {
      OperationMeans(cfg, plan, st, ops[0]);
      var (st1, r) := Run(cfg, plan, st, ops[0]);
      var more := RunIsSequential(cfg, plan, st1, ops[1..]);
      took := [st1.memory.data == Direct(st.memory.data, ops[0]).0] + more;
      assert took[1..] == more;
    }
  }

  // ----- when the environment behaves

  lemma FairAttempt(cfg: Config, plan: Plan, st: State, op: Op)
    requires Sendable(op) && Clean(st.links, st.conn)
    requires forall t :: t >= st.links.clock ==> Fair(plan(t))
    ensures var (st', r) := SendOnce(cfg, plan, st, Pdu(op));
            st'.memory.fail.None? && (st.memory.fail.None? ==> r.Ok?)
  {
    var st1 := Ensured(plan, st);
    EnsuredIsClean(plan, st);
    assert Fair(plan(st.links.clock));
    ExchangeMeans(cfg, plan, st1.(tid := NextTid(cfg.mode, st1.tid)), st1.conn.value, op);
  }

  lemma AttemptTakesTime(cfg: Config, plan: Plan, st: State, pdu: seq<byte>)
    requires Attached(st)
    ensures var (st', _) := SendOnce(cfg, plan, st, pdu);
            st'.links.clock > st.links.clock && Disconnected(st').links.clock == st'.links.clock
  {
  }

  /**
   * Self-healing: if the environment becomes fair by tick `calm`, a call whose retries reach that far
   * succeeds, whatever happened before and even if an exception was still pending.
   */
  lemma {:induction false} RetriesOutlastTrouble(
    cfg: Config, plan: Plan, st: State, op: Op, calm: nat, left: nat)
    requires Sendable(op) && Clean(st.links, st.conn)
    requires forall t :: t >= calm ==> Fair(plan(t))
    requires (left > 0 && calm < st.links.clock + left) || (calm <= st.links.clock && st.memory.fail.None?)
    ensures Send(cfg, plan, st, Pdu(op), left).1.Ok?
    decreases left
  {
    hide Pdu, SendOnce, Reply, Direct;
    var (st1, r) := SendOnce(cfg, plan, st, Pdu(op));
    AttemptMeans(cfg, plan, st, op);
    AttemptTakesTime(cfg, plan, st, Pdu(op));
    if calm <= st.links.clock {
      FairAttempt(cfg, plan, st, op);
    }
    if r.Err? {
      RetriesOutlastTrouble(cfg, plan, Disconnected(st1), op, calm, left - 1);
    }
  }

  // ----- effort and connections, for any PDU

  /**
   * A call dials and writes at most once per attempt, never holds two connections, and after a failure
   * holds none: every dialled connection that is not the current one has been closed.
   */
  lemma {:induction false} EffortIsBounded(cfg: Config, plan: Plan, st: State, pdu: seq<byte>, left: nat)
    requires Holding(st.links, st.conn)
    ensures var (st', r) := Send(cfg, plan, st, pdu, left);
            && Holding(st'.links, st'.conn)
            && (r.Err? || cfg.autoClose ==> st'.conn == None)
            && |st.links.log| <= |st'.links.log| <= |st.links.log| + left + 1
            && st.links.dialed <= st'.links.dialed <= st.links.dialed + left + 1
    decreases left
  {
    hide SendOnce;
    AttemptEffort(cfg, plan, st, pdu);
    var (st1, r) := SendOnce(cfg, plan, st, pdu);
    if r.Err? && left > 0 {
      EffortIsBounded(cfg, plan, Disconnected(st1), pdu, left - 1);
    }
  }

  lemma AttemptEffort(cfg: Config, plan: Plan, st: State, pdu: seq<byte>)
    requires Holding(st.links, st.conn)
    ensures var (st', r) := SendOnce(cfg, plan, st, pdu);
            && Holding(st'.links, st'.conn) && Holding(Disconnected(st').links, None)
            && |st.links.log| <= |st'.links.log| <= |st.links.log| + 1
            && st.links.dialed <= st'.links.dialed <= st.links.dialed + 1
  {
    hide Decode, RequestFrame, Serve;
  }

  /** A count that does not fit the reply's count byte is refused whatever the peer says. */
  lemma OverlongReadFails(cfg: Config, plan: Plan, st: State, address: uint16, count: uint16)
    requires Clean(st.links, st.conn)
    ensures count > 127 ==> Run(cfg, plan, st, ReadRegisters(address, count)).1.Err?
    ensures (forall t :: t >= st.links.clock ==> Fair(plan(t))) && st.memory.fail.None?
        ==> (Run(cfg, plan, st, ReadRegisters(address, count)).1.Ok? <==> count <= 127)
  {
    var op := ReadRegisters(address, count);
    var (st', r) := Send(cfg, plan, st, Pdu(op), cfg.retries);
    assert r.Ok? ==> Run(cfg, plan, st, op) == (st', Interpret(op, r.value));
    if count <= 127 && (forall t :: t >= st.links.clock ==> Fair(plan(t))) && st.memory.fail.None? {
      FairOperation(cfg, plan, st, ReadRegisters(address, count));
    }
  }

  function DirectAll(d: Data, ops: seq<Op>): (Data, seq<Result<seq<uint16>>>)
    decreases |ops|
  {
    if ops == [] then (d, [])
    else
      var (d1, v) := Direct(d, ops[0]);
      var (d2, rs) := DirectAll(d1, ops[1..]);
      (d2, [Ok(v)] + rs)
  }

  lemma FairOperation(cfg: Config, plan: Plan, st: State, op: Op)
    requires Answerable(op) && Clean(st.links, st.conn) && st.memory.fail.None?
    requires op.WriteRegisters? ==> |op.values| <= 123
    requires forall t :: t >= st.links.clock ==> Fair(plan(t))
    ensures var (st', r) := Run(cfg, plan, st, op);
            && r == Ok(Direct(st.memory.data, op).1) && st'.memory.data == Direct(st.memory.data, op).0
            && st'.memory.fail.None? && st'.links.clock >= st.links.clock
  {
    OperationMeans(cfg, plan, st, op);
    if Sendable(op) {
      FairAttempt(cfg, plan, st, op);
      SendMeans(cfg, plan, st, op, cfg.retries);
    }
  }

  /**
   * Transport-independent refinement: over a fair environment the client returns, in any of its modes and
   * under any chunking, exactly what the same operations return on a plain map, and leaves the same maps.
   */
  lemma {:induction false} FairRunIsDirect(cfg: Config, plan: Plan, st: State, ops: seq<Op>)
    requires Clean(st.links, st.conn) && st.memory.fail.None?
    requires forall k :: 0 <= k < |ops| ==> Answerable(ops[k])
    requires forall k :: 0 <= k < |ops| && ops[k].WriteRegisters? ==> |ops[k].values| <= 123
    requires forall t :: t >= st.links.clock ==> Fair(plan(t))
    ensures var (st', rs) := RunAll(cfg, plan, st, ops);
            (st'.memory.data, rs) == DirectAll(st.memory.data, ops)
    decreases |ops|
  {
    if ops != [] {
      OperationMeans(cfg, plan, st, ops[0]);
      FairOperation(cfg, plan, st, ops[0]);
      FairRunIsDirect(cfg, plan, Run(cfg, plan, st, ops[0]).0, ops[1..]);
    }
  }

  /** Two clients in any two modes, over any two fair environments, cannot be told apart by what they do. */
  lemma ModesAgree(
    cfg: Config, plan: Plan, st: State, other: Config, plan': Plan, st': State, ops: seq<Op>)
    requires Clean(st.links, st.conn) && Clean(st'.links, st'.conn)
    requires st.memory == st'.memory && st.memory.fail.None?
    requires forall k :: 0 <= k < |ops| ==> Answerable(ops[k])
    requires forall k :: 0 <= k < |ops| && ops[k].WriteRegisters? ==> |ops[k].values| <= 123
    requires forall t :: t >= st.links.clock ==> Fair(plan(t))
    requires forall t :: t >= st'.links.clock ==> Fair(plan'(t))
    ensures var (a, rs) := RunAll(cfg, plan, st, ops);
            var (b, rs') := RunAll(other, plan', st', ops);
            a.memory.data == b.memory.data && rs == rs'
  {
    hide RunAll, DirectAll;
    FairRunIsDirect(cfg, plan, st, ops);
    FairRunIsDirect(other, plan', st', ops);
  }

  // ----- connections over whole lives of a client

  datatype Call = Open | Close | Request(pdu: seq<byte>)

  /** Open, Close, and a request with any PDU at all. */
  function Called(cfg: Config, plan: Plan, st: State, call: Call): State
    requires Attached(st)
  {
    match call
    case Open => Ensured(plan, Disconnected(st))
    case Close => Disconnected(st)
    case Request(pdu) => Send(cfg, plan, st, pdu, cfg.retries).0
  }

  lemma CallHolds(cfg: Config, plan: Plan, st: State, call: Call)
    requires Holding(st.links, st.conn)
    ensures var st' := Called(cfg, plan, st, call); Holding(st'.links, st'.conn)
    ensures call.Close? ==> Called(cfg, plan, st, call).conn == None
    ensures call.Open? ==>
              Called(cfg, plan, st, call).conn == if plan(st.links.clock).up then Some(st.links.dialed) else None
  {
    hide Send;
    match call
    case Open =>
    case Close =>
    case Request(pdu) => EffortIsBounded(cfg, plan, st, pdu, cfg.retries);
  }

  function Life(cfg: Config, plan: Plan, st: State, calls: seq<Call>): State
    requires Holding(st.links, st.conn)
    decreases |calls|
  {
    if calls == [] then st
    else
      CallHolds(cfg, plan, st, calls[0]);
      Life(cfg, plan, Called(cfg, plan, st, calls[0]), calls[1..])
  }

  /**
   * Connections are conserved: after any calls, with any PDUs, the connections dialled and
   * not closed are the one the client holds, or none when it holds none.
   */
  lemma {:induction false} ConnectionsAreConserved(cfg: Config, plan: Plan, st: State, calls: seq<Call>)
    requires Holding(st.links, st.conn)
    ensures var st' := Life(cfg, plan, st, calls);
            st'.links.open.Keys == (match st'.conn case None => {} case Some(h) => {h})
    decreases |calls|
  {
    hide Called;
    if calls != [] {
      CallHolds(cfg, plan, st, calls[0]);
      ConnectionsAreConserved(cfg, plan, Called(cfg, plan, st, calls[0]), calls[1..]);
    }
  }
}
