/**
 * Modbus requests read off the wire by the letter of the standards: every byte is looked at, by offset, and
 * nothing is taken from the way the client builds them.
 */
module ModbusWire {
  import opened Bytes
  import opened Replies
  import opened RegisterMap
  import opened Network
  import opened ModbusDevice
  import opened ModbusSession
  import Crc
  import AsciiFraming

  datatype Order =
    | ReadHolding(address: int, quantity: int)
    | SwitchCoil(address: int, on: bool)
    | WriteMany(address: int, values: seq<int>)

  datatype Heard = Heard(tid: int, unit: int, order: Order)

  /** A 16-bit field, high byte first. */
  function Number(p: seq<byte>, i: nat): int
    requires i + 1 < |p|
  {
    256 * p[i] as int + p[i + 1] as int
  }

  // ----- the strict reader

  /**
   * Sections 6.3, 6.5 and 6.12 of the MODBUS Application Protocol V1.1b3: a coil is switched by FF00 or 0000
   * and nothing else, and the byte count of a register write agrees with its quantity and with the PDU. The
   * quantity of a read is not limited here.
   */
  function OrderOf(p: seq<byte>): Option<Order> {
    if |p| == 5 && p[0] == 0x03 then Some(ReadHolding(Number(p, 1), Number(p, 3)))
    else if |p| == 5 && p[0] == 0x05 && (Number(p, 3) == 0xFF00 || Number(p, 3) == 0) then
      Some(SwitchCoil(Number(p, 1), Number(p, 3) == 0xFF00))
    else if |p| >= 6 && p[0] == 0x10 && 1 <= Number(p, 3) <= 123
            && p[5] as int == 2 * Number(p, 3) && |p| == 6 + p[5] as int then
      Some(WriteMany(Number(p, 1), seq(Number(p, 3), k requires 0 <= k && 6 + 2 * k + 1 < |p| => Number(p, 6 + 2 * k))))
    else None
  }

  /** Section 3.1.3 of MODBUS Messaging on TCP/IP V1.0b: transaction, protocol 0, length, unit. */
  function OpenTcp(f: seq<byte>): Option<(int, int, seq<byte>)> {
    if |f| >= 8 && Number(f, 2) == 0 && Number(f, 4) == |f| - 6
    then Some((Number(f, 0), f[6] as int, f[7..]))
    else None
  }

  /** Section 2.5.1 of MODBUS over Serial Line V1.02: unit, PDU, checksum with its low byte first. */
  function OpenRtu(f: seq<byte>): Option<(int, int, seq<byte>)> {
    var n := |f| - 2;
    if n >= 2 && Crc.Crc16(f[..n]) as int == f[n] as int + 256 * f[n + 1] as int
    then Some((0, f[0] as int, f[1..n]))
    else None
  }

  predicate Capital(c: byte) {
    48 <= c <= 57 || 65 <= c <= 70
  }

  function Half(c: byte): nat
    requires Capital(c)
  {
    if c <= 57 then c - 48 else c - 55
  }

  predicate Capitals(text: seq<byte>) {
    forall i :: 0 <= i < |text| ==> Capital(text[i])
  }

  function BytesOf(text: seq<byte>): seq<byte>
    requires Capitals(text) && |text| % 2 == 0
  {
    seq(|text| / 2, k requires 0 <= 2 * k + 1 < |text| && Capitals(text) => 16 * Half(text[2 * k]) + Half(text[2 * k + 1]))
  }

  /** Section 2.5.2: a colon, capital hexadecimal digits of bytes that add up to nothing, CR and LF. */
  function OpenAscii(f: seq<byte>): Option<(int, int, seq<byte>)> {
    var n := |f| - 2;
    if n >= 7 && n % 2 == 1 && f[0] == 58 && f[n] == 13 && f[n + 1] == 10 && Capitals(f[1..n])
    then
      var raw := BytesOf(f[1..n]);
      if AsciiFraming.Sum(raw) % 256 == 0 then Some((0, raw[0] as int, raw[1..|raw| - 1])) else None
    else None
  }

  function Open(mode: Mode, f: seq<byte>): Option<(int, int, seq<byte>)> {
    match mode
    case Tcp => OpenTcp(f)
    case RtuOverTcp => OpenRtu(f)
    case Rtu => OpenRtu(f)
    case Ascii => OpenAscii(f)
  }

  function Read(mode: Mode, f: seq<byte>): Option<Heard> {
    match Open(mode, f)
    case None => None
    case Some(q) =>
      match OrderOf(q.2)
      case None => None
      case Some(order) => Some(Heard(q.0, q.1, order))
  }

  function Meant(op: Op): Order {
    match op
    case ReadRegisters(a, n) => ReadHolding(a, n)
    case WriteRegisters(a, vs) => WriteMany(a, vs)
    case WriteCoil(a, on) => SwitchCoil(a, on)
  }

  // ----- it reads what the client sends

  lemma WriteIsRead(a: uint16, vs: seq<uint16>)
    requires 1 <= |vs| <= 123
    ensures OrderOf(Pdu(WriteRegisters(a, vs))) == Some(WriteMany(a, vs))
  {
    hide PackBig;
    var p := Pdu(WriteRegisters(a, vs));
    assert Number(p, 3) == |vs|;
    var got := OrderOf(p).value.values;
    forall k | 0 <= k < |vs| ensures got[k] == vs[k] {
      PackBigAt(vs, k);
      assert p[6 + 2 * k] == PackBig(vs)[2 * k] && p[6 + 2 * k + 1] == PackBig(vs)[2 * k + 1];
    }
    assert got == vs;
  }

  lemma OrderIsRead(op: Op)
    requires Issued(op)
    ensures OrderOf(Pdu(op)) == Some(Meant(op)) && 5 <= |Pdu(op)| <= 253
  {
    if op.WriteRegisters? {
      WriteIsRead(op.address, op.values);
    }
  }

  lemma TcpOpens(tid: uint16, unit: byte, pdu: seq<byte>)
    requires 1 <= |pdu| <= 253
    ensures Open(Tcp, RequestFrame(Tcp, tid, unit, pdu)) == Some((tid as int, unit as int, pdu))
  {
    var f := RequestFrame(Tcp, tid, unit, pdu);
    assert f[7..] == pdu;
  }

  lemma RtuOpens(unit: byte, pdu: seq<byte>)
    requires 1 <= |pdu|
    ensures OpenRtu(RequestFrame(Rtu, 0, unit, pdu)) == Some((0, unit as int, pdu))
  {
    hide Crc.Crc16;
    var f := RequestFrame(Rtu, 0, unit, pdu);
    assert f[..|f| - 2] == [unit] + pdu;
    assert f[1..|f| - 2] == pdu;
  }

  lemma DigitIsCapital(v: nat)
    requires v < 16
    ensures var c := AsciiFraming.Digit(v, true); Capital(c) && Half(c) == v
  {
  }

  lemma HexOpens(raw: seq<byte>)
    ensures var text := AsciiFraming.HexEncode(raw, true);
            Capitals(text) && |text| % 2 == 0 && BytesOf(text) == raw
  {
    hide AsciiFraming.Digit, Capital, Half;
    var text := AsciiFraming.HexEncode(raw, true);
    forall i | 0 <= i < |text| ensures Capital(text[i]) {
      DigitIsCapital(if i % 2 == 0 then raw[i / 2] / 16 else raw[i / 2] % 16);
    }
    forall k | 0 <= k < |raw| ensures BytesOf(text)[k] == raw[k] {
      DigitIsCapital(raw[k] / 16);
      DigitIsCapital(raw[k] % 16);
    }
  }

  lemma AsciiOpens(unit: byte, pdu: seq<byte>)
    requires 1 <= |pdu|
    ensures OpenAscii(RequestFrame(Ascii, 0, unit, pdu)) == Some((0, unit as int, pdu))
  {
    hide AsciiFraming.HexEncode, AsciiFraming.Sum, AsciiFraming.Lrc, Capitals, BytesOf;
    var f := RequestFrame(Ascii, 0, unit, pdu);
    var raw := AsciiFraming.Raw(unit, pdu);
    var n := |f| - 2;
    HexOpens(raw);
    assert f[1..n] == AsciiFraming.HexEncode(raw, true);
    AsciiFraming.RawIsBalanced(unit, pdu);
    assert raw[1..|raw| - 1] == pdu;
  }

  /** Every request of the client is the one the standards give to what was asked. */
  lemma RequestConforms(mode: Mode, tid: uint16, unit: byte, op: Op)
    requires Issued(op)
    ensures Read(mode, RequestFrame(mode, tid, unit, Pdu(op)))
         == Some(Heard(if mode.Tcp? then tid else 0, unit, Meant(op)))
  {
    hide Pdu, OrderOf, OpenTcp, OpenRtu, OpenAscii;
    OrderIsRead(op);
    match mode
    case Tcp => TcpOpens(tid, unit, Pdu(op));
    case RtuOverTcp | Rtu => RtuOpens(unit, Pdu(op));
    case Ascii => AsciiOpens(unit, Pdu(op));
  }

  // ----- on the log of all that was written

  /**
   * From its entry `from` on the log holds requests for this, and nothing else. In TCP mode their transactions
   * are numbered one after the other, modulo 65536, behind tid.
   */
  ghost predicate Requests(cfg: Config, order: Order, log: seq<Sending>, from: nat, tid: int) {
    forall k :: from <= k < |log| ==>
      Read(cfg.mode, log[k].frame)
        == Some(Heard(if cfg.mode.Tcp? then (tid + 1 + k - from) % 0x1_0000 else 0, cfg.unit, order))
  }

  predicate Grown(log: seq<Sending>, log': seq<Sending>, n: nat) {
    |log'| == |log| + n && log == log'[..|log|]
  }

  /** The last write was reported as sent. */
  predicate LastGotThrough(plan: Plan, log: seq<Sending>) {
    log != [] && plan(log[|log| - 1].tick).sent
  }

  /** One attempt writes one request, or none when it could not dial. */
  lemma AttemptWrites(cfg: Config, plan: Plan, st: State, op: Op)
    requires Attached(st) && Issued(op)
    ensures var (st', r) := SendOnce(cfg, plan, st, Pdu(op));
            var n := |st'.links.log| - |st.links.log|;
            && 0 <= n <= 1 && Grown(st.links.log, st'.links.log, n)
            && Requests(cfg, Meant(op), st'.links.log, |st.links.log|, st.tid)
            && (cfg.mode.Tcp? ==> st'.tid as int == (st.tid as int + n) % 0x1_0000)
            && (r.Ok? || (forall t :: plan(t).up) ==> n == 1)
            && (r.Ok? ==> st'.conn.Some? && LastGotThrough(plan, st'.links.log))
            && Attached(Disconnected(st')) && Disconnected(st').links.log == st'.links.log
            && Disconnected(st').tid == st'.tid
  {
    hide Decode, Serve, RequestFrame, Pdu, Read;
    var tid := NextTid(cfg.mode, st.tid);
    RequestConforms(cfg.mode, tid, cfg.unit, op);
  }

  lemma RequestsGoOn(cfg: Config, order: Order, log: seq<Sending>, log': seq<Sending>, from: nat, tid: int)
    requires from <= |log| <= |log'| && log == log'[..|log|]
    requires Requests(cfg, order, log, from, tid)
    requires Requests(cfg, order, log', |log|, (tid + |log| - from) % 0x1_0000)
    ensures Requests(cfg, order, log', from, tid)
  {
    hide Read;
    forall k | from <= k < |log'|
      ensures Read(cfg.mode, log'[k].frame)
           == Some(Heard(if cfg.mode.Tcp? then (tid + 1 + k - from) % 0x1_0000 else 0, cfg.unit, order))
    {
      if k < |log| {
        assert log[k] == log'[k];
      } else {
        ShiftedModulo(tid, |log| - from, 1 + k - |log|);
      }
    }
  }

  lemma ShiftedModulo(a: int, b: int, c: int)
    ensures ((a + b) % 0x1_0000 + c) % 0x1_0000 == (a + b + c) % 0x1_0000
  {
  }

  /**
   * The attempts of a call: each writes the same order, under a transaction of its own, and no call writes
   * anything else. A call that fails although every dial works has made all its attempts. The connection is
   * kept exactly after a success, unless connections are closed after each call.
   */
  lemma {:induction false} SendWrites(cfg: Config, plan: Plan, st: State, op: Op, left: nat)
    requires Attached(st) && Issued(op)
    ensures var (st', r) := Send(cfg, plan, st, Pdu(op), left);
            var n := |st'.links.log| - |st.links.log|;
            && 0 <= n <= left + 1 && Grown(st.links.log, st'.links.log, n)
            && Requests(cfg, Meant(op), st'.links.log, |st.links.log|, st.tid)
            && (cfg.mode.Tcp? ==> st'.tid as int == (st.tid as int + n) % 0x1_0000)
            && (r.Ok? ==> n >= 1 && LastGotThrough(plan, st'.links.log) && (st'.conn.Some? <==> !cfg.autoClose))
            && (r.Err? ==> st'.conn == None)
            && (r.Err? && (forall t :: plan(t).up) ==> n == left + 1)
    decreases left
  {
    hide SendOnce, Pdu, Requests;
    AttemptWrites(cfg, plan, st, op);
    var (st1, r) := SendOnce(cfg, plan, st, Pdu(op));
    if r.Err? && left > 0 {
      var st2 := Disconnected(st1);
      SendWrites(cfg, plan, st2, op, left - 1);
      var st' := Send(cfg, plan, st2, Pdu(op), left - 1).0;
      ShiftedModulo(st.tid, |st1.links.log| - |st.links.log|, |st'.links.log| - |st1.links.log|);
      WithTid(cfg, Meant(op), st'.links.log, |st1.links.log|, st2.tid,
              (st.tid as int + |st1.links.log| - |st.links.log|) % 0x1_0000);
      RequestsGoOn(cfg, Meant(op), st1.links.log, st'.links.log, |st.links.log|, st.tid);
      assert st'.links.log[..|st.links.log|] == st1.links.log[..|st.links.log|];
    }
  }

  /** Only in TCP mode does the number matter. */
  lemma WithTid(cfg: Config, order: Order, log: seq<Sending>, from: nat, tid: int, other: int)
    requires Requests(cfg, order, log, from, tid) && (cfg.mode.Tcp? ==> tid == other)
    ensures Requests(cfg, order, log, from, other)
  {
    hide Read;
  }

  /** What the client's operations put on the wire; sizes that are decided without it write nothing. */
  lemma RunWrites(cfg: Config, plan: Plan, st: State, op: Op)
    requires Attached(st)
    ensures var st' := Run(cfg, plan, st, op).0;
            var n := |st'.links.log| - |st.links.log|;
            && 0 <= n <= cfg.retries + 1 && Grown(st.links.log, st'.links.log, n)
            && (if op.WriteRegisters? && !(1 <= |op.values| <= 123) then st' == st
                else Requests(cfg, Meant(op), st'.links.log, |st.links.log|, st.tid))
  {
    hide Send, Pdu, Requests;
    if Issued(op) {
      SendWrites(cfg, plan, st, op, cfg.retries);
    }
  }

  /** Where everything gets through, one request and at most one dial are enough. */
  lemma OneRequestSuffices(cfg: Config, plan: Plan, st: State, op: Op, left: nat)
    requires Sendable(op) && Clean(st.links, st.conn) && st.memory.fail.None?
    requires forall t :: t >= st.links.clock ==> Fair(plan(t))
    ensures var (st', r) := Send(cfg, plan, st, Pdu(op), left);
            && r.Ok? && |st'.links.log| == |st.links.log| + 1
            && st'.links.dialed == st.links.dialed + (if st.conn.None? then 1 else 0)
  {
    hide SendOnce, Pdu, Requests;
    FairAttempt(cfg, plan, st, op);
    AttemptWrites(cfg, plan, st, op);
    AttemptDials(cfg, plan, st, Pdu(op));
  }

  lemma AttemptDials(cfg: Config, plan: Plan, st: State, pdu: seq<byte>)
    requires Attached(st)
    ensures var (st', r) := SendOnce(cfg, plan, st, pdu);
            && (r.Ok? ==> st'.links.dialed == st.links.dialed + (if st.conn.None? then 1 else 0))
            && Disconnected(st').links.dialed == st'.links.dialed
  {
    hide Decode, Serve, RequestFrame;
  }

  /** The transaction of an MBAP frame. */
  function Transaction(f: seq<byte>): int {
    if |f| < 2 then -1 else Number(f, 0)
  }

  lemma {:induction false} RunIsNumbered(cfg: Config, plan: Plan, st: State, ops: seq<Op>)
    requires Holding(st.links, st.conn) && cfg.mode.Tcp?
    ensures var st' := RunAll(cfg, plan, st, ops).0;
            && |st.links.log| <= |st'.links.log|
            && forall k :: |st.links.log| <= k < |st'.links.log| ==>
                 Transaction(st'.links.log[k].frame) == (st.tid as int + 1 + k - |st.links.log|) % 0x1_0000
    decreases |ops|
  {
    hide Send, Pdu, Read;
    if ops != [] {
      var (st1, r) := Run(cfg, plan, st, ops[0]);
      var n := |st1.links.log| - |st.links.log|;
      RunHolds(cfg, plan, st, ops[0]);
      OneIsNumbered(cfg, plan, st, ops[0]);
      RunIsNumbered(cfg, plan, st1, ops[1..]);
      RunGrows(cfg, plan, st1, ops[1..]);
      var log' := RunAll(cfg, plan, st, ops).0.links.log;
      forall k | |st.links.log| <= k < |log'|
        ensures Transaction(log'[k].frame) == (st.tid as int + 1 + k - |st.links.log|) % 0x1_0000
      {
        if k < |st1.links.log| {
          assert log'[k] == st1.links.log[k];
        } else {
          ShiftedModulo(st.tid, n, 1 + k - |st1.links.log|);
        }
      }
    }
  }

  lemma OneIsNumbered(cfg: Config, plan: Plan, st: State, op: Op)
    requires Attached(st) && cfg.mode.Tcp?
    ensures var st' := Run(cfg, plan, st, op).0;
            var n := |st'.links.log| - |st.links.log|;
            && n >= 0 && Grown(st.links.log, st'.links.log, n)
            && st'.tid as int == (st.tid as int + n) % 0x1_0000
            && forall k :: |st.links.log| <= k < |st'.links.log| ==>
                 Transaction(st'.links.log[k].frame) == (st.tid as int + 1 + k - |st.links.log|) % 0x1_0000
  {
    hide Send, Pdu;
    if Issued(op) {
      SendWrites(cfg, plan, st, op, cfg.retries);
    }
  }

  lemma {:induction false} RunGrows(cfg: Config, plan: Plan, st: State, ops: seq<Op>)
    requires Holding(st.links, st.conn)
    ensures var st' := RunAll(cfg, plan, st, ops).0;
            |st.links.log| <= |st'.links.log| && st'.links.log[..|st.links.log|] == st.links.log
    decreases |ops|
  {
    hide Send, Pdu, Run;
    if ops != [] {
      RunHolds(cfg, plan, st, ops[0]);
      CallGrows(cfg, plan, st, ops[0]);
      var st1 := Run(cfg, plan, st, ops[0]).0;
      RunGrows(cfg, plan, st1, ops[1..]);
      var log' := RunAll(cfg, plan, st1, ops[1..]).0.links.log;
      assert log'[..|st.links.log|] == log'[..|st1.links.log|][..|st.links.log|];
    }
  }

  lemma CallGrows(cfg: Config, plan: Plan, st: State, op: Op)
    requires Attached(st)
    ensures var st' := Run(cfg, plan, st, op).0;
            |st.links.log| <= |st'.links.log| && st'.links.log[..|st.links.log|] == st.links.log
  {
    hide Send, Pdu;
    if Issued(op) {
      SendWrites(cfg, plan, st, op, cfg.retries);
    }
  }

  /** In TCP mode each request of a run, retries included, has the transaction after that of the one before. */
  lemma TransactionsFollow(cfg: Config, plan: Plan, st: State, ops: seq<Op>, k: nat)
    requires Holding(st.links, st.conn) && cfg.mode.Tcp?
    requires |st.links.log| < k < |RunAll(cfg, plan, st, ops).0.links.log|
    ensures var log := RunAll(cfg, plan, st, ops).0.links.log;
            Transaction(log[k].frame) == (Transaction(log[k - 1].frame) + 1) % 0x1_0000
  {
    hide RunAll;
    RunIsNumbered(cfg, plan, st, ops);
    ShiftedModulo(st.tid, k - |st.links.log|, 1);
  }

  // ----- replies

  /** What the client takes for an answer: nothing but a reply of the right function and length. */
  lemma InterpretsExactly(op: Op, resp: seq<byte>, words: seq<uint16>)
    ensures Interpret(op, resp) == Ok(words) <==>
      match op
      case ReadRegisters(_, n) =>
        && |resp| >= 2 && resp[0] == 0x03 && resp[1] as int == 2 * n as int && |resp| == 2 + 2 * n as int
        && |words| == n as int && forall k :: 0 <= k < |words| ==> words[k] as int == Number(resp, 2 + 2 * k)
      case WriteRegisters(_, _) => |resp| == 5 && resp[0] == 0x10 && words == []
      case WriteCoil(_, _) => |resp| == 5 && resp[0] == 0x05 && words == []
    ensures Interpret(op, resp).Err? ==> Interpret(op, resp) == Err(InvalidReply)
  {
    hide UnpackBig;
    if op.ReadRegisters? && Interpret(op, resp).Ok? {
      var got := UnpackBig(resp[2..]);
      forall k | 0 <= k < |got| ensures got[k] as int == Number(resp, 2 + 2 * k) {
        UnpackBigAt(resp[2..], k);
      }
      if |words| == |got| && forall k :: 0 <= k < |words| ==> words[k] as int == Number(resp, 2 + 2 * k) {
        assert words == got;
      }
    }
  }

  /** Sizes that are decided without the wire. */
  lemma WriteLimits(cfg: Config, plan: Plan, st: State, a: uint16, vs: seq<uint16>)
    requires Attached(st)
    ensures vs == [] ==> Run(cfg, plan, st, WriteRegisters(a, vs)) == (st, Ok([]))
    ensures |vs| > 123 ==> Run(cfg, plan, st, WriteRegisters(a, vs)) == (st, Err(TooManyRegisters))
  {
    hide Send;
  }

  /**
   * An exception that somebody asked the device for is what the client reports, in every mode, with 1 for an
   * exception code of 0; the device's data stay as they are, and the next request is served as usual.
   */
  lemma ExceptionIsReported(cfg: Config, tid: uint16, m: Memory, op: Op, fn: byte, code: byte)
    requires Issued(op) && m.fail == Some((fn, code))
    ensures var (m', reply) := Serve(cfg.mode, m, RequestFrame(cfg.mode, tid, cfg.unit, Pdu(op)));
            && m' == Memory(m.data, None)
            && Decode(cfg.mode, reply, tid, cfg.unit) == (Err(Exception(if code == 0 then 1 else code)), [])
  {
    hide Serve, Decode, RequestFrame, ReplyFrame, Pdu;
    ServeOp(cfg, tid, m, op);
    InsteadIsError((fn, code), Pdu(op));
    ReplyDecodes(cfg.mode, tid, cfg.unit, Instead((fn, code), Pdu(op)));
  }

  /** The function code with its top bit set, and the code of the exception. */
  predicate Refusal(reply: seq<byte>, fn: byte, code: byte) {
    && |reply| == 2 && reply[1] == code
    && reply[0] as int == if fn < 128 then fn as int + 128 else fn as int
  }

  /** What the device makes of a request PDU of any shape that it survives, by its bytes. */
  lemma DeviceAnswers(m: Memory, p: seq<byte>)
    requires p != [] && m.fail.None? ==> Indexable(p)
    ensures var (m', reply) := Apply(m, p);
      if p == [] then reply == [0x80, 1] && m' == m
      else if m.fail.Some? then
        var (f, code) := m.fail.value;
        Refusal(reply, if f == 0 then p[0] else f, if code == 0 then 1 else code) && m' == Memory(m.data, None)
      else if p[0] in {0x03, 0x04} then
        if |p| < 5 then Refusal(reply, p[0], 3) && m' == m
        else
          var n := Number(p, 3);
          && reply == [p[0], (2 * n) % 256] + PackBig(Load(m.data.regs, Number(p, 1), n)) && m' == m
      else if p[0] == 0x05 then
        && reply == p[..5]
        && m' == m.(data := m.data.(coils := m.data.coils[Number(p, 1) := Number(p, 3) == 0xFF00]))
      else if p[0] == 0x10 then
        && reply == p[..5]
        && m' == m.(data := m.data.(regs :=
                   Store(m.data.regs, Number(p, 1), UnpackBig(p[6..6 + 2 * Number(p, 3)]))))
      else Refusal(reply, p[0], 1) && m' == m
  {
    hide PackBig, UnpackBig, Load, Store;
    if |p| >= 5 {
      assert p[1..3] == [p[1], p[2]] && p[3..5] == [p[3], p[4]];
    }
  }
}
