/**
 * 3E requests and answers read by offset, the way mock/server.go reads them; nothing is taken from the way the
 * client and the server build them.
 */
module MelsecWire {
  import opened Bytes
  import opened RegisterMap
  import opened Network
  import opened MockServer
  import opened MelsecSession
  import opened MitsubishiClients

  datatype Order = ReadD(address: int, count: int) | WriteD(address: int, words: seq<int>)

  datatype Heard = Heard(route: Route, order: Order)

  /** A 16-bit field, low byte first. */
  function Number(s: seq<byte>, i: nat): int
    requires i + 1 < |s|
  {
    s[i] as int + 256 * s[i + 1] as int
  }

  /**
   * Subheader 50 00; network, station, module and multidrop station at 2, 3, 4 and 6; the length of what
   * follows it at 7; the timer at 9.
   */
  function RouteOf(f: seq<byte>): Option<Route> {
    if |f| >= 11 && f[0] == 0x50 && f[1] == 0x00
    then Some(Route(f[2], f[3], Number(f, 4), f[6], Number(f, 9)))
    else None
  }

  /** Command 01 04 or 01 14, subcommand 00 00, address, device 00 A8, count, and the words of a write. */
  function OrderOf(f: seq<byte>): Option<Order> {
    if |f| < 21 || f[11] != 0x01 || f[13] != 0 || f[14] != 0 || f[17] != 0 || f[18] != 0xA8 then None
    else if f[12] == 0x04 && |f| == 21 then Some(ReadD(Number(f, 15), Number(f, 19)))
    else if f[12] == 0x14 && |f| == 21 + 2 * Number(f, 19) then
      Some(WriteD(Number(f, 15),
                  seq(Number(f, 19), k requires 0 <= k && 21 + 2 * k + 1 < |f| => Number(f, 21 + 2 * k))))
    else None
  }

  function Read(f: seq<byte>): Option<Heard> {
    match RouteOf(f)
    case None => None
    case Some(route) =>
      if Number(f, 7) != |f| - 9 then None
      else match OrderOf(f)
           case None => None
           case Some(order) => Some(Heard(route, order))
  }

  function Meant(op: Op): Order {
    match op
    case ReadWords(a, n) => ReadD(a, n)
    case WriteWords(a, vs) => WriteD(a, vs)
  }

  // ----- requests

  lemma FrameBytes(route: Route, command: uint16, subcommand: uint16, payload: seq<byte>)
    ensures var f := Frame(route, command, subcommand, payload);
            && |f| == 15 + |payload| && f[15..] == payload
            && RouteOf(f) == Some(route)
            && Number(f, 7) == (6 + |payload|) % 0x1_0000
            && Number(f, 11) == command as int && Number(f, 13) == subcommand as int
  {
  }

  lemma PayloadBytes(a: uint16, n: uint16, data: seq<byte>)
    ensures var p := Payload(a, n, data);
            Number(p, 0) == a as int && p[2] == 0 && p[3] == 0xA8 && Number(p, 4) == n as int && p[6..] == data
  {
  }

  lemma OrderIsRead(route: Route, op: Op)
    requires Countable(op)
    ensures var f := RequestFrame(route, op);
            && RouteOf(f) == Some(route) && OrderOf(f) == Some(Meant(op))
            && Number(f, 7) == (|f| - 9) % 0x1_0000
            && |f| == (if op.ReadWords? then 21 else 21 + 2 * |op.values|)
  {
    hide Frame, Payload, PackLittle, RouteOf;
    var n: uint16 := if op.ReadWords? then op.count else |op.values|;
    var data := if op.ReadWords? then [] else PackLittle(op.values);
    var p := Payload(op.address, n, data);
    var f := RequestFrame(route, op);
    FrameBytes(route, if op.ReadWords? then CMD_READ else CMD_WRITE, SUBCMD_WORD, p);
    PayloadBytes(op.address, n, data);
    assert forall i :: 0 <= i < |p| ==> f[15 + i] == p[i];
    if op.WriteWords? {
      var got := OrderOf(f).value.words;
      forall k | 0 <= k < |op.values| ensures got[k] == op.values[k] {
        PackLittleAt(op.values, k);
        assert p[6..][2 * k] == p[6 + 2 * k] && p[6..][2 * k + 1] == p[6 + 2 * k + 1];
      }
      assert got == op.values;
    }
  }

  /**
   * Every request carries the route that was set and what was asked, field by field, and can be read as a
   * whole exactly when its length field did not wrap.
   */
  lemma RequestConforms(route: Route, op: Op)
    requires Countable(op)
    ensures var f := RequestFrame(route, op);
            && RouteOf(f) == Some(route) && OrderOf(f) == Some(Meant(op))
            && (Read(f) == Some(Heard(route, Meant(op))) <==> Bounded(op))
            && (Read(f) == None <==> !Bounded(op))
  {
    hide RequestFrame, RouteOf, OrderOf;
    OrderIsRead(route, op);
  }

  // ----- all that a call writes

  ghost predicate Requests(route: Route, op: Op, log: seq<Sending>, from: nat) {
    forall k :: from <= k < |log| ==>
      && RouteOf(log[k].frame) == Some(route) && OrderOf(log[k].frame) == Some(Meant(op))
      && (Bounded(op) ==> Read(log[k].frame) == Some(Heard(route, Meant(op))))
  }

  /** The last write was reported as sent. */
  predicate LastGotThrough(plan: Plan, log: seq<Sending>) {
    log != [] && plan(log[|log| - 1].tick).sent
  }

  /** One attempt writes its frame, or nothing when it could not dial. */
  lemma AttemptLogs(plan: Plan, st: State, frame: seq<byte>)
    requires Attached(st)
    ensures var (st', r) := SendOnce(plan, st, frame);
            && (st'.links.log == st.links.log
                || (exists h, t :: st'.links.log == st.links.log + [Sending(h, t, frame)]))
            && (r.Ok? || (forall t :: plan(t).up) ==> |st'.links.log| == |st.links.log| + 1)
            && (r.Ok? ==> st'.conn.Some? && LastGotThrough(plan, st'.links.log))
  {
    hide Decode, ServeStream;
  }

  lemma ReconnectKeepsLog(plan: Plan, st: State)
    ensures var st' := Reconnected(plan, st);
            && Attached(st') && st'.links.log == st.links.log
            && ((forall t :: plan(t).up) ==> st'.links.dialed > 0 && st'.conn == Some(st'.links.dialed - 1))
  {
  }

  lemma AttemptWrites(route: Route, plan: Plan, st: State, op: Op)
    requires Attached(st) && Countable(op)
    ensures var (st', r) := SendOnce(plan, st, RequestFrame(route, op));
            && |st.links.log| <= |st'.links.log| <= |st.links.log| + 1
            && st'.links.log[..|st.links.log|] == st.links.log
            && Requests(route, op, st'.links.log, |st.links.log|)
            && (r.Ok? || (forall t :: plan(t).up) ==> |st'.links.log| == |st.links.log| + 1)
            && (r.Ok? ==> st'.conn.Some? && LastGotThrough(plan, st'.links.log))
            && Attached(Reconnected(plan, st')) && Reconnected(plan, st').links.log == st'.links.log
            && ((forall t :: plan(t).up) ==>
                  && Reconnected(plan, st').links.dialed > 0
                  && Reconnected(plan, st').conn == Some(Reconnected(plan, st').links.dialed - 1))
  {
    hide SendOnce, Reconnected, RequestFrame, RouteOf, OrderOf, Read, LastGotThrough;
    RequestConforms(route, op);
    AttemptLogs(plan, st, RequestFrame(route, op));
    ReconnectKeepsLog(plan, SendOnce(plan, st, RequestFrame(route, op)).0);
  }

  /**
   * A call writes its own request at most once per attempt, and nothing else. A call that fails although every
   * dial works has made all its attempts, and has dialled once more for the next call.
   */
  lemma {:induction false} SendWrites(route: Route, plan: Plan, st: State, op: Op, left: nat)
    requires Attached(st) && Countable(op)
    ensures var (st', r) := Send(plan, st, RequestFrame(route, op), left);
            && |st.links.log| <= |st'.links.log| <= |st.links.log| + left + 1
            && st'.links.log[..|st.links.log|] == st.links.log
            && Requests(route, op, st'.links.log, |st.links.log|)
            && (r.Ok? ==> |st'.links.log| > |st.links.log| && st'.conn.Some? && LastGotThrough(plan, st'.links.log))
            && (r.Err? && (forall t :: plan(t).up) ==>
                  && |st'.links.log| == |st.links.log| + left + 1
                  && st'.links.dialed > 0 && st'.conn == Some(st'.links.dialed - 1))
    decreases left
  {
    hide SendOnce, RequestFrame, Reconnected, RouteOf, OrderOf, Read;
    AttemptWrites(route, plan, st, op);
    var (st1, r) := SendOnce(plan, st, RequestFrame(route, op));
    if r.Err? && left > 0 {
      var st2 := Reconnected(plan, st1);
      SendWrites(route, plan, st2, op, left - 1);
      var log := Send(plan, st2, RequestFrame(route, op), left - 1).0.links.log;
      assert log[..|st.links.log|] == log[..|st1.links.log|][..|st.links.log|];
      forall k | |st.links.log| <= k < |st1.links.log| ensures log[k] == st1.links.log[k] {
        assert log[..|st1.links.log|][k] == log[k];
      }
    }
  }

  /** What ReadWords and WriteWords put on the wire carries the client's route; a read of nothing needs no request. */
  lemma RunWrites(cfg: Config, plan: Plan, st: State, op: Op)
    requires Attached(st) && Countable(op)
    ensures var st' := Run(cfg, plan, st, op).0;
            && |st.links.log| <= |st'.links.log| <= |st.links.log| + cfg.retries + 1
            && st'.links.log[..|st.links.log|] == st.links.log
            && (if op.ReadWords? && op.count == 0 then st' == st
                else Requests(cfg.route, op, st'.links.log, |st.links.log|))
  {
    hide Send, RequestFrame, Requests;
    SendWrites(cfg.route, plan, st, op, cfg.retries);
  }

  /** The setters and the two operations of a client object, as seen on the wire. */
  method RoutedRead(c: MitsubishiClient, route: Route, addr: uint16, count: uint16) returns (r: Result<seq<uint16>>)
    requires c.Valid()
    modifies c, c.wire, c.server
    ensures var log, from := c.wire.links.log, |old(c.wire.links.log)|;
            && from <= |log| <= from + old(c.maxRetries) + 1
            && forall k :: from <= k < |log| ==>
                 RouteOf(log[k].frame) == Some(route) && Read(log[k].frame) == Some(Heard(route, ReadD(addr, count)))
  {
    hide Run, Read, RouteOf, OrderOf;
    c.SetRoute(route.network, route.station, route.moduleIO, route.multidrop);
    c.SetMonitoringTimer(route.timer);
    RunWrites(c.Settings(), c.wire.plan, c.View(), ReadWords(addr, count));
    r := c.ReadWords(addr, count);
  }

  method RoutedWrite(c: MitsubishiClient, route: Route, addr: uint16, values: seq<uint16>)
    returns (r: Result<seq<uint16>>)
    requires c.Valid() && |values| < 0x1_0000
    modifies c, c.wire, c.server
    ensures var log, from := c.wire.links.log, |old(c.wire.links.log)|;
            && from <= |log| <= from + old(c.maxRetries) + 1
            && forall k :: from <= k < |log| ==>
                 && RouteOf(log[k].frame) == Some(route) && OrderOf(log[k].frame) == Some(WriteD(addr, values))
                 && (|values| <= 32761 ==> Read(log[k].frame) == Some(Heard(route, WriteD(addr, values))))
  {
    hide Run, Read, RouteOf, OrderOf;
    c.SetRoute(route.network, route.station, route.moduleIO, route.multidrop);
    c.SetMonitoringTimer(route.timer);
    RunWrites(c.Settings(), c.wire.plan, c.View(), WriteWords(addr, values));
    r := c.WriteWords(addr, values);
  }

  /** Where everything gets through, one request and at most one dial are enough. */
  lemma OneRequestSuffices(route: Route, plan: Plan, st: State, op: Op, left: nat)
    requires Fits(op) && Clean(st.links, st.conn) && st.memory.fail.None?
    requires forall t :: t >= st.links.clock ==> Fair(plan(t))
    ensures var (st', r) := Send(plan, st, RequestFrame(route, op), left);
            && r.Ok? && |st'.links.log| == |st.links.log| + 1
            && st'.links.dialed == st.links.dialed + (if st.conn.None? then 1 else 0)
  {
    hide SendOnce, RequestFrame, Requests;
    AttemptMeans(route, plan, st, op);
    AttemptWrites(route, plan, st, op);
    AttemptDials(plan, st, RequestFrame(route, op));
  }

  lemma AttemptDials(plan: Plan, st: State, frame: seq<byte>)
    requires Attached(st)
    ensures var (st', r) := SendOnce(plan, st, frame);
            r.Ok? ==> st'.links.dialed == st.links.dialed + (if st.conn.None? then 1 else 0)
  {
    hide Decode, ServeStream;
  }

  // ----- answers

  /** Subheader 00 D0, the route of the request, the length of the rest, the end code, the data. */
  ghost predicate Answer(reply: seq<byte>, header: seq<byte>, code: int, data: seq<byte>)
    requires |header| == 9
  {
    && |reply| == 11 + |data|
    && reply[0] == 0x00 && reply[1] == 0xD0
    && (forall i :: 2 <= i < 7 ==> reply[i] == header[i])
    && Number(reply, 7) == (2 + |data|) % 0x1_0000
    && Number(reply, 9) == code
    && reply[11..] == data
  }

  lemma ReplyIsAnswer(header: seq<byte>, code: uint16, data: seq<byte>)
    requires |header| == 9
    ensures Answer(Reply(header, code, data), header, code, data)
  {
    var reply := Reply(header, code, data);
    assert forall i :: 2 <= i < 7 ==> header[2..7][i - 2] == header[i];
  }

  /**
   * What the server answers to command data of any shape, and what becomes of its words: the tests in their
   * order, each with its end code.
   */
  lemma ServerAnswers(m: Memory, header: seq<byte>, cmd: seq<byte>)
    requires |header| == 9 && (m.fail.None? ==> Survives(cmd))
    ensures var (m', reply) := Process(m, header, cmd);
      if m.fail.Some? then
        Answer(reply, header, if m.fail.value == 0 then 0xC020 else m.fail.value, []) && m' == Memory(m.words, None)
      else if |cmd| < 6 then Answer(reply, header, 0xC0E1, []) && m' == m
      else if cmd[4] != 0 || cmd[5] != 0 then Answer(reply, header, 0xC002, []) && m' == m
      else if cmd[2] != 0x01 || cmd[3] !in {0x04, 0x14} then Answer(reply, header, 0xC001, []) && m' == m
      else if |cmd| < 12 then Answer(reply, header, 0xC0E1, []) && m' == m
      else if cmd[9] != 0xA8 then Answer(reply, header, 0xC051, []) && m' == m
      else if cmd[3] == 0x04 then
        Answer(reply, header, 0, PackLittle(Load(m.words, Number(cmd, 6), Number(cmd, 10)))) && m' == m
      else if |cmd| < 12 + 2 * Number(cmd, 10) then Answer(reply, header, 0xC0E1, []) && m' == m
      else
        && Answer(reply, header, 0, [])
        && m' == Memory(Store(m.words, Number(cmd, 6), UnpackLittle(cmd[12..12 + 2 * Number(cmd, 10)])), None)
  {
    hide Reply, Answer, PackLittle, UnpackLittle, Load, Store;
    forall code: uint16, data ensures Answer(Reply(header, code, data), header, code, data) {
      ReplyIsAnswer(header, code, data);
    }
    if |cmd| >= 6 {
      assert cmd[2..4] == [cmd[2], cmd[3]] && cmd[4..6] == [cmd[4], cmd[5]];
    }
    if |cmd| >= 12 {
      CommandFields(cmd);
    }
  }

  lemma CommandFields(cmd: seq<byte>)
    requires |cmd| >= 12
    ensures var data := cmd[6..];
            && FromLittle(data[0..2]) as int == Number(cmd, 6) && FromLittle(data[4..6]) as int == Number(cmd, 10)
            && data[3] == cmd[9]
            && (|cmd| >= 12 + 2 * Number(cmd, 10) ==>
                  data[6..6 + 2 * Number(cmd, 10)] == cmd[12..12 + 2 * Number(cmd, 10)])
  {
    var data := cmd[6..];
    assert data[0..2] == [cmd[6], cmd[7]] && data[4..6] == [cmd[10], cmd[11]];
    var n := 2 * Number(cmd, 10);
    if |cmd| >= 12 + n {
      SliceOfSlice(cmd, 6, |cmd|, 6, 6 + n);
    }
  }

  /** How the server takes requests off a connection: whole ones, by the length at 7, until one is incomplete. */
  lemma StreamIsServed(m: Memory, s: seq<byte>)
    ensures |s| < 9 || |s| < 9 + Number(s, 7) ==> ServeStream(m, s) == (m, [])
    ensures |s| >= 9 && |s| >= 9 + Number(s, 7) ==>
      var n := Number(s, 7);
      if m.fail.None? && !Survives(s[9..9 + n]) then ServeStream(m, s) == (m, [])
      else
        var (m1, reply) := Process(m, s[..9], s[9..9 + n]);
        var (m2, more) := ServeStream(m1, s[9 + n..]);
        ServeStream(m, s) == (m2, reply + more)
  {
    hide Process, Survives;
    if |s| >= 9 {
      assert s[7..9] == [s[7], s[8]];
    }
  }

  /** The client takes the data of an answer exactly when its end code is 0 and its length is not too small. */
  lemma EachErrorHasItsCause(s: seq<byte>)
    ensures |s| < 9 ==> Decode(s) == (Err(Io), [])
    ensures |s| >= 9 ==>
      var n := Number(s, 7);
      var (r, rest) := Decode(s);
      if |s| < 9 + n then r == Err(Io) && rest == []
      else
        && rest == s[9 + n..]
        && r == if n < 2 then Err(TooShort)
                else if Number(s, 9) != 0 then Err(EndCode(Number(s, 9)))
                else Ok(s[11..9 + n])
  {
    if |s| >= 9 {
      assert s[..9][7..9] == [s[7], s[8]];
      var n := Number(s, 7);
      if |s| >= 9 + n {
        var body := s[9..][..n];
        assert s[9..][n..] == s[9 + n..] && body == s[9..9 + n];
        if n >= 2 {
          assert body[0..2] == [s[9], s[10]] && body[2..] == s[11..9 + n];
        }
      }
    }
  }

  /** The words a read takes from the data, and all that a write looks at. */
  lemma InterpretsExactly(op: Op, resp: seq<byte>, words: seq<uint16>)
    ensures Interpret(op, resp) == Ok(words) <==>
      match op
      case ReadWords(_, n) =>
        |resp| >= 2 * n as int && |words| == n as int && forall k :: 0 <= k < |words| ==> words[k] as int == Number(resp, 2 * k)
      case WriteWords(_, _) => words == []
    ensures Interpret(op, resp).Err? ==> Interpret(op, resp) == Err(TooShort)
  {
    hide UnpackLittle;
    if op.ReadWords? && Interpret(op, resp).Ok? {
      var data := resp[..2 * op.count as int];
      var got := UnpackLittle(data);
      forall k | 0 <= k < |got| ensures got[k] as int == Number(resp, 2 * k) {
        UnpackLittleAt(data, k);
      }
      if |words| == |got| && forall k :: 0 <= k < |words| ==> words[k] as int == Number(resp, 2 * k) {
        assert words == got;
      }
    }
  }

  /** Each part of the route comes back from the server as it was sent, whatever the request and its outcome. */
  lemma RouteComesBack(route: Route, m: Memory, op: Op)
    requires Countable(op)
    ensures var reply := ServeStream(m, RequestFrame(route, op)).1;
            reply != [] ==>
              && |reply| >= 11 && reply[0] == 0x00 && reply[1] == 0xD0
              && reply[2] == route.network && reply[3] == route.station
              && Number(reply, 4) == route.moduleIO as int && reply[6] == route.multidrop
  {
    hide RequestFrame, OrderOf, Process, Survives, Number;
    OrderIsRead(route, op);
    var f := RequestFrame(route, op);
    var q := FirstRequest(f);
    if q.Some? && (m.fail.Some? || Survives(q.value.1)) {
      var (header, cmd) := q.value;
      assert forall i :: 2 <= i < 7 ==> header[i] == f[i];
      var (m1, reply) := Process(m, header, cmd);
      FirstAnswer(m, header, cmd);
      var all := ServeStream(m, f).1;
      assert all == reply + ServeStream(m1, f[9 + |cmd|..]).1;
      assert forall i :: 0 <= i < 11 ==> all[i] == reply[i];
      SameNumber(all, f, 4);
    }
  }

  lemma SameNumber(s: seq<byte>, t: seq<byte>, i: nat)
    requires i + 1 < |s| && i + 1 < |t| && s[i] == t[i] && s[i + 1] == t[i + 1]
    ensures Number(s, i) == Number(t, i)
  {
  }

  lemma FirstAnswer(m: Memory, header: seq<byte>, cmd: seq<byte>)
    requires |header| == 9 && (m.fail.None? ==> Survives(cmd))
    ensures var reply := Process(m, header, cmd).1;
            |reply| >= 11 && reply[0] == 0x00 && reply[1] == 0xD0 && forall i :: 2 <= i < 7 ==> reply[i] == header[i]
  {
    hide Process, Survives, PackLittle, UnpackLittle, Load, Store;
    ServerAnswers(m, header, cmd);
  }
}
