/** The sizes up to which the 3E client and the mock server mean what they say, and what happens beyond. */
module MelsecBounds {
  import opened Bytes
  import opened RegisterMap
  import opened Network
  import opened MockServer
  import opened MelsecSession

  // ----- what the server makes of a frame whose length field wrapped

  /** How much of the body the wrapped length field covers. */
  function Covered(n: nat): uint16 {
    Wrap16(12 + 2 * n)
  }

  /** The covered part never holds the data that its count announces. */
  lemma CutIsRefused(route: Route, m: Memory, op: Op)
    requires op.WriteWords? && 32761 < |op.values| < 0x1_0000
    ensures var h, b, n := HeaderOf(route, op), BodyOf(route, op), Covered(|op.values|) as int;
            && n < |b| && Survives(b[..n])
            && Process(m, h, b[..n]) ==
               (m.(fail := None), Reply(h, match m.fail case Some(c) => if c == 0 then INJECTED else c case None => BAD_LENGTH, []))
  {
    hide PackLittle, Head, Body, Payload, Reply;
    BodyFields(route, op);
    var h, b, n := HeaderOf(route, op), BodyOf(route, op), Covered(|op.values|) as int;
    var cut := b[..n];
    if n >= 6 {
      SliceOfPrefix(b, n, 4, 6);
      SliceOfPrefix(b, n, 2, 4);
    }
    if n >= 12 {
      assert cut[6..] == b[6..][..n - 6];
      SliceOfPrefix(b[6..], n - 6, 4, 6);
      assert cut[6..][3] == b[6..][3];
    }
  }

  /** A write whose length field wrapped is refused, and the rest of its body is read as further requests. */
  lemma OverlongWriteIsRefused(route: Route, m: Memory, op: Op)
    requires op.WriteWords? && 32761 < |op.values| < 0x1_0000
    ensures var h, b, n := HeaderOf(route, op), BodyOf(route, op), Covered(|op.values|) as int;
            n < |b| &&
            var (m', more) := ServeStream(m.(fail := None), b[n..]);
            ServeStream(m, RequestFrame(route, op)) ==
            (m', Reply(h, match m.fail case Some(c) => if c == 0 then INJECTED else c case None => BAD_LENGTH, []) + more)
  {
    hide Process, Survives, Reply, Head, Body, PackLittle, Payload;
    FrameParts(route, op);
    CutIsRefused(route, m, op);
    var h, b, n := HeaderOf(route, op), BodyOf(route, op), Covered(|op.values|) as int;
    var s := RequestFrame(route, op);
    assert s[7..9] == h[7..9] == Little(n) && s[..9] == h && s[9..9 + n] == b[..n] && s[9 + n..] == b[n..];
    assert FirstRequest(s) == Some((h, b[..n]));
  }

  /** Of a read whose reply length wrapped, or that the server does not survive, nothing readable comes back. */
  lemma OverlongReadIsUnreadable(route: Route, m: Memory, op: Op, keep: nat)
    requires op.ReadWords? && op.count > 32766
    ensures var (_, reply) := ServeStream(m, RequestFrame(route, op));
            Decode(if keep < |reply| then reply[..keep] else reply).0.Err?
  {
    hide ServeStream, Decode, RequestFrame;
    ArrivalMeans(route, Fate(true, true, true, keep, None), m, op);
  }

  /** A refusal is an error however much of it and of what follows arrives. */
  lemma RefusalArrives(f: Fate, header: seq<byte>, code: uint16, more: seq<byte>)
    requires |header| == 9 && code != 0
    ensures Decode(Delivered(f, Reply(header, code, []) + more)).0.Err?
  {
    hide Decode;
    var refusal := Reply(header, code, []);
    var all := refusal + more;
    if f.keep < |refusal| {
      CutShort(header, code, [], f.keep);
      assert all[..f.keep] == refusal[..f.keep];
    } else {
      var tail := Delivered(f, all)[|refusal|..];
      assert Delivered(f, all) == refusal + tail;
      ReplyDecodes(header, code, [], tail);
    }
  }

  // ----- beyond the bounds nothing succeeds

  lemma MisfitArrival(route: Route, f: Fate, before: Memory, op: Op)
    requires Countable(op) && !Fits(op)
    ensures Decode(Delivered(f, Served(f, before, RequestFrame(route, op)).1)).0.Err?
  {
    hide ServeStream, Decode, RequestFrame, HeaderOf, BodyOf, Reply;
    NothingDecodes();
    if op.ReadWords? {
      ArrivalMeans(route, f, before, op);
    } else if f.served {
      var m := Met(f, before);
      OverlongWriteIsRefused(route, m, op);
      var code := match m.fail case Some(c) => if c == 0 then INJECTED else c case None => BAD_LENGTH;
      var n := Covered(|op.values|) as int;
      RefusalArrives(f, HeaderOf(route, op), code, ServeStream(m.(fail := None), BodyOf(route, op)[n..]).1);
    }
  }

  /** One attempt fails, and has done what the server does with the frame, if it got there. */
  lemma MisfitAttempt(route: Route, plan: Plan, st: State, op: Op)
    requires Countable(op) && !Fits(op) && Clean(st.links, st.conn)
    ensures var (st', r) := SendOnce(plan, st, RequestFrame(route, op));
            && r.Err? && Attached(st') && Holding(st'.links, st'.conn) && st'.links.clock > st.links.clock
            && (st'.memory == st.memory
                || exists f :: st'.memory == Served(f, st.memory, RequestFrame(route, op)).0)
            && ((forall t :: t >= st.links.clock ==> Fair(plan(t))) ==>
                  st'.memory == ServeStream(st.memory, RequestFrame(route, op)).0)
  {
    hide ServeStream, Decode, RequestFrame;
    AttemptEffort(plan, st, RequestFrame(route, op));
    var st1 := st;
    if st.conn.None? {
      ReconnectIsClean(plan, st);
      st1 := Reconnected(plan, st);
    }
    if st1.conn.Some? {
      var h := st1.conn.value;
      var f := plan(st1.links.clock);
      MisfitArrival(route, f, st.memory, op);
      var (m, reply) := Served(f, st.memory, RequestFrame(route, op));
      assert st1.links.open[h] + Delivered(f, reply) == Delivered(f, reply);
    }
    if forall t :: t >= st.links.clock ==> Fair(plan(t)) {
      assert Fair(plan(st.links.clock)) && Fair(plan(st1.links.clock));
    }
  }

  /** Under every plan and against every memory, an operation beyond the bounds fails. */
  lemma {:induction false} MisfitFails(route: Route, plan: Plan, st: State, op: Op, left: nat)
    requires Countable(op) && !Fits(op) && Clean(st.links, st.conn)
    ensures var (st', r) := Send(plan, st, RequestFrame(route, op), left);
            r.Err? && Clean(st'.links, st'.conn)
    decreases left
  {
    hide SendOnce, RequestFrame, Served;
    MisfitAttempt(route, plan, st, op);
    var (st1, r) := SendOnce(plan, st, RequestFrame(route, op));
    ReconnectIsClean(plan, st1);
    if left > 0 {
      MisfitFails(route, plan, Reconnected(plan, st1), op, left - 1);
    }
  }

  /**
   * The exact bounds of success: no call beyond them ever succeeds, and over a fair environment a call
   * succeeds just when no length field wraps, that is for reads of up to 32766 and writes of up to 32761
   * words, and then it does what it means.
   */
  lemma SucceedsExactlyWhenItFits(cfg: Config, plan: Plan, st: State, op: Op)
    requires Countable(op) && Clean(st.links, st.conn)
    ensures var (st', r) := Run(cfg, plan, st, op);
            && (r.Ok? ==> Fits(op))
            && ((forall t :: t >= st.links.clock ==> Fair(plan(t))) && st.memory.fail.None? && Fits(op) ==>
                  && r == Ok(Direct(st.memory.words, op).1)
                  && st'.memory.words == Direct(st.memory.words, op).0)
  {
    hide Send, RequestFrame;
    if Fits(op) {
      SendMeans(cfg.route, plan, st, op, cfg.retries);
      if (forall t :: t >= st.links.clock ==> Fair(plan(t))) && st.memory.fail.None? {
        RetriesOutlastTrouble(cfg.route, plan, st, op, st.links.clock, cfg.retries);
      }
    } else {
      MisfitFails(cfg.route, plan, st, op, cfg.retries);
    }
  }

  // ----- what an overlong write can do

  /** The command data of a write of one word: v to register t. */
  function Order(t: uint16, v: uint16): (r: seq<byte>)
    ensures |r| == 14
  {
    [0, 0] + Little(CMD_WRITE) + Little(SUBCMD_WORD) + Little(t) + [0, DEVICE_D] + Little(1) + Little(v)
  }

  lemma OrderFields(t: uint16, v: uint16)
    ensures var o := Order(t, v);
            && o[2..4] == Little(CMD_WRITE) && o[4..6] == Little(SUBCMD_WORD) && o[6..8] == Little(t)
            && o[9] == DEVICE_D && o[10..12] == Little(1) && o[12..14] == Little(v)
  {
  }

  lemma CommandSlices(cmd: seq<byte>, o: seq<byte>)
    requires |cmd| >= 14 && |o| == 14 && forall k :: 1 <= k < 14 ==> cmd[k] == o[k]
    ensures cmd[2..4] == o[2..4] && cmd[4..6] == o[4..6]
    ensures var data := cmd[6..];
            data[0..2] == o[6..8] && data[3] == o[9] && data[4..6] == o[10..12] && data[6..8] == o[12..14]
  {
    assert forall i :: 0 <= i < |cmd| - 6 ==> cmd[6..][i] == cmd[6 + i];
  }

  /** Command data that agrees with an order, except perhaps for the first byte, is obeyed. */
  lemma OrderIsObeyed(m: Memory, header: seq<byte>, cmd: seq<byte>, t: uint16, v: uint16)
    requires |header| == 9 && m.fail.None? && |cmd| >= 14
    requires forall k :: 1 <= k < 14 ==> cmd[k] == Order(t, v)[k]
    ensures Survives(cmd) && Process(m, header, cmd).0 == Memory(m.words[t := v], None)
  {
    hide Reply, Order, Little;
    var o, data := Order(t, v), cmd[6..];
    OrderFields(t, v);
    CommandSlices(cmd, o);
    LittleRoundTrip(v);
    LittleRoundTrip(1);
    LittleRoundTrip(CMD_WRITE);
    LittleRoundTrip(SUBCMD_WORD);
    LittleRoundTrip(t);
    assert UnpackLittle(data[6..8]) == [v] by {
      UnpackLittleAt(data[6..8], 0);
      assert data[6..8][0..2] == data[6..8];
    }
    assert Store(m.words, t, [v]) == m.words[t := v];
  }

  lemma {:induction false} ZerosDoNothing(m: Memory, s: seq<byte>)
    requires m.fail.None? && forall i :: 0 <= i < |s| ==> s[i] == 0
    ensures ServeStream(m, s).0 == m
    decreases |s|
  {
    hide Reply;
    if |s| >= 9 {
      assert s[7..9] == [0, 0];
      assert FirstRequest(s) == Some((s[..9], []));
      ZerosDoNothing(m, s[9..]);
    }
  }

  /** A stream whose first request is an order and that is zero after it. */
  ghost predicate Loaded(s: seq<byte>, t: uint16, v: uint16) {
    && |s| >= 9
    && (var c := FromLittle(s[7..9]) as int;
        && 14 <= c && 9 + c <= |s|
        && (forall k :: 1 <= k < 14 ==> s[9 + k] == Order(t, v)[k])
        && (forall i :: 9 + c <= i < |s| ==> s[i] == 0))
  }

  lemma LoadedIsObeyed(m: Memory, s: seq<byte>, t: uint16, v: uint16)
    requires m.fail.None? && Loaded(s, t, v)
    ensures ServeStream(m, s).0 == Memory(m.words[t := v], None)
  {
    hide Process, Survives, Order;
    var c := FromLittle(s[7..9]) as int;
    var cmd := s[9..9 + c];
    OrderIsObeyed(m, s[..9], cmd, t, v);
    ZerosDoNothing(Memory(m.words[t := v], None), s[9 + c..]);
  }

  /** The first twelve bytes of a write's body. */
  function Front(route: Route, a: uint16, n: uint16): (r: seq<byte>)
    ensures |r| == 12
  {
    Body(route, CMD_WRITE, SUBCMD_WORD, Payload(a, n, []))
  }

  /**
   * Data for 2 * n bytes such that the body holds, from its byte `at` on, a header that announces 14 bytes
   * and an order after it.
   */
  function Cargo(n: nat, at: nat, t: uint16, v: uint16): (r: seq<byte>)
    ensures |r| == 2 * n
  {
    seq(2 * n, i requires 0 <= i < 2 * n =>
      var k := 12 + i - at;
      if k == 7 then 14 else if 10 <= k < 23 then Order(t, v)[k - 9] else 0)
  }

  /**
   * Where the server starts to read what follows the refused request. When nothing of the body is covered,
   * the address makes the beginning of the body a request of its own, which comes to nothing.
   */
  function Opening(a: uint16, n: uint16): nat {
    if Covered(n) == 0 then 9 + a / 256 else Covered(n)
  }

  lemma FrontFields(route: Route, a: uint16, n: uint16)
    ensures var f := Front(route, a, n);
            f[7] == a / 256 && f[8] == 0 && f[9] == DEVICE_D && f[10] == n % 256 && f[11] == n / 256
  {
  }

  lemma OpeningCases(a: uint16, n: uint16)
    requires n > 32761
    ensures var at := Opening(a, n);
            && (at == 2 || at == 4 || at >= 6) && at <= 12 + 2 * n
            && (at == 2 ==> n % 256 == 0xFB && 12 + 2 * n - at >= 65536)
            && (at == 4 ==> n / 256 >= 14 && 12 + 2 * n - at >= 65536)
            && (at >= 6 ==> 12 + 2 * n - at >= 23)
  {
    assert Covered(n) as int == 12 + 2 * n - (if n <= 65529 then 0x1_0000 else 0x2_0000);
  }

  lemma CargoIsLoaded(route: Route, a: uint16, n: uint16, t: uint16, v: uint16)
    requires n > 32761
    ensures Loaded((Front(route, a, n) + Cargo(n, Opening(a, n), t, v))[Opening(a, n)..], t, v)
  {
    hide Front, Order, Opening;
    FrontFields(route, a, n);
    OpeningCases(a, n);
    var f, at := Front(route, a, n), Opening(a, n);
    var d := Cargo(n, at, t, v);
    var s := (f + d)[at..];
    forall k | 0 <= k < |s| ensures s[k] == if at + k < 12 then f[at + k] else d[at + k - 12] {
    }
    assert s[7..9] == [s[7], s[8]];
    assert at >= 6 ==> s[7] == 14 && s[8] == 0;
    assert at == 4 ==> s[7] == n / 256 && s[8] == 0;
    assert at == 2 ==> s[7] == DEVICE_D && s[8] == n % 256;
  }

  /** A request that is too short to name a command, or names one that does not exist, changes nothing. */
  lemma JunkIsIgnored(m: Memory, header: seq<byte>, cmd: seq<byte>)
    requires |header| == 9 && m.fail.None?
    requires |cmd| >= 6 ==> FromLittle(cmd[2..4]) !in {CMD_READ, CMD_WRITE}
    ensures Survives(cmd) && Process(m, header, cmd).0 == m
  {
  }

  /** When nothing of the body is covered, its beginning is a request that comes to nothing. */
  lemma JunkIsPassed(m: Memory, b: seq<byte>, n: uint16)
    requires m.fail.None? && |b| >= 9 + 256 && b[8] == 0 && b[11] == n / 256
    requires n == 32762 || n == 65530
    requires b[7] >= 6 ==> b[12] == 0
    ensures ServeStream(m, b).0 == ServeStream(m, b[9 + b[7]..]).0
  {
    hide Process, Survives;
    var j: nat := b[7];
    var cmd := b[9..9 + j];
    assert b[7..9] == [b[7], b[8]];
    if j >= 6 {
      assert cmd[2..4] == [b[11], b[12]];
    }
    JunkIsIgnored(m, b[..9], cmd);
    assert FirstRequest(b) == Some((b[..9], cmd));
  }

  /** The server comes to the opening with its memory unchanged. */
  lemma ReachesOpening(route: Route, m: Memory, a: uint16, n: uint16, t: uint16, v: uint16)
    requires n > 32761 && m.fail.None?
    ensures var b := Front(route, a, n) + Cargo(n, Opening(a, n), t, v);
            ServeStream(m, b[Covered(n)..]).0 == ServeStream(m, b[Opening(a, n)..]).0
  {
    hide Front, ServeStream, Order;
    FrontFields(route, a, n);
    var b := Front(route, a, n) + Cargo(n, Opening(a, n), t, v);
    if Covered(n) == 0 {
      assert b[0..] == b;
      JunkIsPassed(m, b, n);
    }
  }

  /** An overlong write that makes the server store v in register t, wherever its own block lies. */
  function Smuggling(a: uint16, n: uint16, t: uint16, v: uint16): (values: seq<uint16>)
    ensures |values| == n as int
  {
    UnpackLittle(Cargo(n, Opening(a, n), t, v))
  }

  lemma BodyParts(route: Route, a: uint16, values: seq<uint16>)
    requires |values| < 0x1_0000
    ensures BodyOf(route, WriteWords(a, values)) == Front(route, a, |values|) + PackLittle(values)
  {
    hide PackLittle, Little;
  }

  lemma Smuggles(route: Route, m: Memory, a: uint16, n: uint16, t: uint16, v: uint16)
    requires n > 32761 && m.fail.None?
    ensures ServeStream(m, RequestFrame(route, WriteWords(a, Smuggling(a, n, t, v)))).0
         == Memory(m.words[t := v], None)
  {
    hide ServeStream, Cargo, Opening, Loaded, RequestFrame, Front, BodyOf, PackLittle, UnpackLittle, Reply;
    var op := WriteWords(a, Smuggling(a, n, t, v));
    var d := Cargo(n, Opening(a, n), t, v);
    PackUnpackLittle(d);
    BodyParts(route, a, Smuggling(a, n, t, v));
    OpeningCases(a, n);
    OverlongWriteIsRefused(route, m, op);
    ReachesOpening(route, m, a, n, t, v);
    CargoIsLoaded(route, a, n, t, v);
    LoadedIsObeyed(m, BodyOf(route, op)[Opening(a, n)..], t, v);
  }

  /** Through the whole client: the write fails, and the chosen word is stored all the same. */
  lemma {:induction false} SendSmuggles(
    route: Route, plan: Plan, st: State, a: uint16, n: uint16, t: uint16, v: uint16, left: nat)
    requires n > 32761 && Clean(st.links, st.conn) && st.memory.fail.None?
    requires forall k :: k >= st.links.clock ==> Fair(plan(k))
    ensures var (st', r) := Send(plan, st, RequestFrame(route, WriteWords(a, Smuggling(a, n, t, v))), left);
            r.Err? && st'.memory.words == st.memory.words[t := v]
    decreases left
  {
    hide SendOnce, RequestFrame, Served, Smuggling, ServeStream;
    var op := WriteWords(a, Smuggling(a, n, t, v));
    MisfitAttempt(route, plan, st, op);
    Smuggles(route, st.memory, a, n, t, v);
    var (st1, r) := SendOnce(plan, st, RequestFrame(route, op));
    ReconnectIsClean(plan, st1);
    if left > 0 {
      SendSmuggles(route, plan, Reconnected(plan, st1), a, n, t, v, left - 1);
      assert st.memory.words[t := v][t := v] == st.memory.words[t := v];
    }
  }

  /**
   * A write of more than 32761 words that fails although a word of the caller's choice was stored: for
   * every address, every such count, every register t and every v.
   */
  lemma OverlongWriteStrays(cfg: Config, plan: Plan, st: State, a: uint16, n: uint16, t: uint16, v: uint16)
    requires n > 32761 && Clean(st.links, st.conn) && st.memory.fail.None?
    requires forall k :: k >= st.links.clock ==> Fair(plan(k))
    ensures var (st', r) := Run(cfg, plan, st, WriteWords(a, Smuggling(a, n, t, v)));
            r.Err? && st'.memory.words == st.memory.words[t := v]
  {
    hide Send, RequestFrame, Smuggling;
    SendSmuggles(cfg.route, plan, st, a, n, t, v, cfg.retries);
  }

  const CALM: Fate := Fate(true, true, true, 0x2_0000, None)

  const FRESH := State(None, Links(map[], 0, 0, []), Memory(map[], None))

  lemma StrayIsNoBlock(a: uint16, values: seq<uint16>, t: uint16)
    requires 2 <= |values| <= 0x1_0000
    ensures map[t := 1] != Store(map[], a, values)
  {
    StoredAt(map[], a, values, 0);
    StoredAt(map[], a, values, 1);
    AtInjective(a, 0, 1);
    assert At(a, 0) != t || At(a, 1) != t;
  }

  /**
   * The bound on writes is exact: at any address, writes of n words do what they should, whatever the words,
   * the environment and the memory, if and only if n is at most 32761.
   */
  lemma MeaningIsExact(cfg: Config, a: uint16, n: uint16)
    ensures (forall values: seq<uint16>, plan: Plan, st: State ::
              |values| == n as int && Clean(st.links, st.conn) ==> Faithful(cfg, plan, st, WriteWords(a, values)))
        <==> n <= 32761
  {
    hide Faithful, Smuggling;
    if n <= 32761 {
      forall values: seq<uint16>, plan: Plan, st: State | |values| == n as int && Clean(st.links, st.conn)
        ensures Faithful(cfg, plan, st, WriteWords(a, values))
      {
        OperationMeans(cfg, plan, st, WriteWords(a, values));
      }
    } else {
      var values := Smuggling(a, n, 0, 1);
      var plan: Plan := _ => CALM;
      Unfaithful(cfg, plan, a, n);
      assert |values| == n as int && Clean(FRESH.links, FRESH.conn);
    }
  }

  lemma Unfaithful(cfg: Config, plan: Plan, a: uint16, n: uint16)
    requires n > 32761 && forall t :: Fair(plan(t))
    ensures !Faithful(cfg, plan, FRESH, WriteWords(a, Smuggling(a, n, 0, 1)))
  {
    hide Run, Smuggling, Store;
    OverlongWriteStrays(cfg, plan, FRESH, a, n, 0, 1);
    StrayIsNoBlock(a, Smuggling(a, n, 0, 1), 0);
    var words := Run(cfg, plan, FRESH, WriteWords(a, Smuggling(a, n, 0, 1))).0.memory.words;
    assert words == map[0 := 1];
    assert words != map[] by {
      assert 0 in words;
    }
  }

  // ----- not every overlong write strays

  lemma ZeroFront(route: Route, m: Memory, b: seq<byte>)
    requires |b| >= 18 && b[..12] == Front(route, 0, 32762)
    requires m.fail.None? && forall i :: 12 <= i < |b| ==> b[i] == 0
    ensures ServeStream(m, b).0 == m
  {
    hide Front, Reply;
    FrontFields(route, 0, 32762);
    assert b[7] == 0 && b[8] == 0;
    assert b[7..9] == [0, 0] && FirstRequest(b) == Some((b[..9], []));
    var c := b[9..];
    assert c[7..9] == [0, 0] && FirstRequest(c) == Some((c[..9], []));
    ZerosDoNothing(m, c[9..]);
  }

  lemma {:induction false} ZeroSendIsHarmless(route: Route, plan: Plan, st: State, values: seq<uint16>, left: nat)
    requires |values| == 32762 && (forall i :: 0 <= i < |values| ==> values[i] == 0)
    requires Clean(st.links, st.conn)
    ensures Send(plan, st, RequestFrame(route, WriteWords(0, values)), left).0.memory.words == st.memory.words
    decreases left
  {
    hide SendOnce, RequestFrame, ServeStream;
    var op := WriteWords(0, values);
    forall m: Memory ensures ServeStream(m, RequestFrame(route, op)).0.words == m.words {
      ZeroWriteIsHarmless(route, m, values);
    }
    MisfitAttempt(route, plan, st, op);
    var (st1, r) := SendOnce(plan, st, RequestFrame(route, op));
    ReconnectIsClean(plan, st1);
    if left > 0 {
      ZeroSendIsHarmless(route, plan, Reconnected(plan, st1), values, left - 1);
    }
  }

  lemma ZeroWriteIsHarmless(route: Route, m: Memory, values: seq<uint16>)
    requires |values| == 32762 && (forall i :: 0 <= i < |values| ==> values[i] == 0)
    ensures ServeStream(m, RequestFrame(route, WriteWords(0, values))).0.words == m.words
  {
    hide ServeStream, RequestFrame;
    var op := WriteWords(0, values);
    OverlongWriteIsRefused(route, m, op);
    var b := BodyOf(route, op);
    assert b == Front(route, 0, 32762) + PackLittle(values);
    ZeroFront(route, m.(fail := None), b);
    assert b[0..] == b;
  }

  /**
   * The bound cannot be had write by write: 32762 zeros written to register 0 fail and change nothing,
   * under every plan and against every memory. It is the words written that decide.
   */
  lemma HarmlessOverlongWrite(cfg: Config, plan: Plan, st: State, values: seq<uint16>)
    requires |values| == 32762 && (forall i :: 0 <= i < |values| ==> values[i] == 0)
    requires Clean(st.links, st.conn)
    ensures Faithful(cfg, plan, st, WriteWords(0, values))
  {
    hide Send, RequestFrame;
    MisfitFails(cfg.route, plan, st, WriteWords(0, values), cfg.retries);
    ZeroSendIsHarmless(cfg.route, plan, st, values, cfg.retries);
  }
}
