/** Modbus reads of more registers than a reply's count byte can name, and what they leave behind. */
module OverlongReads {
  import opened Bytes
  import opened Replies
  import opened RegisterMap
  import opened Network
  import opened ModbusDevice
  import opened ModbusSession
  import RtuFraming
  import Crc

  /** The count byte of the reply to a read of n registers. */
  function CountByte(n: uint16): byte {
    (2 * n) % 256
  }

  /** What the RTU reader takes for the reply: as many bytes of data as the count byte says, all zero. */
  function Head(n: uint16): (r: seq<byte>)
    ensures |r| == 2 + CountByte(n)
  {
    [0x03, CountByte(n)] + Zeros(CountByte(n))
  }

  /** A reply to somebody's read of one register. */
  function Fake(x: byte, y: byte): (r: seq<byte>)
    ensures |r| == 4
  {
    [0x03, 0x02, x, y]
  }

  /** The registers from the end of the head on: the head's checksum, and a whole frame with the fake. */
  function Bait(unit: byte, n: uint16, x: byte, y: byte): (r: seq<uint16>)
    ensures |r| == 5
  {
    UnpackBig(Little(Crc.Crc16([unit] + Head(n))) + RtuFraming.Frame(unit, Fake(x, y)) + [0])
  }

  function Trap(unit: byte, a: uint16, n: uint16, x: byte, y: byte): map<uint16, uint16> {
    Store(map[], At(a, CountByte(n) / 2), Bait(unit, n, x, y))
  }

  lemma AtAt(a: uint16, i: nat, j: nat)
    ensures At(At(a, i), j) == At(a, i + j)
  {
  }

  lemma LoadsTrap(unit: byte, a: uint16, n: uint16, x: byte, y: byte)
    requires 127 < n <= 32766
    ensures var words := Load(Trap(unit, a, n, x, y), a, n);
            var k := CountByte(n) / 2;
            && k + 5 <= n
            && (forall i :: 0 <= i < k ==> words[i] == 0)
            && words[k..k + 5] == Bait(unit, n, x, y)
  {
    hide Bait, Store;
    var k := CountByte(n) / 2;
    var bait := Bait(unit, n, x, y);
    var words := Load(Trap(unit, a, n, x, y), a, n);
    forall i | 0 <= i < k ensures words[i] == 0 {
      forall j | 0 <= j < |bait| ensures At(At(a, k), j) != At(a, i) {
        AtAt(a, k, j);
        AtInjective(a, k + j, i);
      }
      NotStoredAt(map[], At(a, k), bait, At(a, i));
    }
    forall j | 0 <= j < 5 ensures words[k + j] == bait[j] {
      StoredAt(map[], At(a, k), bait, j);
      AtAt(a, k, j);
    }
  }

  /** The bytes of the j-th word from the k-th on, given what the words from there on are. */
  lemma PackedWord(words: seq<uint16>, k: nat, s: seq<byte>, j: nat)
    requires |s| == 10 && k + 5 <= |words| && words[k..k + 5] == UnpackBig(s) && j < 5
    ensures PackBig(words)[2 * k + 2 * j] == s[2 * j] && PackBig(words)[2 * k + 2 * j + 1] == s[2 * j + 1]
  {
    hide PackBig, UnpackBig;
    PackBigAt(words, k + j);
    UnpackBigAt(s, j);
    assert words[k + j] == words[k..k + 5][j];
  }

  lemma PackedParts(words: seq<uint16>, k: nat, s: seq<byte>)
    requires |s| == 10 && k + 5 <= |words|
    requires (forall i :: 0 <= i < k ==> words[i] == 0) && words[k..k + 5] == UnpackBig(s)
    ensures PackBig(words)[..2 * k + 10] == Zeros(2 * k) + s
  {
    hide PackBig, UnpackBig;
    var p := PackBig(words);
    forall i | 0 <= i < 2 * k + 10 ensures p[i] == (Zeros(2 * k) + s)[i] {
      assert i == 2 * (i / 2) || i == 2 * (i / 2) + 1;
      if i < 2 * k {
        PackBigAt(words, i / 2);
      } else {
        PackedWord(words, k, s, i / 2 - k);
      }
    }
  }

  lemma Regroup(u: seq<byte>, h: seq<byte>, z: seq<byte>, c: seq<byte>, f: seq<byte>, rest: seq<byte>, c2: seq<byte>)
    ensures u + (h + (z + (c + f + [0]) + rest)) + c2 == (u + (h + z) + c) + (f + ([0] + rest + c2))
  {
  }

  /** Zeros up to the count byte, then the bait. */
  lemma DataSplits(unit: byte, d: Data, a: uint16, n: uint16, x: byte, y: byte) returns (rest: seq<byte>)
    requires 127 < n <= 32766 && d.regs == Trap(unit, a, n, x, y)
    ensures PackBig(Load(d.regs, a, n)) ==
            Zeros(CountByte(n))
            + (Little(Crc.Crc16([unit] + Head(n))) + RtuFraming.Frame(unit, Fake(x, y)) + [0]) + rest
  {
    hide Load, PackBig, UnpackBig, Crc.Crc16, Trap, Zeros, Little, Fake, Head, RtuFraming.Frame;
    var words := Load(d.regs, a, n);
    var k := CountByte(n) / 2;
    assert CountByte(n) == 2 * k;
    var s := Little(Crc.Crc16([unit] + Head(n))) + RtuFraming.Frame(unit, Fake(x, y)) + [0];
    LoadsTrap(unit, a, n, x, y);
    PackedParts(words, k, s);
    var p := PackBig(words);
    rest := p[2 * k + 10..];
    assert p == p[..2 * k + 10] + rest;
  }

  /** The peer's reply begins with two frames: the head, and the fake. */
  lemma ReplySplits(unit: byte, d: Data, a: uint16, n: uint16, x: byte, y: byte) returns (tail: seq<byte>)
    requires 127 < n <= 32766 && d.regs == Trap(unit, a, n, x, y)
    ensures RtuFraming.Frame(unit, Reply(d, ReadRegisters(a, n)))
         == RtuFraming.Frame(unit, Head(n)) + (RtuFraming.Frame(unit, Fake(x, y)) + tail)
  {
    hide Load, PackBig, UnpackBig, Crc.Crc16, Trap, Zeros, Little, Fake;
    var rest := DataSplits(unit, d, a, n, x, y);
    var c2 := Little(Crc.Crc16([unit] + Reply(d, ReadRegisters(a, n))));
    tail := [0] + rest + c2;
    Regroup([unit], [0x03, CountByte(n)], Zeros(CountByte(n)), Little(Crc.Crc16([unit] + Head(n))),
            RtuFraming.Frame(unit, Fake(x, y)), rest, c2);
  }

  /** From this tick on everything gets through, and replies of any size arrive whole. */
  ghost predicate Calm(plan: Plan, from: nat) {
    forall t :: t >= from ==> Fair(plan(t)) && plan(t).keep >= 0x2_0000
  }

  /** The exchange of an overlong read: the head is taken for the reply, and the rest stays. */
  lemma HeadIsTaken(cfg: Config, plan: Plan, st: State, h: nat, a: uint16, n: uint16, x: byte, y: byte)
    returns (tail: seq<byte>)
    requires IsRtu(cfg.mode) && 127 < n <= 32766
    requires st.conn == Some(h) && Clean(st.links, st.conn) && Calm(plan, st.links.clock)
    requires st.memory.fail.None? && st.memory.data.regs == Trap(cfg.unit, a, n, x, y)
    ensures var (st', r) := Exchange(cfg, plan, st, h, Pdu(ReadRegisters(a, n)));
            && r == Ok(Head(n)) && st'.conn == Some(h) && h in st'.links.open
            && st'.links.open[h] == RtuFraming.Frame(cfg.unit, Fake(x, y)) + tail
            && st'.memory == st.memory && st'.links.clock == st.links.clock + 1
  {
    hide Serve, Pdu, Reply, Crc.Crc16, RtuFraming.Check, Trap, Load;
    var op := ReadRegisters(a, n);
    ServeOp(cfg, st.tid, st.memory, op);
    PeerReadsAny(st.memory.data, a, n);
    tail := ReplySplits(cfg.unit, st.memory.data, a, n, x, y);
    RtuFraming.RoundTrip(cfg.unit, Head(n), RtuFraming.Frame(cfg.unit, Fake(x, y)) + tail);
    var frame := RtuFraming.Frame(cfg.unit, Reply(st.memory.data, op));
    assert Fair(plan(st.links.clock));
    assert [] + frame == frame;
  }

  /**
   * An overlong read in RTU mode is refused, but the connection stays, and on it the bytes of another frame
   * of the device's choosing.
   */
  lemma LeavesFrameBehind(cfg: Config, plan: Plan, st: State, a: uint16, n: uint16, x: byte, y: byte)
    returns (tail: seq<byte>)
    requires IsRtu(cfg.mode) && !cfg.autoClose && 127 < n <= 32766
    requires Clean(st.links, st.conn) && Calm(plan, st.links.clock)
    requires st.memory.fail.None? && st.memory.data.regs == Trap(cfg.unit, a, n, x, y)
    ensures var (st', r) := Run(cfg, plan, st, ReadRegisters(a, n));
            && r == Err(InvalidReply) && st'.memory == st.memory
            && st'.conn.Some? && Attached(st') && st'.links.clock >= st.links.clock
            && st'.links.open[st'.conn.value] == RtuFraming.Frame(cfg.unit, Fake(x, y)) + tail
  {
    hide Exchange, Pdu, Trap, Head;
    assert Fair(plan(st.links.clock));
    var st1 := Ensured(plan, st);
    EnsuredIsClean(plan, st);
    var st2 := st1.(tid := NextTid(cfg.mode, st1.tid));
    tail := HeadIsTaken(cfg, plan, st2, st1.conn.value, a, n, x, y);
    OverlongIsInvalid(ReadRegisters(a, n), Head(n));
  }

  /** Whoever reads one register next gets what the frame left behind says, whatever register it is. */
  lemma NextReadTakesIt(cfg: Config, plan: Plan, st: State, b: uint16, x: byte, y: byte, tail: seq<byte>)
    requires IsRtu(cfg.mode) && st.conn.Some? && Attached(st) && plan(st.links.clock).sent
    requires st.links.open[st.conn.value] == RtuFraming.Frame(cfg.unit, Fake(x, y)) + tail
    ensures Run(cfg, plan, st, ReadRegisters(b, 1)).1 == Ok([(x as int) * 256 + y])
  {
    hide Served, Pdu, Crc.Crc16, RtuFraming.Check;
    var h := st.conn.value;
    var f := plan(st.links.clock);
    var st1 := st.(tid := NextTid(cfg.mode, st.tid));
    var frame := RequestFrame(cfg.mode, st1.tid, cfg.unit, Pdu(ReadRegisters(b, 1)));
    var late := Delivered(f, Served(cfg.mode, f, st.memory, frame).1);
    var fake := RtuFraming.Frame(cfg.unit, Fake(x, y));
    assert fake + tail + late == fake + (tail + late);
    RtuFraming.RoundTrip(cfg.unit, Fake(x, y), tail + late);
    assert Exchange(cfg, plan, st1, h, Pdu(ReadRegisters(b, 1))).1 == Ok(Fake(x, y));
    FakeIsRead(b, x, y);
  }

  lemma FakeIsRead(b: uint16, x: byte, y: byte)
    ensures Interpret(ReadRegisters(b, 1), Fake(x, y)) == Ok([(x as int) * 256 + y])
  {
    var data := Fake(x, y)[2..];
    assert data == [x, y];
    UnpackBigAt(data, 0);
    assert UnpackBig(data) == [(x as int) * 256 + y];
  }

  /**
   * Foreign bytes: a read of 128 to 32766 registers in RTU mode, on a device whose registers hold the right
   * values, makes the next read of any one register succeed with any chosen value.
   */
  lemma NextReadIsForeign(
    cfg: Config, plan: Plan, st: State, a: uint16, n: uint16, b: uint16, x: byte, y: byte)
    requires IsRtu(cfg.mode) && !cfg.autoClose && 127 < n <= 32766
    requires Clean(st.links, st.conn) && Calm(plan, st.links.clock)
    requires st.memory.fail.None? && st.memory.data.regs == Trap(cfg.unit, a, n, x, y)
    ensures var (st1, r1) := Run(cfg, plan, st, ReadRegisters(a, n));
            && r1 == Err(InvalidReply) && Attached(st1) && st1.memory == st.memory
            && Run(cfg, plan, st1, ReadRegisters(b, 1)).1 == Ok([(x as int) * 256 + y])
  {
    hide Run, Trap;
    var tail := LeavesFrameBehind(cfg, plan, st, a, n, x, y);
    var st1 := Run(cfg, plan, st, ReadRegisters(a, n)).0;
    assert Fair(plan(st1.links.clock));
    NextReadTakesIt(cfg, plan, st1, b, x, y, tail);
  }

  /**
   * When a read leaves a quiet connection or none, under every plan and whatever the device holds: always in
   * TCP and ASCII mode, and in RTU mode exactly for up to 127 registers, or for more than 32766, which the
   * device does not survive; or if the connection is closed after each call anyway.
   */
  lemma QuietIsExact(cfg: Config, a: uint16, n: uint16)
    ensures (forall plan: Plan, st: State ::
              Clean(st.links, st.conn) ==>
                var (st', _) := Run(cfg, plan, st, ReadRegisters(a, n)); Clean(st'.links, st'.conn))
        <==> cfg.mode.Tcp? || cfg.mode.Ascii? || n <= 127 || n > 32766 || cfg.autoClose
  {
    hide Run;
    if Contained(cfg, ReadRegisters(a, n)) {
      forall plan: Plan, st: State | Clean(st.links, st.conn)
        ensures var (st', _) := Run(cfg, plan, st, ReadRegisters(a, n)); Clean(st'.links, st'.conn)
      {
        OperationMeans(cfg, plan, st, ReadRegisters(a, n));
      }
    } else {
      var plan: Plan := _ => Fate(true, true, true, 0x2_0000, None);
      var st := State(None, 0, Links(map[], 0, 0, []), Memory(Data(Trap(cfg.unit, a, n, 0, 0), map[]), None));
      var tail := LeavesFrameBehind(cfg, plan, st, a, n, 0, 0);
      assert Clean(st.links, st.conn);
      var (st', _) := Run(cfg, plan, st, ReadRegisters(a, n));
      assert |st'.links.open[st'.conn.value]| > 0;
      assert !Clean(st'.links, st'.conn);
    }
  }

  // ----- runs

  /** A run is a run on a plain map, with some choice of which operations took effect. */
  ghost predicate Sequential(cfg: Config, plan: Plan, st: State, ops: seq<Op>)
    requires Holding(st.links, st.conn)
  {
    var (st', rs) := RunAll(cfg, plan, st, ops);
    exists took: seq<bool> ::
      && |took| == |ops| == |rs|
      && st'.memory.data == Replay(st.memory.data, ops, took)
      && Explains(st.memory.data, ops, took, rs)
  }

  /** Reads that leave nothing behind in any mode. */
  predicate ShortReads(later: seq<Op>) {
    forall k :: 0 <= k < |later| ==> later[k].ReadRegisters? && later[k].count <= 127
  }

  /** A register that the trap does not hold. */
  lemma OutsideTrap(unit: byte, a: uint16, n: uint16, x: byte, y: byte)
    ensures At(a, CountByte(n) / 2 + 5) !in Trap(unit, a, n, x, y)
  {
    hide Bait, Store;
    var k: nat := CountByte(n) / 2;
    var bait := Bait(unit, n, x, y);
    forall j | 0 <= j < |bait| ensures At(At(a, k), j) != At(a, k + 5) {
      AtAt(a, k, j);
      AtInjective(a, k + j, k + 5);
    }
    NotStoredAt(map[], At(a, k), bait, At(a, k + 5));
  }

  lemma RunOfTwo(cfg: Config, plan: Plan, st: State, op: Op, read: Op)
    requires Holding(st.links, st.conn)
    ensures Holding(Run(cfg, plan, st, op).0.links, Run(cfg, plan, st, op).0.conn)
    ensures var (st1, r1) := Run(cfg, plan, st, op);
            var (st2, r2) := Run(cfg, plan, st1, read);
            RunAll(cfg, plan, st, [op, read]) == (st2, [r1, r2])
  {
    hide Run;
    RunHolds(cfg, plan, st, op);
    var st1 := Run(cfg, plan, st, op).0;
    RunHolds(cfg, plan, st1, read);
    var (st2, r2) := Run(cfg, plan, st1, read);
    assert [op, read][1..] == [read] && [read][1..] == [];
    assert RunAll(cfg, plan, st2, []) == (st2, []);
    assert RunAll(cfg, plan, st1, [read]) == (st2, [r2] + []);
    var r1 := Run(cfg, plan, st, op).1;
    assert [r2] + [] == [r2] && [r1] + [r2] == [r1, r2];
    assert RunAll(cfg, plan, st1, [op, read][1..]) == (st2, [r2]);
  }

  lemma TwoReadsExplained(d: Data, op: Op, read: Op, took: seq<bool>, rs: seq<Result<seq<uint16>>>)
    requires |took| == |rs| == 2 && op.ReadRegisters? && Explains(d, [op, read], took, rs)
    ensures rs[1].Ok? ==> rs[1].value == Direct(d, read).1
  {
    assert [op, read][1..] == [read];
    assert Explains(d, [read], took[1..], rs[1..]);
  }

  /** After a read that is not contained, the next read can return what no map ever held. */
  lemma ForeignIsNotSequential(cfg: Config, plan: Plan, st: State, a: uint16, n: uint16)
    requires !Contained(cfg, ReadRegisters(a, n))
    requires Clean(st.links, st.conn) && Calm(plan, st.links.clock)
    requires st.memory.fail.None? && st.memory.data.regs == Trap(cfg.unit, a, n, 1, 0)
    ensures !Sequential(cfg, plan, st, [ReadRegisters(a, n), ReadRegisters(At(a, CountByte(n) / 2 + 5), 1)])
  {
    hide Run, Trap, RunAll, Explains, Replay;
    var op, read := ReadRegisters(a, n), ReadRegisters(At(a, CountByte(n) / 2 + 5), 1);
    OutsideTrap(cfg.unit, a, n, 1, 0);
    NextReadIsForeign(cfg, plan, st, a, n, read.address, 1, 0);
    RunOfTwo(cfg, plan, st, op, read);
    var rs := RunAll(cfg, plan, st, [op, read]).1;
    assert At(read.address, 0) == read.address;
    assert Direct(st.memory.data, read).1 == [0];
    assert rs[1] == Ok([0x100]);
    forall took: seq<bool> | |took| == 2 && Explains(st.memory.data, [op, read], took, rs) ensures false {
      TwoReadsExplained(st.memory.data, op, read, took, rs);
    }
  }

  /**
   * Runs are sequential exactly as far as operations are contained: an operation followed by any reads of up
   * to 127 registers is a run on a plain map, under every plan and against every memory, if and only if it
   * leaves nothing behind.
   */
  lemma SequentialIsExact(cfg: Config, op: Op)
    ensures (forall plan: Plan, st: State, later: seq<Op> ::
              Clean(st.links, st.conn) && ShortReads(later) ==> Sequential(cfg, plan, st, [op] + later))
        <==> Contained(cfg, op)
  {
    hide Sequential;
    if Contained(cfg, op) {
      forall plan: Plan, st: State, later: seq<Op> | Clean(st.links, st.conn) && ShortReads(later)
        ensures Sequential(cfg, plan, st, [op] + later)
      {
        ContainedIsSequential(cfg, plan, st, [op] + later);
      }
    } else {
      var (a, n) := (op.address, op.count);
      var plan: Plan := _ => Fate(true, true, true, 0x2_0000, None);
      var st := State(None, 0, Links(map[], 0, 0, []), Memory(Data(Trap(cfg.unit, a, n, 1, 0), map[]), None));
      var later := [ReadRegisters(At(a, CountByte(n) / 2 + 5), 1)];
      ForeignIsNotSequential(cfg, plan, st, a, n);
      assert [op] + later == [op, later[0]];
      assert Clean(st.links, st.conn) && ShortReads(later);
    }
  }

  lemma ContainedIsSequential(cfg: Config, plan: Plan, st: State, ops: seq<Op>)
    requires Clean(st.links, st.conn) && forall k :: 0 <= k < |ops| ==> Contained(cfg, ops[k])
    ensures Sequential(cfg, plan, st, ops)
  {
    hide RunAll, Replay, Explains;
    var took := RunIsSequential(cfg, plan, st, ops);
  }
}
