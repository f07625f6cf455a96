/** How typed values are laid out in words, and that they come back. */
module TypedValues {
  import opened Bytes

  type uint64 = v: int | 0 <= v < 0x1_0000_0000_0000_0000

  /** What Write accepts. Signed numbers and floating-point numbers are given by their bit patterns. */
  datatype Value =
    | Flag(on: bool)
    | Word(w: uint16)
    | Double(v: uint32)
    | Quad(q: uint64)
    | Text(s: seq<byte>)

  function Pattern16(v: int): uint16 {
    v % 0x1_0000
  }

  function Signed16(w: uint16): int {
    if w < 0x8000 then w else w as int - 0x1_0000
  }

  function Pattern32(v: int): uint32 {
    v % 0x1_0000_0000
  }

  function Signed32(v: uint32): int {
    if v < 0x8000_0000 then v else v as int - 0x1_0000_0000
  }

  lemma SignedRoundTrip(v: int)
    ensures -0x8000 <= v < 0x8000 ==> Signed16(Pattern16(v)) == v
    ensures -0x8000_0000 <= v < 0x8000_0000 ==> Signed32(Pattern32(v)) == v
  {
  }

  function SplitBig(v: uint32): seq<uint16> {
    [v / 0x1_0000, v % 0x1_0000]
  }

  function JoinBig(words: seq<uint16>): uint32
    requires |words| == 2
  {
    (words[0] as int) * 0x1_0000 + words[1]
  }

  function SplitLittle(v: uint32): seq<uint16> {
    [v % 0x1_0000, v / 0x1_0000]
  }

  function JoinLittle(words: seq<uint16>): uint32
    requires |words| == 2
  {
    words[0] + (words[1] as int) * 0x1_0000
  }

  function QuadBig(q: uint64): seq<uint16> {
    SplitBig(q / 0x1_0000_0000) + SplitBig(q % 0x1_0000_0000)
  }

  lemma JoinSplit(v: uint32)
    ensures JoinBig(SplitBig(v)) == v && JoinLittle(SplitLittle(v)) == v
  {
  }

  lemma QuadRoundTrip(q: uint64)
    ensures var w := QuadBig(q);
            |w| == 4 && (JoinBig(w[..2]) as int) * 0x1_0000_0000 + JoinBig(w[2..]) as int == q
  {
    JoinSplit(q / 0x1_0000_0000);
    JoinSplit(q % 0x1_0000_0000);
    assert QuadBig(q)[..2] == SplitBig(q / 0x1_0000_0000);
    assert QuadBig(q)[2..] == SplitBig(q % 0x1_0000_0000);
  }

  lemma TwoWords(a: uint16, b: uint16)
    ensures PackBig([a, b]) == [a / 256, a % 256, b / 256, b % 256]
    ensures PackLittle([a, b]) == [a % 256, a / 256, b % 256, b / 256]
  {
    hide PackBig, PackLittle;
    PackBigAt([a, b], 0);
    PackBigAt([a, b], 1);
    PackLittleAt([a, b], 0);
    PackLittleAt([a, b], 1);
  }

  lemma BytesOfHalves(v: uint32)
    ensures v / 0x1_0000 / 256 == v / 0x100_0000
    ensures v % 0x1_0000 / 256 == v / 256 % 256 && v % 0x1_0000 % 256 == v % 256
  {
    FourDigits(v / 0x1_0000 / 256, v / 0x1_0000 % 256, v % 0x1_0000 / 256, v % 0x1_0000 % 256);
  }

  lemma FourDigits(a: int, b: int, c: int, d: int)
    requires 0 <= b < 256 && 0 <= c < 256 && 0 <= d < 256
    ensures var v := 0x100_0000 * a + 0x1_0000 * b + 256 * c + d;
            v / 0x100_0000 == a && v / 256 % 256 == c && v % 256 == d
  {
    var v := 0x100_0000 * a + 0x1_0000 * b + 256 * c + d;
    assert v / 256 == 0x1_0000 * a + 256 * b + c;
  }

  /** What a 32-bit number is on the wire: its bytes, high or low end first. */
  lemma DoubleBytes(v: uint32)
    ensures PackBig(SplitBig(v)) == [v / 0x100_0000, v / 0x1_0000 % 256, v / 256 % 256, v % 256]
    ensures PackLittle(SplitLittle(v)) == [v % 256, v / 256 % 256, v / 0x1_0000 % 256, v / 0x100_0000]
  {
    hide PackBig, PackLittle;
    var h: uint16, l: uint16 := v / 0x1_0000, v % 0x1_0000;
    TwoWords(h, l);
    TwoWords(l, h);
    BytesOfHalves(v);
  }

  lemma QuadBytes(q: uint64)
    ensures var (h, l) := (q / 0x1_0000_0000, q % 0x1_0000_0000);
            PackBig(QuadBig(q)) == [h / 0x100_0000, h / 0x1_0000 % 256, h / 256 % 256, h % 256,
                                    l / 0x100_0000, l / 0x1_0000 % 256, l / 256 % 256, l % 256]
  {
    hide PackBig, SplitBig;
    var h: uint32, l: uint32 := q / 0x1_0000_0000, q % 0x1_0000_0000;
    DoubleBytes(h);
    DoubleBytes(l);
    assert |SplitBig(h)| == |SplitBig(l)| == 2;
    PackBigJoin(SplitBig(h), SplitBig(l));
  }

  lemma PackBigJoin(a: seq<uint16>, b: seq<uint16>)
    ensures PackBig(a + b) == PackBig(a) + PackBig(b)
  {
  }

  /** Two's complement: the number is congruent to its bit pattern, and in range. */
  lemma SignedMeans(w: uint16, v: uint32)
    ensures -0x8000 <= Signed16(w) < 0x8000 && (Signed16(w) - w as int) % 0x1_0000 == 0
    ensures -0x8000_0000 <= Signed32(v) < 0x8000_0000 && (Signed32(v) - v as int) % 0x1_0000_0000 == 0
  {
  }

  // ----- text

  /** strings.TrimRight(s, "\x00"). */
  function TrimNul(s: seq<byte>): seq<byte>
    decreases |s|
  {
    if s != [] && s[|s| - 1] == 0 then TrimNul(s[..|s| - 1]) else s
  }

  /** The words that hold a read of n bytes. */
  function WordsFor(n: nat): nat {
    (n + 1) / 2
  }

  /** No more words than needed. */
  lemma WordsForMeans(n: nat)
    ensures n <= 2 * WordsFor(n) <= n + 1
  {
  }

  function Cut(raw: seq<byte>, n: nat): seq<byte> {
    TrimNul(if |raw| > n then raw[..n] else raw)
  }

  lemma CutText(s: seq<byte>, n: nat)
    requires n <= |s|
    ensures WordsFor(n) <= |Padded(s)| / 2
    ensures Cut(Padded(s)[..2 * WordsFor(n)], n) == TrimNul(s[..n])
  {
    hide TrimNul;
    var raw := Padded(s)[..2 * WordsFor(n)];
    assert raw[..n] == s[..n];
    assert |raw| == n ==> raw == raw[..n];
  }

  /** The words of a text, packed again and cut to a length not beyond its end, are its beginning. */
  lemma TextFromBig(s: seq<byte>, n: nat)
    requires n <= |s|
    ensures Cut(PackBig(UnpackBig(Padded(s))[..WordsFor(n)]), n) == TrimNul(s[..n])
  {
    hide PackBig, UnpackBig, Cut, TrimNul;
    CutText(s, n);
    PackUnpackBig(Padded(s));
    PackBigPrefix(UnpackBig(Padded(s)), WordsFor(n));
  }

  lemma TextFromLittle(s: seq<byte>, n: nat)
    requires n <= |s|
    ensures Cut(PackLittle(UnpackLittle(Padded(s))[..WordsFor(n)]), n) == TrimNul(s[..n])
  {
    hide PackLittle, UnpackLittle, Cut, TrimNul;
    CutText(s, n);
    PackUnpackLittle(Padded(s));
    PackLittlePrefix(UnpackLittle(Padded(s)), WordsFor(n));
  }

  /** What trimming removes is exactly the trailing zeros. */
  lemma {:induction false} TrimNulRemovesZeros(s: seq<byte>)
    ensures TrimNul(s) <= s
    ensures forall i :: |TrimNul(s)| <= i < |s| ==> s[i] == 0
    ensures TrimNul(s) != [] ==> TrimNul(s)[|TrimNul(s)| - 1] != 0
    decreases |s|
  {
    if s != [] && s[|s| - 1] == 0 {
      TrimNulRemovesZeros(s[..|s| - 1]);
      forall i | |TrimNul(s)| <= i < |s| ensures s[i] == 0 {
        assert i < |s| - 1 ==> s[..|s| - 1][i] == s[i];
      }
    }
  }
}

/** A value written and read back through a whole client, whatever happens on the way. */
module TypedRoundTrips {
  import opened Bytes
  import opened RegisterMap
  import opened TypedValues
  import opened Network
  import Mb = ModbusSession
  import Mc = MelsecSession
  import MelsecBounds
  import Replies

  function ModbusWrite(address: uint16, value: Value): Mb.Op {
    match value
    case Flag(on) => Mb.WriteCoil(address, on)
    case Word(w) => Mb.WriteRegisters(address, [w])
    case Double(v) => Mb.WriteRegisters(address, SplitBig(v))
    case Quad(q) => Mb.WriteRegisters(address, QuadBig(q))
    case Text(s) => Mb.WriteRegisters(address, UnpackBig(Padded(s)))
  }

  /** Mitsubishi writes a flag as a word and has no 64-bit numbers. */
  function MelsecWrite(address: uint16, value: Value): Mc.Op
    requires !value.Quad?
  {
    match value
    case Flag(on) => Mc.WriteWords(address, [if on then 1 else 0])
    case Word(w) => Mc.WriteWords(address, [w])
    case Double(v) => Mc.WriteWords(address, SplitLittle(v))
    case Text(s) => Mc.WriteWords(address, UnpackLittle(Padded(s)))
  }

  /** The words that a read of a value takes; of a text, those of its first n bytes. */
  function Count(value: Value, n: nat): uint16 {
    match value
    case Flag(_) => 1
    case Word(_) => 1
    case Double(_) => 2
    case Quad(_) => 4
    case Text(_) => Wrap16(WordsFor(n))
  }

  /** ReadString of n bytes on the Modbus client. */
  function ModbusText(cfg: Mb.Config, plan: Plan, st: Mb.State, a: uint16, n: nat): (Mb.State, Replies.Result<seq<byte>>)
    requires Mb.Attached(st)
  {
    var (st', words) := Mb.Run(cfg, plan, st, Mb.ReadRegisters(a, Wrap16(WordsFor(n))));
    (st', match words case Err(e) => Replies.Err(e) case Ok(ws) => Replies.Ok(Cut(PackBig(ws), n)))
  }

  /** ReadString of n bytes on the Mitsubishi client. */
  function MelsecText(cfg: Mc.Config, plan: Plan, st: Mc.State, a: uint16, n: nat): (Mc.State, Mc.Result<seq<byte>>)
    requires Mc.Attached(st)
  {
    var (st', words) := Mc.Run(cfg, plan, st, Mc.ReadWords(a, Wrap16(WordsFor(n))));
    (st', match words case Err(e) => Mc.Err(e) case Ok(ws) => Mc.Ok(Cut(PackLittle(ws), n)))
  }

  /** What is in a block of bytes after p has been written at its front. */
  function Overlay(p: seq<byte>, block: seq<byte>): (r: seq<byte>)
    ensures |r| == |block|
  {
    if |p| >= |block| then p[..|block|] else p + block[|p|..]
  }

  /** The first n bytes of a text written over a block; beyond its end the block shows, or a zero before it. */
  function Written(s: seq<byte>, block: seq<byte>, n: nat): seq<byte>
    requires n <= |block|
  {
    Overlay(Padded(s), block)[..n]
  }

  lemma WrittenBeginning(s: seq<byte>, block: seq<byte>, n: nat)
    requires n <= |block| && n <= |s|
    ensures Written(s, block, n) == s[..n]
  {
  }

  /** A block read after another one was written at its front. */
  lemma LoadOverlay(words: map<uint16, uint16>, a: uint16, values: seq<uint16>, m: nat)
    requires |values| <= 0x1_0000 && m <= 0x1_0000
    ensures Load(Store(words, a, values), a, m)
         == if m <= |values| then values[..m] else values + Load(words, a, m)[|values|..]
  {
    hide Store;
    var after := Store(words, a, values);
    var want := if m <= |values| then values[..m] else values + Load(words, a, m)[|values|..];
    forall i | 0 <= i < m ensures Load(after, a, m)[i] == want[i] {
      if i < |values| {
        StoredAt(words, a, values, i);
      } else {
        forall j | 0 <= j < |values| ensures At(a, j) != At(a, i) {
          AtInjective(a, j, i);
        }
        NotStoredAt(words, a, values, At(a, i));
      }
    }
  }

  lemma PackBigOverlay(values: seq<uint16>, block: seq<uint16>)
    ensures PackBig(if |block| <= |values| then values[..|block|] else values + block[|values|..])
         == Overlay(PackBig(values), PackBig(block))
  {
    hide PackBig;
    var all := if |block| <= |values| then values[..|block|] else values + block[|values|..];
    forall k | 0 <= k < 2 * |block| ensures PackBig(all)[k] == Overlay(PackBig(values), PackBig(block))[k] {
      var i := k / 2;
      assert k == 2 * i || k == 2 * i + 1;
      PackBigAt(all, i);
      PackBigAt(block, i);
      if i < |values| {
        PackBigAt(values, i);
      }
    }
  }

  lemma PackLittleOverlay(values: seq<uint16>, block: seq<uint16>)
    ensures PackLittle(if |block| <= |values| then values[..|block|] else values + block[|values|..])
         == Overlay(PackLittle(values), PackLittle(block))
  {
    hide PackLittle;
    var all := if |block| <= |values| then values[..|block|] else values + block[|values|..];
    forall k | 0 <= k < 2 * |block| ensures PackLittle(all)[k] == Overlay(PackLittle(values), PackLittle(block))[k] {
      var i := k / 2;
      assert k == 2 * i || k == 2 * i + 1;
      PackLittleAt(all, i);
      PackLittleAt(block, i);
      if i < |values| {
        PackLittleAt(values, i);
      }
    }
  }

  lemma CutsTo(raw: seq<byte>, n: nat)
    requires n <= |raw|
    ensures Cut(raw, n) == TrimNul(raw[..n])
  {
    assert |raw| == n ==> raw[..n] == raw;
  }

  /** A text stored in words and read back, in words of which it may fill only some. */
  lemma TextBackBig(words: map<uint16, uint16>, a: uint16, s: seq<byte>, n: nat)
    requires n <= 131070 && |s| <= 131070
    ensures Cut(PackBig(Load(Store(words, a, UnpackBig(Padded(s))), a, WordsFor(n))), n)
         == TrimNul(Written(s, PackBig(Load(words, a, WordsFor(n))), n))
  {
    hide PackBig, UnpackBig, Load, Store, Cut, TrimNul, Overlay;
    LoadOverlay(words, a, UnpackBig(Padded(s)), WordsFor(n));
    PackUnpackBig(Padded(s));
    PackBigOverlay(UnpackBig(Padded(s)), Load(words, a, WordsFor(n)));
    CutsTo(Overlay(Padded(s), PackBig(Load(words, a, WordsFor(n)))), n);
  }

  lemma TextBackLittle(words: map<uint16, uint16>, a: uint16, s: seq<byte>, n: nat)
    requires n <= 131070 && |s| <= 131070
    ensures Cut(PackLittle(Load(Store(words, a, UnpackLittle(Padded(s))), a, WordsFor(n))), n)
         == TrimNul(Written(s, PackLittle(Load(words, a, WordsFor(n))), n))
  {
    hide PackLittle, UnpackLittle, Load, Store, Cut, TrimNul, Overlay;
    LoadOverlay(words, a, UnpackLittle(Padded(s)), WordsFor(n));
    PackUnpackLittle(Padded(s));
    PackLittleOverlay(UnpackLittle(Padded(s)), Load(words, a, WordsFor(n)));
    CutsTo(Overlay(Padded(s), PackLittle(Load(words, a, WordsFor(n)))), n);
  }

  /**
   * Modbus: a number or a text that a client wrote with success is what its next successful read of the
   * same address gives, in every mode and under every behaviour of the environment.
   */
  lemma ModbusReadsBack(cfg: Mb.Config, plan: Plan, st: Mb.State, a: uint16, value: Value, n: nat)
    requires Clean(st.links, st.conn) && !value.Flag? && n <= 131070
    ensures var (st1, r1) := Mb.Run(cfg, plan, st, ModbusWrite(a, value));
            Clean(st1.links, st1.conn) &&
            var (_, r2) := Mb.Run(cfg, plan, st1, Mb.ReadRegisters(a, Count(value, n)));
            r1.Ok? && r2.Ok? ==>
              match value
              case Word(w) => r2.value == [w]
              case Double(v) => |r2.value| == 2 && JoinBig(r2.value) == v
              case Quad(q) => r2.value == QuadBig(q)
              case Text(s) =>
                Cut(PackBig(r2.value), n) == TrimNul(Written(s, PackBig(Load(st.memory.data.regs, a, WordsFor(n))), n))
  {
    hide Mb.Run, PackBig, UnpackBig, Load, Store, Cut, TrimNul, Written;
    var write := ModbusWrite(a, value);
    var values := write.values;
    Mb.OperationMeans(cfg, plan, st, write);
    var (st1, r1) := Mb.Run(cfg, plan, st, write);
    Mb.OperationMeans(cfg, plan, st1, Mb.ReadRegisters(a, Count(value, n)));
    if r1.Ok? {
      ModbusSizes(cfg, plan, st, a, values);
      LoadAfterStore(st.memory.data.regs, a, values);
      match value
      case Double(v) => JoinSplit(v);
      case Text(s) => TextBackBig(st.memory.data.regs, a, s, n);
      case _ =>
    }
  }

  lemma ModbusSizes(cfg: Mb.Config, plan: Plan, st: Mb.State, a: uint16, values: seq<uint16>)
    requires Mb.Attached(st)
    ensures Mb.Run(cfg, plan, st, Mb.WriteRegisters(a, values)).1.Ok? ==> |values| <= 123
  {
    hide Mb.Send;
  }

  /** Mitsubishi: the same with the little-endian word order; flags come back as words, too. */
  lemma MelsecReadsBack(cfg: Mc.Config, plan: Plan, st: Mc.State, a: uint16, value: Value, n: nat)
    requires Clean(st.links, st.conn) && !value.Quad?
    requires n <= 131070 && (value.Text? ==> |value.s| <= 131070)
    ensures var (st1, r1) := Mc.Run(cfg, plan, st, MelsecWrite(a, value));
            Clean(st1.links, st1.conn) &&
            var (_, r2) := Mc.Run(cfg, plan, st1, Mc.ReadWords(a, Count(value, n)));
            r1.Ok? && r2.Ok? ==>
              match value
              case Flag(on) => r2.value == [if on then 1 else 0]
              case Word(w) => r2.value == [w]
              case Double(v) => |r2.value| == 2 && JoinLittle(r2.value) == v
              case Text(s) =>
                Cut(PackLittle(r2.value), n) == TrimNul(Written(s, PackLittle(Load(st.memory.words, a, WordsFor(n))), n))
  {
    hide Mc.Run, PackLittle, UnpackLittle, Load, Store, Cut, TrimNul, Written;
    var write := MelsecWrite(a, value);
    var values := write.values;
    MelsecSizes(cfg, plan, st, a, values);
    if |values| <= 32761 {
      Mc.OperationMeans(cfg, plan, st, write);
    }
    var (st1, r1) := Mc.Run(cfg, plan, st, write);
    if r1.Ok? {
      Mc.OperationMeans(cfg, plan, st1, Mc.ReadWords(a, Count(value, n)));
      LoadAfterStore(st.memory.words, a, values);
      match value
      case Double(v) => JoinSplit(v);
      case Text(s) => TextBackLittle(st.memory.words, a, s, n);
      case _ =>
    }
  }

  lemma MelsecSizes(cfg: Mc.Config, plan: Plan, st: Mc.State, a: uint16, values: seq<uint16>)
    requires Clean(st.links, st.conn) && |values| < 0x1_0000
    ensures var (st', r) := Mc.Run(cfg, plan, st, Mc.WriteWords(a, values));
            |values| > 32761 ==> r.Err? && Clean(st'.links, st'.conn)
  {
    hide Mc.Send, Mc.RequestFrame;
    if |values| > 32761 {
      MelsecBounds.MisfitFails(cfg.route, plan, st, Mc.WriteWords(a, values), cfg.retries);
    }
  }
}
