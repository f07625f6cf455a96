/** ReadString beyond 131070 bytes: the number of words to read is cut to sixteen bits. */
module LongTexts {
  import opened Bytes
  import opened RegisterMap
  import opened Network
  import opened TypedValues
  import opened TypedRoundTrips
  import D = ModbusDevice
  import M = MockServer
  import Mb = ModbusSession
  import Mc = MelsecSession
  import MelsecBounds

  /** A read of n bytes asks for all the words that hold them exactly up to 131070 bytes. */
  lemma AsksForAllWords(n: nat)
    ensures Wrap16(WordsFor(n)) as int == WordsFor(n) <==> n <= 131070
  {
  }

  /** Words of which only the one behind the first c words is not zero. */
  function OneBehind(a: uint16, c: uint16): map<uint16, uint16> {
    map[At(a, c) := 0x4141]
  }

  /** What stands at position i and is not zero stays when trailing zeros are trimmed. */
  lemma TrimKeeps(s: seq<byte>, i: nat)
    requires i < |s| && s[i] != 0
    ensures |TrimNul(s)| > i
  {
    TrimNulRemovesZeros(s);
  }

  lemma WholeIsLonger(a: uint16, c: uint16, n: nat)
    requires c < 0x8000 && n > 131070
    ensures |Cut(PackBig(Load(OneBehind(a, c), a, WordsFor(n))), n)| > 2 * c
    ensures |Cut(PackLittle(Load(OneBehind(a, c), a, WordsFor(n))), n)| > 2 * c
  {
    hide PackBig, PackLittle, TrimNul;
    var words := Load(OneBehind(a, c), a, WordsFor(n));
    PackBigAt(words, c);
    PackLittleAt(words, c);
    CutsTo(PackBig(words), n);
    CutsTo(PackLittle(words), n);
    TrimKeeps(PackBig(words)[..n], 2 * c);
    TrimKeeps(PackLittle(words)[..n], 2 * c);
  }

  lemma CutIsShorter(raw: seq<byte>, n: nat)
    ensures |Cut(raw, n)| <= |raw|
  {
    TrimNulRemovesZeros(if |raw| > n then raw[..n] else raw);
  }

  const CALM: Fate := Fate(true, true, true, 0x2_0000, None)

  const NOTHING := Links(map[], 0, 0, [])

  /**
   * Modbus: a text that is read with success is the whole text, under every plan and for every content of the
   * device, exactly for lengths of up to 131070 bytes and for those whose wrapped count is over 127, which
   * never succeed.
   */
  lemma ModbusTextIsWhole(cfg: Mb.Config, a: uint16, n: nat)
    ensures (forall plan: Plan, st: Mb.State ::
              Clean(st.links, st.conn) ==>
                var r := ModbusText(cfg, plan, st, a, n).1;
                r.Ok? ==> r.value == Cut(PackBig(Load(st.memory.data.regs, a, WordsFor(n))), n))
        <==> n <= 131070 || Wrap16(WordsFor(n)) > 127
  {
    hide Mb.Run, PackBig, Cut, Load;
    var c := Wrap16(WordsFor(n));
    if n <= 131070 || c > 127 {
      forall plan: Plan, st: Mb.State | Clean(st.links, st.conn)
        ensures var r := ModbusText(cfg, plan, st, a, n).1;
                r.Ok? ==> r.value == Cut(PackBig(Load(st.memory.data.regs, a, WordsFor(n))), n)
      {
        Mb.OperationMeans(cfg, plan, st, Mb.ReadRegisters(a, c));
        Mb.OverlongReadFails(cfg, plan, st, a, c);
      }
    } else {
      var plan: Plan := _ => CALM;
      var st := Mb.State(None, 0, NOTHING, D.Memory(D.Data(OneBehind(a, c), map[]), None));
      assert Clean(st.links, st.conn);
      Mb.OverlongReadFails(cfg, plan, st, a, c);
      Mb.OperationMeans(cfg, plan, st, Mb.ReadRegisters(a, c));
      WholeIsLonger(a, c, n);
      CutIsShorter(PackBig(Load(st.memory.data.regs, a, c)), n);
      var r := ModbusText(cfg, plan, st, a, n).1;
      assert r.Ok? && |r.value| <= 2 * c;
    }
  }

  /** Mitsubishi: the same, with 32766 words as the most that can be read. */
  lemma MelsecTextIsWhole(cfg: Mc.Config, a: uint16, n: nat)
    ensures (forall plan: Plan, st: Mc.State ::
              Clean(st.links, st.conn) ==>
                var r := MelsecText(cfg, plan, st, a, n).1;
                r.Ok? ==> r.value == Cut(PackLittle(Load(st.memory.words, a, WordsFor(n))), n))
        <==> n <= 131070 || Wrap16(WordsFor(n)) > 32766
  {
    hide Mc.Run, PackLittle, Cut, Load;
    var c := Wrap16(WordsFor(n));
    if n <= 131070 || c > 32766 {
      forall plan: Plan, st: Mc.State | Clean(st.links, st.conn)
        ensures var r := MelsecText(cfg, plan, st, a, n).1;
                r.Ok? ==> r.value == Cut(PackLittle(Load(st.memory.words, a, WordsFor(n))), n)
      {
        Mc.OperationMeans(cfg, plan, st, Mc.ReadWords(a, c));
        MelsecBounds.SucceedsExactlyWhenItFits(cfg, plan, st, Mc.ReadWords(a, c));
      }
    } else {
      var plan: Plan := _ => CALM;
      var st := Mc.State(None, NOTHING, M.Memory(OneBehind(a, c), None));
      assert Clean(st.links, st.conn);
      MelsecBounds.SucceedsExactlyWhenItFits(cfg, plan, st, Mc.ReadWords(a, c));
      WholeIsLonger(a, c, n);
      CutIsShorter(PackLittle(Load(st.memory.words, a, c)), n);
      var r := MelsecText(cfg, plan, st, a, n).1;
      assert r.Ok? && |r.value| <= 2 * c;
    }
  }

  /** A Mitsubishi read of 131071 or 131072 bytes succeeds with an empty text and sends nothing at all. */
  lemma NoRequestForLongText(cfg: Mc.Config, plan: Plan, st: Mc.State, a: uint16, n: nat)
    requires Mc.Attached(st) && 131071 <= n <= 131072
    ensures MelsecText(cfg, plan, st, a, n) == (st, Mc.Ok([]))
  {
    assert Wrap16(WordsFor(n)) == 0;
    assert PackLittle([]) == [];
  }
}
