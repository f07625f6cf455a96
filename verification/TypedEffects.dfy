/** What typed reads and writes do to the registers at the other end, byte by byte. */
module TypedEffects {
  import opened Bytes
  import opened RegisterMap
  import opened Network
  import opened TypedValues
  import TypedRoundTrips
  import Addresses
  import Device = ModbusDevice
  import Mb = ModbusSession
  import Mc = MelsecSession
  import Mbs = ModbusClients
  import Mcs = MitsubishiClients
  import Replies

  // ----- values as bytes

  /** The bytes of a value, high end first; a text is filled up to an even number. */
  function HighFirst(value: Value): (r: seq<byte>)
    requires !value.Flag?
    ensures |r| % 2 == 0
  {
    match value
    case Word(w) => [w / 256, w % 256]
    case Double(v) => [v / 0x100_0000, v / 0x1_0000 % 256, v / 256 % 256, v % 256]
    case Quad(q) =>
      var h, l := q / 0x1_0000_0000, q % 0x1_0000_0000;
      [h / 0x100_0000, h / 0x1_0000 % 256, h / 256 % 256, h % 256,
       l / 0x100_0000, l / 0x1_0000 % 256, l / 256 % 256, l % 256]
    case Text(s) => if |s| % 2 == 1 then s + [0] else s
  }

  /** The bytes of a value, low end first; true is 1 and false is 0. */
  function LowFirst(value: Value): (r: seq<byte>)
    requires !value.Quad?
    ensures |r| % 2 == 0
  {
    match value
    case Flag(on) => [if on then 1 else 0, 0]
    case Word(w) => [w % 256, w / 256]
    case Double(v) => [v % 256, v / 256 % 256, v / 0x1_0000 % 256, v / 0x100_0000]
    case Text(s) => if |s| % 2 == 1 then s + [0] else s
  }

  /** `after` is `before` with two bytes to a register from a on, the first one being the higher half. */
  ghost predicate PutHighFirst(before: map<uint16, uint16>, after: map<uint16, uint16>, a: uint16, bytes: seq<byte>) {
    forall r: uint16 ::
      var k := (r as int - a as int) % 0x1_0000;
      if 2 * k + 1 < |bytes| then r in after && after[r] as int == 256 * bytes[2 * k] as int + bytes[2 * k + 1] as int
      else (r in after <==> r in before) && (r in before ==> after[r] == before[r])
  }

  ghost predicate PutLowFirst(before: map<uint16, uint16>, after: map<uint16, uint16>, a: uint16, bytes: seq<byte>) {
    forall r: uint16 ::
      var k := (r as int - a as int) % 0x1_0000;
      if 2 * k + 1 < |bytes| then r in after && after[r] as int == bytes[2 * k] as int + 256 * bytes[2 * k + 1] as int
      else (r in after <==> r in before) && (r in before ==> after[r] == before[r])
  }

  lemma WordHighFirst(bytes: seq<byte>, k: nat)
    requires 2 * k + 1 < |bytes|
    ensures UnpackBig(bytes)[k] as int == 256 * bytes[2 * k] as int + bytes[2 * k + 1] as int
  {
    hide UnpackBig;
    UnpackBigAt(bytes, k);
  }

  lemma StorePutsHighFirst(words: map<uint16, uint16>, a: uint16, bytes: seq<byte>)
    requires |bytes| % 2 == 0 && |bytes| <= 0x2_0000
    ensures PutHighFirst(words, Store(words, a, UnpackBig(bytes)), a, bytes)
  {
    hide Store, UnpackBig;
    StoreHolds(words, a, UnpackBig(bytes));
    forall k: nat | 2 * k + 1 < |bytes| ensures UnpackBig(bytes)[k] as int == 256 * bytes[2 * k] as int + bytes[2 * k + 1] as int {
      WordHighFirst(bytes, k);
    }
  }

  lemma WordLowFirst(bytes: seq<byte>, k: nat)
    requires 2 * k + 1 < |bytes|
    ensures UnpackLittle(bytes)[k] as int == bytes[2 * k] as int + 256 * bytes[2 * k + 1] as int
  {
    hide UnpackLittle;
    UnpackLittleAt(bytes, k);
  }

  lemma StorePutsLowFirst(words: map<uint16, uint16>, a: uint16, bytes: seq<byte>)
    requires |bytes| % 2 == 0 && |bytes| <= 0x2_0000
    ensures PutLowFirst(words, Store(words, a, UnpackLittle(bytes)), a, bytes)
  {
    hide Store, UnpackLittle;
    StoreHolds(words, a, UnpackLittle(bytes));
    forall k: nat | 2 * k + 1 < |bytes| ensures UnpackLittle(bytes)[k] as int == bytes[2 * k] as int + 256 * bytes[2 * k + 1] as int {
      WordLowFirst(bytes, k);
    }
  }

  lemma WordsHighFirst(a: uint16, value: Value)
    requires !value.Flag?
    ensures TypedRoundTrips.ModbusWrite(a, value) == Mb.WriteRegisters(a, UnpackBig(HighFirst(value)))
  {
    hide PackBig, UnpackBig;
    match value
    case Word(w) =>
      PackBigAt([w], 0);
      assert PackBig([w]) == HighFirst(value);
      UnpackPackBig([w]);
    case Double(v) =>
      DoubleBytes(v);
      UnpackPackBig(SplitBig(v));
    case Quad(q) =>
      QuadBytes(q);
      UnpackPackBig(QuadBig(q));
    case Text(_) =>
  }

  lemma WordsLowFirst(a: uint16, value: Value)
    requires !value.Quad?
    ensures TypedRoundTrips.MelsecWrite(a, value) == Mc.WriteWords(a, UnpackLittle(LowFirst(value)))
  {
    hide PackLittle, UnpackLittle;
    match value
    case Flag(on) =>
      var w: uint16 := if on then 1 else 0;
      PackLittleAt([w], 0);
      assert PackLittle([w]) == LowFirst(value);
      UnpackPackLittle([w]);
    case Word(w) =>
      PackLittleAt([w], 0);
      assert PackLittle([w]) == LowFirst(value);
      UnpackPackLittle([w]);
    case Double(v) =>
      DoubleBytes(v);
      UnpackPackLittle(SplitLittle(v));
    case Text(_) =>
  }

  // ----- writes

  /** A flag switches one coil; everything else goes to registers, high byte first, and leaves the coils alone. */
  ghost predicate ModbusEffect(before: Device.Data, after: Device.Data, a: uint16, value: Value) {
    match value
    case Flag(on) => after == before.(coils := before.coils[a := on])
    case _ => after.coils == before.coils && PutHighFirst(before.regs, after.regs, a, HighFirst(value))
  }

  lemma ModbusWriteMeans(cfg: Mb.Config, plan: Plan, st: Mb.State, a: uint16, value: Value)
    requires Clean(st.links, st.conn)
    ensures var (st', w) := Mb.Run(cfg, plan, st, TypedRoundTrips.ModbusWrite(a, value));
            && (w.Ok? ==> ModbusEffect(st.memory.data, st'.memory.data, a, value))
            && (st'.memory.data == st.memory.data || ModbusEffect(st.memory.data, st'.memory.data, a, value))
  {
    hide Mb.Run, Store, UnpackBig, PutHighFirst;
    var op := TypedRoundTrips.ModbusWrite(a, value);
    Mb.OperationMeans(cfg, plan, st, op);
    var (_, w) := Mb.Run(cfg, plan, st, op);
    assert w.Ok? || w.Err?;
    if !value.Flag? {
      WordsHighFirst(a, value);
      if |HighFirst(value)| <= 0x2_0000 {
        StorePutsHighFirst(st.memory.data.regs, a, HighFirst(value));
      } else {
        TooLong(cfg, plan, st, a, UnpackBig(HighFirst(value)));
      }
    }
  }

  lemma TooLong(cfg: Mb.Config, plan: Plan, st: Mb.State, a: uint16, values: seq<uint16>)
    requires Mb.Attached(st) && |values| > 123
    ensures Mb.Run(cfg, plan, st, Mb.WriteRegisters(a, values)) == (st, Replies.Err(Replies.TooManyRegisters))
  {
  }

  /** What a write does to the device: all of this when it succeeds, and all of it or nothing when it fails. */
  method ModbusWrite(c: Mbs.ModbusClient, address: seq<byte>, value: Value) returns (w: Replies.Result<seq<uint16>>)
    requires c.Valid() && Clean(c.View().links, c.View().conn)
    modifies c`conn, c`transID, c.wire, c.device
    ensures match Addresses.ParseModbusAddress(address)
            case None => w == Replies.Err(Replies.InvalidAddress) && c.View() == old(c.View())
            case Some(a) =>
              var before, after := old(c.View().memory.data), c.View().memory.data;
              && (w.Ok? ==> ModbusEffect(before, after, a, value))
              && (after == before || ModbusEffect(before, after, a, value))
  {
    hide Mb.Run, Addresses.ParseModbusAddress, ModbusEffect;
    var a := Addresses.ParseModbusAddress(address);
    if a.Some? {
      ModbusWriteMeans(c.Settings(), c.wire.plan, c.View(), a.value, value);
    }
    w := c.Write(address, value);
  }

  lemma MelsecWriteMeans(cfg: Mc.Config, plan: Plan, st: Mc.State, a: uint16, value: Value)
    requires Clean(st.links, st.conn) && !value.Quad? && |LowFirst(value)| <= 65522
    ensures var (st', w) := Mc.Run(cfg, plan, st, TypedRoundTrips.MelsecWrite(a, value));
            && (w.Ok? ==> PutLowFirst(st.memory.words, st'.memory.words, a, LowFirst(value)))
            && (st'.memory.words == st.memory.words
                || PutLowFirst(st.memory.words, st'.memory.words, a, LowFirst(value)))
  {
    hide Mc.Run, Store, UnpackLittle, PutLowFirst;
    WordsLowFirst(a, value);
    Mc.OperationMeans(cfg, plan, st, TypedRoundTrips.MelsecWrite(a, value));
    var (_, w) := Mc.Run(cfg, plan, st, TypedRoundTrips.MelsecWrite(a, value));
    assert w.Ok? || w.Err?;
    StorePutsLowFirst(st.memory.words, a, LowFirst(value));
  }

  /** Beyond 65522 bytes a text is refused and may do other damage; MelsecBounds says which. */
  method MitsubishiWrite(c: Mcs.MitsubishiClient, address: seq<byte>, value: Value)
    returns (w: Mc.Result<seq<uint16>>)
    requires c.Valid() && Clean(c.View().links, c.View().conn) && (value.Text? ==> |value.s| <= 65522)
    modifies c`conn, c.wire, c.server
    ensures match Addresses.ParseDAddress(address)
            case None => w == Mc.Err(Mc.InvalidAddress) && c.View() == old(c.View())
            case Some(a) =>
              if value.Quad? then w == Mc.Err(Mc.UnsupportedType) && c.View() == old(c.View())
              else
                var before, after := old(c.View().memory.words), c.View().memory.words;
                && (w.Ok? ==> PutLowFirst(before, after, a, LowFirst(value)))
                && (after == before || PutLowFirst(before, after, a, LowFirst(value)))
  {
    hide Mc.Run, Addresses.ParseDAddress, PutLowFirst;
    var a := Addresses.ParseDAddress(address);
    if a.Some? && !value.Quad? {
      MelsecWriteMeans(c.Settings(), c.wire.plan, c.View(), a.value, value);
    }
    w := c.Write(address, value);
  }

  // ----- reads

  /** Register a + i, counted modulo 65536; 0 if it was never written. */
  function Register(words: map<uint16, uint16>, a: uint16, i: nat): uint16 {
    var r: uint16 := (a as int + i) % 0x1_0000;
    if r in words then words[r] else 0
  }

  /** n bytes from register a on, high or low half of each register first. */
  function BytesFrom(words: map<uint16, uint16>, a: uint16, n: nat, highFirst: bool): seq<byte> {
    seq(n, k requires 0 <= k < n =>
      if (k % 2 == 0) == highFirst then Register(words, a, k / 2) / 256 else Register(words, a, k / 2) % 256)
  }

  /** r is s without the zeros at its end. */
  predicate WithoutNuls(r: seq<byte>, s: seq<byte>) {
    && r <= s
    && (forall i :: |r| <= i < |s| ==> s[i] == 0)
    && (r != [] ==> r[|r| - 1] != 0)
  }

  lemma CutShows(raw: seq<byte>, n: nat, want: seq<byte>)
    requires |want| == n <= |raw| && raw[..n] == want
    ensures WithoutNuls(Cut(raw, n), want)
  {
    hide TrimNul;
    assert |raw| == n ==> raw == want;
    TrimNulRemovesZeros(want);
  }

  lemma LoadedHighFirst(words: map<uint16, uint16>, a: uint16, n: nat)
    ensures n <= |PackBig(Load(words, a, WordsFor(n)))|
    ensures PackBig(Load(words, a, WordsFor(n)))[..n] == BytesFrom(words, a, n, true)
  {
    hide PackBig, Load;
    var ws := Load(words, a, WordsFor(n));
    forall k | 0 <= k < n ensures PackBig(ws)[k] == BytesFrom(words, a, n, true)[k] {
      PackBigAt(ws, k / 2);
      LoadShows(words, a, WordsFor(n), k / 2);
      assert k == 2 * (k / 2) || k == 2 * (k / 2) + 1;
    }
  }

  lemma LoadedLowFirst(words: map<uint16, uint16>, a: uint16, n: nat)
    ensures n <= |PackLittle(Load(words, a, WordsFor(n)))|
    ensures PackLittle(Load(words, a, WordsFor(n)))[..n] == BytesFrom(words, a, n, false)
  {
    hide PackLittle, Load;
    var ws := Load(words, a, WordsFor(n));
    forall k | 0 <= k < n ensures PackLittle(ws)[k] == BytesFrom(words, a, n, false)[k] {
      PackLittleAt(ws, k / 2);
      LoadShows(words, a, WordsFor(n), k / 2);
      assert k == 2 * (k / 2) || k == 2 * (k / 2) + 1;
    }
  }

  /** A read with any outcome leaves the registers alone; a successful one has seen them. */
  lemma ModbusReadMeans(cfg: Mb.Config, plan: Plan, st: Mb.State, a: uint16, n: uint16)
    requires Clean(st.links, st.conn)
    ensures var (st', r) := Mb.Run(cfg, plan, st, Mb.ReadRegisters(a, n));
            st'.memory.data == st.memory.data && (r.Ok? ==> r.value == Load(st.memory.data.regs, a, n))
  {
    hide Mb.Run, Load;
    Mb.OperationMeans(cfg, plan, st, Mb.ReadRegisters(a, n));
    var (_, r) := Mb.Run(cfg, plan, st, Mb.ReadRegisters(a, n));
    assert r.Ok? || r.Err?;
  }

  lemma MelsecReadMeans(cfg: Mc.Config, plan: Plan, st: Mc.State, a: uint16, n: uint16)
    requires Clean(st.links, st.conn)
    ensures var (st', r) := Mc.Run(cfg, plan, st, Mc.ReadWords(a, n));
            st'.memory.words == st.memory.words && (r.Ok? ==> r.value == Load(st.memory.words, a, n))
  {
    hide Mc.Run, Load;
    Mc.OperationMeans(cfg, plan, st, Mc.ReadWords(a, n));
    var (_, r) := Mc.Run(cfg, plan, st, Mc.ReadWords(a, n));
    assert r.Ok? || r.Err?;
  }

  /** The number is in range and congruent to the register. */
  predicate Reads16(v: int, words: map<uint16, uint16>, a: uint16) {
    -0x8000 <= v < 0x8000 && (v - Register(words, a, 0) as int) % 0x1_0000 == 0
  }

  predicate Reads32(v: int, high: uint16, low: uint16) {
    -0x8000_0000 <= v < 0x8000_0000 && (v - (0x1_0000 * high as int + low as int)) % 0x1_0000_0000 == 0
  }

  method ModbusReadInt16(c: Mbs.ModbusClient, address: seq<byte>) returns (r: Replies.Result<int>)
    requires c.Valid() && Clean(c.View().links, c.View().conn)
    modifies c`conn, c`transID, c.wire, c.device
    ensures c.View().memory.data == old(c.View().memory.data)
    ensures match Addresses.ParseModbusAddress(address)
            case None => r == Replies.Err(Replies.InvalidAddress)
            case Some(a) => r.Ok? ==> Reads16(r.value, c.View().memory.data.regs, a)
  {
    hide Mb.Run, Addresses.ParseModbusAddress, Load;
    var a := Addresses.ParseModbusAddress(address);
    if a.Some? {
      ModbusReadMeans(c.Settings(), c.wire.plan, c.View(), a.value, 1);
      LoadShows(c.View().memory.data.regs, a.value, 1, 0);
      SignedMeans(Load(c.View().memory.data.regs, a.value, 1)[0], 0);
    }
    r := c.ReadInt16(address);
  }

  method ModbusReadInt32(c: Mbs.ModbusClient, address: seq<byte>) returns (r: Replies.Result<int>)
    requires c.Valid() && Clean(c.View().links, c.View().conn)
    modifies c`conn, c`transID, c.wire, c.device
    ensures c.View().memory.data == old(c.View().memory.data)
    ensures match Addresses.ParseModbusAddress(address)
            case None => r == Replies.Err(Replies.InvalidAddress)
            case Some(a) =>
              var regs := c.View().memory.data.regs;
              r.Ok? ==> Reads32(r.value, Register(regs, a, 0), Register(regs, a, 1))
  {
    hide Mb.Run, Addresses.ParseModbusAddress, Load, Signed32;
    var a := Addresses.ParseModbusAddress(address);
    if a.Some? {
      var regs := c.View().memory.data.regs;
      ModbusReadMeans(c.Settings(), c.wire.plan, c.View(), a.value, 2);
      LoadShows(regs, a.value, 2, 0);
      LoadShows(regs, a.value, 2, 1);
      SignedMeans(0, JoinBig(Load(regs, a.value, 2)));
    }
    r := c.ReadInt32(address);
  }

  method ModbusReadString(c: Mbs.ModbusClient, address: seq<byte>, n: nat) returns (r: Replies.Result<seq<byte>>)
    requires c.Valid() && Clean(c.View().links, c.View().conn) && n <= 131070
    modifies c`conn, c`transID, c.wire, c.device
    ensures c.View().memory.data == old(c.View().memory.data)
    ensures match Addresses.ParseModbusAddress(address)
            case None => r.Err?
            case Some(a) => r.Ok? ==> WithoutNuls(r.value, BytesFrom(c.View().memory.data.regs, a, n, true))
  {
    hide Mb.Run, Addresses.ParseModbusAddress, Load, PackBig, Cut, BytesFrom, WithoutNuls;
    var a := Addresses.ParseModbusAddress(address);
    if a.Some? {
      var regs := c.View().memory.data.regs;
      ModbusReadMeans(c.Settings(), c.wire.plan, c.View(), a.value, Wrap16(WordsFor(n)));
      LoadedHighFirst(regs, a.value, n);
      CutShows(PackBig(Load(regs, a.value, WordsFor(n))), n, BytesFrom(regs, a.value, n, true));
    }
    r := c.ReadString(address, n);
  }

  method MitsubishiReadInt16(c: Mcs.MitsubishiClient, address: seq<byte>) returns (r: Mc.Result<int>)
    requires c.Valid() && Clean(c.View().links, c.View().conn)
    modifies c`conn, c.wire, c.server
    ensures c.View().memory.words == old(c.View().memory.words)
    ensures match Addresses.ParseDAddress(address)
            case None => r == Mc.Err(Mc.InvalidAddress)
            case Some(a) => r.Ok? ==> Reads16(r.value, c.View().memory.words, a)
  {
    hide Mc.Run, Addresses.ParseDAddress, Load;
    var a := Addresses.ParseDAddress(address);
    if a.Some? {
      MelsecReadMeans(c.Settings(), c.wire.plan, c.View(), a.value, 1);
      LoadShows(c.View().memory.words, a.value, 1, 0);
      SignedMeans(Load(c.View().memory.words, a.value, 1)[0], 0);
    }
    r := c.ReadInt16(address);
  }

  /** The low word comes first. */
  method MitsubishiReadInt32(c: Mcs.MitsubishiClient, address: seq<byte>) returns (r: Mc.Result<int>)
    requires c.Valid() && Clean(c.View().links, c.View().conn)
    modifies c`conn, c.wire, c.server
    ensures c.View().memory.words == old(c.View().memory.words)
    ensures match Addresses.ParseDAddress(address)
            case None => r == Mc.Err(Mc.InvalidAddress)
            case Some(a) =>
              var words := c.View().memory.words;
              r.Ok? ==> Reads32(r.value, Register(words, a, 1), Register(words, a, 0))
  {
    hide Mc.Run, Addresses.ParseDAddress, Load, Signed32;
    var a := Addresses.ParseDAddress(address);
    if a.Some? {
      var words := c.View().memory.words;
      MelsecReadMeans(c.Settings(), c.wire.plan, c.View(), a.value, 2);
      LoadShows(words, a.value, 2, 0);
      LoadShows(words, a.value, 2, 1);
      SignedMeans(0, JoinLittle(Load(words, a.value, 2)));
    }
    r := c.ReadInt32(address);
  }

  method MitsubishiReadString(c: Mcs.MitsubishiClient, address: seq<byte>, n: nat) returns (r: Mc.Result<seq<byte>>)
    requires c.Valid() && Clean(c.View().links, c.View().conn) && n <= 131070
    modifies c`conn, c.wire, c.server
    ensures c.View().memory.words == old(c.View().memory.words)
    ensures match Addresses.ParseDAddress(address)
            case None => r.Err?
            case Some(a) => r.Ok? ==> WithoutNuls(r.value, BytesFrom(c.View().memory.words, a, n, false))
  {
    hide Mc.Run, Addresses.ParseDAddress, Load, PackLittle, Cut, BytesFrom, WithoutNuls;
    var a := Addresses.ParseDAddress(address);
    if a.Some? {
      var words := c.View().memory.words;
      MelsecReadMeans(c.Settings(), c.wire.plan, c.View(), a.value, Wrap16(WordsFor(n)));
      LoadedLowFirst(words, a.value, n);
      CutShows(PackLittle(Load(words, a.value, WordsFor(n))), n, BytesFrom(words, a.value, n, false));
    }
    r := c.ReadString(address, n);
  }
}
