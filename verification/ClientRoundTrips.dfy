/** Values written through a client and read back through the same client. */
module ClientRoundTrips {
  import opened Bytes
  import opened Network
  import opened RegisterMap
  import opened TypedValues
  import TypedRoundTrips
  import Addresses
  import Mb = ModbusSession
  import Mc = MelsecSession
  import Mbs = ModbusClients
  import Mcs = MitsubishiClients
  import Replies
  import Abf = AllenBradleyFrames
  import Abt = AllenBradleyTags
  import Abs = AllenBradleySession
  import Abc = AllenBradleyClients

  method ModbusInt16(c: Mbs.ModbusClient, address: seq<byte>, v: int)
    returns (w: Replies.Result<seq<uint16>>, r: Replies.Result<int>)
    requires c.Valid() && Clean(c.View().links, c.View().conn) && -0x8000 <= v < 0x8000
    modifies c`conn, c`transID, c.wire, c.device
    ensures w.Ok? && r.Ok? ==> r.value == v
  {
    hide Mb.Run, Addresses.ParseModbusAddress;
    var a := Addresses.ParseModbusAddress(address);
    if a.Some? {
      TypedRoundTrips.ModbusReadsBack(c.Settings(), c.wire.plan, c.View(), a.value, Word(Pattern16(v)), 0);
    }
    w := c.Write(address, Word(Pattern16(v)));
    r := c.ReadInt16(address);
    SignedRoundTrip(v);
  }

  method ModbusInt32(c: Mbs.ModbusClient, address: seq<byte>, v: int)
    returns (w: Replies.Result<seq<uint16>>, r: Replies.Result<int>)
    requires c.Valid() && Clean(c.View().links, c.View().conn) && -0x8000_0000 <= v < 0x8000_0000
    modifies c`conn, c`transID, c.wire, c.device
    ensures w.Ok? && r.Ok? ==> r.value == v
  {
    hide Mb.Run, Addresses.ParseModbusAddress;
    var a := Addresses.ParseModbusAddress(address);
    if a.Some? {
      TypedRoundTrips.ModbusReadsBack(c.Settings(), c.wire.plan, c.View(), a.value, Double(Pattern32(v)), 0);
    }
    w := c.Write(address, Double(Pattern32(v)));
    r := c.ReadInt32(address);
    SignedRoundTrip(v);
  }

  /**
   * A beginning of the text, or a read of fixed length beyond its end, which shows what the device held there
   * before; in both cases up to NULs at the end.
   */
  method ModbusString(c: Mbs.ModbusClient, address: seq<byte>, s: seq<byte>, n: nat)
    returns (w: Replies.Result<seq<uint16>>, r: Replies.Result<seq<byte>>)
    requires c.Valid() && Clean(c.View().links, c.View().conn) && n <= 131070
    modifies c`conn, c`transID, c.wire, c.device
    ensures w.Ok? && r.Ok? ==>
      match Addresses.ParseModbusAddress(address)
      case None => false
      case Some(a) =>
        var before := PackBig(Load(old(c.View().memory.data.regs), a, WordsFor(n)));
        r.value == TrimNul(TypedRoundTrips.Written(s, before, n)) && (n <= |s| ==> r.value == TrimNul(s[..n]))
  {
    hide Mb.Run, Addresses.ParseModbusAddress, Cut, TrimNul, PackBig, UnpackBig, Load, TypedRoundTrips.Written;
    var a := Addresses.ParseModbusAddress(address);
    if a.Some? {
      TypedRoundTrips.ModbusReadsBack(c.Settings(), c.wire.plan, c.View(), a.value, Text(s), n);
      if n <= |s| {
        TypedRoundTrips.WrittenBeginning(s, PackBig(Load(c.View().memory.data.regs, a.value, WordsFor(n))), n);
      }
    }
    w := c.Write(address, Text(s));
    r := c.ReadString(address, n);
  }

  method MitsubishiInt16(c: Mcs.MitsubishiClient, address: seq<byte>, v: int)
    returns (w: Mc.Result<seq<uint16>>, r: Mc.Result<int>)
    requires c.Valid() && Clean(c.View().links, c.View().conn) && -0x8000 <= v < 0x8000
    modifies c`conn, c.wire, c.server
    ensures w.Ok? && r.Ok? ==> r.value == v
  {
    hide Mc.Run, Addresses.ParseDAddress;
    var a := Addresses.ParseDAddress(address);
    if a.Some? {
      TypedRoundTrips.MelsecReadsBack(c.Settings(), c.wire.plan, c.View(), a.value, Word(Pattern16(v)), 0);
    }
    w := c.Write(address, Word(Pattern16(v)));
    r := c.ReadInt16(address);
    SignedRoundTrip(v);
  }

  method MitsubishiInt32(c: Mcs.MitsubishiClient, address: seq<byte>, v: int)
    returns (w: Mc.Result<seq<uint16>>, r: Mc.Result<int>)
    requires c.Valid() && Clean(c.View().links, c.View().conn) && -0x8000_0000 <= v < 0x8000_0000
    modifies c`conn, c.wire, c.server
    ensures w.Ok? && r.Ok? ==> r.value == v
  {
    hide Mc.Run, Addresses.ParseDAddress;
    var a := Addresses.ParseDAddress(address);
    if a.Some? {
      TypedRoundTrips.MelsecReadsBack(c.Settings(), c.wire.plan, c.View(), a.value, Double(Pattern32(v)), 0);
    }
    w := c.Write(address, Double(Pattern32(v)));
    r := c.ReadInt32(address);
    SignedRoundTrip(v);
  }

  method MitsubishiString(c: Mcs.MitsubishiClient, address: seq<byte>, s: seq<byte>, n: nat)
    returns (w: Mc.Result<seq<uint16>>, r: Mc.Result<seq<byte>>)
    requires c.Valid() && Clean(c.View().links, c.View().conn) && n <= 131070 && |s| <= 131070
    modifies c`conn, c.wire, c.server
    ensures w.Ok? && r.Ok? ==>
      match Addresses.ParseDAddress(address)
      case None => false
      case Some(a) =>
        var before := PackLittle(Load(old(c.View().memory.words), a, WordsFor(n)));
        r.value == TrimNul(TypedRoundTrips.Written(s, before, n)) && (n <= |s| ==> r.value == TrimNul(s[..n]))
  {
    hide Mc.Run, Addresses.ParseDAddress, Cut, TrimNul, PackLittle, UnpackLittle, Load, TypedRoundTrips.Written;
    var a := Addresses.ParseDAddress(address);
    if a.Some? {
      TypedRoundTrips.MelsecReadsBack(c.Settings(), c.wire.plan, c.View(), a.value, Text(s), n);
      if n <= |s| {
        TypedRoundTrips.WrittenBeginning(s, PackLittle(Load(c.View().memory.words, a.value, WordsFor(n))), n);
      }
    }
    w := c.Write(address, Text(s));
    r := c.ReadString(address, n);
  }

  /** The bytes of a tag, when all replies came from the test server and none was asked to be malformed. */
  method AllenBradleyTag(
    c: Abc.AllenBradleyClient, ghost m: Abt.Memory, tag: seq<byte>, typeCode: uint16, data: seq<byte>, count: uint16,
    length: uint16)
    returns (ok: bool, r: Option<seq<byte>>)
    requires c.Valid() && Clean(c.View().links, c.View().conn) && Abt.Sane(c.wire.plan, m)
    requires !Abt.MemoryAfter(c.wire.plan, c.wire.links.log, m).malformed
    requires 1 <= |tag| <= 255 && 38 + |Padded(tag)| + |data| <= 65535
    modifies c`conn, c`session, c.wire
    ensures ok && r.Some? && Abt.Answers(c.wire.plan, c.peer, c.wire.links.log, m) ==>
              r.value == Abt.Fitted(data, length)
  {
    hide Abs.Send, Abt.MemoryAfter, Abt.Answers, Abf.WriteCommand, Abf.ReadCommand, Abf.RawData;
    Abt.TagComesBack(c.wire.plan, c.peer, c.View(), m, c.slot, tag, typeCode, data, count, length,
                     if c.maxRetries < 0 then 0 else c.maxRetries);
    ok := c.WriteRaw(tag, typeCode, data, count);
    r := c.ReadRaw(tag, length);
  }
}
