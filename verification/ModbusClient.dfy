/** modbusClient as an object, its methods proved against the functions of ModbusSession. */
module ModbusClients {
  import opened Bytes
  import opened Replies
  import opened Network
  import opened ModbusDevice
  import opened ModbusSession
  import Crc
  import TcpFraming
  import RtuFraming
  import AsciiFraming
  import opened TypedValues
  import opened TypedRoundTrips
  import opened Addresses

  class ModbusClient {
    const mode: Mode
    const wire: Wire
    const device: Device
    var unitID: byte
    var maxRetries: int
    var transID: uint16
    var conn: Option<nat>
    var autoClose: bool

    constructor (wire: Wire, device: Device)
      ensures this.wire == wire && this.device == device && mode == device.mode
      ensures unitID == 1 && maxRetries == 2 && transID == 0 && conn == None && !autoClose
    {
      mode := device.mode;
      this.wire, this.device := wire, device;
      unitID, maxRetries, transID, conn, autoClose := 1, 2, 0, None, false;
    }

    function Settings(): Config
      reads this
    {
      Config(mode, unitID, if maxRetries < 0 then 0 else maxRetries, autoClose)
    }

    function View(): State
      reads this, wire, device
    {
      State(conn, transID, wire.links, device.View())
    }

    predicate Valid()
      reads this, wire, device
    {
      mode == device.mode && Attached(View())
    }

    method SetUnitID(id: byte)
      modifies this`unitID
      ensures unitID == (if id == 0 then 1 else id)
    {
      unitID := if id == 0 then 1 else id;
    }

    method SetRetryPolicy(retries: int)
      modifies this`maxRetries
      ensures maxRetries == (if retries < 0 then 0 else retries)
    {
      maxRetries := if retries < 0 then 0 else retries;
    }

    /** Whatever was open before is closed; afterwards there is one clean connection, or none. */
    method Open() returns (ok: bool)
      requires Valid()
      modifies this`conn, wire
      ensures Valid() && ok == conn.Some?
      ensures View() == Ensured(wire.plan, Disconnected(old(View())))
      ensures conn == if wire.plan(old(wire.links.clock)).up then Some(old(wire.links.dialed)) else None
    {
      CloseLocked();
      ok := EnsureConnLocked();
    }

    method Close()
      requires Valid()
      modifies this`conn, wire
      ensures Valid() && View() == Disconnected(old(View()))
    {
      CloseLocked();
    }

    method EnsureConnLocked() returns (ok: bool)
      requires Valid()
      modifies this`conn, wire
      ensures Valid() && ok == conn.Some? && View() == Ensured(wire.plan, old(View()))
    {
      if conn.None? {
        conn := wire.Dial();
      }
      ok := conn.Some?;
    }

    method CloseLocked()
      requires Valid()
      modifies this`conn, wire
      ensures Valid() && View() == Disconnected(old(View()))
    {
      if conn.Some? {
        wire.Close(conn.value);
        conn := None;
      }
    }

    /** conn.Write, with the peer at the other end of the connection. */
    method Transmit(h: nat, frame: seq<byte>) returns (sent: bool)
      requires Valid() && conn == Some(h)
      modifies wire, device
      ensures Valid() && sent == wire.plan(old(wire.links).clock).sent
      ensures View() == AfterTransmit(mode, wire.plan, old(View()), h, frame)
    {
      var f := wire.plan(wire.links.clock);
      if f.inject.Some? {
        device.SetExceptionNext(f.inject.value / 256, f.inject.value % 256);
      }
      var reply := [];
      if f.served {
        reply := device.Handle(frame);
      }
      sent := wire.Write(h, frame, reply);
    }

    method SendTcpFrameLocked(h: nat, pdu: seq<byte>) returns (r: Result<seq<byte>>)
      requires Valid() && conn == Some(h) && mode.Tcp?
      modifies this`transID, wire, device
      ensures Valid()
      ensures (View(), r) == Exchange(Settings(), wire.plan, old(View()).(tid := NextTid(mode, old(transID))), h, pdu)
    {
      transID := Wrap16(transID + 1);
      var sent := Transmit(h, Big(transID) + [0, 0] + Big(Wrap16(|pdu| + 1)) + [unitID] + pdu);
      r := Err(Io);
      if sent {
        r := ReadTcpResponse(h);
      }
    }

    method ReadTcpResponse(h: nat) returns (r: Result<seq<byte>>)
      requires h in wire.links.open
      modifies wire
      ensures r == TcpFraming.Decode(old(wire.links.open[h]), transID, unitID).0
      ensures wire.links ==
        Unread(old(wire.links), h, TcpFraming.Decode(old(wire.links.open[h]), transID, unitID).1)
    {
      ghost var l, s := wire.links, wire.links.open[h];
      var head := new byte[7];
      var n, ok := wire.ReadFull(h, head);
      if !ok {
        return Err(Io);
      }
      if FromBig(head[0..2]) != transID {
        return Err(TransactionMismatch);
      }
      if head[6] != unitID {
        return Err(UnitMismatch);
      }
      var length := FromBig(head[4..6]) as int - 1;
      if length <= 0 {
        return Err(BadLength);
      }
      var resp := new byte[length];
      UnreadTwice(l, h, s[7..], Rest(s[7..], length));
      n, ok := wire.ReadFull(h, resp);
      if !ok {
        return Err(Io);
      }
      if resp.Length >= 2 && resp[0] >= 0x80 {
        return Err(Exception(resp[1]));
      }
      return Ok(resp[..]);
    }

    method SendRtuFrameLocked(h: nat, pdu: seq<byte>) returns (r: Result<seq<byte>>)
      requires Valid() && conn == Some(h) && (mode.Rtu? || mode.RtuOverTcp?)
      modifies wire, device
      ensures Valid() && (View(), r) == Exchange(Settings(), wire.plan, old(View()), h, pdu)
    {
      hide RtuFraming.Check, RtuFraming.ReadReply, Crc.Crc16, Serve;
      var frame: seq<byte> := [unitID] + pdu;
      var crc := Crc.ComputeCrc16(frame);
      frame := frame + Little(crc);
      var sent := Transmit(h, frame);
      if !sent {
        return Err(Io);
      }
      r := ReadRtuResponse(h);
      if r.Ok? {
        r := CheckRtu(r.value);
      }
    }

    method CheckRtu(response: seq<byte>) returns (r: Result<seq<byte>>)
      ensures r == RtuFraming.Check(response, unitID)
    {
      if |response| < 4 {
        return Err(BadLength);
      }
      if response[0] != unitID {
        return Err(UnitMismatch);
      }
      var gotCrc := FromLittle(response[|response| - 2..]);
      var crc := Crc.ComputeCrc16(response[..|response| - 2]);
      if crc != gotCrc {
        return Err(BadChecksum);
      }
      var resp := response[1..|response| - 2];
      if |resp| >= 2 && resp[0] >= 0x80 {
        return Err(Exception(resp[1]));
      }
      return Ok(resp);
    }

    method ReadRtuResponse(h: nat) returns (r: Result<seq<byte>>)
      requires h in wire.links.open
      modifies wire
      ensures r == RtuFraming.ReadReply(old(wire.links.open[h])).0
      ensures wire.links == Unread(old(wire.links), h, RtuFraming.ReadReply(old(wire.links.open[h])).1)
    {
      ghost var l, s := wire.links, wire.links.open[h];
      var first := new byte[2];
      var n, ok := wire.ReadFull(h, first);
      if !ok {
        return Err(Io);
      }
      assert first[0] == s[0] && first[1] == s[1];
      var response: seq<byte>;
      if first[1] >= 0x80 {
        r := ReadRest(h, first[..], 3, l, s);
      } else if first[1] in {0x01, 0x02, 0x03, 0x04} {
        var count := new byte[1];
        n, ok := wire.ReadFull(h, count);
        UnreadTwice(l, h, s[2..], Rest(s[2..], 1));
        if !ok {
          return Err(Io);
        }
        assert s[2..][..1] == [s[2]] && s[2..][1..] == s[3..];
        r := ReadRest(h, first[..] + [count[0]], count[0] as int + 2, l, s);
      } else if first[1] in {0x05, 0x06, 0x0F, 0x10} {
        r := ReadRest(h, first[..], 6, l, s);
      } else {
        r := Err(UnsupportedFunction);
      }
    }

    /** The remaining bytes of a reply of which the head has been read. */
    method ReadRest(h: nat, head: seq<byte>, more: nat, ghost l: Links, ghost s: seq<byte>)
      returns (r: Result<seq<byte>>)
      requires h in wire.links.open && head <= s && wire.links == Unread(l, h, s[|head|..])
      modifies wire
      ensures r == RtuFraming.Fixed(s, |head| + more).0
      ensures wire.links == Unread(l, h, RtuFraming.Fixed(s, |head| + more).1)
    {
      var rest := new byte[more];
      ghost var tail := s[|head|..];
      assert s == head + tail;
      UnreadTwice(l, h, tail, Rest(tail, more));
      var n, ok := wire.ReadFull(h, rest);
      assert |tail| >= more ==> head + tail[..more] == s[..|head| + more] && tail[more..] == s[|head| + more..];
      r := if ok then Ok(head + rest[..]) else Err(Io);
    }

    method SendAsciiFrameLocked(h: nat, pdu: seq<byte>) returns (r: Result<seq<byte>>)
      requires Valid() && conn == Some(h) && mode.Ascii?
      modifies wire, device
      ensures Valid() && (View(), r) == Exchange(Settings(), wire.plan, old(View()), h, pdu)
    {
      hide AsciiFraming.Check, AsciiFraming.ReadLine, AsciiFraming.HexEncode, AsciiFraming.Lrc, Serve;
      var lrc := AsciiFraming.ComputeLrc([unitID] + pdu);
      var raw := [unitID] + pdu + [lrc];
      var sent := Transmit(h, AsciiFraming.Line(AsciiFraming.HexEncode(raw, true)));
      if !sent {
        return Err(Io);
      }
      r := ReadAsciiResponseLine(h);
      if r.Ok? {
        r := CheckAscii(r.value);
      }
    }

    method CheckAscii(line: seq<byte>) returns (r: Result<seq<byte>>)
      ensures r == AsciiFraming.Check(line, unitID)
    {
      hide AsciiFraming.WhiteSpace.Trim, AsciiFraming.HexDecode, AsciiFraming.Lrc;
      if |line| < 1 || line[0] != AsciiFraming.COLON {
        return Err(BadText);
      }
      var trimmed := AsciiFraming.WhiteSpace.Trim(line[1..]);
      if |trimmed| % 2 != 0 {
        return Err(BadText);
      }
      var decoded := AsciiFraming.HexDecode(trimmed);
      if decoded.None? {
        return Err(BadText);
      }
      var got := decoded.value;
      if |got| < 3 {
        return Err(BadLength);
      }
      if got[0] != unitID {
        return Err(UnitMismatch);
      }
      var lrc := AsciiFraming.ComputeLrc(got[..|got| - 1]);
      if lrc != got[|got| - 1] {
        return Err(BadChecksum);
      }
      var resp := got[1..|got| - 1];
      if |resp| >= 2 && resp[0] >= 0x80 {
        return Err(Exception(resp[1]));
      }
      return Ok(resp);
    }

    method ReadAsciiResponseLine(h: nat) returns (r: Result<seq<byte>>)
      requires h in wire.links.open
      modifies wire
      ensures r == AsciiFraming.ReadLine([], old(wire.links.open[h])).0
      ensures wire.links == Unread(old(wire.links), h, AsciiFraming.ReadLine([], old(wire.links.open[h])).1)
    {
      var out: seq<byte> := [];
      var one := new byte[1];
      ghost var all := wire.links.open[h];
      assert wire.links == Unread(wire.links, h, all);
      while |out| < 1024
        invariant h in wire.links.open
        invariant wire.links == Unread(old(wire.links), h, wire.links.open[h])
        invariant AsciiFraming.ReadLine([], all) == AsciiFraming.ReadLine(out, wire.links.open[h])
        decreases 1024 - |out|
      {
        var n, ok := wire.ReadFull(h, one);
        if !ok {
          return Err(Io);
        }
        out := out + [one[0]];
        if one[0] == AsciiFraming.NEWLINE {
          return Ok(out);
        }
      }
      return Err(BadLength);
    }

    method SendPduOnceLocked(pdu: seq<byte>) returns (r: Result<seq<byte>>)
      requires Valid()
      modifies this`conn, this`transID, wire, device
      ensures Valid() && (View(), r) == SendOnce(Settings(), wire.plan, old(View()), pdu)
    {
      var ok := EnsureConnLocked();
      if !ok {
        return Err(Io);
      }
      match mode {
        case Tcp => r := SendTcpFrameLocked(conn.value, pdu);
        case RtuOverTcp | Rtu => r := SendRtuFrameLocked(conn.value, pdu);
        case Ascii => r := SendAsciiFrameLocked(conn.value, pdu);
      }
    }

    method SendPdu(pdu: seq<byte>) returns (r: Result<seq<byte>>)
      requires Valid()
      modifies this`conn, this`transID, wire, device
      ensures Valid()
      ensures (View(), r) == Send(Settings(), wire.plan, old(View()), pdu, Settings().retries)
    {
      var policy := if maxRetries < 0 then 0 else maxRetries;
      var attempt := 0;
      r := Err(Io);
      while attempt <= policy
        invariant 0 <= attempt <= policy + 1 && Valid()
        invariant attempt <= policy ==>
          Send(Settings(), wire.plan, old(View()), pdu, policy)
            == Send(Settings(), wire.plan, View(), pdu, policy - attempt)
        invariant attempt > policy ==>
          (View(), r) == Send(Settings(), wire.plan, old(View()), pdu, policy)
        decreases policy - attempt
      {
        r := SendPduOnceLocked(pdu);
        if r.Ok? {
          if autoClose {
            CloseLocked();
          }
          return;
        }
        CloseLocked();
        attempt := attempt + 1;
      }
    }

    method ReadRegisters(address: uint16, count: uint16) returns (r: Result<seq<uint16>>)
      requires Valid()
      modifies this`conn, this`transID, wire, device
      ensures Valid()
      ensures (View(), r) == Run(Settings(), wire.plan, old(View()), Op.ReadRegisters(address, count))
    {
      var payload := ReadRequest(address, count);
      var resp := SendPdu(payload);
      if resp.Err? {
        return Err(resp.error);
      }
      r := RegistersOf(resp.value, address, count);
    }

    method ReadRequest(address: uint16, count: uint16) returns (pdu: seq<byte>)
      ensures pdu == Pdu(Op.ReadRegisters(address, count))
    {
      var payload := new byte[5];
      payload[0] := 0x03;
      payload[1], payload[2] := address / 256, address % 256;
      payload[3], payload[4] := count / 256, count % 256;
      pdu := payload[..];
    }

    method RegistersOf(resp: seq<byte>, ghost address: uint16, count: uint16) returns (r: Result<seq<uint16>>)
      ensures r == Interpret(Op.ReadRegisters(address, count), resp)
    {
      if |resp| < 2 || resp[0] != 0x03 {
        return Err(InvalidReply);
      }
      var byteCount := resp[1] as int;
      if |resp| != byteCount + 2 || byteCount != count as int * 2 {
        return Err(InvalidReply);
      }
      var out := new uint16[count];
      ghost var words := UnpackBig(resp[2..]);
      for i := 0 to count as int
        invariant forall k :: 0 <= k < i ==> out[k] == words[k]
      {
        assert resp[2 + i * 2..4 + i * 2] == resp[2..][2 * i..2 * i + 2];
        out[i] := FromBig(resp[2 + i * 2..4 + i * 2]);
      }
      assert out[..] == words;
      return Ok(out[..]);
    }

    method WriteRegisters(address: uint16, values: seq<uint16>) returns (r: Result<seq<uint16>>)
      requires Valid()
      modifies this`conn, this`transID, wire, device
      ensures Valid()
      ensures (View(), r) == Run(Settings(), wire.plan, old(View()), Op.WriteRegisters(address, values))
    {
      if |values| == 0 {
        return Ok([]);
      }
      if |values| > 123 {
        return Err(TooManyRegisters);
      }
      var payload := WriteRequest(address, values);
      var resp := SendPdu(payload);
      if resp.Err? {
        return Err(resp.error);
      }
      if |resp.value| != 5 || resp.value[0] != 0x10 {
        return Err(InvalidReply);
      }
      return Ok([]);
    }

    method WriteRequest(address: uint16, values: seq<uint16>) returns (pdu: seq<byte>)
      requires 1 <= |values| <= 123
      ensures pdu == Pdu(Op.WriteRegisters(address, values))
    {
      hide PackBig;
      var n := |values|;
      var payload := new byte[6 + n * 2];
      payload[0] := 0x10;
      payload[1], payload[2] := address / 256, address % 256;
      payload[3], payload[4] := n / 256, n % 256;
      payload[5] := n * 2;
      assert payload[..6] == [0x10, address / 256, address % 256, n / 256, n % 256, n * 2];
      WriteHeader(address, n);
      PutWords(payload, 6, values);
      pdu := payload[..];
    }

    /** The loop that lays the values out behind the header. */
    method PutWords(payload: array<byte>, from: nat, values: seq<uint16>)
      requires payload.Length == from + 2 * |values|
      modifies payload
      ensures payload[..] == old(payload[..from]) + PackBig(values)
    {
      hide PackBig;
      ghost var data := PackBig(values);
      ghost var head := payload[..from];
      for i := 0 to |values|
        invariant forall k :: 0 <= k < from ==> payload[k] == head[k]
        invariant forall k :: from <= k < from + 2 * i ==> payload[k] == data[k - from]
      {
        PackBigAt(values, i);
        payload[from + i * 2], payload[from + i * 2 + 1] := values[i] / 256, values[i] % 256;
      }
      assert payload[..] == head + data;
    }

    method WriteCoil(address: uint16, value: bool) returns (r: Result<seq<uint16>>)
      requires Valid()
      modifies this`conn, this`transID, wire, device
      ensures Valid()
      ensures (View(), r) == Run(Settings(), wire.plan, old(View()), Op.WriteCoil(address, value))
    {
      var payload := new byte[5](_ => 0);
      payload[0] := 0x05;
      payload[1], payload[2] := address / 256, address % 256;
      if value {
        payload[3], payload[4] := 0xFF, 0x00;
      }
      assert payload[..] == Pdu(Op.WriteCoil(address, value));
      var resp := SendPdu(payload[..]);
      if resp.Err? {
        return Err(resp.error);
      }
      if |resp.value| != 5 || resp.value[0] != 0x05 {
        return Err(InvalidReply);
      }
      return Ok([]);
    }

    // ----- typed access

    method ReadInt16(address: seq<byte>) returns (r: Result<int>)
      requires Valid()
      modifies this`conn, this`transID, wire, device
      ensures Valid()
      ensures match ParseModbusAddress(address)
              case None => View() == old(View()) && r == Err(InvalidAddress)
              case Some(a) =>
                var (st, words) := Run(Settings(), wire.plan, old(View()), Op.ReadRegisters(a, 1));
                View() == st && r == (match words case Err(e) => Err(e) case Ok(ws) => Ok(Signed16(ws[0])))
    {
      hide Run, Pdu, Send, ParseModbusAddress;
      var addr := ParseModbusAddress(address);
      if addr.None? {
        return Err(InvalidAddress);
      }
      RunReadsCount(Settings(), wire.plan, View(), addr.value, 1);
      var words := ReadRegisters(addr.value, 1);
      r := match words case Err(e) => Err(e) case Ok(ws) => Ok(Signed16(ws[0]));
    }

    method ReadInt32(address: seq<byte>) returns (r: Result<int>)
      requires Valid()
      modifies this`conn, this`transID, wire, device
      ensures Valid()
      ensures match ParseModbusAddress(address)
              case None => View() == old(View()) && r == Err(InvalidAddress)
              case Some(a) =>
                var (st, words) := Run(Settings(), wire.plan, old(View()), Op.ReadRegisters(a, 2));
                View() == st && r == (match words case Err(e) => Err(e) case Ok(ws) => Ok(Signed32(JoinBig(ws))))
    {
      hide Run, Pdu, Send, ParseModbusAddress;
      var addr := ParseModbusAddress(address);
      if addr.None? {
        return Err(InvalidAddress);
      }
      RunReadsCount(Settings(), wire.plan, View(), addr.value, 2);
      var words := ReadRegisters(addr.value, 2);
      r := match words case Err(e) => Err(e) case Ok(ws) => Ok(Signed32(JoinBig(ws)));
    }

    /** The word count is cut to 16 bits; a length of up to 254 is what a reply can answer. */
    method ReadString(address: seq<byte>, readLength: int) returns (r: Result<seq<byte>>)
      requires Valid()
      modifies this`conn, this`transID, wire, device
      ensures Valid()
      ensures readLength <= 0 ==> View() == old(View()) && r == Err(InvalidLength)
      ensures readLength > 0 ==>
              match ParseModbusAddress(address)
              case None => View() == old(View()) && r == Err(InvalidAddress)
              case Some(a) => (View(), r) == ModbusText(Settings(), wire.plan, old(View()), a, readLength)
    {
      hide Run, PackBig, Cut, ParseModbusAddress;
      if readLength <= 0 {
        return Err(InvalidLength);
      }
      var addr := ParseModbusAddress(address);
      if addr.None? {
        return Err(InvalidAddress);
      }
      var words := ReadRegisters(addr.value, Wrap16((readLength + 1) / 2));
      if words.Err? {
        return Err(words.error);
      }
      var buf := RegistersToBytes(words.value);
      return Ok(Cut(buf, readLength));
    }

    method RegistersToBytes(values: seq<uint16>) returns (out: seq<byte>)
      ensures out == PackBig(values)
    {
      var buf := new byte[|values| * 2];
      PutWords(buf, 0, values);
      out := buf[..];
    }

    method BytesToRegisters(values: seq<byte>) returns (out: seq<uint16>)
      ensures out == UnpackBig(Padded(values))
    {
      var padded := if |values| % 2 != 0 then values + [0x00] else values;
      var words := new uint16[|padded| / 2];
      for i := 0 to words.Length
        invariant forall k :: 0 <= k < i ==> words[k] == UnpackBig(padded)[k]
      {
        words[i] := FromBig(padded[i * 2..i * 2 + 2]);
      }
      out := words[..];
    }

    /** Write; uint64 and float64 go through eight bytes, like every other number through its own. */
    method Write(address: seq<byte>, value: Value) returns (r: Result<seq<uint16>>)
      requires Valid()
      modifies this`conn, this`transID, wire, device
      ensures Valid()
      ensures match ParseModbusAddress(address)
              case None => View() == old(View()) && r == Err(InvalidAddress)
              case Some(a) => (View(), r) == Run(Settings(), wire.plan, old(View()), ModbusWrite(a, value))
    {
      hide Run, ParseModbusAddress;
      var addr := ParseModbusAddress(address);
      if addr.None? {
        return Err(InvalidAddress);
      }
      match value {
        case Flag(on) => r := WriteCoil(addr.value, on);
        case Word(w) => r := WriteRegisters(addr.value, [w]);
        case Double(v) => r := WriteRegisters(addr.value, SplitBig(v));
        case Quad(q) => r := WriteRegisters(addr.value, QuadBig(q));
        case Text(s) =>
          var words := BytesToRegisters(s);
          r := WriteRegisters(addr.value, words);
      }
    }
  }

  lemma WriteHeader(address: uint16, n: nat)
    requires n <= 123
    ensures [0x10] + Big(address) + Big(Wrap16(n)) + [(2 * n) % 256]
         == [0x10, address / 256, address % 256, n / 256, n % 256, n * 2]
  {
  }

  /** A successful read has as many words as were asked for. */
  lemma RunReadsCount(cfg: Config, plan: Plan, st: State, address: uint16, count: uint16)
    requires Attached(st)
    ensures var (_, r) := Run(cfg, plan, st, Op.ReadRegisters(address, count));
            r.Ok? ==> |r.value| == count as int
  {
    hide Send, Pdu;
    var op := Op.ReadRegisters(address, count);
    var (st', r) := Send(cfg, plan, st, Pdu(op), cfg.retries);
    assert r.Ok? ==> Run(cfg, plan, st, op) == (st', Interpret(op, r.value));
  }
}
