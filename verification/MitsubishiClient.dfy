/** MitsubishiClient as an object, its methods proved against the functions of MelsecSession. */
module MitsubishiClients {
  import opened Bytes
  import opened Network
  import opened MockServer
  import opened MelsecSession
  import opened TypedValues
  import opened TypedRoundTrips
  import opened Addresses

  const QNA_3E := "Qna_3E"

  class MitsubishiClient {
    const version: string
    const wire: Wire
    const server: Server
    var networkNo: byte
    var stationNo: byte
    var moduleIO: uint16
    var multidropStation: byte
    var monitoringTimer: uint16
    var maxRetries: nat
    var conn: Option<nat>

    constructor (version: string, wire: Wire, server: Server)
      ensures this.version == if version == "" then "Qna_3E" else version
      ensures this.wire == wire && this.server == server && conn == None && maxRetries == 2
      ensures Settings().route == Route(0x00, 0xFF, 0x03FF, 0x00, 2000)
    {
      this.version := if version == "" then QNA_3E else version;
      this.wire, this.server := wire, server;
      networkNo, stationNo, moduleIO, multidropStation := 0x00, 0xFF, 0x03FF, 0x00;
      monitoringTimer, maxRetries, conn := 2000, 2, None;
    }

    function Settings(): Config
      reads this
    {
      Config(Route(networkNo, stationNo, moduleIO, multidropStation, monitoringTimer), maxRetries)
    }

    function View(): State
      reads this, wire, server
    {
      State(conn, wire.links, server.View())
    }

    predicate Valid()
      reads this, wire, server
    {
      Attached(View())
    }

    method SetRoute(networkNo: byte, stationNo: byte, moduleIO: uint16, multidropStation: byte)
      modifies this`networkNo, this`stationNo, this`moduleIO, this`multidropStation
      ensures this.networkNo == networkNo && this.stationNo == stationNo
      ensures this.moduleIO == moduleIO && this.multidropStation == multidropStation
    {
      this.networkNo := networkNo;
      this.stationNo := stationNo;
      this.moduleIO := moduleIO;
      this.multidropStation := multidropStation;
    }

    method SetMonitoringTimer(ms: uint16)
      modifies this`monitoringTimer
      ensures monitoringTimer == ms
    {
      monitoringTimer := ms;
    }

    method SetRetryPolicy(retries: int)
      modifies this`maxRetries
      ensures maxRetries == (if retries < 0 then 0 else retries)
    {
      maxRetries := if retries < 0 then 0 else retries;
    }

    method Open() returns (ok: bool)
      requires Valid()
      modifies this`conn, wire
      ensures Valid()
      ensures version != "Qna_3E" ==> !ok && View() == old(View())
      ensures version == "Qna_3E" ==> ok == conn.Some? && View() == Reconnected(wire.plan, old(View()))
      ensures version == "Qna_3E" ==>
              conn == if wire.plan(old(wire.links.clock)).up then Some(old(wire.links.dialed)) else None
    {
      if version != QNA_3E {
        return false;
      }
      ok := ReconnectLocked();
    }

    method Close()
      requires Valid()
      modifies this`conn, wire
      ensures Valid() && View() == Disconnected(old(View()))
    {
      if conn.Some? {
        wire.Close(conn.value);
        conn := None;
      }
    }

    method ReconnectLocked() returns (ok: bool)
      requires Valid()
      modifies this`conn, wire
      ensures Valid() && ok == conn.Some? && View() == Reconnected(wire.plan, old(View()))
    {
      if conn.Some? {
        wire.Close(conn.value);
        conn := None;
      }
      conn := wire.Dial();
      ok := conn.Some?;
    }

    /** conn.Write, with the server at the other end of the connection. */
    method Transmit(h: nat, frame: seq<byte>) returns (sent: bool)
      requires Valid() && conn == Some(h)
      modifies wire, server
      ensures Valid() && sent == wire.plan(old(wire.links).clock).sent
      ensures View() == AfterTransmit(wire.plan, old(View()), h, frame)
    {
      hide ServeStream;
      var f := wire.plan(wire.links.clock);
      if f.inject.Some? {
        server.FailNextRequest(f.inject.value);
      }
      var reply := [];
      if f.served {
        reply := server.HandleStream(frame);
      }
      sent := wire.Write(h, frame, reply);
    }

    method BuildRequest(command: uint16, subcommand: uint16, payload: seq<byte>) returns (req: seq<byte>)
      ensures req == Frame(Settings().route, command, subcommand, payload)
    {
      var dataLen := Wrap16(2 + 2 + 2 + |payload|);
      req := [0x50, 0x00, networkNo, stationNo] + Little(moduleIO) + [multidropStation] + Little(dataLen)
             + Little(monitoringTimer) + Little(command) + Little(subcommand);
      req := req + payload;
    }

    method SendRequestOnceLocked(command: uint16, subcommand: uint16, payload: seq<byte>)
      returns (r: Result<seq<byte>>)
      requires Valid()
      modifies this`conn, wire, server
      ensures Valid()
      ensures (View(), r) == SendOnce(wire.plan, old(View()), Frame(Settings().route, command, subcommand, payload))
    {
      hide Frame, ServeStream;
      if conn.None? {
        var ok := ReconnectLocked();
        if !ok {
          return Err(Io);
        }
      }
      var req := BuildRequest(command, subcommand, payload);
      var sent := Transmit(conn.value, req);
      r := Err(Io);
      if sent {
        r := ReadResponse(conn.value);
      }
    }

    method ReadResponse(h: nat) returns (r: Result<seq<byte>>)
      requires h in wire.links.open
      modifies wire
      ensures r == Decode(old(wire.links.open[h])).0
      ensures wire.links == Unread(old(wire.links), h, Decode(old(wire.links.open[h])).1)
    {
      ghost var l, s := wire.links, wire.links.open[h];
      var head := new byte[9];
      var n, ok := wire.ReadFull(h, head);
      if !ok {
        return Err(Io);
      }
      var responseLen := FromLittle(head[7..9]);
      var body := new byte[responseLen];
      UnreadTwice(l, h, s[9..], Rest(s[9..], responseLen));
      n, ok := wire.ReadFull(h, body);
      if !ok {
        return Err(Io);
      }
      if body.Length < 2 {
        return Err(TooShort);
      }
      var endCode := FromLittle(body[0..2]);
      if endCode != 0 {
        return Err(EndCode(endCode));
      }
      return Ok(body[2..]);
    }

    method SendRequest(command: uint16, subcommand: uint16, payload: seq<byte>) returns (r: Result<seq<byte>>)
      requires Valid()
      modifies this`conn, wire, server
      ensures Valid()
      ensures (View(), r) == Send(wire.plan, old(View()), Frame(Settings().route, command, subcommand, payload), maxRetries)
    {
      hide Frame, SendOnce;
      ghost var frame := Frame(Settings().route, command, subcommand, payload);
      var attempt := 0;
      r := Err(Io);
      while attempt <= maxRetries
        invariant attempt <= maxRetries + 1 && Valid()
        invariant frame == Frame(Settings().route, command, subcommand, payload)
        invariant attempt <= maxRetries ==>
          Send(wire.plan, old(View()), frame, maxRetries) == Send(wire.plan, View(), frame, maxRetries - attempt)
        invariant attempt > maxRetries ==>
          (View(), r) == Send(wire.plan, old(View()), frame, maxRetries)
      {
        r := SendRequestOnceLocked(command, subcommand, payload);
        if r.Ok? {
          return;
        }
        var _ := ReconnectLocked();
        attempt := attempt + 1;
      }
    }

    method ReadWords(addr: uint16, count: uint16) returns (r: Result<seq<uint16>>)
      requires Valid()
      modifies this`conn, wire, server
      ensures Valid()
      ensures (View(), r) == Run(Settings(), wire.plan, old(View()), Op.ReadWords(addr, count))
    {
      hide Frame, Send;
      if count == 0 {
        return Ok([]);
      }
      var payload := BuildPayload(addr, count, []);
      var resp := SendRequest(CMD_READ, SUBCMD_WORD, payload);
      if resp.Err? {
        return Err(resp.error);
      }
      r := WordsOf(resp.value, addr, count);
    }

    method WordsOf(resp: seq<byte>, ghost addr: uint16, count: uint16) returns (r: Result<seq<uint16>>)
      ensures r == Interpret(Op.ReadWords(addr, count), resp)
    {
      if |resp| < count as int * 2 {
        return Err(TooShort);
      }
      var words := new uint16[count];
      ghost var want := UnpackLittle(resp[..2 * (count as int)]);
      for i := 0 to count as int
        invariant forall k :: 0 <= k < i ==> words[k] == want[k]
      {
        SliceOfPrefix(resp, 2 * (count as int), 2 * i, 2 * i + 2);
        words[i] := FromLittle(resp[i * 2..i * 2 + 2]);
      }
      assert words[..] == want;
      return Ok(words[..]);
    }

    /** With 65536 values or more writeWords would write past the end of its payload buffer. */
    method WriteWords(addr: uint16, values: seq<uint16>) returns (r: Result<seq<uint16>>)
      requires Valid() && |values| < 0x1_0000
      modifies this`conn, wire, server
      ensures Valid()
      ensures (View(), r) == Run(Settings(), wire.plan, old(View()), Op.WriteWords(addr, values))
    {
      hide Frame, Send, PackLittle;
      var payload := BuildPayload(addr, Wrap16(|values|), values);
      var resp := SendRequest(CMD_WRITE, SUBCMD_WORD, payload);
      if resp.Err? {
        return Err(resp.error);
      }
      return Ok([]);
    }

    method BuildPayload(addr: uint16, count: uint16, values: seq<uint16>) returns (r: seq<byte>)
      ensures r == Payload(addr, count, PackLittle(values))
    {
      hide PackLittle;
      ghost var data := PackLittle(values);
      var payload := new byte[6 + 2 * |values|];
      payload[0], payload[1] := addr % 256, addr / 256;
      payload[2] := 0x00;
      payload[3] := DEVICE_D;
      payload[4], payload[5] := count % 256, count / 256;
      ghost var head := payload[..6];
      assert head == Little(addr) + [0x00, DEVICE_D] + Little(count);
      for i := 0 to |values|
        invariant forall k :: 0 <= k < 6 ==> payload[k] == head[k]
        invariant forall k :: 6 <= k < 6 + 2 * i ==> payload[k] == data[k - 6]
      {
        PackLittleAt(values, i);
        payload[6 + i * 2], payload[7 + i * 2] := values[i] % 256, values[i] / 256;
      }
      r := payload[..];
      assert r == head + data;
    }

    // ----- typed access

    method ReadInt16(address: seq<byte>) returns (r: Result<int>)
      requires Valid()
      modifies this`conn, wire, server
      ensures Valid()
      ensures match ParseDAddress(address)
              case None => View() == old(View()) && r == Err(InvalidAddress)
              case Some(a) =>
                var (st, words) := Run(Settings(), wire.plan, old(View()), Op.ReadWords(a, 1));
                View() == st && r == (match words case Err(e) => Err(e)
                                      case Ok(ws) => if ws == [] then Err(TooShort) else Ok(Signed16(ws[0])))
    {
      hide Run, ParseDAddress;
      var addr := ParseDAddress(address);
      if addr.None? {
        return Err(InvalidAddress);
      }
      var words := ReadWords(addr.value, 1);
      r := match words
           case Err(e) => Err(e)
           case Ok(ws) => if ws == [] then Err(TooShort) else Ok(Signed16(ws[0]));
    }

    method ReadInt32(address: seq<byte>) returns (r: Result<int>)
      requires Valid()
      modifies this`conn, wire, server
      ensures Valid()
      ensures match ParseDAddress(address)
              case None => View() == old(View()) && r == Err(InvalidAddress)
              case Some(a) =>
                var (st, words) := Run(Settings(), wire.plan, old(View()), Op.ReadWords(a, 2));
                View() == st && r == (match words case Err(e) => Err(e)
                                      case Ok(ws) => if |ws| != 2 then Err(TooShort) else Ok(Signed32(JoinLittle(ws))))
    {
      hide Run, ParseDAddress;
      var addr := ParseDAddress(address);
      if addr.None? {
        return Err(InvalidAddress);
      }
      var words := ReadWords(addr.value, 2);
      r := match words
           case Err(e) => Err(e)
           case Ok(ws) => if |ws| != 2 then Err(TooShort) else Ok(Signed32(JoinLittle(ws)));
    }

    method ReadString(address: seq<byte>, readLength: int) returns (r: Result<seq<byte>>)
      requires Valid()
      modifies this`conn, wire, server
      ensures Valid()
      ensures readLength <= 0 ==> View() == old(View()) && r == Err(InvalidLength)
      ensures readLength > 0 ==>
              match ParseDAddress(address)
              case None => View() == old(View()) && r == Err(InvalidAddress)
              case Some(a) => (View(), r) == MelsecText(Settings(), wire.plan, old(View()), a, readLength)
    {
      hide Run, PackLittle, Cut, ParseDAddress;
      if readLength <= 0 {
        return Err(InvalidLength);
      }
      var addr := ParseDAddress(address);
      if addr.None? {
        return Err(InvalidAddress);
      }
      var words := ReadWords(addr.value, Wrap16((readLength + 1) / 2));
      if words.Err? {
        return Err(words.error);
      }
      var raw := WordsToBytes(words.value);
      return Ok(Cut(raw, readLength));
    }

    method WordsToBytes(words: seq<uint16>) returns (r: seq<byte>)
      ensures r == PackLittle(words)
    {
      var out := new byte[2 * |words|];
      for i := 0 to |words|
        invariant forall k :: 0 <= k < 2 * i ==> out[k] == PackLittle(words)[k]
      {
        PackLittleAt(words, i);
        out[i * 2], out[i * 2 + 1] := words[i] % 256, words[i] / 256;
      }
      r := out[..];
    }

    method BytesToWords(data: seq<byte>) returns (r: seq<uint16>)
      ensures r == UnpackLittle(Padded(data))
    {
      var padded := if |data| % 2 != 0 then data + [0x00] else data;
      var words := new uint16[|padded| / 2];
      for i := 0 to words.Length
        invariant forall k :: 0 <= k < i ==> words[k] == UnpackLittle(padded)[k]
      {
        words[i] := FromLittle(padded[i * 2..i * 2 + 2]);
      }
      r := words[..];
    }

    /** A text of more than 131070 bytes has more words than writeWords can lay out. */
    method Write(address: seq<byte>, value: Value) returns (r: Result<seq<uint16>>)
      requires Valid() && (value.Text? ==> |value.s| <= 131070)
      modifies this`conn, wire, server
      ensures Valid()
      ensures match ParseDAddress(address)
              case None => View() == old(View()) && r == Err(InvalidAddress)
              case Some(a) =>
                if value.Quad? then View() == old(View()) && r == Err(UnsupportedType)
                else (View(), r) == Run(Settings(), wire.plan, old(View()), MelsecWrite(a, value))
    {
      hide Run, ParseDAddress;
      var addr := ParseDAddress(address);
      if addr.None? {
        return Err(InvalidAddress);
      }
      match value {
        case Flag(on) => r := WriteWords(addr.value, [if on then 1 else 0]);
        case Word(w) => r := WriteWords(addr.value, [w]);
        case Double(v) => r := WriteWords(addr.value, SplitLittle(v));
        case Quad(_) => r := Err(UnsupportedType);
        case Text(s) =>
          var words := BytesToWords(s);
          r := WriteWords(addr.value, words);
      }
    }
  }
}
