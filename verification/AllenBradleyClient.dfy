/** AllenBradleyClient as an object, its methods proved against AllenBradleySession. */
module AllenBradleyClients {
  import opened Bytes
  import opened Network
  import opened AllenBradleySession
  import AllenBradleyFrames

  /** What the client builds counts as a command in AllenBradleySession, and is never a registration. */
  lemma BuiltCommandsAreCommands(
    session: uint32, slot: byte, tag: seq<byte>, typeCode: uint16, data: seq<byte>, n: uint16)
    ensures IsCommand(AllenBradleyFrames.ReadCommand(session, slot, tag, n))
    ensures IsCommand(AllenBradleyFrames.WriteCommand(session, slot, tag, typeCode, data, n))
    ensures !IsCommand(REGISTER)
  {
  }

  class AllenBradleyClient {
    const wire: Wire
    const peer: Peer
    var slot: byte
    var maxRetries: int
    var conn: Option<nat>
    var session: uint32

    constructor (wire: Wire, peer: Peer)
      requires wire.links == INITIAL.links
      ensures this.wire == wire && this.peer == peer && View() == INITIAL && maxRetries == 2 && slot == 0
    {
      this.wire, this.peer := wire, peer;
      slot, maxRetries, conn, session := 0, 2, None, 0;
    }

    function View(): State
      reads this, wire
    {
      State(conn, session, wire.links)
    }

    predicate Valid()
      reads this, wire
    {
      Attached(View())
    }

    /** conn.Write, and whatever the peer sends back. */
    method Transmit(h: nat, frame: seq<byte>) returns (sent: bool)
      requires h in wire.links.open
      modifies wire
      ensures sent == wire.plan(old(wire.links).clock).sent
      ensures wire.links == AfterTransmit(wire.plan, peer, old(wire.links), h, frame)
    {
      var t := wire.links.clock;
      sent := wire.Write(h, frame, if wire.plan(t).served then peer(t) else []);
    }

    method Open() returns (r: Result<()>)
      requires Valid()
      modifies this`conn, this`session, wire
      ensures Valid() && (View(), r) == Opened(wire.plan, peer, old(View()))
    {
      Drop();
      r := EnsureConnLocked();
      if r.Err? {
        Drop();
      }
    }

    method Close()
      requires Valid()
      modifies this`conn, this`session, wire
      ensures Valid() && View() == Closed(old(View()))
      ensures session == 0 && conn == None && (old(conn).Some? ==> old(conn).value !in wire.links.open)
    {
      Drop();
      session := 0;
    }

    method Drop()
      requires Valid()
      modifies this`conn, wire
      ensures Valid() && View() == Dropped(old(View()))
    {
      if conn.Some? {
        wire.Close(conn.value);
        conn := None;
      }
    }

    method EnsureConnLocked() returns (r: Result<()>)
      requires Valid()
      modifies this`conn, this`session, wire
      ensures Valid() && (r.Ok? ==> conn.Some?)
      ensures (View(), r) == Ensured(wire.plan, peer, old(View()))
    {
      if conn.Some? {
        return Ok(());
      }
      conn := wire.Dial();
      if conn.None? {
        return Err(Io);
      }
      r := RegisterSessionLocked(conn.value);
    }

    method RegisterSessionLocked(h: nat) returns (r: Result<()>)
      requires conn == Some(h) && Valid()
      modifies this`session, wire
      ensures Valid() && (View(), r) == Registered(wire.plan, peer, old(View()), h)
    {
      hide REGISTER;
      var sent := Transmit(h, REGISTER);
      if !sent {
        return Err(Io);
      }
      ghost var s := wire.links.open[h];
      var resp := new byte[28];
      var n, ok := wire.ReadFull(h, resp);
      if !ok {
        return Err(Io);
      }
      session := FromLittle32(resp[4..8]);
      SliceOfPrefix(s, 28, 4, 8);
      if session == 0 {
        return Err(BadSession);
      }
      return Ok(());
    }

    method CloseLocked()
      requires Valid()
      modifies this`conn, this`session, wire
      ensures Valid() && View() == Disconnected(old(View()))
      ensures conn == None && (old(conn).Some? ==> session == 0 && old(conn).value !in wire.links.open)
    {
      if conn.Some? {
        wire.Close(conn.value);
        conn := None;
        session := 0;
      }
    }

    method SendCommandOnceLocked(cmd: seq<byte>) returns (r: Result<seq<byte>>)
      requires Valid()
      modifies this`conn, this`session, wire
      ensures Valid() && (View(), r) == SendOnce(wire.plan, peer, old(View()), cmd)
    {
      hide Ensured;
      var ok := EnsureConnLocked();
      if ok.Err? {
        return Err(ok.error);
      }
      var sent := Transmit(conn.value, cmd);
      r := Err(Io);
      if sent {
        r := ReadReply(conn.value);
      }
    }

    method ReadReply(h: nat) returns (r: Result<seq<byte>>)
      requires h in wire.links.open
      modifies wire
      ensures r == Decode(old(wire.links.open[h])).0
      ensures wire.links == Unread(old(wire.links), h, Decode(old(wire.links.open[h])).1)
    {
      ghost var l, s := wire.links, wire.links.open[h];
      var head := new byte[24];
      var n, ok := wire.ReadFull(h, head);
      if !ok {
        return Err(Io);
      }
      var contentLen := FromLittle(head[2..4]);
      var content := new byte[contentLen];
      UnreadTwice(l, h, s[24..], Rest(s[24..], contentLen));
      n, ok := wire.ReadFull(h, content);
      if !ok {
        return Err(Io);
      }
      return Ok(head[..] + content[..]);
    }

    method SendCommand(cmd: seq<byte>) returns (r: Result<seq<byte>>)
      requires Valid()
      modifies this`conn, this`session, wire
      ensures Valid()
      ensures (View(), r) == Send(wire.plan, peer, old(View()), cmd, if maxRetries < 0 then 0 else maxRetries)
    {
      hide SendOnce;
      var policy := if maxRetries < 0 then 0 else maxRetries;
      var i := 0;
      r := Err(Io);
      while i <= policy
        invariant 0 <= i <= policy + 1 && Valid()
        invariant i <= policy ==>
          Send(wire.plan, peer, old(View()), cmd, policy) == Send(wire.plan, peer, View(), cmd, policy - i)
        invariant i > policy ==> (View(), r) == Send(wire.plan, peer, old(View()), cmd, policy)
      {
        r := SendCommandOnceLocked(cmd);
        if r.Ok? {
          return;
        }
        CloseLocked();
        i := i + 1;
      }
    }

    /** The end of Write: the reply's content is not looked at. */
    method WriteRaw(tag: seq<byte>, typeCode: uint16, data: seq<byte>, count: uint16) returns (ok: bool)
      requires Valid()
      modifies this`conn, this`session, wire
      ensures Valid()
      ensures
        var cmd := AllenBradleyFrames.WriteCommand(old(session), slot, tag, typeCode, data, count);
        var (st, r) := Send(wire.plan, peer, old(View()), cmd, if maxRetries < 0 then 0 else maxRetries);
        View() == st && ok == r.Ok?
    {
      hide Send, AllenBradleyFrames.WriteCommand;
      var cmd := AllenBradleyFrames.BuildWriteCommand(session, slot, tag, typeCode, data, count);
      var resp := SendCommand(cmd);
      ok := resp.Ok?;
    }

    /** readRaw: the command is built with the session of the moment, before any reconnect. */
    method ReadRaw(tag: seq<byte>, length: int) returns (data: Option<seq<byte>>)
      requires Valid()
      modifies this`conn, this`session, wire
      ensures Valid()
      ensures !(0 < length <= 65535) ==> data == None && View() == old(View())
      ensures 0 < length <= 65535 ==>
        var cmd := AllenBradleyFrames.ReadCommand(old(session), slot, tag, length);
        var (st, r) := Send(wire.plan, peer, old(View()), cmd, if maxRetries < 0 then 0 else maxRetries);
        View() == st && data == (if r.Ok? then AllenBradleyFrames.RawData(r.value) else None)
    {
      hide Send, AllenBradleyFrames.ReadCommand;
      if length <= 0 || length > 65535 {
        return None;
      }
      var cmd := AllenBradleyFrames.BuildReadCommand(session, slot, tag, length);
      var resp := SendCommand(cmd);
      if resp.Err? {
        return None;
      }
      var bytes := resp.value;
      if |bytes| < 46 {
        return None;
      }
      var count := FromLittle(bytes[38..40]) as int;
      if count < 6 || |bytes| < 46 + count - 6 {
        return None;
      }
      var out := new byte[count - 6];
      forall i | 0 <= i < count - 6 {
        out[i] := bytes[46 + i];
      }
      assert out[..] == bytes[46..46 + count - 6];
      return Some(out[..]);
    }
  }
}
