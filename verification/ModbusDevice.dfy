/** The reference server: applyPDU over register and coil maps, and its handlers for the three framings. */
module ModbusDevice {
  import opened Bytes
  import opened Replies
  import opened RegisterMap
  import Crc
  import TcpFraming
  import RtuFraming
  import AsciiFraming

  datatype Mode = Tcp | RtuOverTcp | Rtu | Ascii

  datatype Data = Data(regs: map<uint16, uint16>, coils: map<uint16, bool>)

  /** `fail` is the exception the next request is to be answered with: function code and exception code. */
  datatype Memory = Memory(data: Data, fail: Option<(byte, byte)>)

  function TopBit(b: byte): byte {
    if b >= 0x80 then b else b + 0x80
  }

  function Instead(fail: (byte, byte), pdu: seq<byte>): seq<byte>
    requires pdu != []
  {
    [TopBit(if fail.0 == 0 then pdu[0] else fail.0), if fail.1 == 0 then 1 else fail.1]
  }

  /** The accesses of applyPDU stay within the request and within its reply buffer. */
  predicate Indexable(pdu: seq<byte>) {
    && pdu != []
    && (pdu[0] in {0x03, 0x04} && |pdu| >= 5 ==> FromBig(pdu[3..5]) <= 32766)
    && (pdu[0] == 0x05 ==> |pdu| >= 5)
    && (pdu[0] == 0x10 ==> |pdu| >= 6 && |pdu| >= 6 + 2 * (FromBig(pdu[3..5]) as int))
  }

  function Perform(d: Data, pdu: seq<byte>): (Data, seq<byte>)
    requires Indexable(pdu)
  {
    if pdu[0] in {0x03, 0x04} then
      if |pdu| < 5 then (d, [TopBit(pdu[0]), 3])
      else
        var count := FromBig(pdu[3..5]) as int;
        (d, [pdu[0], (2 * count) % 256] + PackBig(Load(d.regs, FromBig(pdu[1..3]), count)))
    else if pdu[0] == 0x05 then
      (d.(coils := d.coils[FromBig(pdu[1..3]) := FromBig(pdu[3..5]) == 0xFF00]), pdu[..5])
    else if pdu[0] == 0x10 then
      var count := FromBig(pdu[3..5]) as int;
      (d.(regs := Store(d.regs, FromBig(pdu[1..3]), UnpackBig(pdu[6..6 + 2 * count]))), pdu[..5])
    else (d, [TopBit(pdu[0]), 1])
  }

  function Apply(m: Memory, pdu: seq<byte>): (Memory, seq<byte>)
    requires pdu != [] && m.fail.None? ==> Indexable(pdu)
  {
    if pdu == [] then (m, [0x80, 1])
    else match m.fail
         case Some(f) => (m.(fail := None), Instead(f, pdu))
         case None =>
           var (d, reply) := Perform(m.data, pdu);
           (m.(data := d), reply)
  }

  function RequestFrame(mode: Mode, tid: uint16, unit: byte, pdu: seq<byte>): seq<byte> {
    match mode
    case Tcp => TcpFraming.Frame(tid, unit, pdu)
    case RtuOverTcp => RtuFraming.Frame(unit, pdu)
    case Rtu => RtuFraming.Frame(unit, pdu)
    case Ascii => AsciiFraming.Frame(unit, pdu, true)
  }

  function ReplyFrame(mode: Mode, tid: uint16, unit: byte, pdu: seq<byte>): seq<byte> {
    match mode
    case Tcp => TcpFraming.Frame(tid, unit, pdu)
    case RtuOverTcp => RtuFraming.Frame(unit, pdu)
    case Rtu => RtuFraming.Frame(unit, pdu)
    case Ascii => AsciiFraming.Frame(unit, pdu, false)
  }

  datatype Received = Received(tid: uint16, unit: byte, pdu: seq<byte>)

  function ReceiveTcp(s: seq<byte>): Option<Received> {
    if |s| < 7 then None
    else
      var length := FromBig(s[4..6]) as int;
      if length < 2 || |s| < 6 + length then None
      else Some(Received(FromBig(s[0..2]), s[6], s[7..6 + length]))
  }

  /** A peer on a serial line: a frame with a wrong checksum is ignored. */
  function ReceiveRtu(s: seq<byte>): Option<Received> {
    if |s| < 4 || !Crc.Intact(s) then None else Some(Received(0, s[0], s[1..|s| - 2]))
  }

  function ReceiveAscii(s: seq<byte>): Option<Received> {
    match AsciiFraming.ReadLine([], s).0
    case Err(_) => None
    case Ok(line) =>
      if |line| < 3 || line[0] != AsciiFraming.COLON then None
      else
        var text := line[1..|line| - 2];
        if |text| % 2 != 0 then None
        else match AsciiFraming.HexDecode(text)
             case None => None
             case Some(raw) =>
               var n := |raw| - 1;
               if n < 2 || AsciiFraming.Lrc(raw[..n]) != raw[n] then None
               else Some(Received(0, raw[0], raw[1..n]))
  }

  function Receive(mode: Mode, s: seq<byte>): Option<Received> {
    match mode
    case Tcp => ReceiveTcp(s)
    case RtuOverTcp => ReceiveRtu(s)
    case Rtu => ReceiveRtu(s)
    case Ascii => ReceiveAscii(s)
  }

  /** One frame from the client: the memory afterwards and the bytes sent back. */
  function Serve(mode: Mode, m: Memory, frame: seq<byte>): (Memory, seq<byte>) {
    match Receive(mode, frame)
    case None => (m, [])
    case Some(q) =>
      if q.pdu != [] && m.fail.None? && !Indexable(q.pdu) then (m, [])
      else
        var (m', reply) := Apply(m, q.pdu);
        (m', ReplyFrame(mode, q.tid, q.unit, reply))
  }

  /** The peer reads a client's frame as the client meant it. */
  lemma RequestArrives(mode: Mode, tid: uint16, unit: byte, pdu: seq<byte>)
    requires 2 <= |pdu| <= 253
    ensures Receive(mode, RequestFrame(mode, tid, unit, pdu))
         == Some(Received(if mode.Tcp? then tid else 0, unit, pdu))
  {
    match mode
    case Tcp =>
      var s := TcpFraming.Frame(tid, unit, pdu);
      assert s[0..2] == Big(tid) && s[4..6] == Big(|pdu| + 1) && s[7..] == pdu;
      assert s[7..7 + |pdu|] == pdu;
    case RtuOverTcp | Rtu => RtuArrives(unit, pdu);
    case Ascii => AsciiArrives(unit, pdu);
  }

  lemma RtuArrives(unit: byte, pdu: seq<byte>)
    requires pdu != []
    ensures ReceiveRtu(RtuFraming.Frame(unit, pdu)) == Some(Received(0, unit, pdu))
  {
    RtuFraming.CrcBits.SealedIsIntact([unit] + pdu);
    assert RtuFraming.Frame(unit, pdu)[1..|pdu| + 1] == pdu;
  }

  lemma AsciiArrives(unit: byte, pdu: seq<byte>)
    requires 1 <= |pdu| <= 253
    ensures ReceiveAscii(AsciiFraming.Frame(unit, pdu, true)) == Some(Received(0, unit, pdu))
  {
    hide AsciiFraming.ReadLine, AsciiFraming.HexEncode, AsciiFraming.HexDecode, AsciiFraming.Lrc, AsciiFraming.Sum;
    var f := AsciiFraming.Frame(unit, pdu, true);
    var raw := AsciiFraming.Raw(unit, pdu);
    AsciiLine(unit, pdu);
    AsciiFraming.HexRoundTrip(raw, true);
    AsciiFraming.RawIsBalanced(unit, pdu);
    assert raw[1..|raw| - 1] == pdu;
  }

  /** The line the peer reads, and the text in it. */
  lemma AsciiLine(unit: byte, pdu: seq<byte>)
    requires |pdu| <= 253
    ensures var f := AsciiFraming.Frame(unit, pdu, true);
            && AsciiFraming.ReadLine([], f).0 == Ok(f)
            && |f| >= 3 && f[0] == AsciiFraming.COLON
            && f[1..|f| - 2] == AsciiFraming.HexEncode(AsciiFraming.Raw(unit, pdu), true)
  {
    hide AsciiFraming.ReadLine, AsciiFraming.HexEncode;
    var f := AsciiFraming.Frame(unit, pdu, true);
    AsciiFraming.FrameLine(unit, pdu, true);
    AsciiFraming.ReadsOneLine([], f, []);
    assert f + [] == f && [] + f == f;
  }

  lemma RegisterAt(pdu: seq<byte>, count: nat, i: nat)
    requires i < count && |pdu| >= 6 + 2 * count
    ensures |UnpackBig(pdu[6..6 + 2 * count])| == count
    ensures FromBig(pdu[6..][i * 2..i * 2 + 2]) == UnpackBig(pdu[6..6 + 2 * count])[i]
  {
    SliceOfSlice(pdu, 6, |pdu|, 2 * i, 2 * i + 2);
    SliceOfSlice(pdu, 6, 6 + 2 * count, 2 * i, 2 * i + 2);
    hide FromBig;
    UnpackBigAt(pdu[6..6 + 2 * count], i);
  }

  class Device {
    const mode: Mode
    var regs: map<uint16, uint16>
    var coils: map<uint16, bool>
    var exceptionNext: bool
    var exFunc: byte
    var exCode: byte

    constructor (mode: Mode)
      ensures this.mode == mode && View() == Memory(Data(map[], map[]), None)
    {
      this.mode := mode;
      regs, coils := map[], map[];
      exceptionNext, exFunc, exCode := false, 0, 0;
    }

    function View(): Memory
      reads this
    {
      Memory(Data(regs, coils), if exceptionNext then Some((exFunc, exCode)) else None)
    }

    method SetExceptionNext(functionCode: byte, exceptionCode: byte)
      modifies this
      ensures View() == old(View()).(fail := Some((functionCode, exceptionCode)))
    {
      exceptionNext, exFunc, exCode := true, functionCode, exceptionCode;
    }

    method ApplyPDU(pdu: seq<byte>) returns (reply: seq<byte>)
      requires pdu != [] && View().fail.None? ==> Indexable(pdu)
      modifies this
      ensures (View(), reply) == Apply(old(View()), pdu)
    {
      if |pdu| == 0 {
        return [0x80, 0x01];
      }
      if exceptionNext {
        exceptionNext := false;
        var fn, code := exFunc, exCode;
        if fn == 0 {
          fn := pdu[0];
        }
        if code == 0 {
          code := 0x01;
        }
        return [TopBit(fn), code];
      }
      if pdu[0] == 0x03 || pdu[0] == 0x04 {
        if |pdu| < 5 {
          return [TopBit(pdu[0]), 0x03];
        }
        reply := ReadBlock(pdu);
      } else if pdu[0] == 0x05 {
        var addr := FromBig(pdu[1..3]);
        coils := coils[addr := FromBig(pdu[3..5]) == 0xFF00];
        reply := pdu[..5];
      } else if pdu[0] == 0x10 {
        WriteBlock(pdu);
        reply := [0x10, pdu[1], pdu[2], pdu[3], pdu[4]];
        assert reply == pdu[..5];
      } else {
        reply := [TopBit(pdu[0]), 0x01];
      }
    }

    /** handleTCP, handleASCII, and the handler of a conforming RTU peer. */
    method Handle(frame: seq<byte>) returns (reply: seq<byte>)
      modifies this
      ensures (View(), reply) == Serve(mode, old(View()), frame)
    {
      match Receive(mode, frame) {
        case None => reply := [];
        case Some(q) =>
          if q.pdu != [] && !exceptionNext && !Indexable(q.pdu) {
            reply := [];
          } else {
            var pdu := ApplyPDU(q.pdu);
            reply := ReplyFrame(mode, q.tid, q.unit, pdu);
          }
      }
    }

    method ReadBlock(pdu: seq<byte>) returns (reply: seq<byte>)
      requires Indexable(pdu) && |pdu| >= 5 && pdu[0] in {0x03, 0x04}
      ensures reply == Perform(View().data, pdu).1
    {
      hide PackBig;
      var addr := FromBig(pdu[1..3]);
      var count := FromBig(pdu[3..5]) as int;
      var resp := new byte[2 + count * 2];
      resp[0] := pdu[0];
      resp[1] := (count * 2) % 256;
      ghost var block := PackBig(Load(regs, addr, count));
      for i := 0 to count
        invariant resp[0] == pdu[0] && resp[1] == (count * 2) % 256
        invariant forall k :: 0 <= k < 2 * i ==> resp[2 + k] == block[k]
      {
        var v := Lookup(regs, At(addr, i));
        resp[2 + i * 2], resp[3 + i * 2] := v / 256, v % 256;
        PackBigAt(Load(regs, addr, count), i);
      }
      reply := resp[..];
      assert reply == [pdu[0], (2 * count) % 256] + block;
    }

    method WriteBlock(pdu: seq<byte>)
      requires Indexable(pdu) && pdu[0] == 0x10
      modifies this
      ensures View() == old(View()).(data := Perform(old(View()).data, pdu).0)
    {
      hide UnpackBig;
      var addr := FromBig(pdu[1..3]);
      var count := FromBig(pdu[3..5]) as int;
      var data := pdu[6..];
      ghost var values := UnpackBig(pdu[6..6 + 2 * count]);
      for i := 0 to count
        invariant regs == Store(old(regs), addr, values[..i])
        invariant coils == old(coils) && exceptionNext == old(exceptionNext)
        invariant exFunc == old(exFunc) && exCode == old(exCode)
      {
        hide Perform, Store;
        var v := FromBig(data[i * 2..i * 2 + 2]);
        RegisterAt(pdu, count, i);
        StoreOneMore(old(regs), addr, values, i);
        regs := regs[At(addr, i) := v];
      }
      assert values[..count] == values;
    }
  }
}
