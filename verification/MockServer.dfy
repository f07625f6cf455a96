/** The repository's own 3E server: request handling over a word map. */
module MockServer {
  import opened Bytes
  import opened RegisterMap

  const CMD_READ: uint16 := 0x0401
  const CMD_WRITE: uint16 := 0x1401
  const SUBCMD_WORD: uint16 := 0x0000
  const DEVICE_D: byte := 0xA8

  const BAD_LENGTH: uint16 := 0xC0E1
  const BAD_SUBCOMMAND: uint16 := 0xC002
  const BAD_COMMAND: uint16 := 0xC001
  const BAD_DEVICE: uint16 := 0xC051
  const INJECTED: uint16 := 0xC020

  /** `fail` is the end code the next request is to be answered with. */
  datatype Memory = Memory(words: map<uint16, uint16>, fail: Option<uint16>)

  /** A reply: subheader and route echoed from the request, length, end code, data. */
  function Reply(header: seq<byte>, endCode: uint16, body: seq<byte>): seq<byte>
    requires |header| == 9
  {
    Little(0xD000) + header[2..7] + Little(Wrap16(2 + |body|)) + Little(endCode) + body
  }

  /** A read of 32768 words or more runs past the server's buffer, whose length is computed in 16 bits. */
  predicate Survives(cmdData: seq<byte>) {
    && |cmdData| >= 12
    && FromLittle(cmdData[4..6]) == SUBCMD_WORD && FromLittle(cmdData[2..4]) == CMD_READ
    && cmdData[9] == DEVICE_D
    ==> FromLittle(cmdData[10..12]) < 0x8000
  }

  function Process(m: Memory, header: seq<byte>, cmdData: seq<byte>): (Memory, seq<byte>)
    requires |header| == 9 && (m.fail.None? ==> Survives(cmdData))
  {
    if m.fail.Some? then
      (m.(fail := None), Reply(header, if m.fail.value == 0 then INJECTED else m.fail.value, []))
    else if |cmdData| < 6 then (m, Reply(header, BAD_LENGTH, []))
    else if FromLittle(cmdData[4..6]) != SUBCMD_WORD then (m, Reply(header, BAD_SUBCOMMAND, []))
    else if FromLittle(cmdData[2..4]) == CMD_READ then (m, ReadReply(m.words, header, cmdData[6..]))
    else if FromLittle(cmdData[2..4]) == CMD_WRITE then
      var (words, endCode) := Written(m.words, cmdData[6..]);
      (m.(words := words), Reply(header, endCode, []))
    else (m, Reply(header, BAD_COMMAND, []))
  }

  function ReadReply(words: map<uint16, uint16>, header: seq<byte>, data: seq<byte>): seq<byte>
    requires |header| == 9
  {
    if |data| < 6 then Reply(header, BAD_LENGTH, [])
    else if data[3] != DEVICE_D then Reply(header, BAD_DEVICE, [])
    else Reply(header, 0, PackLittle(Load(words, FromLittle(data[0..2]), FromLittle(data[4..6]))))
  }

  function Written(words: map<uint16, uint16>, data: seq<byte>): (map<uint16, uint16>, uint16) {
    if |data| < 6 then (words, BAD_LENGTH)
    else if data[3] != DEVICE_D then (words, BAD_DEVICE)
    else
      var n := 2 * (FromLittle(data[4..6]) as int);
      if |data| < 6 + n then (words, BAD_LENGTH)
      else (Store(words, FromLittle(data[0..2]), UnpackLittle(data[6..6 + n])), 0)
  }

  /** The first whole request of a stream of bytes: its header and its command data. */
  function FirstRequest(s: seq<byte>): (r: Option<(seq<byte>, seq<byte>)>)
    ensures r.Some? ==> |r.value.0| == 9 && 9 + |r.value.1| <= |s| && |r.value.1| <= 65535
  {
    if |s| < 9 then None
    else
      var n := FromLittle(s[7..9]) as int;
      if |s| < 9 + n then None else Some((s[..9], s[9..9 + n]))
  }

  /** Everything one connection's handler does with what a client sent: one reply per whole request. */
  function ServeStream(m: Memory, s: seq<byte>): (Memory, seq<byte>)
    decreases |s|
  {
    match FirstRequest(s)
    case None => (m, [])
    case Some(q) =>
      if m.fail.None? && !Survives(q.1) then (m, [])
      else
        var (m1, reply) := Process(m, q.0, q.1);
        var (m2, more) := ServeStream(m1, s[9 + |q.1|..]);
        (m2, reply + more)
  }

  class Server {
    var words: map<uint16, uint16>
    var failNextRequest: bool
    var failWithEndCode: uint16

    constructor ()
      ensures View() == Memory(map[], None)
    {
      words, failNextRequest, failWithEndCode := map[], false, 0;
    }

    function View(): Memory
      reads this
    {
      Memory(words, if failNextRequest then Some(failWithEndCode) else None)
    }

    method SetWord(address: uint16, value: uint16)
      modifies this`words
      ensures View() == old(View()).(words := old(words)[address := value])
    {
      words := words[address := value];
    }

    method GetWord(address: uint16) returns (value: uint16)
      ensures value == Lookup(words, address)
    {
      value := if address in words then words[address] else 0;
    }

    method FailNextRequest(endCode: uint16)
      modifies this`failNextRequest, this`failWithEndCode
      ensures View() == old(View()).(fail := Some(endCode))
    {
      failNextRequest, failWithEndCode := true, endCode;
    }

    method HandleStream(s: seq<byte>) returns (replies: seq<byte>)
      modifies this
      ensures (View(), replies) == ServeStream(old(View()), s)
    {
      hide Process, FirstRequest, Survives;
      replies := [];
      var unread := s;
      assert replies + ServeStream(View(), s).1 == ServeStream(View(), s).1;
      while true
        invariant var (m, more) := ServeStream(View(), unread);
                  ServeStream(old(View()), s) == (m, replies + more)
        decreases |unread|
      {
        var q := FirstRequest(unread);
        if q.None? || (!failNextRequest && !Survives(q.value.1)) {
          assert replies + [] == replies;
          return;
        }
        var reply := ProcessRequest(q.value.0, q.value.1);
        ghost var more := ServeStream(View(), unread[9 + |q.value.1|..]).1;
        assert replies + (reply + more) == (replies + reply) + more;
        replies := replies + reply;
        unread := unread[9 + |q.value.1|..];
      }
    }

    method ProcessRequest(header: seq<byte>, cmdData: seq<byte>) returns (resp: seq<byte>)
      requires |header| == 9 && |cmdData| <= 65535 && (View().fail.None? ==> Survives(cmdData))
      modifies this
      ensures (View(), resp) == Process(old(View()), header, cmdData)
    {
      if failNextRequest {
        var endCode := failWithEndCode;
        if endCode == 0 {
          endCode := INJECTED;
        }
        failNextRequest := false;
        return Reply(header, endCode, []);
      }
      if |cmdData| < 6 {
        return Reply(header, BAD_LENGTH, []);
      }
      var cmd := FromLittle(cmdData[2..4]);
      var subcmd := FromLittle(cmdData[4..6]);
      if subcmd != SUBCMD_WORD {
        return Reply(header, BAD_SUBCOMMAND, []);
      }
      if cmd == CMD_READ {
        assert |cmdData| >= 12 ==> cmdData[6..][4..6] == cmdData[10..12];
        resp := HandleRead(header, cmdData[6..]);
      } else if cmd == CMD_WRITE {
        resp := HandleWrite(header, cmdData[6..]);
      } else {
        resp := Reply(header, BAD_COMMAND, []);
      }
    }

    method HandleRead(header: seq<byte>, data: seq<byte>) returns (resp: seq<byte>)
      requires |header| == 9
      requires |data| >= 6 && data[3] == DEVICE_D ==> FromLittle(data[4..6]) < 0x8000
      ensures resp == ReadReply(words, header, data)
    {
      hide PackLittle, Reply;
      if |data| < 6 {
        return Reply(header, BAD_LENGTH, []);
      }
      var addr := FromLittle(data[0..2]);
      var count := FromLittle(data[4..6]);
      if data[3] != DEVICE_D {
        return Reply(header, BAD_DEVICE, []);
      }
      var body := new byte[count as int * 2];
      ghost var block := PackLittle(Load(words, addr, count));
      for i := 0 to count as int
        invariant forall k :: 0 <= k < 2 * i ==> body[k] == block[k]
      {
        var v := Lookup(words, At(addr, i));
        PackLittleAt(Load(words, addr, count), i);
        body[i * 2], body[i * 2 + 1] := v % 256, v / 256;
      }
      assert body[..] == block;
      return Reply(header, 0, body[..]);
    }

    /** The offsets are computed in 16 bits, which the length of a request cannot exceed. */
    method HandleWrite(header: seq<byte>, data: seq<byte>) returns (resp: seq<byte>)
      requires |header| == 9 && |data| <= 65535 - 6
      modifies this`words
      ensures words == Written(old(words), data).0
      ensures resp == Reply(header, Written(old(words), data).1, [])
    {
      hide UnpackLittle, Reply;
      if |data| < 6 {
        return Reply(header, BAD_LENGTH, []);
      }
      var addr := FromLittle(data[0..2]);
      var count := FromLittle(data[4..6]) as int;
      if data[3] != DEVICE_D {
        return Reply(header, BAD_DEVICE, []);
      }
      if |data| < 6 + count * 2 {
        return Reply(header, BAD_LENGTH, []);
      }
      ghost var values := UnpackLittle(data[6..6 + 2 * count]);
      for i := 0 to count
        invariant words == Store(old(words), addr, values[..i])
      {
        SliceOfSlice(data, 6, 6 + 2 * count, 2 * i, 2 * i + 2);
        UnpackLittleAt(data[6..6 + 2 * count], i);
        StoreOneMore(old(words), addr, values, i);
        words := words[At(addr, i) := FromLittle(data[6 + i * 2..6 + i * 2 + 2])];
      }
      assert values[..count] == values;
      return Reply(header, 0, []);
    }
  }
}
