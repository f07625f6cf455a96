/** Go's strings.TrimSpace on bytes: white space is what Unicode says it is, in UTF-8. */
module WhiteSpace {
  import opened Bytes

  /** s is the UTF-8 form of exactly one white-space character. */
  predicate White(s: seq<byte>) {
    || (|s| == 1 && (9 <= s[0] <= 13 || s[0] == 32))
    || (|s| == 2 && s[0] == 0xC2 && s[1] in {0x85, 0xA0})
    || (|s| == 3 && s[0] == 0xE1 && s[1] == 0x9A && s[2] == 0x80)
    || (|s| == 3 && s[0] == 0xE2 && s[1] == 0x80 && (0x80 <= s[2] <= 0x8A || s[2] in {0xA8, 0xA9, 0xAF}))
    || (|s| == 3 && s[0] == 0xE2 && s[1] == 0x81 && s[2] == 0x9F)
    || (|s| == 3 && s[0] == 0xE3 && s[1] == 0x80 && s[2] == 0x80)
  }

  /** The code points to which Unicode gives the property White_Space. */
  predicate UnicodeSpace(c: uint16) {
    || 9 <= c <= 13 || c in {0x20, 0x85, 0xA0, 0x1680}
    || 0x2000 <= c <= 0x200A || c in {0x2028, 0x2029, 0x202F, 0x205F, 0x3000}
  }

  /** UTF-8 of the first 65536 code points. */
  function Utf8(c: uint16): seq<byte> {
    if c < 0x80 then [c]
    else if c < 0x800 then [0xC0 + c / 64, 0x80 + c % 64]
    else [0xE0 + c / 4096, 0x80 + c / 64 % 64, 0x80 + c % 64]
  }

  lemma WhiteIsUnicode(s: seq<byte>) returns (c: uint16)
    requires White(s)
    ensures UnicodeSpace(c) && s == Utf8(c)
  {
    if |s| == 1 {
      c := s[0];
    } else if |s| == 2 {
      c := s[1];
    } else if s[0] == 0xE1 {
      c := 0x1680;
    } else if s[0] == 0xE3 {
      c := 0x3000;
    } else if s[1] == 0x81 {
      c := 0x205F;
    } else {
      c := 0x1F80 + s[2] as int;
    }
  }

  lemma UnicodeIsWhite(c: uint16)
    requires UnicodeSpace(c)
    ensures White(Utf8(c))
  {
    if 0x2000 <= c <= 0x203F {
      assert c / 4096 == 2 && c / 64 == 128;
    }
  }

  /** White space is what Unicode says it is. */
  lemma WhiteMeans(s: seq<byte>)
    ensures White(s) <==> exists c: uint16 :: UnicodeSpace(c) && s == Utf8(c)
  {
    hide White, UnicodeSpace, Utf8;
    if White(s) {
      var c := WhiteIsUnicode(s);
    }
    if c: uint16 :| UnicodeSpace(c) && s == Utf8(c) {
      UnicodeIsWhite(c);
    }
  }

  /** The length of the white-space character s starts with, or 0. */
  function Leading(s: seq<byte>): (n: nat)
    ensures n <= |s|
  {
    if |s| >= 1 && White(s[..1]) then 1
    else if |s| >= 2 && White(s[..2]) then 2
    else if |s| >= 3 && White(s[..3]) then 3
    else 0
  }

  /** The length of the white-space character s ends with, or 0. */
  function Trailing(s: seq<byte>): (n: nat)
    ensures n <= |s|
  {
    if |s| >= 1 && White(s[|s| - 1..]) then 1
    else if |s| >= 2 && White(s[|s| - 2..]) then 2
    else if |s| >= 3 && White(s[|s| - 3..]) then 3
    else 0
  }

  lemma EndsAreWhite(s: seq<byte>)
    ensures Leading(s) != 0 ==> White(s[..Leading(s)])
    ensures Trailing(s) != 0 ==> White(s[|s| - Trailing(s)..])
  {
    hide White;
  }

  function TrimLeft(s: seq<byte>): seq<byte>
    decreases |s|
  {
    if Leading(s) == 0 then s else TrimLeft(s[Leading(s)..])
  }

  function TrimRight(s: seq<byte>): seq<byte>
    decreases |s|
  {
    if Trailing(s) == 0 then s else TrimRight(s[..|s| - Trailing(s)])
  }

  function Trim(s: seq<byte>): seq<byte> {
    TrimRight(TrimLeft(s))
  }

  /** White-space characters, and the bytes they make. */
  predicate AllWhite(chars: seq<seq<byte>>) {
    forall i :: 0 <= i < |chars| ==> White(chars[i])
  }

  function Text(chars: seq<seq<byte>>): seq<byte> {
    if chars == [] then [] else chars[0] + Text(chars[1..])
  }

  lemma {:induction false} TextSnoc(chars: seq<seq<byte>>, c: seq<byte>)
    ensures Text(chars + [c]) == Text(chars) + c
    decreases |chars|
  {
    if chars == [] {
      assert [c][1..] == [] && c + [] == c;
    } else {
      assert (chars + [c])[1..] == chars[1..] + [c];
      TextSnoc(chars[1..], c);
    }
  }

  lemma {:induction false} TrimLeftParts(s: seq<byte>) returns (left: seq<seq<byte>>)
    ensures AllWhite(left) && s == Text(left) + TrimLeft(s)
    decreases |s|
  {
    hide White, Leading;
    left := [];
    var n := Leading(s);
    if n != 0 {
      EndsAreWhite(s);
      var more := TrimLeftParts(s[n..]);
      left := [s[..n]] + more;
      assert left[1..] == more;
    }
  }

  lemma {:induction false} TrimRightParts(s: seq<byte>) returns (right: seq<seq<byte>>)
    ensures AllWhite(right) && s == TrimRight(s) + Text(right)
    decreases |s|
  {
    hide White, Trailing, Text;
    right := [];
    var n := Trailing(s);
    if n == 0 {
      NoText();
    } else {
      EndsAreWhite(s);
      var m := |s| - n;
      var more := TrimRightParts(s[..m]);
      right := more + [s[m..]];
      TextSnoc(more, s[m..]);
      assert s == s[..m] + s[m..];
      assert TrimRight(s) + (Text(more) + s[m..]) == TrimRight(s) + Text(more) + s[m..];
    }
  }

  lemma NoText()
    ensures Text([]) == []
  {
  }

  /** What trimming takes away at both ends is white space. */
  lemma TrimParts(s: seq<byte>) returns (left: seq<seq<byte>>, right: seq<seq<byte>>)
    ensures AllWhite(left) && AllWhite(right) && s == Text(left) + Trim(s) + Text(right)
  {
    hide TrimLeft, TrimRight, Text, AllWhite;
    left := TrimLeftParts(s);
    right := TrimRightParts(TrimLeft(s));
    assert Text(left) + (Trim(s) + Text(right)) == Text(left) + Trim(s) + Text(right);
  }

  /** A printable ASCII character: neither white space nor part of a longer character. */
  predicate Solid(b: byte) {
    32 < b < 0x80
  }

  lemma WhiteIsNotSolid(c: seq<byte>, i: nat)
    requires White(c) && i < |c|
    ensures !Solid(c[i])
  {
  }

  lemma SolidFront(s: seq<byte>)
    requires s != [] && Solid(s[0])
    ensures TrimLeft(s) == s
  {
    assert Leading(s) == 0;
  }

  lemma SolidEnd(c: seq<byte>)
    requires c != [] && Solid(c[|c| - 1])
    ensures !White(c)
  {
  }

  lemma SolidSuffix(s: seq<byte>, k: nat)
    requires 1 <= k <= |s| && Solid(s[|s| - 1])
    ensures !White(s[|s| - k..])
  {
    hide White, Solid;
    var c := s[|s| - k..];
    assert c[k - 1] == s[|s| - 1];
    SolidEnd(c);
  }

  lemma SolidIsNotTrailing(s: seq<byte>)
    requires s != [] && Solid(s[|s| - 1])
    ensures Trailing(s) == 0
  {
    hide White, Solid, Trailing;
    EndsAreWhite(s);
    var n := Trailing(s);
    if n > 0 {
      SolidSuffix(s, n);
    }
  }

  lemma SolidBack(s: seq<byte>)
    requires s != [] && Solid(s[|s| - 1])
    ensures TrimRight(s) == s
  {
    hide Trailing;
    SolidIsNotTrailing(s);
  }

  lemma WhiteBack(s: seq<byte>, w: byte)
    requires White([w])
    ensures TrimRight(s + [w]) == TrimRight(s)
  {
    assert (s + [w])[|s|..] == [w] && (s + [w])[..|s|] == s;
    assert Trailing(s + [w]) == 1;
  }

  lemma WhiteFront(s: seq<byte>, w: byte)
    requires White([w])
    ensures TrimLeft([w] + s) == TrimLeft(s)
  {
    assert ([w] + s)[..1] == [w] && ([w] + s)[1..] == s;
    assert Leading([w] + s) == 1;
  }

  /** Longer white space has no ASCII character before its last byte. */
  lemma NotInside(c: seq<byte>)
    requires |c| >= 2 && Solid(c[|c| - 2])
    ensures !White(c)
  {
  }

  /** A byte that is no white space of its own stays when its neighbour inside is an ASCII character. */
  lemma OddBack(s: seq<byte>, b: byte)
    requires s != [] && Solid(s[|s| - 1]) && !White([b])
    ensures TrimRight(s + [b]) == s + [b]
  {
    var t := s + [b];
    var n := |t|;
    assert t[n - 1..] == [b];
    NotInside(t[n - 2..]);
    if n >= 3 {
      NotInside(t[n - 3..]);
    }
    assert Trailing(t) == 0 by {
      hide White;
    }
  }

  lemma OddFront(s: seq<byte>, b: byte)
    requires s != [] && Solid(s[0]) && !White([b])
    ensures TrimLeft([b] + s) == [b] + s
  {
    var t := [b] + s;
    assert t[..1] == [b];
    assert t[1] == s[0];
    assert Leading(t) == 0;
  }
}

/** ASCII framing: sendASCIIFrameLocked, lrc and readASCIIResponseLine. */
module AsciiFraming {
  import opened Bytes
  import opened Replies
  import opened WhiteSpace

  const COLON: byte := 58
  const CR: byte := 13
  const NEWLINE: byte := 10
  const LONGEST_LINE := 1024

  // ----- hexadecimal

  function Digit(n: nat, upper: bool): byte
    requires n < 16
  {
    if n < 10 then 48 + n else if upper then 55 + n else 87 + n
  }

  predicate IsDigit(c: byte) {
    48 <= c <= 57 || 65 <= c <= 70 || 97 <= c <= 102
  }

  function DigitValue(c: byte): (n: nat)
    requires IsDigit(c)
    ensures n < 16
  {
    if c <= 57 then c - 48 else if c <= 70 then c - 55 else c - 87
  }

  function HexEncode(raw: seq<byte>, upper: bool): (r: seq<byte>)
    ensures |r| == 2 * |raw| && forall i :: 0 <= i < |r| ==> IsDigit(r[i])
  {
    seq(2 * |raw|, i requires 0 <= i < 2 * |raw| =>
      Digit(if i % 2 == 0 then raw[i / 2] / 16 else raw[i / 2] % 16, upper))
  }

  predicate AllDigits(s: seq<byte>) {
    forall i :: 0 <= i < |s| ==> IsDigit(s[i])
  }

  function DecodedByte(s: seq<byte>, k: nat): byte
    requires AllDigits(s) && 2 * k + 1 < |s|
  {
    16 * DigitValue(s[2 * k]) + DigitValue(s[2 * k + 1])
  }

  function HexDecode(s: seq<byte>): Option<seq<byte>>
    requires |s| % 2 == 0
  {
    if AllDigits(s)
    then Some(seq(|s| / 2, k requires 0 <= k < |s| / 2 && AllDigits(s) => DecodedByte(s, k)))
    else None
  }

  lemma TwoDigits(b: byte, upper: bool)
    ensures 16 * DigitValue(Digit(b / 16, upper)) + DigitValue(Digit(b % 16, upper)) == b
  {
  }

  lemma HexRoundTrip(raw: seq<byte>, upper: bool)
    ensures HexDecode(HexEncode(raw, upper)) == Some(raw)
  {
    hide Digit, DigitValue, IsDigit;
    var s := HexEncode(raw, upper);
    var back := HexDecode(s).value;
    forall k | 0 <= k < |raw| ensures back[k] == raw[k] {
      assert s[2 * k] == Digit(raw[k] / 16, upper);
      assert s[2 * k + 1] == Digit(raw[k] % 16, upper);
      TwoDigits(raw[k], upper);
    }
    assert back == raw;
  }

  /** c is the hexadecimal digit of v, in either case. */
  predicate Spells(c: byte, v: nat)
    requires v < 16
  {
    c as char == "0123456789ABCDEF"[v] || c as char == "0123456789abcdef"[v]
  }

  /** Two digits for each byte, the higher half first. */
  predicate Spelled(text: seq<byte>, raw: seq<byte>) {
    && |text| == 2 * |raw|
    && forall k :: 0 <= k < |raw| ==> Spells(text[2 * k], raw[k] / 16) && Spells(text[2 * k + 1], raw[k] % 16)
  }

  lemma DigitSpells(c: byte, v: nat)
    requires v < 16
    ensures Spells(c, v) <==> IsDigit(c) && DigitValue(c) == v
    ensures Digit(v, true) as char == "0123456789ABCDEF"[v] && Digit(v, false) as char == "0123456789abcdef"[v]
  {
  }

  /** Decoding reads exactly the spellings of a sequence as that sequence. */
  lemma SpelledMeans(text: seq<byte>, raw: seq<byte>)
    ensures Spelled(text, raw) <==> |text| % 2 == 0 && HexDecode(text) == Some(raw)
  {
    hide Spells, IsDigit, DigitValue;
    if Spelled(text, raw) {
      forall i | 0 <= i < |text| ensures IsDigit(text[i]) {
        var k := i / 2;
        assert i == 2 * k || i == 2 * k + 1;
        DigitSpells(text[2 * k], raw[k] / 16);
        DigitSpells(text[2 * k + 1], raw[k] % 16);
      }
      forall k | 0 <= k < |raw| ensures DecodedByte(text, k) == raw[k] {
        DigitSpells(text[2 * k], raw[k] / 16);
        DigitSpells(text[2 * k + 1], raw[k] % 16);
      }
      assert HexDecode(text).value == raw;
    }
    if |text| % 2 == 0 && HexDecode(text) == Some(raw) {
      forall k | 0 <= k < |raw| ensures Spells(text[2 * k], raw[k] / 16) && Spells(text[2 * k + 1], raw[k] % 16) {
        assert raw[k] == DecodedByte(text, k);
        DigitSpells(text[2 * k], raw[k] / 16);
        DigitSpells(text[2 * k + 1], raw[k] % 16);
      }
    }
  }

  // ----- checksum

  function Sum(data: seq<byte>): nat {
    if data == [] then 0 else data[0] as int + Sum(data[1..])
  }

  /** The sum of the bytes with its sign changed, in 8 bits. */
  function Lrc(data: seq<byte>): byte {
    (255 - Sum(data) % 256 + 1) % 256
  }

  lemma {:induction false} SumOfParts(a: seq<byte>, b: seq<byte>)
    ensures Sum(a + b) == Sum(a) + Sum(b)
  {
    if a == [] {
      assert a + b == b;
    } else {
      assert (a + b)[1..] == a[1..] + b;
      SumOfParts(a[1..], b);
    }
  }

  lemma SumOfOne(b: byte)
    ensures Sum([b]) == b as int
  {
    assert Sum([b]) == b as int + Sum([b][1..]);
  }

  lemma SumOneMore(data: seq<byte>, k: nat)
    requires k < |data|
    ensures Sum(data[..k + 1]) % 256 == (Sum(data[..k]) % 256 + data[k] as int) % 256
  {
    hide Sum;
    assert data[..k + 1] == data[..k] + [data[k]];
    SumOfParts(data[..k], [data[k]]);
    SumOfOne(data[k]);
    var a, b := Sum(data[..k]), data[k] as int;
    assert (a + b) % 256 == (a % 256 + b) % 256;
  }

  /** The loop of lrc, in wrapping 8-bit arithmetic. */
  method ComputeLrc(data: seq<byte>) returns (r: byte)
    ensures r == Lrc(data)
  {
    var sum: byte := 0;
    for k := 0 to |data|
      invariant sum as int == Sum(data[..k]) % 256
    {
      SumOneMore(data, k);
      sum := (sum as int + data[k] as int) % 256;
    }
    assert data[..|data|] == data;
    r := (255 - sum as int + 1) % 256;
  }

  lemma NegationModulo(sum: nat, b: byte)
    ensures (255 - sum % 256 + 1) % 256 == b as int <==> (sum + b as int) % 256 == 0
  {
    var m := sum % 256;
    assert (sum + b as int) % 256 == (m + b as int) % 256;
  }

  /** The receiver's test holds exactly when all bytes, checksum included, add up to nothing. */
  lemma BalancedMeansZero(raw: seq<byte>)
    requires raw != []
    ensures Lrc(raw[..|raw| - 1]) == raw[|raw| - 1] <==> Sum(raw) % 256 == 0
  {
    hide Sum;
    var n := |raw| - 1;
    assert raw == raw[..n] + [raw[n]];
    SumOfParts(raw[..n], [raw[n]]);
    SumOfOne(raw[n]);
    NegationModulo(Sum(raw[..n]), raw[n]);
  }

  lemma SumWithOneChanged(raw: seq<byte>, k: nat, b: byte)
    requires k < |raw|
    ensures Sum(raw[k := b]) == Sum(raw) - raw[k] as int + b as int
  {
    var head, tail := raw[..k], raw[k + 1..];
    assert raw == head + ([raw[k]] + tail) && raw[k := b] == head + ([b] + tail);
    SumOfParts(head, [raw[k]] + tail);
    SumOfParts(head, [b] + tail);
  }

  // ----- frames and lines

  /** The address, the PDU and the checksum. */
  function Raw(unit: byte, pdu: seq<byte>): seq<byte> {
    [unit] + pdu + [Lrc([unit] + pdu)]
  }

  function Line(text: seq<byte>): seq<byte> {
    [COLON] + text + [CR, NEWLINE]
  }

  /** The client sends upper-case digits; the peers it talks to may send either case. */
  function Frame(unit: byte, pdu: seq<byte>, upper: bool): (r: seq<byte>)
    ensures |r| == 2 * |pdu| + 7
  {
    Line(HexEncode(Raw(unit, pdu), upper))
  }

  /** readASCIIResponseLine, when `got` has been read: up to and including the first newline. */
  function ReadLine(got: seq<byte>, s: seq<byte>): (Result<seq<byte>>, seq<byte>)
    decreases |s|
  {
    if |got| >= LONGEST_LINE then (Err(BadLength), s)
    else if s == [] then (Err(Io), [])
    else if s[0] == NEWLINE then (Ok(got + [s[0]]), s[1..])
    else ReadLine(got + [s[0]], s[1..])
  }

  /** The tests the client puts a line through, in its order. */
  function Check(line: seq<byte>, unit: byte): Result<seq<byte>> {
    if |line| < 1 || line[0] != COLON then Err(BadText)
    else
      var text := Trim(line[1..]);
      if |text| % 2 != 0 then Err(BadText)
      else match HexDecode(text)
           case None => Err(BadText)
           case Some(raw) => CheckRaw(raw, unit)
  }

  function CheckRaw(raw: seq<byte>, unit: byte): Result<seq<byte>> {
    if |raw| < 3 then Err(BadLength)
    else if raw[0] != unit then Err(UnitMismatch)
    else if Lrc(raw[..|raw| - 1]) != raw[|raw| - 1] then Err(BadChecksum)
    else Classify(raw[1..|raw| - 1])
  }

  function Decode(s: seq<byte>, unit: byte): (Result<seq<byte>>, seq<byte>) {
    var (r, rest) := ReadLine([], s);
    match r
    case Ok(line) => (Check(line, unit), rest)
    case Err(e) => (Err(e), rest)
  }

  /** A line without an inner newline that fits is read whole, and nothing more is read. */
  lemma {:induction false} ReadsOneLine(got: seq<byte>, line: seq<byte>, tail: seq<byte>)
    requires line != [] && line[|line| - 1] == NEWLINE && |got| + |line| <= LONGEST_LINE
    requires forall i :: 0 <= i < |line| - 1 ==> line[i] != NEWLINE
    ensures ReadLine(got, line + tail) == (Ok(got + line), tail)
    decreases |line|
  {
    assert (line + tail)[1..] == line[1..] + tail;
    if |line| > 1 {
      ReadsOneLine(got + [line[0]], line[1..], tail);
      assert got + [line[0]] + line[1..] == got + line;
    } else {
      assert line == [line[0]];
    }
  }

  lemma {:induction false} WaitsForNewline(got: seq<byte>, s: seq<byte>)
    requires NEWLINE !in s && |got| + |s| < LONGEST_LINE
    ensures ReadLine(got, s) == (Err(Io), [])
    decreases |s|
  {
    if s != [] {
      WaitsForNewline(got + [s[0]], s[1..]);
    }
  }

  lemma FrameLine(unit: byte, pdu: seq<byte>, upper: bool)
    ensures var f := Frame(unit, pdu, upper);
            f[|f| - 1] == NEWLINE && forall i :: 0 <= i < |f| - 1 ==> f[i] != NEWLINE
  {
  }

  lemma TrimsToDigitsAtEnd(s: seq<byte>)
    requires s != [] && Solid(s[|s| - 1])
    ensures TrimRight(s + [CR, NEWLINE]) == s
  {
    assert s + [CR, NEWLINE] == s + [CR] + [NEWLINE];
    WhiteBack(s + [CR], NEWLINE);
    WhiteBack(s, CR);
    SolidBack(s);
  }

  /** What is left of the text after the colon once it is trimmed. */
  lemma TrimsToDigits(hex: seq<byte>)
    requires hex != [] && forall i :: 0 <= i < |hex| ==> Solid(hex[i])
    ensures Trim(hex + [CR, NEWLINE]) == hex
  {
    SolidFront(hex + [CR, NEWLINE]);
    TrimsToDigitsAtEnd(hex);
  }

  lemma RawIsBalanced(unit: byte, pdu: seq<byte>)
    ensures Lrc(Raw(unit, pdu)[..|pdu| + 1]) == Raw(unit, pdu)[|pdu| + 1]
    ensures Sum(Raw(unit, pdu)) % 256 == 0
  {
    var raw := Raw(unit, pdu);
    assert raw[..|raw| - 1] == [unit] + pdu;
    BalancedMeansZero(raw);
  }

  lemma FrameChecks(unit: byte, pdu: seq<byte>, upper: bool)
    requires pdu != []
    ensures Check(Frame(unit, pdu, upper), unit) == Classify(pdu)
  {
    hide Trim, HexEncode, HexDecode, Lrc, Sum, Classify;
    var raw := Raw(unit, pdu);
    var hex := HexEncode(raw, upper);
    assert Frame(unit, pdu, upper)[1..] == hex + [CR, NEWLINE];
    TrimsToDigits(hex);
    HexRoundTrip(raw, upper);
    RawIsBalanced(unit, pdu);
    assert raw[1..|raw| - 1] == pdu;
  }

  /** A frame that fits in a line comes back as its PDU, and what follows it on the stream stays unread. */
  lemma RoundTrip(unit: byte, pdu: seq<byte>, upper: bool, tail: seq<byte>)
    requires pdu != [] && |Frame(unit, pdu, upper)| <= LONGEST_LINE
    ensures Decode(Frame(unit, pdu, upper) + tail, unit) == (Classify(pdu), tail)
  {
    var f := Frame(unit, pdu, upper);
    FrameLine(unit, pdu, upper);
    ReadsOneLine([], f, tail);
    assert [] + f == f;
    FrameChecks(unit, pdu, upper);
  }

  /**
   * Nothing else is accepted: what is taken for the PDU is no exception, and stood on the stream in a line of
   * at most 1024 characters, from a colon to the first newline, as the digits of this unit, the PDU and the
   * checksum that makes them add up to nothing, with nothing but white space around them.
   */
  lemma AcceptsOnlyOwn(s: seq<byte>, unit: byte, pdu: seq<byte>, tail: seq<byte>)
    returns (left: seq<seq<byte>>, text: seq<byte>, right: seq<seq<byte>>)
    requires Decode(s, unit) == (Ok(pdu), tail)
    ensures AllWhite(left) && AllWhite(right)
    ensures s == [58] + Text(left) + text + Text(right) + tail
    ensures var n := |s| - |tail|;
            2 <= n <= 1024 && s[n - 1] == 10 && forall i :: 0 <= i < n - 1 ==> s[i] != 10
    ensures pdu != [] && Classify(pdu).Ok?
    ensures Spelled(text, [unit] + pdu + [Lrc([unit] + pdu)])
    ensures (Sum([unit] + pdu) + Lrc([unit] + pdu) as int) % 256 == 0
  {
    hide Trim, HexDecode, Sum, Lrc, Check, ReadLine, Classify, Raw, Spelled, Text, AllWhite;
    var n := ReadsSome([], s);
    assert [] + s[..n] == s[..n];
    OwnLine(s[..n], unit, pdu);
    assert s[..n][1..] == s[1..n];
    text := Trim(s[1..n]);
    RawAddsUp(unit, pdu);
    SpelledMeans(text, Raw(unit, pdu));
    left, right := TrimParts(s[1..n]);
    Reassembled(s, n, Text(left), text, Text(right));
  }

  lemma Reassembled(s: seq<byte>, n: nat, a: seq<byte>, b: seq<byte>, c: seq<byte>)
    requires 1 <= n <= |s| && s[1..n] == a + b + c
    ensures s == [s[0]] + a + b + c + s[n..]
  {
    assert s == [s[0]] + s[1..n] + s[n..];
  }

  lemma RawAddsUp(unit: byte, pdu: seq<byte>)
    ensures Raw(unit, pdu) == [unit] + pdu + [Lrc([unit] + pdu)]
    ensures (Sum([unit] + pdu) + Lrc([unit] + pdu) as int) % 256 == 0
  {
    hide Sum, Lrc;
    RawIsBalanced(unit, pdu);
    SumOfParts([unit] + pdu, [Lrc([unit] + pdu)]);
    SumOfOne(Lrc([unit] + pdu));
  }

  lemma OwnLine(line: seq<byte>, unit: byte, pdu: seq<byte>)
    requires Check(line, unit) == Ok(pdu)
    ensures line != [] && line[0] == 58 && Classify(pdu).Ok? && pdu != []
    ensures |Trim(line[1..])| == 2 * |pdu| + 4
    ensures HexDecode(Trim(line[1..])) == Some(Raw(unit, pdu))
  {
    hide Trim, Sum, Lrc;
    var raw := HexDecode(Trim(line[1..])).value;
    var n := |raw| - 1;
    assert pdu == raw[1..n] && raw[..n] == [unit] + pdu;
    assert raw == raw[..n] + [raw[n]];
  }

  /** Longer frames are never accepted: 508 bytes of PDU are the exact limit. */
  lemma {:induction false} LongLineIsRefused(got: seq<byte>, s: seq<byte>)
    requires forall i :: 0 <= i < LONGEST_LINE - |got| && i < |s| ==> s[i] != NEWLINE
    ensures ReadLine(got, s).0.Err?
    decreases |s|
  {
    if |got| < LONGEST_LINE && s != [] {
      LongLineIsRefused(got + [s[0]], s[1..]);
    }
  }

  lemma FrameFitsExactly(unit: byte, pdu: seq<byte>, upper: bool, tail: seq<byte>)
    requires pdu != [] && Classify(pdu).Ok?
    ensures Decode(Frame(unit, pdu, upper) + tail, unit).0.Ok? <==> |pdu| <= 508
  {
    var f := Frame(unit, pdu, upper);
    FrameLine(unit, pdu, upper);
    if |pdu| <= 508 {
      RoundTrip(unit, pdu, upper, tail);
    } else {
      assert forall i :: 0 <= i < LONGEST_LINE ==> (f + tail)[i] == f[i];
      LongLineIsRefused([], f + tail);
    }
  }

  lemma CutShort(unit: byte, pdu: seq<byte>, upper: bool, n: nat)
    requires n < |Frame(unit, pdu, upper)| <= LONGEST_LINE
    ensures Decode(Frame(unit, pdu, upper)[..n], unit) == (Err(Io), [])
  {
    FrameLine(unit, pdu, upper);
    WaitsForNewline([], Frame(unit, pdu, upper)[..n]);
  }

  // ----- one damaged character

  /** Another digit in one place changes at most the byte it belongs to. */
  lemma OneDigitChanged(hex: seq<byte>, p: nat, c: byte)
    requires |hex| % 2 == 0 && p < |hex| && HexDecode(hex).Some? && IsDigit(c)
    ensures HexDecode(hex[p := c]).Some?
    ensures var raw, hit := HexDecode(hex).value, HexDecode(hex[p := c]).value;
            hit == raw[p / 2 := hit[p / 2]]
  {
    var s := hex[p := c];
    var raw, hit := HexDecode(hex).value, HexDecode(s).value;
    forall k | 0 <= k < |raw| && k != p / 2 ensures hit[k] == raw[k] {
      assert s[2 * k] == hex[2 * k] && s[2 * k + 1] == hex[2 * k + 1];
    }
  }

  /** A balanced sequence with one byte changed is refused, or is the same. */
  lemma OneByteChanged(raw: seq<byte>, k: nat, b: byte, unit: byte)
    requires |raw| >= 3 && k < |raw| && Sum(raw) % 256 == 0
    ensures CheckRaw(raw[k := b], unit).Ok? ==> b == raw[k]
  {
    hide Sum, Lrc, Classify;
    SumWithOneChanged(raw, k, b);
    BalancedMeansZero(raw[k := b]);
  }

  lemma TrimDamagedFront(s: seq<byte>, rest: seq<byte>)
    requires |s| >= 2 && Solid(s[1])
    ensures TrimLeft(s + rest) == (if White([s[0]]) then s[1..] + rest else s + rest)
  {
    hide TrimLeft, White;
    var u := s[1..] + rest;
    assert s + rest == [s[0]] + u;
    if White([s[0]]) {
      WhiteFront(u, s[0]);
      SolidFront(u);
    } else {
      OddFront(u, s[0]);
    }
  }

  lemma TrimDamagedBack(s: seq<byte>)
    requires |s| >= 2 && Solid(s[|s| - 2])
    ensures var n := |s|;
            TrimRight(s + [CR, NEWLINE]) == (if White([s[n - 1]]) then s[..n - 1] else s)
  {
    hide TrimRight;
    var n := |s|;
    assert s + [CR, NEWLINE] == s + [CR] + [NEWLINE];
    WhiteBack(s + [CR], NEWLINE);
    WhiteBack(s, CR);
    assert s == s[..n - 1] + [s[n - 1]];
    if White([s[n - 1]]) {
      WhiteBack(s[..n - 1], s[n - 1]);
      SolidBack(s[..n - 1]);
    } else {
      OddBack(s[..n - 1], s[n - 1]);
    }
  }

  /** Trimming leaves the damaged text alone, or takes exactly one character of an even number. */
  lemma TrimDamaged(hex: seq<byte>, p: nat, c: byte)
    requires 4 <= |hex| && |hex| % 2 == 0 && p < |hex|
    requires forall i :: 0 <= i < |hex| ==> Solid(hex[i])
    ensures var t := Trim(hex[p := c] + [CR, NEWLINE]);
            t == hex[p := c] || |t| % 2 == 1
  {
    hide TrimLeft, TrimRight, White;
    var s := hex[p := c];
    var n := |s|;
    if p == 0 {
      TrimDamagedFront(s, [CR, NEWLINE]);
      TrimsToDigitsAtEnd(s);
      TrimsToDigitsAtEnd(s[1..]);
    } else {
      SolidFront(s + [CR, NEWLINE]);
      if p == n - 1 {
        TrimDamagedBack(s);
      } else {
        TrimsToDigitsAtEnd(s);
      }
    }
  }

  /** hex spells out a balanced sequence. */
  ghost predicate Encodes(hex: seq<byte>, raw: seq<byte>) {
    && |raw| >= 3
    && |hex| == 2 * |raw|
    && HexDecode(hex) == Some(raw)
    && Sum(raw) % 256 == 0
  }

  lemma DamagedDigits(hex: seq<byte>, raw: seq<byte>, unit: byte, p: nat, c: byte)
    requires Encodes(hex, raw) && p < |hex|
    ensures Check(Line(hex[p := c]), unit).Ok? ==> Check(Line(hex[p := c]), unit) == CheckRaw(raw, unit)
  {
    var s := hex[p := c];
    assert Line(s)[1..] == s + [CR, NEWLINE];
    TrimDamaged(hex, p, c);
    if Check(Line(s), unit).Ok? {
      assert s[p] == c;
      OneDigitChanged(hex, p, c);
      var hit := HexDecode(s).value;
      OneByteChanged(raw, p / 2, hit[p / 2], unit);
      assert hit == raw;
    }
  }

  lemma NewlineIsWhite()
    ensures White([NEWLINE])
  {
  }

  lemma EncodedIsSolid(hex: seq<byte>, raw: seq<byte>)
    requires Encodes(hex, raw)
    ensures hex != [] && Solid(hex[0]) && Solid(hex[|hex| - 1])
    ensures |hex| % 2 == 0 && HexDecode(hex) == Some(raw)
  {
    assert IsDigit(hex[0]) && IsDigit(hex[|hex| - 1]);
  }

  lemma TrimDamagedReturn(hex: seq<byte>, c: byte)
    requires hex != [] && Solid(hex[0]) && Solid(hex[|hex| - 1])
    ensures Trim(hex + [c, NEWLINE]) == if White([c]) then hex else hex + [c]
  {
    hide TrimLeft, TrimRight, White;
    assert hex + [c, NEWLINE] == hex + [c] + [NEWLINE];
    NewlineIsWhite();
    SolidFront(hex + [c] + [NEWLINE]);
    WhiteBack(hex + [c], NEWLINE);
    if White([c]) {
      WhiteBack(hex, c);
      SolidBack(hex);
    } else {
      OddBack(hex, c);
    }
  }

  /** How a line is judged once its text is known. */
  lemma Judged(line: seq<byte>, text: seq<byte>, unit: byte)
    requires line != [] && line[0] == COLON && Trim(line[1..]) == text
    ensures |text| % 2 != 0 ==> Check(line, unit).Err?
    ensures |text| % 2 == 0 && HexDecode(text).Some? ==> Check(line, unit) == CheckRaw(HexDecode(text).value, unit)
  {
  }

  /** Every error has its cause: the colon, the digits, their number, the unit, the sum, an exception. */
  lemma EachErrorHasItsCause(line: seq<byte>, raw: seq<byte>, unit: byte)
    ensures line == [] || line[0] != 58 ==> Check(line, unit) == Err(BadText)
    ensures line != [] && (forall b :: !Spelled(Trim(line[1..]), b)) ==> Check(line, unit) == Err(BadText)
    ensures line != [] && line[0] == 58 && Spelled(Trim(line[1..]), raw) ==>
      Check(line, unit) ==
        if |raw| < 3 then Err(BadLength)
        else if raw[0] != unit then Err(UnitMismatch)
        else if Sum(raw) % 256 != 0 then Err(BadChecksum)
        else if |raw| >= 4 && raw[1] >= 128 then Err(Exception(raw[2]))
        else Ok(raw[1..|raw| - 1])
  {
    hide Trim, HexDecode, Sum, Lrc, Spelled;
    if line != [] {
      var text := Trim(line[1..]);
      SpelledMeans(text, raw);
      if |text| % 2 == 0 && HexDecode(text).Some? {
        SpelledMeans(text, HexDecode(text).value);
      }
      if raw != [] {
        BalancedMeansZero(raw);
      }
    }
  }

  lemma DamagedReturn(hex: seq<byte>, raw: seq<byte>, unit: byte, c: byte)
    requires Encodes(hex, raw)
    ensures var line := [COLON] + hex + [c, NEWLINE];
            Check(line, unit).Ok? ==> Check(line, unit) == CheckRaw(raw, unit)
  {
    hide Trim, HexDecode, CheckRaw, Encodes, White, Solid, Check;
    EncodedIsSolid(hex, raw);
    TrimDamagedReturn(hex, c);
    var line := [COLON] + hex + [c, NEWLINE];
    assert line[0] == COLON && line[1..] == hex + [c, NEWLINE];
    Judged(line, if White([c]) then hex else hex + [c], unit);
    assert |hex + [c]| % 2 == 1;
  }

  lemma FrameEncodes(unit: byte, pdu: seq<byte>, upper: bool)
    requires pdu != []
    ensures Encodes(HexEncode(Raw(unit, pdu), upper), Raw(unit, pdu))
    ensures CheckRaw(Raw(unit, pdu), unit) == Classify(pdu)
  {
    var raw := Raw(unit, pdu);
    HexRoundTrip(raw, upper);
    RawIsBalanced(unit, pdu);
    assert raw[1..|raw| - 1] == pdu;
  }

  lemma DamagedLine(hex: seq<byte>, raw: seq<byte>, unit: byte, p: nat, c: byte)
    requires Encodes(hex, raw) && p < |hex| + 2
    requires p == 0 ==> c != COLON
    ensures Check(Line(hex)[p := c], unit).Ok? ==> Check(Line(hex)[p := c], unit) == CheckRaw(raw, unit)
  {
    hide Encodes, CheckRaw, Trim, HexDecode;
    var f := Line(hex);
    if p == 0 {
      assert f[p := c][0] == c;
    } else if p < |f| - 2 {
      assert f[p := c] == Line(hex[p - 1 := c]);
      DamagedDigits(hex, raw, unit, p - 1, c);
    } else {
      assert f[p := c] == [COLON] + hex + [c, NEWLINE];
      DamagedReturn(hex, raw, unit, c);
    }
  }

  lemma DamagedFrame(unit: byte, pdu: seq<byte>, upper: bool, p: nat, c: byte)
    requires pdu != [] && p < |Frame(unit, pdu, upper)| - 1
    ensures var hit := Frame(unit, pdu, upper)[p := c];
            Check(hit, unit).Ok? ==> Check(hit, unit) == Ok(pdu)
  {
    var f := Frame(unit, pdu, upper);
    if p == 0 && c == COLON {
      assert f[p := c] == f;
      FrameChecks(unit, pdu, upper);
    } else {
      FrameEncodes(unit, pdu, upper);
      DamagedLine(HexEncode(Raw(unit, pdu), upper), Raw(unit, pdu), unit, p, c);
    }
  }

  /**
   * Replacing any one character of a frame, its colon and carriage return included, by anything but a
   * newline: the line is still read whole, and the client gets the same PDU or an error, never another PDU.
   */
  lemma OneDamagedCharacter(unit: byte, pdu: seq<byte>, upper: bool, p: nat, c: byte, tail: seq<byte>)
    requires pdu != [] && |Frame(unit, pdu, upper)| <= LONGEST_LINE
    requires p < |Frame(unit, pdu, upper)| - 1 && c != NEWLINE
    ensures var (r, rest) := Decode(Frame(unit, pdu, upper)[p := c] + tail, unit);
            rest == tail && (r.Ok? ==> r == Ok(pdu))
  {
    var hit := Frame(unit, pdu, upper)[p := c];
    FrameLine(unit, pdu, upper);
    ReadsOneLine([], hit, tail);
    assert [] + hit == hit;
    DamagedFrame(unit, pdu, upper, p, c);
  }

  // ----- damage to and by the newline

  /** What the client takes for the PDU when a newline cuts the text after k whole bytes. */
  predicate Accepts(unit: byte, pdu: seq<byte>, k: nat)
    requires k <= |pdu| + 2
  {
    k >= 3 && Sum(Raw(unit, pdu)[..k]) % 256 == 0 && Classify(pdu[..k - 2]).Ok?
  }

  lemma TrimsNewline(s: seq<byte>)
    requires forall i :: 0 <= i < |s| ==> Solid(s[i])
    ensures Trim(s + [NEWLINE]) == s
  {
    hide White;
    NewlineIsWhite();
    WhiteBack(s, NEWLINE);
    if s == [] {
      WhiteFront([], NEWLINE);
      assert [NEWLINE] + [] == [NEWLINE] && [] + [NEWLINE] == [NEWLINE];
      assert TrimLeft([]) == [] && TrimRight([]) == [];
    } else {
      SolidFront(s + [NEWLINE]);
      SolidBack(s);
    }
  }

  lemma DecodedPrefix(raw: seq<byte>, upper: bool, k: nat)
    requires k <= |raw|
    ensures HexDecode(HexEncode(raw, upper)[..2 * k]) == Some(raw[..k])
  {
    assert HexEncode(raw, upper)[..2 * k] == HexEncode(raw[..k], upper);
    HexRoundTrip(raw[..k], upper);
  }

  lemma InnerPart(u: byte, p: seq<byte>, x: byte, k: nat)
    requires 3 <= k <= |p| + 2
    ensures ([u] + p + [x])[..k][1..k - 1] == p[..k - 2]
  {
    var s := [u] + p + [x];
    SliceOfPrefix(s, k, 1, k - 1);
    assert s[1..k - 1] == (p + [x])[..k - 2];
  }

  lemma CutRaw(unit: byte, pdu: seq<byte>, k: nat)
    requires pdu != [] && k <= |pdu| + 2
    ensures var r := CheckRaw(Raw(unit, pdu)[..k], unit);
            && (r.Ok? <==> Accepts(unit, pdu, k))
            && (r.Ok? ==> r.value == pdu[..k - 2])
  {
    hide Sum, Lrc;
    var raw := Raw(unit, pdu);
    var cut := raw[..k];
    if k >= 3 {
      BalancedMeansZero(cut);
      InnerPart(unit, pdu, Lrc([unit] + pdu), k);
    }
  }

  /**
   * Replacing one character by a newline: the client reads up to there. It accepts the line exactly when
   * whole bytes are left and they balance, and then takes the PDU, or the beginning of it, for the reply.
   */
  lemma NewlineForCharacter(unit: byte, pdu: seq<byte>, upper: bool, p: nat, tail: seq<byte>)
    requires pdu != [] && |Frame(unit, pdu, upper)| <= LONGEST_LINE
    requires p < |Frame(unit, pdu, upper)| - 1
    ensures var f := Frame(unit, pdu, upper);
            var (r, rest) := Decode(f[p := NEWLINE] + tail, unit);
            && rest == f[p + 1..] + tail
            && (r.Ok? <==> p % 2 == 1 && Accepts(unit, pdu, p / 2))
            && (r.Ok? ==> r.value == pdu[..p / 2 - 2])
  {
    hide ReadLine, HexEncode, HexDecode, Trim, CheckRaw, Accepts;
    var raw := Raw(unit, pdu);
    var f := Frame(unit, pdu, upper);
    var s := f[p := NEWLINE] + tail;
    FrameLine(unit, pdu, upper);
    assert forall i :: 0 <= i < p ==> s[i] == f[i];
    LineEnds(s, p + 1);
    assert s[p + 1..] == f[p + 1..] + tail;
    if p > 0 {
      var hex := HexEncode(raw, upper);
      var text := hex[..p - 1];
      assert s[..p + 1][1..] == text + [NEWLINE];
      TrimsNewline(text);
      Judged(s[..p + 1], text, unit);
      if p % 2 == 1 {
        var k := p / 2;
        DecodedPrefix(raw, upper, k);
        CutRaw(unit, pdu, k);
      }
    }
  }

  lemma {:induction false} TrimKeepsSolid(s: seq<byte>, k: nat)
    requires 1 <= k <= |s| && Solid(s[k - 1])
    ensures k <= |TrimRight(s)| && TrimRight(s) <= s
    decreases |s|
  {
    var m := Trailing(s);
    if m != 0 {
      SolidOutlasts(s, k);
      TrimKeepsSolid(s[..|s| - m], k);
    }
  }

  lemma SolidOutlasts(s: seq<byte>, k: nat)
    requires 1 <= k <= |s| && Solid(s[k - 1])
    ensures k <= |s| - Trailing(s)
  {
    var m := Trailing(s);
    if m != 0 && k > |s| - m {
      var c := s[|s| - m..];
      assert White(c) && c[k - 1 - (|s| - m)] == s[k - 1];
      WhiteIsNotSolid(c, k - 1 - (|s| - m));
    }
  }

  /** Losing the newline: the line goes on with what follows, and gives the same PDU or an error. */
  lemma NewlineLost(unit: byte, pdu: seq<byte>, upper: bool, c: byte, tail: seq<byte>)
    requires pdu != [] && c != NEWLINE
    ensures var f := Frame(unit, pdu, upper);
            var r := Decode(f[|f| - 1 := c] + tail, unit).0;
            r.Ok? ==> r == Ok(pdu)
  {
    hide ReadLine, Trim, HexEncode, HexDecode, CheckRaw, White;
    var f := Frame(unit, pdu, upper);
    var s := f[|f| - 1 := c] + tail;
    var (got, rest) := ReadLine([], s);
    if got.Ok? {
      FrameLine(unit, pdu, upper);
      var n := ReadsSome([], s);
      assert s[..|f| - 1] == f[..|f| - 1];
      assert n >= |f|;
      assert [] + s[..n] == s[..n];
      LongerLine(unit, pdu, upper, s[..n]);
    }
  }

  /** A line that is read is the beginning of the stream up to the first newline. */
  lemma {:induction false} ReadsSome(got: seq<byte>, s: seq<byte>) returns (n: nat)
    requires ReadLine(got, s).0.Ok?
    ensures 1 <= n <= |s| && |got| + n <= LONGEST_LINE && s[n - 1] == NEWLINE
    ensures forall i :: 0 <= i < n - 1 ==> s[i] != NEWLINE
    ensures ReadLine(got, s) == (Ok(got + s[..n]), s[n..])
    decreases |s|
  {
    if s[0] == NEWLINE {
      n := 1;
      assert s[..1] == [s[0]];
    } else {
      var m := ReadsSome(got + [s[0]], s[1..]);
      n := m + 1;
      assert got + [s[0]] + s[1..][..m] == got + s[..n];
      assert s[1..][m..] == s[n..];
      assert forall i :: 1 <= i < n - 1 ==> s[i] == s[1..][i - 1];
    }
  }

  lemma LongerLine(unit: byte, pdu: seq<byte>, upper: bool, line: seq<byte>)
    requires pdu != []
    requires var f := Frame(unit, pdu, upper); |line| >= |f| && line[..|f| - 1] == f[..|f| - 1]
    ensures Check(line, unit).Ok? ==> Check(line, unit) == Ok(pdu)
  {
    hide TrimRight, TrimLeft, HexEncode, White, CheckRaw, Classify;
    var f := Frame(unit, pdu, upper);
    var hex := HexEncode(Raw(unit, pdu), upper);
    var rest := line[1..];
    assert forall i :: 0 <= i < |hex| ==> rest[i] == line[i + 1] == f[i + 1] == hex[i];
    assert rest[|hex|] == line[|f| - 2] == f[|f| - 2] == CR;
    SolidFront(rest);
    TrimKeepsSolid(rest, |hex|);
    var text := TrimRight(rest);
    if |text| > |hex| {
      assert text[|hex|] == CR;
    } else {
      assert text == hex;
      FrameEncodes(unit, pdu, upper);
    }
    ClassifyKeeps(pdu);
  }

  lemma ClassifyKeeps(pdu: seq<byte>)
    ensures Classify(pdu).Ok? ==> Classify(pdu).value == pdu
  {
  }

  /** A whole line has arrived, or as much of one as the client is willing to read. */
  predicate Complete(got: seq<byte>) {
    |got| > 0 && (got[|got| - 1] == NEWLINE || |got| >= LONGEST_LINE)
  }

  /** A line of 1024 characters without a newline is given up. */
  lemma {:induction false} LineTooLong(got: seq<byte>, s: seq<byte>, k: nat)
    requires |got| + k == LONGEST_LINE && k <= |s| && NEWLINE !in s[..k]
    ensures ReadLine(got, s) == (Err(BadLength), s[k..])
    decreases k
  {
    if k > 0 {
      assert s[0] == s[..k][0];
      assert s[1..][..k - 1] == s[..k][1..];
      LineTooLong(got + [s[0]], s[1..], k - 1);
    }
  }

  lemma ShortestLine(s: seq<byte>, n: nat)
    requires n <= |s| && Complete(s[..n])
    requires forall k :: 0 <= k < n ==> !Complete(s[..k])
    ensures 1 <= n <= LONGEST_LINE && (forall i :: 0 <= i < n - 1 ==> s[i] != NEWLINE)
    ensures s[n - 1] == NEWLINE || n == LONGEST_LINE
  {
    forall i | 0 <= i < n - 1 ensures s[i] != NEWLINE {
      assert !Complete(s[..i + 1]);
      assert s[..i + 1][i] == s[i];
    }
    if n > LONGEST_LINE {
      assert Complete(s[..LONGEST_LINE]);
    }
  }

  lemma LineEnds(s: seq<byte>, k: nat)
    requires 1 <= k <= |s| && k <= LONGEST_LINE && s[k - 1] == NEWLINE
    requires forall i :: 0 <= i < k - 1 ==> s[i] != NEWLINE
    ensures ReadLine([], s) == (Ok(s[..k]), s[k..])
  {
    hide ReadLine;
    ReadsOneLine([], s[..k], s[k..]);
    assert s == s[..k] + s[k..];
    assert [] + s[..k] == s[..k];
  }

  /** The client reads up to the first point at which what it has is complete, and judges that. */
  lemma DecodeTakesShortest(s: seq<byte>, n: nat, unit: byte)
    requires n <= |s| && Complete(s[..n])
    requires forall k :: 0 <= k < n ==> !Complete(s[..k])
    ensures Decode(s, unit) == (Decode(s[..n], unit).0, s[n..])
  {
    hide Check, ReadLine, Complete;
    ShortestLine(s, n);
    var line := s[..n];
    assert line[..n] == line;
    if s[n - 1] == NEWLINE {
      LineEnds(s, n);
      LineEnds(line, n);
    } else {
      assert forall i :: 0 <= i < n ==> s[i] != NEWLINE && line[i] == s[i];
      LineTooLong([], s, n);
      LineTooLong([], line, n);
    }
  }
}
