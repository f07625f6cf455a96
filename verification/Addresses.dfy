/** Address strings: parseSiemensAddress, parseDAddress and the Modbus parseAddress, on UTF-8 bytes. */
module Addresses {
  import opened Bytes
  import opened WhiteSpace

  datatype Area = DB | M | I | Q

  datatype SiemensAddress = SiemensAddress(area: Area, db: int, pos: int)

  const LETTER_B: byte := 66
  const LETTER_D: byte := 68
  const LETTER_I: byte := 73
  const LETTER_M: byte := 77
  const LETTER_Q: byte := 81
  const LETTER_S: byte := 83
  const LETTER_W: byte := 87
  const PLUS: byte := 43
  const MINUS: byte := 45
  const DOT: byte := 46
  const ZERO: byte := 48

  // ----- Go's library: strings.ToUpper, strings.Split, strconv

  function UpperByte(b: byte): byte {
    if 97 <= b <= 122 then b - 32 else b
  }

  /** How many bytes the character at the front takes, as far as upper case is concerned. */
  function Width(s: seq<byte>): (n: nat)
    requires s != []
    ensures 1 <= n <= |s|
  {
    if |s| >= 2 && ((s[0] == 0xC4 && s[1] == 0xB1) || (s[0] == 0xC5 && s[1] == 0xBF)) then 2 else 1
  }

  function Capital(s: seq<byte>): byte
    requires s != []
  {
    if Width(s) == 1 then UpperByte(s[0]) else if s[0] == 0xC4 then LETTER_I else LETTER_S
  }

  /**
   * strings.ToUpper. Two characters beyond ASCII have an upper-case letter within it: the dotless i and the
   * long s. All others stay beyond ASCII; what becomes of them there makes no difference to the parsers.
   */
  function Upper(s: seq<byte>): seq<byte>
    decreases |s|
  {
    if s == [] then [] else [Capital(s)] + Upper(s[Width(s)..])
  }

  function Split(s: seq<byte>, at: byte): (parts: seq<seq<byte>>)
    ensures parts != []
    decreases |s|
  {
    if s == [] then [[]]
    else if s[0] == at then [[]] + Split(s[1..], at)
    else
      var parts := Split(s[1..], at);
      [[s[0]] + parts[0]] + parts[1..]
  }

  predicate IsDecimal(b: byte) {
    48 <= b <= 57
  }

  /** The digit loop of strconv, left to right. */
  function Accumulate(acc: nat, s: seq<byte>): Option<nat>
    decreases |s|
  {
    if s == [] then Some(acc)
    else if IsDecimal(s[0]) then Accumulate(10 * acc + (s[0] - ZERO) as int, s[1..])
    else None
  }

  function ParseUint(s: seq<byte>, max: nat): (r: Option<nat>)
    ensures r.Some? ==> r.value <= max
  {
    if s == [] then None
    else match Accumulate(0, s)
         case None => None
         case Some(n) => if n > max then None else Some(n)
  }

  const INT_MAX := 0x7FFF_FFFF_FFFF_FFFF

  function Atoi(s: seq<byte>): Option<int> {
    if s == [] then None
    else
      var digits := if s[0] in {PLUS, MINUS} then s[1..] else s;
      match ParseUint(digits, if s[0] == MINUS then INT_MAX + 1 else INT_MAX)
      case None => None
      case Some(n) =>
        var v: int := n;
        Some(if s[0] == MINUS then -v else v)
  }

  predicate HasPrefix(s: seq<byte>, prefix: seq<byte>) {
    |prefix| <= |s| && s[..|prefix|] == prefix
  }

  // ----- the parsers

  function ParseSiemensAddress(address: seq<byte>): Option<SiemensAddress> {
    var addr := Upper(Trim(address));
    if addr == [] then None
    else if HasPrefix(addr, [LETTER_D, LETTER_B]) then ParseBlock(addr)
    else
      var offset := Atoi(addr[1..]);
      if offset.None? || offset.value < 0 || offset.value > 65535 then None
      else if addr[0] == LETTER_M then Some(SiemensAddress(M, 0, offset.value))
      else if addr[0] == LETTER_I then Some(SiemensAddress(I, 0, offset.value))
      else if addr[0] == LETTER_Q then Some(SiemensAddress(Q, 0, offset.value))
      else None
  }

  function ParseBlock(addr: seq<byte>): Option<SiemensAddress>
    requires HasPrefix(addr, [LETTER_D, LETTER_B])
  {
    var parts := Split(addr, DOT);
    if |parts| != 2 || |parts[0]| < 2 then None
    else
      var db := Atoi(parts[0][2..]);
      var part := parts[1];
      if db.None? || db.value < 1 || db.value > 65535 then None
      else if !(|part| >= 3 && part[..2] == [LETTER_D, LETTER_B] && part[2] in {LETTER_B, LETTER_W, LETTER_D}) then None
      else
        var offset := Atoi(part[3..]);
        if offset.None? || offset.value < 0 || offset.value > 65535 then None
        else Some(SiemensAddress(DB, db.value, offset.value))
  }

  function ParseDAddress(address: seq<byte>): (r: Option<nat>)
    ensures r.Some? ==> r.value <= 65535
  {
    var addr := Trim(Upper(address));
    if |addr| < 2 || addr[0] != LETTER_D then None else ParseUint(addr[1..], 65535)
  }

  function ParseModbusAddress(address: seq<byte>): (r: Option<nat>)
    ensures r.Some? ==> r.value <= 65535
  {
    ParseUint(Trim(address), 65535)
  }

  // ----- numerals

  predicate AllDecimal(s: seq<byte>) {
    forall i :: 0 <= i < |s| ==> IsDecimal(s[i])
  }

  /** The number that decimal digits stand for. */
  function Value(s: seq<byte>): nat
    requires AllDecimal(s)
  {
    if s == [] then 0 else 10 * Value(s[..|s| - 1]) + (s[|s| - 1] - 48) as int
  }

  predicate Unsigned(s: seq<byte>, n: int) {
    s != [] && AllDecimal(s) && Value(s) == n
  }

  /** A plus sign is allowed, and so is the minus sign of a negative number or of zero. */
  predicate Signed(s: seq<byte>, n: int) {
    || Unsigned(s, n)
    || (s != [] && s[0] == 43 && Unsigned(s[1..], n))
    || (s != [] && s[0] == 45 && Unsigned(s[1..], -n))
  }

  lemma {:induction false} AccumulateLast(acc: nat, s: seq<byte>, b: byte)
    ensures Accumulate(acc, s + [b]) ==
      match Accumulate(acc, s)
      case None => None
      case Some(v) => if IsDecimal(b) then Some(10 * v + (b - ZERO) as int) else None
    decreases |s|
  {
    if s == [] {
      assert [b][1..] == [];
    } else {
      assert (s + [b])[1..] == s[1..] + [b];
      if IsDecimal(s[0]) {
        AccumulateLast(10 * acc + (s[0] - ZERO) as int, s[1..], b);
      }
    }
  }

  /** The left-to-right loop computes the positional value, and fails on anything but digits. */
  lemma {:induction false} AccumulateMeans(s: seq<byte>)
    ensures Accumulate(0, s) == if AllDecimal(s) then Some(Value(s)) else None
    decreases |s|
  {
    if s != [] {
      var n := |s| - 1;
      AccumulateMeans(s[..n]);
      AccumulateLast(0, s[..n], s[n]);
      assert s == s[..n] + [s[n]];
      assert AllDecimal(s) <==> AllDecimal(s[..n]) && IsDecimal(s[n]);
    }
  }

  /** Atoi gives n for the signed numerals of n and for nothing else, within the range of int. */
  lemma AtoiMeans(s: seq<byte>, n: int)
    ensures Atoi(s) == Some(n) <==> Signed(s, n) && -0x8000_0000_0000_0000 <= n < 0x8000_0000_0000_0000
  {
    hide Accumulate, Value;
    AccumulateMeans(s);
    if s != [] {
      AccumulateMeans(s[1..]);
      assert AllDecimal(s) ==> IsDecimal(s[0]);
    }
  }

  lemma {:induction false} LeadingZeros(k: nat, s: seq<byte>)
    requires AllDecimal(s)
    ensures AllDecimal(seq(k, _ => 48) + s) && Value(seq(k, _ => 48) + s) == Value(s)
    decreases |s|, k
  {
    var z: seq<byte> := seq(k, _ => 48);
    if s != [] {
      var n := |s| - 1;
      LeadingZeros(k, s[..n]);
      assert (z + s)[..k + n] == z + s[..n];
    } else if k != 0 {
      LeadingZeros(k - 1, s);
      assert (z + s)[..k - 1] == seq(k - 1, _ => 48) + s;
    }
  }

  /** strconv.Itoa for numbers that are not negative. */
  function Decimal(n: nat): (s: seq<byte>)
    ensures s != [] && AllDecimal(s)
  {
    if n < 10 then [48 + n] else Decimal(n / 10) + [48 + n % 10]
  }

  lemma {:induction false} DecimalMeans(n: nat)
    ensures Value(Decimal(n)) == n
  {
    if n >= 10 {
      DecimalMeans(n / 10);
      assert Decimal(n)[..|Decimal(n)| - 1] == Decimal(n / 10);
    } else {
      assert Decimal(n)[..0] == [];
    }
  }

  /** n with `zeros` zeros in front. */
  function Numeral(n: nat, zeros: nat): seq<byte> {
    seq(zeros, _ => 48) + Decimal(n)
  }

  lemma NumeralMeans(n: nat, zeros: nat)
    ensures Unsigned(Numeral(n, zeros), n)
  {
    DecimalMeans(n);
    LeadingZeros(zeros, Decimal(n));
  }

  // ----- what the parsers accept

  function Letter(area: Area): byte {
    match area case DB => 68 case M => 77 case I => 73 case Q => 81
  }

  /** In character codes: DB, a numeral, a dot, DB with B, W or D, and a numeral. */
  predicate SpelledBlock(t: seq<byte>, a: SiemensAddress, x: seq<byte>, kind: byte, y: seq<byte>) {
    && t == [68, 66] + x + [46, 68, 66, kind] + y
    && kind in {66, 87, 68}
    && Signed(x, a.db) && Signed(y, a.pos)
  }

  predicate InRange(a: SiemensAddress) {
    && 0 <= a.pos <= 65535
    && (if a.area.DB? then 1 <= a.db <= 65535 else a.db == 0)
  }

  /** t, in capital letters and without white space around it, is one of the ways to write a. */
  ghost predicate Spelled(t: seq<byte>, a: SiemensAddress) {
    && InRange(a)
    && if a.area.DB? then exists x, kind, y :: SpelledBlock(t, a, x, kind, y)
       else t != [] && t[0] == Letter(a.area) && Signed(t[1..], a.pos)
  }

  lemma {:induction false} SplitNowhere(s: seq<byte>, at: byte)
    requires at !in s
    ensures Split(s, at) == [s]
    decreases |s|
  {
    if s != [] {
      SplitNowhere(s[1..], at);
      assert [s[0]] + s[1..] == s;
    }
  }

  lemma {:induction false} SplitOnce(x: seq<byte>, y: seq<byte>, at: byte)
    requires at !in x && at !in y
    ensures Split(x + [at] + y, at) == [x, y]
    decreases |x|
  {
    var s := x + [at] + y;
    if x == [] {
      SplitNowhere(y, at);
      assert s[1..] == y;
    } else {
      assert s[1..] == x[1..] + [at] + y;
      SplitOnce(x[1..], y, at);
      assert [x[0]] + x[1..] == x;
    }
  }

  /** The parts, put together again, are the whole. */
  function Join(parts: seq<seq<byte>>, at: byte): seq<byte>
    requires parts != []
  {
    if |parts| == 1 then parts[0] else parts[0] + [at] + Join(parts[1..], at)
  }

  lemma {:induction false} JoinSplit(s: seq<byte>, at: byte)
    ensures Join(Split(s, at), at) == s
    decreases |s|
  {
    if s != [] {
      JoinSplit(s[1..], at);
      var parts := Split(s[1..], at);
      if s[0] == at {
        assert ([[]] + parts)[1..] == parts;
      } else {
        var joined := [[s[0]] + parts[0]] + parts[1..];
        assert joined[1..] == parts[1..];
        assert Join(joined, at) == [s[0]] + Join(parts, at);
      }
    }
  }

  lemma SignedHasNoDot(s: seq<byte>, n: int)
    requires Signed(s, n)
    ensures DOT !in s
  {
  }

  /** A block spelled this way is read as such. */
  lemma BlockParses(t: seq<byte>, a: SiemensAddress, x: seq<byte>, kind: byte, y: seq<byte>)
    requires SpelledBlock(t, a, x, kind, y) && InRange(a) && a.area.DB?
    ensures HasPrefix(t, [LETTER_D, LETTER_B]) && ParseBlock(t) == Some(a)
  {
    hide Signed, Atoi;
    SignedHasNoDot(x, a.db);
    SignedHasNoDot(y, a.pos);
    var front: seq<byte> := [LETTER_D, LETTER_B];
    var first, second := front + x, front + [kind] + y;
    assert t == first + [DOT] + second;
    SplitOnce(first, second, DOT);
    assert t[..2] == front && first[2..] == x && second[..2] == front && second[3..] == y;
    AtoiMeans(x, a.db);
    AtoiMeans(y, a.pos);
  }

  lemma ParsedBlock(t: seq<byte>, a: SiemensAddress)
    requires HasPrefix(t, [LETTER_D, LETTER_B]) && ParseBlock(t) == Some(a)
    ensures a.area.DB? && Spelled(t, a)
  {
    hide Signed, Atoi;
    var parts := Split(t, DOT);
    var x, kind, y := parts[0][2..], parts[1][2], parts[1][3..];
    JoinSplit(t, DOT);
    assert parts[1..][0] == parts[1];
    assert t == parts[0] + [DOT] + parts[1];
    assert t[0] == parts[0][0] && t[1] == parts[0][1];
    assert parts[0] == [LETTER_D, LETTER_B] + x;
    assert parts[1] == [LETTER_D, LETTER_B, kind] + y;
    AtoiMeans(x, a.db);
    AtoiMeans(y, a.pos);
    assert SpelledBlock(t, a, x, kind, y);
  }

  // ----- white space around an address, and its letters in any case

  lemma LeadingWhite(c: seq<byte>, s: seq<byte>)
    requires White(c)
    ensures Leading(c + s) == |c| > 0
  {
    var t := c + s;
    assert t[..|c|] == c;
    assert t[0] == c[0];
    assert |c| == 3 ==> t[..2] == c[..2];
  }

  lemma TrailingWhite(s: seq<byte>, c: seq<byte>)
    requires White(c)
    ensures Trailing(s + c) == |c| > 0
  {
    var t := s + c;
    var n := |t|;
    assert t[n - |c|..] == c;
    assert t[n - 1] == c[|c| - 1];
    assert |c| == 3 ==> t[n - 2..] == c[1..];
  }

  lemma {:induction false} TrimsFront(chars: seq<seq<byte>>, s: seq<byte>)
    requires AllWhite(chars) && Leading(s) == 0
    ensures TrimLeft(Text(chars) + s) == s
    decreases |chars|
  {
    hide Leading, White;
    if chars == [] {
      assert Text(chars) + s == s;
    } else {
      var rest := Text(chars[1..]) + s;
      assert Text(chars) + s == chars[0] + rest;
      LeadingWhite(chars[0], rest);
      assert (chars[0] + rest)[|chars[0]|..] == rest;
      TrimsFront(chars[1..], s);
    }
  }

  lemma {:induction false} TrimsBack(s: seq<byte>, chars: seq<seq<byte>>)
    requires AllWhite(chars) && Trailing(s) == 0
    ensures TrimRight(s + Text(chars)) == s
    decreases |chars|
  {
    hide Trailing, White;
    if chars == [] {
      assert s + Text(chars) == s;
    } else {
      var n := |chars| - 1;
      var rest := s + Text(chars[..n]);
      TextSnoc(chars[..n], chars[n]);
      assert chars == chars[..n] + [chars[n]];
      assert s + Text(chars) == rest + chars[n];
      TrailingWhite(rest, chars[n]);
      assert (rest + chars[n])[..|rest|] == rest;
      TrimsBack(s, chars[..n]);
    }
  }

  predicate FramedLikeAddress(t: seq<byte>) {
    t != [] && (65 <= t[0] < 0x80 || t[0] in {0xC4, 0xC5}) && IsDecimal(t[|t| - 1])
  }

  /** White space neither starts like an address nor ends with a digit. */
  lemma WhiteEnds(c: seq<byte>)
    requires White(c)
    ensures c != [] && !(65 <= c[0] < 0x80) && c[0] !in {0xC4, 0xC5} && !IsDecimal(c[|c| - 1])
  {
  }

  lemma NoLeading(s: seq<byte>)
    requires s != [] && (65 <= s[0] < 0x80 || s[0] in {0xC4, 0xC5})
    ensures Leading(s) == 0
  {
    hide White;
    forall k | 1 <= k <= |s| ensures !White(s[..k]) {
      if White(s[..k]) {
        WhiteEnds(s[..k]);
      }
    }
  }

  lemma NoTrailing(s: seq<byte>)
    requires s != [] && IsDecimal(s[|s| - 1])
    ensures Trailing(s) == 0
  {
    hide White;
    forall k | 0 <= k < |s| ensures !White(s[k..]) {
      if White(s[k..]) {
        WhiteEnds(s[k..]);
      }
    }
  }

  /** Text that starts with a letter and ends with a digit: white space around it is all that goes. */
  lemma TrimsAround(left: seq<seq<byte>>, t: seq<byte>, right: seq<seq<byte>>)
    requires AllWhite(left) && AllWhite(right)
    requires FramedLikeAddress(t)
    ensures Trim(Text(left) + t + Text(right)) == t
  {
    hide TrimLeft, TrimRight, Text, Leading, Trailing, AllWhite;
    var u := t + Text(right);
    assert Text(left) + t + Text(right) == Text(left) + u;
    NoLeading(u);
    NoTrailing(t);
    TrimsFront(left, u);
    TrimsBack(t, right);
  }

  lemma WidthStays(s: seq<byte>, t: seq<byte>)
    requires s != [] && s[|s| - 1] !in {0xC4, 0xC5}
    ensures Width(s + t) == Width(s) && Capital(s + t) == Capital(s)
  {
    assert (s + t)[0] == s[0];
    assert |s| >= 2 ==> (s + t)[1] == s[1];
  }

  lemma {:induction false} UpperAppend(s: seq<byte>, t: seq<byte>)
    requires s != [] ==> s[|s| - 1] !in {0xC4, 0xC5}
    ensures Upper(s + t) == Upper(s) + Upper(t)
    decreases |s|
  {
    hide Width, Capital;
    if s == [] {
      assert s + t == t;
    } else {
      var n := Width(s);
      WidthStays(s, t);
      assert (s + t)[n..] == s[n..] + t;
      UpperAppend(s[n..], t);
    }
  }

  lemma UpperWhite(c: seq<byte>)
    requires White(c)
    ensures Upper(c) == c
  {
    assert |c| >= 2 ==> Upper(c[1..]) == c[1..] by {
      assert |c| == 3 ==> Upper(c[1..][1..]) == c[1..][1..];
    }
  }

  lemma {:induction false} UpperBlank(chars: seq<seq<byte>>)
    requires AllWhite(chars)
    ensures Upper(Text(chars)) == Text(chars)
    ensures Text(chars) != [] ==> Text(chars)[|Text(chars)| - 1] !in {0xC4, 0xC5}
    decreases |chars|
  {
    if chars != [] {
      UpperBlank(chars[1..]);
      UpperWhite(chars[0]);
      UpperAppend(chars[0], Text(chars[1..]));
    }
  }

  /** A text whose capital form starts with a letter and ends with a digit does so itself. */
  lemma UpperEnds(t: seq<byte>)
    requires Upper(t) != [] && 65 <= Upper(t)[0] <= 90 && IsDecimal(Upper(t)[|Upper(t)| - 1])
    ensures FramedLikeAddress(t)
  {
    UpperEndsInDigit(t);
  }

  lemma {:induction false} UpperEndsInDigit(t: seq<byte>)
    requires Upper(t) != [] && IsDecimal(Upper(t)[|Upper(t)| - 1])
    ensures t != [] && IsDecimal(t[|t| - 1])
    decreases |t|
  {
    var n := Width(t);
    if Upper(t[n..]) != [] {
      UpperEndsInDigit(t[n..]);
    }
  }

  lemma UpperAround(left: seq<seq<byte>>, t: seq<byte>, right: seq<seq<byte>>)
    requires AllWhite(left) && AllWhite(right) && FramedLikeAddress(t)
    ensures Upper(Text(left) + t + Text(right)) == Text(left) + Upper(t) + Text(right)
  {
    hide Upper, Text, AllWhite;
    UpperBlank(left);
    UpperBlank(right);
    UpperAppend(t, Text(right));
    UpperAppend(Text(left), t + Text(right));
    assert Text(left) + t + Text(right) == Text(left) + (t + Text(right));
  }

  // ----- and back: what upper-casing and trimming have taken away

  /**
   * The ways to write a character b of an address: as it is, or, if it is a capital letter, as the small one;
   * the dotless i and the long s are small forms of I and S. Codes of characters and of UTF-8.
   */
  predicate Form(c: seq<byte>, b: byte) {
    || (c == [b] && !(97 <= b <= 122))
    || (65 <= b <= 90 && c == [b + 32])
    || (b == 73 && c == [0xC4, 0xB1])
    || (b == 83 && c == [0xC5, 0xBF])
  }

  predicate Dressed(chars: seq<seq<byte>>, p: seq<byte>) {
    |chars| == |p| && forall i :: 0 <= i < |p| ==> Form(chars[i], p[i])
  }

  lemma {:induction false} UpperPieces(s: seq<byte>) returns (chars: seq<seq<byte>>)
    ensures Text(chars) == s && Dressed(chars, Upper(s))
    decreases |s|
  {
    chars := [];
    if s != [] {
      var n := Width(s);
      var more := UpperPieces(s[n..]);
      assert n == 1 ==> s[..n] == [s[0]];
      assert n == 2 ==> s[..n] == [s[0], s[1]];
      assert Form(s[..n], Capital(s));
      chars := [s[..n]] + more;
      assert chars[1..] == more;
    }
  }

  predicate Ascii(p: seq<byte>) {
    forall i :: 0 <= i < |p| ==> p[i] < 0x80
  }

  lemma PieceAtFront(c: seq<byte>, b: byte, rest: seq<byte>)
    requires Form(c, b) && b < 0x80
    ensures c + rest != [] && Width(c + rest) == |c| && Capital(c + rest) == b
  {
    assert (c + rest)[0] == c[0];
    assert |c| == 2 ==> (c + rest)[1] == c[1];
  }

  lemma {:induction false} UpperOfPieces(chars: seq<seq<byte>>, p: seq<byte>)
    requires Dressed(chars, p) && Ascii(p)
    ensures Upper(Text(chars)) == p
    decreases |p|
  {
    hide Form, Width, Capital;
    if p != [] {
      UpperOfPieces(chars[1..], p[1..]);
      var c, rest := chars[0], Text(chars[1..]);
      PieceAtFront(c, p[0], rest);
      assert (c + rest)[|c|..] == rest;
      assert p == [p[0]] + p[1..];
    }
  }

  lemma {:induction false} TextAppend(a: seq<seq<byte>>, b: seq<seq<byte>>)
    ensures Text(a + b) == Text(a) + Text(b)
    decreases |a|
  {
    if a == [] {
      assert a + b == b;
    } else {
      assert (a + b)[1..] == a[1..] + b;
      TextAppend(a[1..], b);
    }
  }

  predicate NoCapitals(s: seq<byte>) {
    forall i :: 0 <= i < |s| ==> !(65 <= s[i] <= 90)
  }

  lemma {:induction false} BlankHasNoCapitals(chars: seq<seq<byte>>)
    requires AllWhite(chars)
    ensures NoCapitals(Text(chars))
    decreases |chars|
  {
    if chars != [] {
      BlankHasNoCapitals(chars[1..]);
    }
  }

  lemma {:induction false} PlainPieces(chars: seq<seq<byte>>, w: seq<byte>)
    requires Dressed(chars, w) && NoCapitals(w)
    ensures Text(chars) == w
    decreases |w|
  {
    if w != [] {
      assert Form(chars[0], w[0]);
      PlainPieces(chars[1..], w[1..]);
      assert w == [w[0]] + w[1..];
    }
  }

  // ----- which strings are accepted

  /** s is p, in any mixture of letter cases, with white space around it. */
  ghost predicate WrittenAs(s: seq<byte>, p: seq<byte>) {
    exists left, chars, right :: WrittenWith(s, left, chars, right, p)
  }

  predicate WrittenWith(s: seq<byte>, left: seq<seq<byte>>, chars: seq<seq<byte>>, right: seq<seq<byte>>, p: seq<byte>) {
    AllWhite(left) && AllWhite(right) && Dressed(chars, p) && s == Text(left) + Text(chars) + Text(right)
  }

  predicate LikeCapitals(p: seq<byte>) {
    p != [] && 65 <= p[0] <= 90 && IsDecimal(p[|p| - 1]) && Ascii(p)
  }

  lemma SignedEnds(s: seq<byte>, n: int)
    requires Signed(s, n)
    ensures s != [] && IsDecimal(s[|s| - 1]) && Ascii(s)
  {
    hide Value;
    assert s[0] in {43, 45} && !Unsigned(s, n) ==> s[1..] != [] && s[1..][|s| - 2] == s[|s| - 1];
    forall i | 0 <= i < |s| ensures s[i] < 0x80 {
      assert i > 0 ==> s[1..][i - 1] == s[i];
    }
  }

  lemma SpelledEnds(p: seq<byte>, a: SiemensAddress)
    requires Spelled(p, a)
    ensures LikeCapitals(p)
  {
    hide Signed;
    if a.area.DB? {
      var x, kind, y :| SpelledBlock(p, a, x, kind, y);
      SignedEnds(x, a.db);
      SignedEnds(y, a.pos);
      assert p[|p| - 1] == y[|y| - 1];
    } else {
      SignedEnds(p[1..], a.pos);
      assert p[|p| - 1] == p[1..][|p| - 2];
      forall i | 0 <= i < |p| ensures p[i] < 0x80 {
        assert i > 0 ==> p[1..][i - 1] == p[i];
      }
    }
  }

  /** Upper-casing and trimming, in either order, find the address under its dress. */
  lemma Undressed(s: seq<byte>, left: seq<seq<byte>>, chars: seq<seq<byte>>, right: seq<seq<byte>>, p: seq<byte>)
    requires WrittenWith(s, left, chars, right, p) && LikeCapitals(p)
    ensures Upper(Trim(s)) == p && Trim(Upper(s)) == p
  {
    hide Upper, Trim, Text, AllWhite, Form;
    var t := Text(chars);
    UpperOfPieces(chars, p);
    UpperEnds(t);
    TrimsAround(left, t, right);
    UpperAround(left, t, right);
    TrimsAround(left, p, right);
  }

  lemma TrimmedIsWritten(s: seq<byte>)
    ensures WrittenAs(s, Upper(Trim(s)))
  {
    hide Upper, Trim, Text, AllWhite, Dressed;
    var left, right := TrimParts(s);
    var chars := UpperPieces(Trim(s));
    assert WrittenWith(s, left, chars, right, Upper(Trim(s)));
  }

  lemma UpperIsWritten(s: seq<byte>)
    ensures WrittenAs(s, Trim(Upper(s)))
  {
    hide Upper, Trim, Text, AllWhite, Form, NoCapitals;
    var u := Upper(s);
    var p := Trim(u);
    var left, right := TrimParts(u);
    var chars := UpperPieces(s);
    var i := |Text(left)|;
    var j := i + |p|;
    assert u[..i] == Text(left) && u[i..j] == p && u[j..] == Text(right);
    assert Dressed(chars[..i], u[..i]) && Dressed(chars[i..j], p) && Dressed(chars[j..], u[j..]);
    BlankHasNoCapitals(left);
    BlankHasNoCapitals(right);
    PlainPieces(chars[..i], Text(left));
    PlainPieces(chars[j..], Text(right));
    TextAppend(chars[..i], chars[i..j]);
    TextAppend(chars[..i] + chars[i..j], chars[j..]);
    assert chars == chars[..i] + chars[i..j] + chars[j..];
    assert WrittenWith(s, left, chars[i..j], right, p);
  }

  lemma SiemensSpelled(address: seq<byte>, a: SiemensAddress)
    ensures ParseSiemensAddress(address) == Some(a) <==> Spelled(Upper(Trim(address)), a)
  {
    hide Upper, Trim, Signed, Atoi, ParseBlock;
    var t := Upper(Trim(address));
    if t != [] {
      AtoiMeans(t[1..], a.pos);
    }
    if HasPrefix(t, [LETTER_D, LETTER_B]) {
      assert t[..2][0] == LETTER_D;
      if ParseBlock(t) == Some(a) {
        ParsedBlock(t, a);
      }
    }
    if Spelled(t, a) && a.area.DB? {
      var x, kind, y :| SpelledBlock(t, a, x, kind, y);
      BlockParses(t, a, x, kind, y);
    }
  }

  /** A string is accepted, as address a, exactly when it is written as a spelling of a. */
  lemma SiemensAcceptsExactly(address: seq<byte>, a: SiemensAddress)
    ensures ParseSiemensAddress(address) == Some(a) <==> exists p :: Spelled(p, a) && WrittenAs(address, p)
  {
    hide Upper, Trim, Spelled, ParseSiemensAddress, WrittenWith;
    SiemensSpelled(address, a);
    TrimmedIsWritten(address);
    if p :| Spelled(p, a) && WrittenAs(address, p) {
      SpelledEnds(p, a);
      var left, chars, right :| WrittenWith(address, left, chars, right, p);
      Undressed(address, left, chars, right, p);
    }
  }

  /** D and a numeral; Mitsubishi knows no signs. */
  predicate SpelledD(p: seq<byte>, n: nat) {
    p != [] && p[0] == 68 && Unsigned(p[1..], n) && n <= 65535
  }

  lemma SpelledDEnds(p: seq<byte>, n: nat)
    requires SpelledD(p, n)
    ensures LikeCapitals(p)
  {
    hide Value;
    var y := p[1..];
    assert p[|p| - 1] == y[|y| - 1];
    forall i | 0 <= i < |p| ensures p[i] < 0x80 {
      assert i > 0 ==> y[i - 1] == p[i];
    }
  }

  lemma DSpelled(address: seq<byte>, n: nat)
    ensures ParseDAddress(address) == Some(n) <==> SpelledD(Trim(Upper(address)), n)
  {
    hide Accumulate, Value, Trim, Upper;
    var t := Trim(Upper(address));
    if t != [] {
      AccumulateMeans(t[1..]);
    }
  }

  lemma DAcceptsExactly(address: seq<byte>, n: nat)
    ensures ParseDAddress(address) == Some(n) <==> exists p :: SpelledD(p, n) && WrittenAs(address, p)
  {
    hide Upper, Trim, SpelledD, ParseDAddress, WrittenWith;
    DSpelled(address, n);
    UpperIsWritten(address);
    if p :| SpelledD(p, n) && WrittenAs(address, p) {
      SpelledDEnds(p, n);
      var left, chars, right :| WrittenWith(address, left, chars, right, p);
      Undressed(address, left, chars, right, p);
    }
  }

  /** s is p with white space around it. */
  ghost predicate Surrounded(s: seq<byte>, p: seq<byte>) {
    exists left, right :: AllWhite(left) && AllWhite(right) && s == Text(left) + p + Text(right)
  }

  lemma NotWhiteAround(p: seq<byte>)
    requires p != [] && IsDecimal(p[0]) && IsDecimal(p[|p| - 1])
    ensures Leading(p) == 0 && Trailing(p) == 0
  {
    hide White;
    NoTrailing(p);
    forall k | 1 <= k <= |p| ensures !White(p[..k]) {
      if White(p[..k]) {
        WhiteStart(p[..k]);
      }
    }
  }

  lemma WhiteStart(c: seq<byte>)
    requires White(c)
    ensures c != [] && !IsDecimal(c[0])
  {
  }

  lemma ModbusAcceptsExactly(address: seq<byte>, n: nat)
    ensures ParseModbusAddress(address) == Some(n) <==>
            n <= 65535 && exists p :: Unsigned(p, n) && Surrounded(address, p)
  {
    hide Accumulate, Value, Leading, Trailing, Text, AllWhite, TrimLeft, TrimRight;
    AccumulateMeans(Trim(address));
    var l, r := TrimParts(address);
    assert Surrounded(address, Trim(address));
    if p :| Unsigned(p, n) && Surrounded(address, p) {
      var left, right :| AllWhite(left) && AllWhite(right) && address == Text(left) + p + Text(right);
      NotWhiteAround(p);
      FirstStays(p, Text(right));
      TrimsFront(left, p + Text(right));
      TrimsBack(p, right);
      assert Text(left) + p + Text(right) == Text(left) + (p + Text(right));
    }
  }

  lemma FirstStays(p: seq<byte>, more: seq<byte>)
    requires p != [] && IsDecimal(p[0])
    ensures Leading(p + more) == 0
  {
    hide White;
    var s := p + more;
    forall k | 1 <= k <= |s| ensures !White(s[..k]) {
      if White(s[..k]) {
        WhiteStart(s[..k]);
      }
    }
  }

  // ----- printed addresses

  /**
   * The usual way to print a, with `kind` for the access width and leading zeros in its two numbers: 68 66 is
   * DB, 46 the dot, and 77, 73 and 81 are M, I and Q.
   */
  function Printed(a: SiemensAddress, kind: byte, zeros: nat, moreZeros: nat): seq<byte>
    requires InRange(a)
  {
    match a.area
    case DB => [68, 66] + Numeral(a.db, zeros) + [46, 68, 66, kind] + Numeral(a.pos, moreZeros)
    case M => [77] + Numeral(a.pos, zeros)
    case I => [73] + Numeral(a.pos, zeros)
    case Q => [81] + Numeral(a.pos, zeros)
  }

  /** Byte for byte the same, except that capital letters may be small. */
  predicate InAnyCase(t: seq<byte>, p: seq<byte>) {
    |t| == |p| && forall i :: 0 <= i < |p| ==> t[i] == p[i] || (65 <= p[i] <= 90 && t[i] == p[i] + 32)
  }

  lemma {:induction false} TextOfSingles(t: seq<byte>) returns (chars: seq<seq<byte>>)
    ensures Text(chars) == t && |chars| == |t| && forall i :: 0 <= i < |t| ==> chars[i] == [t[i]]
    decreases |t|
  {
    chars := [];
    if t != [] {
      var more := TextOfSingles(t[1..]);
      chars := [[t[0]]] + more;
      assert chars[1..] == more;
    }
  }

  lemma InAnyCaseIsWritten(left: seq<seq<byte>>, t: seq<byte>, right: seq<seq<byte>>, p: seq<byte>)
    requires AllWhite(left) && AllWhite(right) && InAnyCase(t, p)
    requires forall i :: 0 <= i < |p| ==> !(97 <= p[i] <= 122)
    ensures WrittenAs(Text(left) + t + Text(right), p)
  {
    hide AllWhite;
    var chars := TextOfSingles(t);
    assert WrittenWith(Text(left) + t + Text(right), left, chars, right, p);
  }

  lemma NumeralIsSigned(n: nat, zeros: nat)
    ensures var s := Numeral(n, zeros); Signed(s, n) && s != [] && AllDecimal(s)
  {
    hide Numeral, Value;
    NumeralMeans(n, zeros);
  }

  /** Every address comes back from its printed form, in any letter case, with zeros and white space added. */
  lemma SiemensPrintsAndParses(a: SiemensAddress, kind: byte, zeros: nat, moreZeros: nat,
                               left: seq<seq<byte>>, t: seq<byte>, right: seq<seq<byte>>)
    requires InRange(a) && kind in {66, 87, 68} && AllWhite(left) && AllWhite(right)
    requires InAnyCase(t, Printed(a, kind, zeros, moreZeros))
    ensures ParseSiemensAddress(Text(left) + t + Text(right)) == Some(a)
  {
    hide Signed, Numeral, Text, ParseSiemensAddress, WrittenAs, InAnyCase;
    var p := Printed(a, kind, zeros, moreZeros);
    var x, y := Numeral(a.db, zeros), Numeral(a.pos, if a.area.DB? then moreZeros else zeros);
    NumeralIsSigned(a.db, zeros);
    NumeralIsSigned(a.pos, if a.area.DB? then moreZeros else zeros);
    if a.area.DB? {
      assert SpelledBlock(p, a, x, kind, y);
    } else {
      assert p[1..] == y;
    }
    assert Spelled(p, a);
    InAnyCaseIsWritten(left, t, right, p);
    SiemensAcceptsExactly(Text(left) + t + Text(right), a);
  }

  lemma DPrintsAndParses(n: uint16, zeros: nat, left: seq<seq<byte>>, t: seq<byte>, right: seq<seq<byte>>)
    requires AllWhite(left) && AllWhite(right)
    requires InAnyCase(t, [68] + Numeral(n, zeros))
    ensures ParseDAddress(Text(left) + t + Text(right)) == Some(n)
  {
    hide Unsigned, Numeral, Text, ParseDAddress, WrittenAs, InAnyCase;
    var y := Numeral(n, zeros);
    var p := [68] + y;
    NumeralIsSigned(n, zeros);
    NumeralMeans(n, zeros);
    assert p[1..] == y;
    assert SpelledD(p, n);
    InAnyCaseIsWritten(left, t, right, p);
    DAcceptsExactly(Text(left) + t + Text(right), n);
  }
}
