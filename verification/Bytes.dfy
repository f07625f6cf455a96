/** Bytes, 16-bit words, and the two byte orders the protocols use. */
module Bytes {

  type byte = b: int | 0 <= b < 256

  type uint16 = w: int | 0 <= w < 0x1_0000

  type uint32 = w: int | 0 <= w < 0x1_0000_0000

  datatype Option<+T> = None | Some(value: T)

  /** Go's conversion of an integer to uint16: the value modulo 2^16. */
  function Wrap16(n: nat): uint16 {
    n % 0x1_0000
  }

  function Big(w: uint16): (r: seq<byte>)
    ensures |r| == 2
  {
    [w / 256, w % 256]
  }

  function Little(w: uint16): (r: seq<byte>)
    ensures |r| == 2
  {
    [w % 256, w / 256]
  }

  function FromBig(s: seq<byte>): uint16
    requires |s| == 2
  {
    (s[0] as int) * 256 + s[1]
  }

  function FromLittle(s: seq<byte>): uint16
    requires |s| == 2
  {
    s[0] + (s[1] as int) * 256
  }

  function Little32(w: uint32): (r: seq<byte>)
    ensures |r| == 4
  {
    Little(w % 0x1_0000) + Little(w / 0x1_0000)
  }

  function FromLittle32(s: seq<byte>): uint32
    requires |s| == 4
  {
    FromLittle(s[..2]) + (FromLittle(s[2..]) as int) * 0x1_0000
  }

  /** Words laid out one after the other, high byte first. */
  function PackBig(words: seq<uint16>): (r: seq<byte>)
    ensures |r| == 2 * |words|
  {
    seq(2 * |words|, i requires 0 <= i < 2 * |words| => Big(words[i / 2])[i % 2])
  }

  function UnpackBig(s: seq<byte>): (r: seq<uint16>)
    ensures |r| == |s| / 2
  {
    seq(|s| / 2, i requires 0 <= i < |s| / 2 => FromBig(s[2 * i..2 * i + 2]))
  }

  /** Words laid out one after the other, low byte first. */
  function PackLittle(words: seq<uint16>): (r: seq<byte>)
    ensures |r| == 2 * |words|
  {
    seq(2 * |words|, i requires 0 <= i < 2 * |words| => Little(words[i / 2])[i % 2])
  }

  function UnpackLittle(s: seq<byte>): (r: seq<uint16>)
    ensures |r| == |s| / 2
  {
    seq(|s| / 2, i requires 0 <= i < |s| / 2 => FromLittle(s[2 * i..2 * i + 2]))
  }

  function Zeros(n: nat): (r: seq<byte>)
    ensures |r| == n
  {
    seq(n, _ => 0)
  }

  /** The bytes, followed by a zero if their number is odd. */
  function Padded(s: seq<byte>): (r: seq<byte>)
    ensures |r| == |s| + |s| % 2
  {
    if |s| % 2 == 0 then s else s + [0]
  }

  lemma PackBigAt(words: seq<uint16>, i: nat)
    requires i < |words|
    ensures PackBig(words)[2 * i] == words[i] / 256 && PackBig(words)[2 * i + 1] == words[i] % 256
  {
  }

  lemma PackLittleAt(words: seq<uint16>, i: nat)
    requires i < |words|
    ensures PackLittle(words)[2 * i] == words[i] % 256 && PackLittle(words)[2 * i + 1] == words[i] / 256
  {
  }

  lemma UnpackBigAt(s: seq<byte>, i: nat)
    requires 2 * i + 2 <= |s|
    ensures UnpackBig(s)[i] == FromBig(s[2 * i..2 * i + 2]) == FromBig([s[2 * i], s[2 * i + 1]])
  {
    assert s[2 * i..2 * i + 2] == [s[2 * i], s[2 * i + 1]];
  }

  lemma UnpackLittleAt(s: seq<byte>, i: nat)
    requires 2 * i + 2 <= |s|
    ensures UnpackLittle(s)[i] == FromLittle(s[2 * i..2 * i + 2]) == FromLittle([s[2 * i], s[2 * i + 1]])
  {
    assert s[2 * i..2 * i + 2] == [s[2 * i], s[2 * i + 1]];
  }

  lemma UnpackPackBig(words: seq<uint16>)
    ensures UnpackBig(PackBig(words)) == words
  {
    hide PackBig, UnpackBig;
    var s := PackBig(words);
    forall i | 0 <= i < |words| ensures UnpackBig(s)[i] == words[i] {
      UnpackBigAt(s, i);
      PackBigAt(words, i);
    }
  }

  lemma UnpackPackLittle(words: seq<uint16>)
    ensures UnpackLittle(PackLittle(words)) == words
  {
    hide PackLittle, UnpackLittle;
    var s := PackLittle(words);
    forall i | 0 <= i < |words| ensures UnpackLittle(s)[i] == words[i] {
      UnpackLittleAt(s, i);
      PackLittleAt(words, i);
    }
  }

  /** The other direction: an even number of bytes survives unpacking and packing. */
  lemma PackUnpackBig(s: seq<byte>)
    requires |s| % 2 == 0
    ensures PackBig(UnpackBig(s)) == s
  {
    hide PackBig, UnpackBig;
    var words := UnpackBig(s);
    forall k | 0 <= k < |s| ensures PackBig(words)[k] == s[k] {
      var i := k / 2;
      UnpackBigAt(s, i);
      PackBigAt(words, i);
      assert k == 2 * i || k == 2 * i + 1;
    }
  }

  lemma PackUnpackLittle(s: seq<byte>)
    requires |s| % 2 == 0
    ensures PackLittle(UnpackLittle(s)) == s
  {
    hide PackLittle, UnpackLittle;
    var words := UnpackLittle(s);
    forall k | 0 <= k < |s| ensures PackLittle(words)[k] == s[k] {
      var i := k / 2;
      UnpackLittleAt(s, i);
      PackLittleAt(words, i);
      assert k == 2 * i || k == 2 * i + 1;
    }
  }

  lemma BigRoundTrip(w: uint16)
    ensures FromBig(Big(w)) == w
  {
  }

  lemma LittleRoundTrip(w: uint16)
    ensures FromLittle(Little(w)) == w
  {
  }

  lemma PackBigPrefix(words: seq<uint16>, k: nat)
    requires k <= |words|
    ensures PackBig(words[..k]) == PackBig(words)[..2 * k]
  {
  }

  lemma PackLittlePrefix(words: seq<uint16>, k: nat)
    requires k <= |words|
    ensures PackLittle(words[..k]) == PackLittle(words)[..2 * k]
  {
  }

  lemma Little32RoundTrip(w: uint32)
    ensures FromLittle32(Little32(w)) == w
  {
    assert Little32(w)[..2] == Little(w % 0x1_0000);
    assert Little32(w)[2..] == Little(w / 0x1_0000);
  }

  lemma SliceOfPrefix(s: seq<byte>, n: nat, i: nat, j: nat)
    requires i <= j <= n <= |s|
    ensures s[..n][i..j] == s[i..j]
  {
  }

  lemma SliceOfSlice(s: seq<byte>, from: nat, to: nat, i: nat, j: nat)
    requires i <= j && from + j <= to <= |s|
    ensures s[from..to][i..j] == s[from + i..from + j]
  {
    forall k | 0 <= k < j - i ensures s[from..to][i..j][k] == s[from + i..from + j][k] {
      assert s[from..to][i + k] == s[from + (i + k)];
    }
  }

  /** What io.ReadFull takes from a stream holding s: n bytes, or nothing when fewer are left. */
  function Take(s: seq<byte>, n: nat): Option<seq<byte>> {
    if |s| < n then None else Some(s[..n])
  }

  /** What it leaves behind: a short read has consumed everything before it fails. */
  function Rest(s: seq<byte>, n: nat): seq<byte> {
    if |s| < n then [] else s[n..]
  }
}
