/** endian.h: byte order. A word is a number; the shifts and masks of swap32, which all
    cut on byte boundaries, pick out its base-256 digits, and `|` of disjoint fields adds. */
module Endian {
  type byte = b: int | 0 <= b < 0x100
  type u32 = w: int | 0 <= w < 0x1_0000_0000
  type u64 = w: int | 0 <= w < 0x1_0000_0000_0000_0000

  /** The bytes of a word, most significant first: the order of RFC 4506. */
  function BigEndian(v: u32): (s: seq<byte>)
    ensures |s| == 4
  {
    var a := v / 0x100;
    var b := a / 0x100;
    var c := b / 0x100;
    [c, b % 0x100, a % 0x100, v % 0x100]
  }

  /** The byte at place `i` counts 256 to the power 3 - i. */
  lemma BigEndianValue(v: u32)
    ensures var s := BigEndian(v);
      v == s[0] as int * 0x100_0000 + s[1] as int * 0x1_0000 + s[2] as int * 0x100 + s[3] as int
  {
  }

  /** The first of two strings of bytes that differ at place `i` and not before is the less. */
  ghost predicate LessAt(a: seq<byte>, b: seq<byte>, i: nat)
    requires |a| == |b|
  {
    i < |a| && a[..i] == b[..i] && a[i] < b[i]
  }

  /** Words are in the order of their bytes. */
  lemma WordOrder(v: u32, w: u32)
    ensures v < w <==> exists i :: 0 <= i < 4 && LessAt(BigEndian(v), BigEndian(w), i)
  {
    var a, b := BigEndian(v), BigEndian(w);
    BigEndianValue(v);
    BigEndianValue(w);
    hide BigEndian;
    if v < w {
      var i := if a[0] != b[0] then 0 else if a[1] != b[1] then 1 else if a[2] != b[2] then 2 else 3;
      assert LessAt(a, b, i);
    }
    if i :| 0 <= i < 4 && LessAt(a, b, i) {
      assert forall j | 0 <= j < i :: a[j] == a[..i][j] == b[..i][j] == b[j];
    }
  }

  /** Words in a row. */
  function Words(ws: seq<u32>): seq<byte> {
    if ws == [] then [] else BigEndian(ws[0]) + Words(ws[1..])
  }

  function FromBigEndian(s: seq<byte>): (v: u32)
    requires |s| == 4
  {
    var a: int, b: int, c: int, d: int := s[0], s[1], s[2], s[3];
    ((a * 0x100 + b) * 0x100 + c) * 0x100 + d
  }

  function Reverse(s: seq<byte>): (r: seq<byte>)
    requires |s| == 4
    ensures |r| == 4
  {
    [s[3], s[2], s[1], s[0]]
  }

  /** swap32(): v << 24 | (v & 0xff00) << 8 | (v >> 8 & 0xff00) | v >> 24. */
  function Swap32(v: u32): u32 {
    var a := v / 0x100;
    var b := a / 0x100;
    v % 0x100 * 0x100_0000 + a % 0x100 * 0x1_0000 + b % 0x100 * 0x100 + b / 0x100
  }

  lemma SwapReverses(v: u32)
    ensures Swap32(v) == FromBigEndian(Reverse(BigEndian(v)))
  {
  }

  /** swap32le(): swaps on little-endian hosts only. */
  function Swap32le(bigEndian: bool, v: u32): u32 {
    if bigEndian then v else Swap32(v)
  }

  /** What storing a word leaves in the host's memory, and what loading it gets back. */
  function Store(bigEndian: bool, v: u32): (s: seq<byte>)
    ensures |s| == 4
  {
    if bigEndian then BigEndian(v) else Reverse(BigEndian(v))
  }

  function Load(bigEndian: bool, s: seq<byte>): (v: u32)
    requires |s| == 4
  {
    FromBigEndian(if bigEndian then s else Reverse(s))
  }

  lemma Digit(x: int, d: int)
    requires 0 <= d < 0x100
    ensures (x * 0x100 + d) / 0x100 == x && (x * 0x100 + d) % 0x100 == d
  {
  }

  lemma BytesOfWord(s: seq<byte>)
    requires |s| == 4
    ensures BigEndian(FromBigEndian(s)) == s
  {
    Digit((s[0] as int * 0x100 + s[1]) * 0x100 + s[2], s[3]);
    Digit(s[0] as int * 0x100 + s[1], s[2]);
    Digit(s[0], s[1]);
  }

  lemma WordOfBytes(v: u32)
    ensures FromBigEndian(BigEndian(v)) == v
  {
  }

  lemma SwapTwice(v: u32)
    ensures Swap32(Swap32(v)) == v
  {
    hide BigEndian, FromBigEndian, Swap32;
    SwapReverses(v);
    SwapReverses(Swap32(v));
    BytesOfWord(Reverse(BigEndian(v)));
    assert Reverse(Reverse(BigEndian(v))) == BigEndian(v);
    WordOfBytes(v);
  }

  lemma SwapInjective(v: u32, w: u32)
    requires Swap32(v) == Swap32(w)
    ensures v == w
  {
    hide Swap32;
    SwapTwice(v);
    SwapTwice(w);
  }

  /** On either kind of host, storing the swapped word writes the bytes of RFC 4506, and
      loading and swapping reads them. */
  lemma NetworkOrder(bigEndian: bool, v: u32)
    ensures Store(bigEndian, Swap32le(bigEndian, v)) == BigEndian(v)
    ensures Swap32le(bigEndian, Load(bigEndian, BigEndian(v))) == v
  {
    hide BigEndian, FromBigEndian, Swap32;
    WordOfBytes(v);
    SwapReverses(v);
    BytesOfWord(Reverse(BigEndian(v)));
    assert Reverse(Reverse(BigEndian(v))) == BigEndian(v);
    SwapTwice(v);
  }

  lemma NetworkOrderLoad(bigEndian: bool, s: seq<byte>)
    requires |s| == 4
    ensures Swap32le(bigEndian, Load(bigEndian, s)) == FromBigEndian(s)
  {
    hide BigEndian, FromBigEndian, Swap32;
    SwapReverses(Load(bigEndian, s));
    BytesOfWord(Reverse(s));
    assert Reverse(Reverse(s)) == s;
  }

  // ---- 64 bits ---------------------------------------------------------------

  const WORD := 0x1_0000_0000

  function BigEndian64(h: u64): (s: seq<byte>)
    ensures |s| == 8
  {
    BigEndian(h / WORD) + BigEndian(h % WORD)
  }

  /** swap64(): the swapped halves change places. */
  function Swap64(v: u64): u64 {
    var hi: int, lo: int := Swap32(v % WORD), Swap32(v / WORD);
    hi * WORD + lo
  }

  lemma SwapBytes(w: u32)
    ensures BigEndian(Swap32(w)) == Reverse(BigEndian(w))
  {
    hide BigEndian, FromBigEndian, Swap32;
    SwapReverses(w);
    BytesOfWord(Reverse(BigEndian(w)));
  }

  lemma Halves(hi: int, lo: int)
    requires 0 <= lo < WORD
    ensures (hi * WORD + lo) / WORD == hi && (hi * WORD + lo) % WORD == lo
  {
  }

  /** swap64() reverses all eight bytes, and undoes itself. */
  lemma Swap64Reverses(v: u64)
    ensures forall i | 0 <= i < 8 :: BigEndian64(Swap64(v))[i] == BigEndian64(v)[7 - i]
    ensures Swap64(Swap64(v)) == v
  {
    hide BigEndian, FromBigEndian, Swap32;
    var hi: u32, lo: u32 := v / WORD, v % WORD;
    Halves(Swap32(lo), Swap32(hi));
    SwapBytes(hi);
    SwapBytes(lo);
    assert BigEndian64(Swap64(v)) == Reverse(BigEndian(lo)) + Reverse(BigEndian(hi));
    SwapTwice(hi);
    SwapTwice(lo);
  }
}
