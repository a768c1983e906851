/** Bytes, 32-bit words in memory order, and the one way a buffer is changed: overwriting a run of bytes. */
module Bytes {

  datatype Option<+T> = None | Some(value: T)

  const TWO32 := 0x1_0000_0000

  type byte = x: int | 0 <= x < 0x100

  type u32 = x: int | 0 <= x < TWO32

  /** The bytes of a 32-bit word, least significant first. */
  function Le(v: u32): (b: seq<byte>)
    ensures |b| == 4
  {
    [v % 0x100, v / 0x100 % 0x100, v / 0x100 / 0x100 % 0x100, v / 0x100 / 0x100 / 0x100]
  }

  /** The 32-bit word stored at `p`. */
  function Word(s: seq<byte>, p: nat): (v: u32)
    requires p + 4 <= |s|
  {
    s[p] as int + 0x100 * (s[p + 1] as int) + 0x1_0000 * (s[p + 2] as int) + 0x100_0000 * (s[p + 3] as int)
  }

  /** `s` with the bytes from `p` on overwritten by `b`. */
  function Splice(s: seq<byte>, p: nat, b: seq<byte>): (r: seq<byte>)
    requires p + |b| <= |s|
    ensures |r| == |s|
  {
    s[..p] + b + s[p + |b|..]
  }

  /** Words are stored least significant byte first. */
  lemma LowByteFirst(v: u32)
    ensures Le(v)[0] == v % 0x100 && Le(v)[3] == v / 0x100_0000
  {
  }

  lemma Digit(v: int, q: int, r: int)
    requires 0 <= r < 0x100
    ensures v == 0x100 * q + r <==> v / 0x100 == q && v % 0x100 == r
  {
  }

  lemma Digits(v: u32, a: byte, b: byte, c: byte, d: byte)
    ensures v == a as int + 0x100 * (b as int) + 0x1_0000 * (c as int) + 0x100_0000 * (d as int)
            <==> Le(v) == [a, b, c, d]
  {
    Digit(v, b as int + 0x100 * (c as int) + 0x1_0000 * (d as int), a);
    Digit(v / 0x100, c as int + 0x100 * (d as int), b);
    Digit(v / 0x100 / 0x100, d, c);
    var l := Le(v);
    assert l == [a, b, c, d] <==> l[0] == a && l[1] == b && l[2] == c && l[3] == d;
  }

  /** Loading and storing are inverse: a word reads as `v` exactly where the bytes of `v` stand. */
  lemma WordLe(s: seq<byte>, p: nat, v: u32)
    requires p + 4 <= |s|
    ensures Word(s, p) == v <==> s[p..p + 4] == Le(v)
  {
    hide Le;
    Digits(v, s[p], s[p + 1], s[p + 2], s[p + 3]);
    assert s[p..p + 4] == [s[p], s[p + 1], s[p + 2], s[p + 3]];
  }

  lemma Associative<T>(a: seq<T>, b: seq<T>, c: seq<T>)
    ensures a + b + c == a + (b + c)
  {
  }

  /** Overwriting the middle part of a concatenation. */
  lemma SpliceMiddle(a: seq<byte>, b: seq<byte>, c: seq<byte>, d: seq<byte>)
    requires |b| == |d|
    ensures Splice(a + b + c, |a|, d) == a + d + c
  {
  }

  /** Data `d`, then what `g` holds between it and `p`, then the trailer `t`. */
  function Picture(d: seq<byte>, g: seq<byte>, p: nat, t: seq<byte>): (s: seq<byte>)
    requires |d| <= p <= |g|
    ensures |s| == p + |t|
  {
    d + g[|d|..p] + t
  }

  /**
   Overwriting the end of the gap and the first bytes `m` of the trailer by `m + h`, where the bytes `x` next to
   the data now count as data.
   */
  lemma Carve(d: seq<byte>, g: seq<byte>, p: nat, m: seq<byte>, t: seq<byte>, x: seq<byte>, h: seq<byte>)
    requires |d| + |x| + |h| <= p <= |g|
    requires x == g[|d|..|d| + |x|]
    ensures Splice(Picture(d, g, p, m + t), p - |h|, m + h) == Picture(d + x, g, p - |h|, m + (h + t))
  {
    var q := p - |h|;
    assert g[|d|..p] == g[|d|..q] + g[q..p];
    assert Picture(d, g, p, m + t) == (d + g[|d|..q]) + (g[q..p] + m) + t;
    SpliceMiddle(d + g[|d|..q], g[q..p] + m, t, m + h);
    assert g[|d|..q] == x + g[|d| + |x|..q];
  }

  /** Overwriting data only. */
  lemma PictureFill(d: seq<byte>, g: seq<byte>, p: nat, t: seq<byte>, at: nat, b: seq<byte>)
    requires |d| <= p <= |g| && at + |b| <= |d|
    ensures Splice(Picture(d, g, p, t), at, b) == Picture(Splice(d, at, b), g, p, t)
  {
  }

  /** Two stores, the second just below the first, are one store. */
  lemma SpliceBelow(s: seq<byte>, p: nat, b: seq<byte>, c: seq<byte>)
    requires |c| <= p && p + |b| <= |s|
    ensures Splice(Splice(s, p, b), p - |c|, c) == Splice(s, p - |c|, c + b)
  {
  }

  /** Stores to disjoint places commute. */
  lemma SpliceCommutes(s: seq<byte>, p: nat, b: seq<byte>, q: nat, c: seq<byte>)
    requires p + |b| <= q && q + |c| <= |s|
    ensures Splice(Splice(s, p, b), q, c) == Splice(Splice(s, q, c), p, b)
  {
    assert Splice(Splice(s, p, b), q, c) == s[..p] + b + s[p + |b|..q] + c + s[q + |c|..];
    assert Splice(Splice(s, q, c), p, b) == s[..p] + b + s[p + |b|..q] + c + s[q + |c|..];
  }

  /** A store that begins with `m` at `p`, then a store that ends by overwriting `m`, are one store. */
  lemma SpliceOver(s: seq<byte>, p: nat, m: seq<byte>, b: seq<byte>, c: seq<byte>)
    requires |c| <= p + |m| && p + |m| + |b| <= |s| && |m| <= |c|
    ensures Splice(Splice(s, p, m + b), p + |m| - |c|, c) == Splice(s, p + |m| - |c|, c + b)
  {
  }

  /** A word is not changed by a store elsewhere. */
  lemma WordKept(s: seq<byte>, p: nat, b: seq<byte>, q: nat)
    requires p + |b| <= |s| && q + 4 <= |s|
    requires q + 4 <= p || p + |b| <= q
    ensures Word(Splice(s, p, b), q) == Word(s, q)
  {
  }

  lemma SpliceLeft(a: seq<byte>, x: seq<byte>, p: nat, b: seq<byte>)
    requires p + |b| <= |a|
    ensures Splice(a + x, p, b) == Splice(a, p, b) + x
  {
  }

  lemma SpliceRight(a: seq<byte>, x: seq<byte>, p: nat, b: seq<byte>)
    requires p + |b| <= |x|
    ensures Splice(a + x, |a| + p, b) == a + Splice(x, p, b)
  {
  }

  lemma SliceConcat(s: seq<byte>, i: nat, j: nat, k: nat, a: seq<byte>, b: seq<byte>)
    requires i <= j <= k <= |s| && |a| == j - i && |b| == k - j
    ensures s[i..k] == a + b <==> s[i..j] == a && s[j..k] == b
  {
    assert s[i..k] == s[i..j] + s[j..k];
    if s[i..k] == a + b {
      assert s[i..j] == (a + b)[..j - i] && s[j..k] == (a + b)[j - i..];
    }
  }

  lemma TwoWords(s: seq<byte>, p: nat, v: u32, w: u32)
    requires p + 8 <= |s| && s[p..p + 8] == Le(v) + Le(w)
    ensures Word(s, p) == v && Word(s, p + 4) == w
  {
    hide Le, Word;
    SliceConcat(s, p, p + 4, p + 8, Le(v), Le(w));
    WordLe(s, p, v);
    WordLe(s, p + 4, w);
  }

  lemma ThreeWords(s: seq<byte>, p: nat, v: u32, w: u32, x: u32)
    requires p + 12 <= |s| && s[p..p + 12] == Le(v) + Le(w) + Le(x)
    ensures Word(s, p) == v && Word(s, p + 4) == w && Word(s, p + 8) == x
  {
    hide Le, Word;
    SliceConcat(s, p, p + 8, p + 12, Le(v) + Le(w), Le(x));
    TwoWords(s, p, v, w);
    WordLe(s, p + 8, x);
  }

  lemma SpliceSlice(s: seq<byte>, p: nat, b: seq<byte>)
    requires p + |b| <= |s|
    ensures Splice(s, p, b)[p..p + |b|] == b
  {
  }
}
