/**
 The picture of a bulk buffer: item bytes from the front, untouched bytes in the middle, and at the back a
 sentinel word followed by one header per item, the first item's header last.

 `Plain` is the form of DB_MULTIPLE_* and DB_MULTIPLE_KEY_*, whose header is an offset and a length;
 `Recno` is the form of DB_MULTIPLE_RECNO_*, whose header also holds a record number.
 */
module BulkLayout {
  import opened Bytes

  datatype Format = Plain | Recno {

    /** The word that ends the header list: -1, or 0 where -1 is a valid record number. */
    function Sentinel(): u32 {
      if Plain? then 0xFFFF_FFFF else 0
    }

    /** Bytes taken by `n` headers. */
    function TableSize(n: nat): nat {
      if Plain? then 8 * n else 12 * n
    }
  }

  /** What a caller stores; a plain buffer does not keep `recno`. */
  datatype Entry = Entry(recno: u32, data: seq<byte>)

  /** What a header says; `recno` is 0 in a plain buffer. */
  datatype Slot = Slot(recno: u32, off: u32, len: u32)

  /** The slot of an item; only a recno buffer keeps the record number. */
  function SlotOf(f: Format, recno: u32, off: u32, len: u32): Slot {
    Slot(if f.Recno? then recno else 0, off, len)
  }

  /** A header as it stands in memory: the word the reader meets first has the highest address. */
  function Header(f: Format, s: Slot): (h: seq<byte>)
    ensures |h| == f.TableSize(1)
  {
    Le(s.len) + Le(s.off) + if f.Recno? then Le(s.recno) else []
  }

  /**
   The words of a header, by address. A plain header is length, offset from below; a recno header has the record
   number above them.
   */
  lemma HeaderIs(f: Format, buf: seq<byte>, p: nat, s: Slot)
    requires p + f.TableSize(1) <= |buf| && buf[p..p + f.TableSize(1)] == Header(f, s)
    ensures Word(buf, p) == s.len && Word(buf, p + 4) == s.off
    ensures f.Recno? ==> Word(buf, p + 8) == s.recno
  {
    hide Le, Word;
    if f.Plain? {
      assert Header(f, s) == Le(s.len) + Le(s.off);
      TwoWords(buf, p, s.len, s.off);
    } else {
      ThreeWords(buf, p, s.len, s.off, s.recno);
    }
  }

  function Table(f: Format, ss: seq<Slot>): (t: seq<byte>)
    ensures |t| == f.TableSize(|ss|)
  {
    if ss == [] then [] else Header(f, ss[|ss| - 1]) + Table(f, ss[..|ss| - 1])
  }

  /** The item bytes of all entries, in order. */
  function Flat(es: seq<Entry>): seq<byte> {
    if es == [] then [] else Flat(es[..|es| - 1]) + es[|es| - 1].data
  }

  /** The header of each entry when the items stand one after the other from offset 0. */
  function Slots(f: Format, es: seq<Entry>): (ss: seq<Slot>)
    requires |Flat(es)| < TWO32
    ensures |ss| == |es|
  {
    if es == [] then []
    else
      var front, e := es[..|es| - 1], es[|es| - 1];
      Slots(f, front) + [SlotOf(f, e.recno, |Flat(front)|, |e.data|)]
  }

  /** Bytes a buffer must have to hold the entries. */
  function Size(f: Format, es: seq<Entry>): nat {
    |Flat(es)| + f.TableSize(|es|) + 4
  }

  ghost predicate Fits(f: Format, init: seq<byte>, es: seq<Entry>) {
    Size(f, es) <= |init| < TWO32
  }

  /** Where the sentinel word stands. */
  function Cursor(f: Format, init: seq<byte>, es: seq<Entry>): (p: nat)
    requires Fits(f, init, es)
  {
    |init| - 4 - f.TableSize(|es|)
  }

  /** The buffer holding `es`, in a buffer whose bytes were `init` before any write. */
  function Layout(f: Format, init: seq<byte>, es: seq<Entry>): (buf: seq<byte>)
    requires Fits(f, init, es)
    ensures |buf| == |init|
  {
    Picture(Flat(es), init, Cursor(f, init, es), Le(f.Sentinel()) + Table(f, Slots(f, es)))
  }

  // ---------------------------------------------------------------- offsets

  lemma FlatAppend(es: seq<Entry>, e: Entry)
    ensures Flat(es + [e]) == Flat(es) + e.data
  {
    assert (es + [e])[..|es|] == es;
  }

  lemma {:induction false} FlatConcat(a: seq<Entry>, b: seq<Entry>)
    ensures Flat(a + b) == Flat(a) + Flat(b)
    decreases |b|
  {
    if b == [] {
      assert a + b == a;
    } else {
      var front, e := b[..|b| - 1], b[|b| - 1];
      FlatConcat(a, front);
      assert a + b == a + front + [e];
      FlatAppend(a + front, e);
      Associative(Flat(a), Flat(front), e.data);
    }
  }

  lemma SlotsAppend(f: Format, es: seq<Entry>, e: Entry)
    requires |Flat(es + [e])| < TWO32
    ensures Flat(es + [e]) == Flat(es) + e.data
    ensures Slots(f, es + [e]) == Slots(f, es) + [SlotOf(f, e.recno, |Flat(es)|, |e.data|)]
  {
    assert (es + [e])[..|es|] == es;
  }

  lemma TableAppend(f: Format, ss: seq<Slot>, s: Slot)
    ensures Table(f, ss + [s]) == Header(f, s) + Table(f, ss)
  {
    assert (ss + [s])[..|ss|] == ss;
  }

  /** The picture after one more entry, in terms of the picture before. */
  lemma LayoutAppend(f: Format, init: seq<byte>, es: seq<Entry>, e: Entry)
    requires Size(f, es) + |e.data| + f.TableSize(1) <= |init| < TWO32
    ensures Flat(es + [e]) == Flat(es) + e.data
    ensures Fits(f, init, es + [e]) && Cursor(f, init, es + [e]) == Cursor(f, init, es) - f.TableSize(1)
    ensures Table(f, Slots(f, es + [e]))
            == Header(f, SlotOf(f, e.recno, |Flat(es)|, |e.data|)) + Table(f, Slots(f, es))
  {
    FlatAppend(es, e);
    SlotsAppend(f, es, e);
    TableAppend(f, Slots(f, es), SlotOf(f, e.recno, |Flat(es)|, |e.data|));
  }

  /** Slot `i` starts where the items before it end, and its region is inside the item bytes. */
  lemma {:induction false} SlotAt(f: Format, es: seq<Entry>, i: nat)
    requires |Flat(es)| < TWO32 && i < |es|
    ensures |Flat(es[..i])| + |es[i].data| <= |Flat(es)|
    ensures Slots(f, es)[i] == SlotOf(f, es[i].recno, |Flat(es[..i])|, |es[i].data|)
    ensures Flat(es)[|Flat(es[..i])|..|Flat(es[..i])| + |es[i].data|] == es[i].data
    decreases |es|
  {
    var n := |es| - 1;
    if i < n {
      SlotAt(f, es[..n], i);
      assert es[..n][..i] == es[..i];
    }
  }

  /** Later headers stand below earlier ones. */
  lemma {:induction false} TableConcat(f: Format, a: seq<Slot>, b: seq<Slot>)
    ensures Table(f, a + b) == Table(f, b) + Table(f, a)
    decreases |b|
  {
    if b == [] {
      assert a + b == a;
    } else {
      var front, s := b[..|b| - 1], b[|b| - 1];
      TableConcat(f, a, front);
      assert a + b == a + front + [s];
      TableAppend(f, a + front, s);
      Associative(Header(f, s), Table(f, front), Table(f, a));
    }
  }

  /** The headers of a built buffer stand above its sentinel. */
  lemma LayoutTable(f: Format, init: seq<byte>, es: seq<Entry>)
    requires Fits(f, init, es)
    ensures var buf, p := Layout(f, init, es), Cursor(f, init, es);
            && buf[p..p + 4] == Le(f.Sentinel())
            && buf[p + 4..] == Table(f, Slots(f, es))
            && Word(buf, p) == f.Sentinel()
  {
    hide Le, Table, Slots, Flat, Word;
    WordLe(Layout(f, init, es), Cursor(f, init, es), f.Sentinel());
  }

  /** The two lowest words of a header table: the length and the offset of the last slot. */
  lemma LastWords(f: Format, buf: seq<byte>, q: nat, ss: seq<Slot>)
    requires ss != [] && q <= |buf| && buf[q..] == Table(f, ss)
    ensures q + 8 <= |buf|
    ensures Word(buf, q) == ss[|ss| - 1].len && Word(buf, q + 4) == ss[|ss| - 1].off
  {
    hide Le, Word;
    var s := ss[|ss| - 1];
    assert |Table(f, ss)| >= 8 && Table(f, ss)[..4] == Le(s.len) && Table(f, ss)[4..8] == Le(s.off);
    assert buf[q..q + 4] == buf[q..][..4] && buf[q + 4..q + 8] == buf[q..][4..8];
    WordLe(buf, q, s.len);
    WordLe(buf, q + 4, s.off);
  }

  // ---------------------------------------------------------------- filling a reserved slot

  /** `es` with the bytes `b` written into item `i` from its byte `at` on. */
  function Filled(es: seq<Entry>, i: nat, at: nat, b: seq<byte>): (r: seq<Entry>)
    requires i < |es| && at + |b| <= |es[i].data|
  {
    es[i := es[i].(data := Splice(es[i].data, at, b))]
  }

  /** Headers depend on record numbers and lengths only. */
  lemma {:induction false} SameShape(f: Format, es: seq<Entry>, es': seq<Entry>)
    requires |es| == |es'| && |Flat(es)| < TWO32
    requires forall i :: 0 <= i < |es| ==> es[i].recno == es'[i].recno && |es[i].data| == |es'[i].data|
    ensures |Flat(es')| == |Flat(es)| && Slots(f, es') == Slots(f, es)
  {
    if es != [] {
      SameShape(f, es[..|es| - 1], es'[..|es| - 1]);
    }
  }

  lemma {:induction false} FlatFilled(es: seq<Entry>, i: nat, at: nat, b: seq<byte>)
    requires i < |es| && at + |b| <= |es[i].data|
    ensures |Flat(es[..i])| + |es[i].data| <= |Flat(es)|
    ensures Flat(Filled(es, i, at, b)) == Splice(Flat(es), |Flat(es[..i])| + at, b)
    decreases |es|
  {
    hide Splice;
    var n := |es| - 1;
    var front, es' := es[..n], Filled(es, i, at, b);
    if i == n {
      assert es'[..n] == front;
      SpliceRight(Flat(front), es[n].data, at, b);
    } else {
      FlatFilled(front, i, at, b);
      assert front[..i] == es[..i];
      assert es'[..n] == Filled(front, i, at, b);
      SpliceLeft(Flat(front), es[n].data, |Flat(es[..i])| + at, b);
    }
  }

  /** Writing bytes into a slot's region changes that item, and nothing else in the picture. */
  lemma FillLayout(f: Format, init: seq<byte>, es: seq<Entry>, i: nat, at: nat, b: seq<byte>)
    requires Fits(f, init, es)
    requires i < |es| && at + |b| <= |es[i].data|
    ensures |Flat(es[..i])| + |es[i].data| <= |Flat(es)|
    ensures var es' := Filled(es, i, at, b);
            && Fits(f, init, es')
            && Cursor(f, init, es') == Cursor(f, init, es)
            && Slots(f, es') == Slots(f, es)
            && Layout(f, init, es') == Splice(Layout(f, init, es), |Flat(es[..i])| + at, b)
  {
    hide Splice, Picture, Header, Le, Table;
    var es' := Filled(es, i, at, b);
    FlatFilled(es, i, at, b);
    SameShape(f, es, es');
    PictureFill(Flat(es), init, Cursor(f, init, es), Le(f.Sentinel()) + Table(f, Slots(f, es)), |Flat(es[..i])| + at, b);
  }
}
