/**
 What the bulk read macros return from any buffer, and the proof that they parse exactly what the writer prints.
 A read outside the buffer is a `Fault`; in C it is undefined.
 */
module BulkReader {
  import opened Bytes
  import opened BulkLayout

  datatype Read<+T> = Fault | Done | Got(value: T, next: int)

  predicate InBuf(buf: seq<byte>, p: int) {
    0 <= p && p + 4 <= |buf|
  }

  /** One header, read downwards from `p`: DB_MULTIPLE_RECNO_NEXT, and DB_MULTIPLE_NEXT before it marks empty data. */
  function Head(f: Format, buf: seq<byte>, p: int): (r: Read<Slot>)
    ensures r.Got? ==> 0 <= p && r.next == p - f.TableSize(1)
  {
    if !InBuf(buf, p) then Fault
    else if Word(buf, p) == f.Sentinel() then Done
    else if f.Plain? then
      if p < 4 then Fault else Got(Slot(0, Word(buf, p), Word(buf, p - 4)), p - 8)
    else
      if p < 8 then Fault else Got(Slot(Word(buf, p), Word(buf, p - 4), Word(buf, p - 8)), p - 12)
  }

  /** All headers from `p` down to the sentinel; None if the reader leaves the buffer first. */
  function Scan(f: Format, buf: seq<byte>, p: int): (r: Option<seq<Slot>>)
    decreases p
  {
    match Head(f, buf, p)
    case Fault => None
    case Done => Some([])
    case Got(s, q) =>
      match Scan(f, buf, q)
      case None => None
      case Some(ss) => Some([s] + ss)
  }

  /** The word the reader tests, and the fields it can return. */
  predicate Readable(f: Format, s: Slot) {
    if f.Plain? then s.recno == 0 && s.off != f.Sentinel() else s.recno != f.Sentinel()
  }

  /** The headers `ss` end at `p`, none looks like the sentinel, and below them stands the sentinel. */
  ghost predicate Listed(f: Format, buf: seq<byte>, p: int, ss: seq<Slot>) {
    var n := f.TableSize(|ss|);
    && n <= p && p + 4 <= |buf|
    && buf[p + 4 - n..p + 4] == Table(f, ss)
    && Word(buf, p - n) == f.Sentinel()
    && forall i :: 0 <= i < |ss| ==> Readable(f, ss[i])
  }

  /** A header is read as `s` exactly where the bytes of `s` stand. */
  lemma HeadExact(f: Format, buf: seq<byte>, p: int, s: Slot)
    ensures Head(f, buf, p) == Got(s, p - f.TableSize(1))
            <==> (&& f.TableSize(1) <= p + 4 <= |buf|
                  && buf[p + 4 - f.TableSize(1)..p + 4] == Header(f, s)
                  && Readable(f, s))
  {
    hide Le, Word;
    if f.TableSize(1) <= p + 4 <= |buf| {
      WordLe(buf, p, if f.Plain? then s.off else s.recno);
      WordLe(buf, p - 4, if f.Plain? then s.len else s.off);
      if f.Plain? {
        SliceConcat(buf, p - 4, p, p + 4, Le(s.len), Le(s.off));
        assert Header(f, s) == Le(s.len) + Le(s.off);
      } else {
        WordLe(buf, p - 8, s.len);
        SliceConcat(buf, p - 8, p - 4, p, Le(s.len), Le(s.off));
        SliceConcat(buf, p - 8, p, p + 4, Le(s.len) + Le(s.off), Le(s.recno));
      }
    }
  }

  lemma TableCons(f: Format, ss: seq<Slot>)
    requires ss != []
    ensures Table(f, ss) == Table(f, ss[1..]) + Header(f, ss[0])
  {
    hide Header;
    assert ss == [ss[0]] + ss[1..];
    TableConcat(f, [ss[0]], ss[1..]);
    assert Table(f, [ss[0]]) == Header(f, ss[0]) + [];
  }

  lemma ListedCons(f: Format, buf: seq<byte>, p: int, ss: seq<Slot>)
    requires ss != []
    ensures Listed(f, buf, p, ss)
            <==> (&& f.TableSize(1) <= p + 4 <= |buf|
                  && buf[p + 4 - f.TableSize(1)..p + 4] == Header(f, ss[0])
                  && Readable(f, ss[0])
                  && Listed(f, buf, p - f.TableSize(1), ss[1..]))
  {
    hide Header, Table, Word, Readable;
    var n, h := f.TableSize(|ss|), f.TableSize(1);
    TableCons(f, ss);
    if n <= p && p + 4 <= |buf| {
      SliceConcat(buf, p + 4 - n, p + 4 - h, p + 4, Table(f, ss[1..]), Header(f, ss[0]));
    }
    assert ss == [ss[0]] + ss[1..];
  }

  lemma ScanCons(f: Format, buf: seq<byte>, p: int, ss: seq<Slot>)
    requires ss != []
    ensures Scan(f, buf, p) == Some(ss)
            <==> Head(f, buf, p) == Got(ss[0], p - f.TableSize(1)) && Scan(f, buf, p - f.TableSize(1)) == Some(ss[1..])
  {
    hide Head;
    assert ss == [ss[0]] + ss[1..];
  }

  /** The reader returns `ss`, on any buffer and from any position, if and only if `ss` is listed there. */
  lemma {:induction false} ScanExact(f: Format, buf: seq<byte>, p: int, ss: seq<Slot>)
    ensures Scan(f, buf, p) == Some(ss) <==> Listed(f, buf, p, ss)
    decreases |ss|
  {
    if ss == [] {
      ScanEmpty(f, buf, p);
    } else {
      hide Header, Listed, Scan, Head;
      ScanExact(f, buf, p - f.TableSize(1), ss[1..]);
      HeadExact(f, buf, p, ss[0]);
      ListedCons(f, buf, p, ss);
      ScanCons(f, buf, p, ss);
    }
  }

  lemma ScanEmpty(f: Format, buf: seq<byte>, p: int)
    ensures Scan(f, buf, p) == Some([]) <==> Listed(f, buf, p, [])
  {
  }

  // ---------------------------------------------------------------- reading back what was written

  /** The reader's first position: DB_MULTIPLE_INIT. */
  function Top(buf: seq<byte>): (p: nat)
    requires 4 <= |buf|
  {
    |buf| - 4
  }

  /** Every item is inside the buffer, below the headers, and holds its entry's bytes; no sum wraps. */
  lemma ItemAt(f: Format, init: seq<byte>, es: seq<Entry>, i: nat)
    requires Fits(f, init, es) && i < |es|
    ensures var s, buf := Slots(f, es)[i], Layout(f, init, es);
            && s.off + s.len <= Cursor(f, init, es)
            && s.off < Plain.Sentinel()
            && buf[s.off..s.off + s.len] == es[i].data
  {
    hide Le, Table, Flat, Slots;
    SlotAt(f, es, i);
    var s := Slots(f, es)[i];
    assert Layout(f, init, es)[s.off..s.off + s.len] == Flat(es)[s.off..s.off + s.len];
  }

  /**
   The picture, word by word from the end of the buffer: offset and length of each item, or number, offset and length,
   and then the sentinel -1, or 0.
   */
  lemma LayoutWords(f: Format, init: seq<byte>, es: seq<Entry>, i: nat)
    requires Fits(f, init, es) && i < |es|
    ensures var buf, n := Layout(f, init, es), |init|;
            if f.Plain? then
              && 8 * |es| + 4 <= n
              && Word(buf, n - 4 - 8 * i) == |Flat(es[..i])|
              && Word(buf, n - 8 - 8 * i) == |es[i].data|
              && Word(buf, n - 4 - 8 * |es|) == 0xFFFF_FFFF
            else
              && 12 * |es| + 4 <= n
              && Word(buf, n - 4 - 12 * i) == es[i].recno
              && Word(buf, n - 8 - 12 * i) == |Flat(es[..i])|
              && Word(buf, n - 12 - 12 * i) == |es[i].data|
              && Word(buf, n - 4 - 12 * |es|) == 0
  {
    hide Flat, Slots, Layout, Table, Header, Word;
    var buf, ss := Layout(f, init, es), Slots(f, es);
    LayoutTable(f, init, es);
    TableAt(f, buf, ss, i);
    SlotIs(f, es, i);
    HeaderIs(f, buf, |buf| - f.TableSize(i + 1), ss[i]);
  }

  /** Under the cursor of every built buffer stands -1, or 0 with record numbers. */
  lemma CursorWord(f: Format, init: seq<byte>, es: seq<Entry>)
    requires Fits(f, init, es)
    ensures Word(Layout(f, init, es), Cursor(f, init, es)) == if f.Plain? then 0xFFFF_FFFF else 0
  {
    hide Layout, Word, Flat, Slots, Table;
    LayoutTable(f, init, es);
  }

  lemma SlotIs(f: Format, es: seq<Entry>, i: nat)
    requires |Flat(es)| < TWO32 && i < |es|
    ensures Slots(f, es)[i].off == |Flat(es[..i])| && Slots(f, es)[i].len == |es[i].data|
    ensures f.Recno? ==> Slots(f, es)[i].recno == es[i].recno
  {
    SlotAt(f, es, i);
  }

  /** DB_MULTIPLE_NEXT's round trip, as headers: all of them, in order, and then the sentinel. */
  lemma PlainScan(init: seq<byte>, es: seq<Entry>)
    requires Fits(Plain, init, es)
    ensures Scan(Plain, Layout(Plain, init, es), Top(init)) == Some(Slots(Plain, es))
  {
    hide Flat, Slots, Layout, Table, Scan, Word;
    var buf, ss := Layout(Plain, init, es), Slots(Plain, es);
    LayoutTable(Plain, init, es);
    forall i | 0 <= i < |ss|
      ensures Readable(Plain, ss[i])
    {
      ItemAt(Plain, init, es, i);
      SlotAt(Plain, es, i);
    }
    assert buf[Cursor(Plain, init, es) + 4..|buf|] == buf[Cursor(Plain, init, es) + 4..];
    assert Listed(Plain, buf, Top(init), ss);
    ScanExact(Plain, buf, Top(init), ss);
  }

  // ---------------------------------------------------------------- DB_MULTIPLE_NEXT

  /** A returned item: where it is, or null, and its length. */
  datatype Chunk = Chunk(data: Option<nat>, len: nat)

  /** An empty item at the very start of the buffer is returned as null. */
  function Marked(s: Slot): Chunk {
    Chunk(if s.len == 0 && s.off == 0 then None else Some(s.off), s.len)
  }

  function Next(buf: seq<byte>, p: int): (r: Read<Chunk>)
    ensures r.Got? ==> 0 <= p && r.next == p - 8
  {
    match Head(Plain, buf, p)
    case Fault => Fault
    case Done => Done
    case Got(s, q) => Got(Marked(s), q)
  }

  /**
   On any buffer: the end is the word -1 and nothing else. Otherwise the item is at the offset the word names, empty or
   not, and has the length the word below names; it is null exactly when both words are 0.
   */
  lemma NextWords(buf: seq<byte>, p: int)
    ensures Next(buf, p) == Done <==> InBuf(buf, p) && Word(buf, p) == 0xFFFF_FFFF
    ensures Next(buf, p).Got? <==> 4 <= p && InBuf(buf, p) && Word(buf, p) != 0xFFFF_FFFF
    ensures Next(buf, p).Got? ==>
              var c := Next(buf, p).value;
              && c.len == Word(buf, p - 4)
              && (c.data.Some? ==> c.data.value == Word(buf, p))
              && (c.data.None? <==> Word(buf, p) == 0 && Word(buf, p - 4) == 0)
  {
    hide Word;
  }

  /** Calling DB_MULTIPLE_NEXT until the cursor is null. */
  function NextAll(buf: seq<byte>, p: int): (r: Option<seq<Chunk>>)
    decreases p
  {
    match Next(buf, p)
    case Fault => None
    case Done => Some([])
    case Got(c, q) =>
      match NextAll(buf, q)
      case None => None
      case Some(cs) => Some([c] + cs)
  }

  function AllMarked(ss: seq<Slot>): (cs: seq<Chunk>) {
    seq(|ss|, i requires 0 <= i < |ss| => Marked(ss[i]))
  }

  lemma {:induction false} NextAllIsScan(buf: seq<byte>, p: int)
    ensures NextAll(buf, p) == match Scan(Plain, buf, p) case None => None case Some(ss) => Some(AllMarked(ss))
    decreases p
  {
    hide Head;
    match Head(Plain, buf, p)
    case Fault =>
    case Done => assert AllMarked([]) == [];
    case Got(s, q) =>
      NextAllIsScan(buf, q);
      match Scan(Plain, buf, q)
      case None =>
      case Some(ss) => assert AllMarked([s] + ss) == [Marked(s)] + AllMarked(ss);
  }

  /** What a caller finds behind a returned item; None if the item is not inside the buffer. */
  function Fetch(buf: seq<byte>, c: Chunk): (r: Option<seq<byte>>) {
    if c.data.None? then Some([])
    else if c.data.value + c.len <= |buf| then Some(buf[c.data.value..c.data.value + c.len])
    else None
  }

  /**
   Round trip: reading until the cursor is null returns as many items as were written, each with its bytes and where
   the items before it end; an item is returned as null exactly when it and all items before it are empty.
   */
  lemma NextReturnsItems(init: seq<byte>, es: seq<Entry>)
    requires Fits(Plain, init, es)
    ensures var buf := Layout(Plain, init, es);
            var r := NextAll(buf, Top(buf));
            && r.Some? && |r.value| == |es|
            && forall i :: 0 <= i < |es| ==>
                 && Fetch(buf, r.value[i]) == Some(es[i].data)
                 && r.value[i].len == |es[i].data|
                 && (r.value[i].data == None <==> forall j :: 0 <= j <= i ==> es[j].data == [])
                 && (r.value[i].data.Some? ==> r.value[i].data.value == |Flat(es[..i])|)
  {
    hide Flat, Slots, Layout, NextAll, Scan;
    PlainScan(init, es);
    NextAllIsScan(Layout(Plain, init, es), Top(init));
    forall i | 0 <= i < |es|
      ensures var c := AllMarked(Slots(Plain, es))[i];
              && Fetch(Layout(Plain, init, es), c) == Some(es[i].data)
              && c.len == |es[i].data|
              && (c.data == None <==> forall j :: 0 <= j <= i ==> es[j].data == [])
              && (c.data.Some? ==> c.data.value == |Flat(es[..i])|)
    {
      ItemAt(Plain, init, es, i);
      SlotAt(Plain, es, i);
      FlatEmpty(es[..i]);
    }
  }

  lemma {:induction false} FlatEmpty(es: seq<Entry>)
    ensures |Flat(es)| == 0 <==> forall j :: 0 <= j < |es| ==> es[j].data == []
  {
    if es != [] {
      var n := |es| - 1;
      FlatEmpty(es[..n]);
      assert forall j :: 0 <= j < n ==> es[..n][j] == es[j];
    }
  }

  // ---------------------------------------------------------------- DB_MULTIPLE_RECNO_NEXT

  /** On any buffer: the end is the word 0 and nothing else; otherwise number, offset and length are read downwards. */
  lemma RecnoNextWords(buf: seq<byte>, p: int)
    ensures Head(Recno, buf, p) == Done <==> InBuf(buf, p) && Word(buf, p) == 0
    ensures Head(Recno, buf, p).Got? <==> 8 <= p && InBuf(buf, p) && Word(buf, p) != 0
    ensures Head(Recno, buf, p).Got? ==>
              Head(Recno, buf, p) == Got(Slot(Word(buf, p), Word(buf, p - 4), Word(buf, p - 8)), p - 12)
  {
    hide Word;
  }

  /** How many entries stand before the first one with record number 0. */
  function BeforeZero(es: seq<Entry>): (z: nat)
    ensures z <= |es|
    ensures forall i :: 0 <= i < z ==> es[i].recno != 0
    ensures z < |es| ==> es[z].recno == 0
  {
    if es == [] || es[0].recno == 0 then 0 else 1 + BeforeZero(es[1..])
  }

  lemma SlotRecno(es: seq<Entry>, i: nat)
    requires |Flat(es)| < TWO32 && i < |es|
    ensures Slots(Recno, es)[i].recno == es[i].recno
  {
    SlotAt(Recno, es, i);
  }

  /** The word below the first `z` headers at the end of a buffer is the next record number. */
  lemma RecnoWord(buf: seq<byte>, ss: seq<Slot>, z: nat, p: nat)
    requires z < |ss| && Recno.TableSize(|ss|) <= |buf|
    requires buf[|buf| - Recno.TableSize(|ss|)..] == Table(Recno, ss)
    requires p == |buf| - Recno.TableSize(z + 1)
    ensures Word(buf, p + 8) == ss[z].recno
  {
    hide Word, Le, Header, Table;
    TableAt(Recno, buf, ss, z);
    HeaderIs(Recno, buf, p, ss[z]);
  }

  /** A table at the end of a buffer, cut after its first `z` headers. */
  lemma TableAt(f: Format, buf: seq<byte>, ss: seq<Slot>, z: nat)
    requires z <= |ss| && f.TableSize(|ss|) <= |buf| && buf[|buf| - f.TableSize(|ss|)..] == Table(f, ss)
    ensures buf[|buf| - f.TableSize(z)..] == Table(f, ss[..z])
    ensures z < |ss| ==> buf[|buf| - f.TableSize(z + 1)..|buf| - f.TableSize(z)] == Header(f, ss[z])
  {
    hide Header, Table;
    var n, q, p := |buf|, |buf| - f.TableSize(|ss|), |buf| - f.TableSize(z);
    var low, high := ss[..z], ss[z..];
    assert ss == low + high;
    TableConcat(f, low, high);
    assert buf[q..n] == buf[q..];
    SliceConcat(buf, q, p, n, Table(f, high), Table(f, low));
    if z < |ss| {
      TableCons(f, high);
      SliceConcat(buf, q, |buf| - f.TableSize(z + 1), p, Table(f, high[1..]), Header(f, ss[z]));
    }
  }

  /** The reader returns the entries before the first record number 0, whatever the other numbers are. */
  lemma RecnoScan(init: seq<byte>, es: seq<Entry>)
    requires Fits(Recno, init, es)
    ensures Scan(Recno, Layout(Recno, init, es), Top(init)) == Some(Slots(Recno, es)[..BeforeZero(es)])
  {
    hide Flat, Slots, Layout, Table, Scan, Word;
    var buf, ss, z := Layout(Recno, init, es), Slots(Recno, es), BeforeZero(es);
    LayoutTable(Recno, init, es);
    TableAt(Recno, buf, ss, z);
    if z < |es| {
      RecnoWord(buf, ss, z, |buf| - Recno.TableSize(z + 1));
      SlotRecno(es, z);
    }
    forall i | 0 <= i < z
      ensures Readable(Recno, ss[i])
    {
      SlotRecno(es, i);
    }
    assert buf[|buf| - 12 * z..|buf|] == buf[|buf| - 12 * z..];
    assert Listed(Recno, buf, Top(init), ss[..z]);
    ScanExact(Recno, buf, Top(init), ss[..z]);
  }

  /** The recno round trip holds if and only if no record number is 0; -1 is returned like any other. */
  lemma RecnoRoundTrip(init: seq<byte>, es: seq<Entry>)
    requires Fits(Recno, init, es)
    ensures Scan(Recno, Layout(Recno, init, es), Top(init)) == Some(Slots(Recno, es))
            <==> forall i :: 0 <= i < |es| ==> es[i].recno != 0
  {
    hide Flat, Slots, Layout, Scan;
    RecnoScan(init, es);
    var ss := Slots(Recno, es);
    if BeforeZero(es) < |es| {
      assert |ss[..BeforeZero(es)]| < |ss|;
    } else {
      assert ss[..BeforeZero(es)] == ss;
    }
  }

  /** One entry with record number 0 and no bytes is accepted, and read back as nothing. */
  lemma RecnoZeroLost()
    ensures var init, es := seq(16, _ => 0), [Entry(0, [])];
            && Fits(Recno, init, es) && |Slots(Recno, es)| == 1
            && Scan(Recno, Layout(Recno, init, es), Top(init)) == Some([])
  {
    var init: seq<byte>, es := seq(16, _ => 0), [Entry(0, [])];
    RecnoScan(init, es);
    assert Slots(Recno, es)[..0] == [];
  }

  // ---------------------------------------------------------------- DB_MULTIPLE_KEY_NEXT

  datatype KeyData = KeyData(key: Slot, data: Slot)

  function KeyNext(buf: seq<byte>, p: int): (r: Read<KeyData>)
    ensures r.Got? ==> 0 <= p && r.next == p - 16
  {
    if !InBuf(buf, p) then Fault
    else if Word(buf, p) == Plain.Sentinel() then Done
    else if p < 12 then Fault
    else Got(KeyData(Slot(0, Word(buf, p), Word(buf, p - 4)), Slot(0, Word(buf, p - 8), Word(buf, p - 12))), p - 16)
  }

  /**
   On any buffer: the end is the word -1 at `p` and nothing else; otherwise four words are read downwards, whatever they
   are. So with an odd number of items the last data offset is -1 and its length the word below the sentinel.
   */
  lemma KeyNextWords(buf: seq<byte>, p: int)
    ensures KeyNext(buf, p) == Done <==> InBuf(buf, p) && Word(buf, p) == 0xFFFF_FFFF
    ensures KeyNext(buf, p).Got? <==> 12 <= p && p + 4 <= |buf| && Word(buf, p) != 0xFFFF_FFFF
    ensures KeyNext(buf, p).Got? ==>
              var kd := KeyNext(buf, p).value;
              && kd.key.off == Word(buf, p) && kd.key.len == Word(buf, p - 4)
              && kd.data.off == Word(buf, p - 8) && kd.data.len == Word(buf, p - 12)
  {
    hide Word;
  }

  function KeyScan(buf: seq<byte>, p: int): (r: Option<seq<KeyData>>)
    decreases p
  {
    match KeyNext(buf, p)
    case Fault => None
    case Done => Some([])
    case Got(kd, q) =>
      match KeyScan(buf, q)
      case None => None
      case Some(kds) => Some([kd] + kds)
  }

  function Pairs(ss: seq<Slot>): (kds: seq<KeyData>) {
    seq(|ss| / 2, i requires 0 <= i < |ss| / 2 => KeyData(ss[2 * i], ss[2 * i + 1]))
  }

  /** On any buffer, a key/data step is two single steps, and stops where a single step stops. */
  lemma KeyNextIsTwo(buf: seq<byte>, p: int)
    ensures KeyNext(buf, p) == Done <==> Head(Plain, buf, p) == Done
    ensures var r := Head(Plain, buf, p);
            r.Got? && Head(Plain, buf, r.next).Got? ==>
              KeyNext(buf, p) == Got(KeyData(r.value, Head(Plain, buf, r.next).value), Head(Plain, buf, r.next).next)
  {
  }

  /**
   On any buffer whose headers are `ss`: with an even number of them the pairs are returned and nothing else; with an
   odd number the last key is paired with the sentinel, so the reader leaves the buffer or reports offset -1.
   */
  lemma {:induction false} KeyScanExact(buf: seq<byte>, p: int, ss: seq<Slot>)
    requires Scan(Plain, buf, p) == Some(ss)
    ensures |ss| % 2 == 0 ==> KeyScan(buf, p) == Some(Pairs(ss))
    ensures |ss| % 2 == 1 && KeyScan(buf, p).Some? ==>
              var kds := KeyScan(buf, p).value;
              |ss| / 2 < |kds| && kds[|ss| / 2].data.off == Plain.Sentinel()
    decreases |ss|
  {
    hide Head, Scan;
    KeyNextIsTwo(buf, p);
    if ss == [] {
      assert Head(Plain, buf, p) == Done by { ScanStops(Plain, buf, p); }
      assert Pairs(ss) == [];
    } else {
      ScanCons(Plain, buf, p, ss);
      if |ss| == 1 {
        assert ss[1..] == [];
        ScanStops(Plain, buf, p - 8);
        SentinelAsData(buf, p);
      } else {
        ScanCons(Plain, buf, p - 8, ss[1..]);
        assert ss[1..][1..] == ss[2..];
        KeyScanExact(buf, p - 16, ss[2..]);
        assert Pairs(ss) == [KeyData(ss[0], ss[1])] + Pairs(ss[2..]);
      }
    }
  }

  lemma ScanStops(f: Format, buf: seq<byte>, p: int)
    requires Scan(f, buf, p) == Some([])
    ensures Head(f, buf, p) == Done
  {
  }

  lemma SentinelAsData(buf: seq<byte>, p: int)
    requires Head(Plain, buf, p).Got? && Head(Plain, buf, p - 8) == Done
    ensures KeyNext(buf, p).Got? ==> KeyNext(buf, p).value.data.off == Plain.Sentinel()
    ensures KeyNext(buf, p) != Done
  {
  }

  /** Key/data round trip on a built buffer: it holds if and only if an even number of items was written. */
  lemma KeyRoundTrip(init: seq<byte>, es: seq<Entry>)
    requires Fits(Plain, init, es)
    ensures KeyScan(Layout(Plain, init, es), Top(init)) == Some(Pairs(Slots(Plain, es))) <==> |es| % 2 == 0
  {
    hide Flat, Slots, Layout, Scan, KeyScan;
    PlainScan(init, es);
    KeyScanExact(Layout(Plain, init, es), Top(init), Slots(Plain, es));
  }

  /** One empty item, read as a pair: the data header would be the sentinel and the word below the buffer. */
  lemma KeyOddFaults()
    ensures var init, es := seq(12, _ => 0), [Entry(0, [])];
            && Fits(Plain, init, es)
            && KeyScan(Layout(Plain, init, es), Top(init)) == None
  {
    hide Word, Layout;
    var init: seq<byte>, es := seq(12, _ => 0), [Entry(0, [])];
    assert Flat(es) == [];
    PlainScan(init, es);
    KeyNextIsTwo(Layout(Plain, init, es), Top(init));
  }
}
