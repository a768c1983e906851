/**
 What the bulk write macros do to a buffer and a cursor, as functions, and the proof that on every buffer they
 built they append entries to a list, byte for byte as `Layout` draws it.
 */
module BulkWriter {
  import opened Bytes
  import opened BulkLayout

  /** A cursor the macros may be given: the last word, or a word with two more words above it. */
  predicate CursorOk(buf: seq<byte>, p: nat) {
    |buf| < TWO32 && (p + 4 == |buf| || p + 12 <= |buf|)
  }

  /** A buffer being written and the caller's cursor into it. */
  datatype Bulk = Bulk(buf: seq<byte>, cursor: nat)

  datatype Reservation = Rejected | Reserved(bulk: Bulk, dest: nat)

  datatype PairReservation = PairRejected | PairReserved(bulk: Bulk, key: nat, data: nat)

  /** The start of the next item: 0 at the last word, otherwise the sum, modulo 2^32, of the two words above. */
  function Tail(buf: seq<byte>, p: nat): (off: u32)
    requires CursorOk(buf, p)
  {
    if p + 4 == |buf| then 0 else (Word(buf, p + 4) + Word(buf, p + 8)) % TWO32
  }

  function WriteInit(f: Format, init: seq<byte>): (b: Bulk)
    requires 4 <= |init| < TWO32
  {
    Bulk(Splice(init, |init| - 4, Le(f.Sentinel())), |init| - 4)
  }

  function Reserve(f: Format, buf: seq<byte>, p: nat, recno: u32, len: nat): (r: Reservation)
    requires CursorOk(buf, p)
    ensures r.Reserved? ==> |r.bulk.buf| == |buf| && CursorOk(r.bulk.buf, r.bulk.cursor) && r.dest + len <= r.bulk.cursor
  {
    var off, h := Tail(buf, p), f.TableSize(1);
    if off + len > p - h then Rejected
    else Reserved(Bulk(Splice(buf, p - h, Le(f.Sentinel()) + Header(f, SlotOf(f, recno, off, len))), p - h), off)
  }

  function Write(f: Format, buf: seq<byte>, p: nat, e: Entry): (r: Option<Bulk>)
    requires CursorOk(buf, p)
    ensures r.Some? ==> |r.value.buf| == |buf| && CursorOk(r.value.buf, r.value.cursor)
    ensures r.Some? ==> Tail(buf, p) + |e.data| <= r.value.cursor
  {
    match Reserve(f, buf, p, e.recno, |e.data|)
    case Rejected => None
    case Reserved(b, dest) => Some(b.(buf := Splice(b.buf, dest, e.data)))
  }

  function PairReserve(buf: seq<byte>, p: nat, klen: nat, dlen: nat): (r: PairReservation)
    requires CursorOk(buf, p)
    ensures r.PairReserved? ==> |r.bulk.buf| == |buf| && CursorOk(r.bulk.buf, r.bulk.cursor)
    ensures r.PairReserved? ==> r.data == r.key + klen && r.data + dlen <= r.bulk.cursor
  {
    var off := Tail(buf, p);
    if off + klen + dlen > p - 16 then PairRejected
    else
      var headers := Header(Plain, Slot(0, off + klen, dlen)) + Header(Plain, Slot(0, off, klen));
      PairReserved(Bulk(Splice(buf, p - 16, Le(Plain.Sentinel()) + headers), p - 16), off, off + klen)
  }

  function PairWrite(buf: seq<byte>, p: nat, key: seq<byte>, data: seq<byte>): (r: Option<Bulk>)
    requires CursorOk(buf, p)
    ensures r.Some? ==> |r.value.buf| == |buf| && CursorOk(r.value.buf, r.value.cursor)
    ensures r.Some? ==> Tail(buf, p) + |key| + |data| <= r.value.cursor
  {
    match PairReserve(buf, p, |key|, |data|)
    case PairRejected => None
    case PairReserved(b, k, d) => Some(b.(buf := Splice(Splice(b.buf, k, key), d, data)))
  }

  // ------------------------------------------- the words stored, on any buffer at all

  /** Initialisation stores (u_int32_t)-1, or 0 for record numbers, in the last word and changes nothing below it. */
  lemma InitWord(f: Format, init: seq<byte>)
    requires 4 <= |init| < TWO32
    ensures var b := WriteInit(f, init);
            && Word(b.buf, |init| - 4) == (if f.Plain? then 0xFFFF_FFFF else 0)
            && b.buf[..|init| - 4] == init[..|init| - 4]
  {
    hide Le, Word;
    SpliceSlice(init, |init| - 4, Le(f.Sentinel()));
    WordLe(WriteInit(f, init).buf, |init| - 4, f.Sentinel());
  }

  /** A reservation stores its offset, its length and, below them, -1; with record numbers the number on top, and 0. */
  lemma ReserveWords(f: Format, buf: seq<byte>, p: nat, recno: u32, len: nat)
    requires CursorOk(buf, p)
    ensures var r := Reserve(f, buf, p, recno, len);
            r.Reserved? ==>
              var b := r.bulk.buf;
              if f.Plain? then
                && r.bulk.cursor == p - 8
                && Word(b, p) == r.dest && Word(b, p - 4) == len && Word(b, p - 8) == 0xFFFF_FFFF
              else
                && r.bulk.cursor == p - 12
                && Word(b, p) == recno && Word(b, p - 4) == r.dest && Word(b, p - 8) == len && Word(b, p - 12) == 0
  {
    hide Le, Header, Splice, Word, Tail;
    var r, h := Reserve(f, buf, p, recno, len), f.TableSize(1);
    if r.Reserved? {
      var b, mark, s := r.bulk.buf, f.Sentinel(), SlotOf(f, recno, r.dest, len);
      SpliceSlice(buf, p - h, Le(mark) + Header(f, s));
      SliceConcat(b, p - h, p - h + 4, p + 4, Le(mark), Header(f, s));
      WordLe(b, p - h, mark);
      HeaderIs(f, b, p - h + 4, s);
    }
  }

  /** A pair reservation stores the key's offset and length, below them the data's, and below these -1. */
  lemma PairReserveWords(buf: seq<byte>, p: nat, klen: nat, dlen: nat)
    requires CursorOk(buf, p)
    ensures var r := PairReserve(buf, p, klen, dlen);
            r.PairReserved? ==>
              var b := r.bulk.buf;
              && r.bulk.cursor == p - 16
              && Word(b, p) == r.key && Word(b, p - 4) == klen
              && Word(b, p - 8) == r.data && Word(b, p - 12) == dlen
              && Word(b, p - 16) == 0xFFFF_FFFF
  {
    hide Le, Header, Splice, Word, Tail, PairReserve;
    PairReserveIsTwo(buf, p, klen, dlen);
    var r := Reserve(Plain, buf, p, 0, klen);
    if r.Reserved? {
      ReserveWords(Plain, buf, p, 0, klen);
      var b := r.bulk.buf;
      var r' := Reserve(Plain, b, p - 8, 0, dlen);
      if r'.Reserved? {
        ReserveWords(Plain, b, p - 8, 0, dlen);
        var stored := Le(Plain.Sentinel()) + Header(Plain, SlotOf(Plain, 0, r'.dest, dlen));
        WordKept(b, p - 16, stored, p);
        WordKept(b, p - 16, stored, p - 4);
      }
    }
  }

  // ------------------------------------------- one step on a buffer the macros built

  /** The writer's whole state after the entries `es` went into a buffer that held `init`. */
  function Built(f: Format, init: seq<byte>, es: seq<Entry>): (b: Bulk)
    requires Fits(f, init, es)
    ensures CursorOk(b.buf, b.cursor)
  {
    Bulk(Layout(f, init, es), Cursor(f, init, es))
  }

  lemma InitBuilds(f: Format, init: seq<byte>)
    requires 4 <= |init| < TWO32
    ensures WriteInit(f, init) == Built(f, init, [])
  {
  }

  lemma WordIn(a: seq<byte>, v: u32, c: seq<byte>)
    ensures Word(a + Le(v) + c, |a|) == v
  {
    var s := a + Le(v) + c;
    assert s[|a|..|a| + 4] == Le(v);
    WordLe(s, |a|, v);
  }

  lemma TwoWordsIn(a: seq<byte>, v: u32, w: u32, c: seq<byte>)
    ensures var s := a + (Le(v) + Le(w) + c); Word(s, |a|) == v && Word(s, |a| + 4) == w
  {
    WordIn(a, v, Le(w) + c);
    WordIn(a + Le(v), w, c);
    assert a + (Le(v) + Le(w) + c) == a + Le(v) + (Le(w) + c) == (a + Le(v)) + Le(w) + c;
  }

  lemma TailSum(buf: seq<byte>, p: nat, sum: nat)
    requires CursorOk(buf, p) && p + 12 <= |buf| && sum < TWO32
    requires Word(buf, p + 4) + Word(buf, p + 8) == sum
    ensures Tail(buf, p) == sum
  {
  }

  /** The two words above the cursor describe the last item: their sum is where the items end, and does not wrap. */
  lemma TailIsEnd(f: Format, init: seq<byte>, es: seq<Entry>)
    requires Fits(f, init, es)
    ensures Tail(Layout(f, init, es), Cursor(f, init, es)) == |Flat(es)|
    ensures es != [] ==>
              var buf, p := Layout(f, init, es), Cursor(f, init, es);
              Word(buf, p + 4) + Word(buf, p + 8) == |Flat(es)|
  {
    if es != [] {
      hide Word, Table, Layout, Tail;
      var buf, p := Layout(f, init, es), Cursor(f, init, es);
      LayoutTable(f, init, es);
      LastWords(f, buf, p + 4, Slots(f, es));
      TailSum(buf, p, |Flat(es)|);
    }
  }

  /** The bytes a fresh slot of `len` bytes holds before the caller fills it: what was there at the start. */
  function Untouched(init: seq<byte>, es: seq<Entry>, recno: u32, len: nat): (e: Entry)
    requires |Flat(es)| + len <= |init|
  {
    Entry(recno, init[|Flat(es)|..|Flat(es)| + len])
  }

  lemma ReserveLayout(f: Format, init: seq<byte>, es: seq<Entry>, e: Entry)
    requires Size(f, es) + |e.data| + f.TableSize(1) <= |init| < TWO32
    requires e.data == init[|Flat(es)|..|Flat(es)| + |e.data|]
    ensures Fits(f, init, es + [e])
    ensures Splice(Layout(f, init, es), Cursor(f, init, es) - f.TableSize(1),
                   Le(f.Sentinel()) + Header(f, SlotOf(f, e.recno, |Flat(es)|, |e.data|)))
            == Layout(f, init, es + [e])
  {
    hide Splice, Picture, Header, Le, Table, Flat, Slots;
    LayoutAppend(f, init, es, e);
    Carve(Flat(es), init, Cursor(f, init, es), Le(f.Sentinel()), Table(f, Slots(f, es)), e.data,
          Header(f, SlotOf(f, e.recno, |Flat(es)|, |e.data|)));
  }

  /** Reserving appends an entry that holds the bytes already there; it is refused exactly when it does not fit. */
  lemma ReserveAppends(f: Format, init: seq<byte>, es: seq<Entry>, recno: u32, len: nat)
    requires Fits(f, init, es)
    ensures var b := Built(f, init, es);
            var r := Reserve(f, b.buf, b.cursor, recno, len);
            if Size(f, es) + len + f.TableSize(1) <= |init| then
              var e := Untouched(init, es, recno, len);
              && Fits(f, init, es + [e])
              && r == Reserved(Built(f, init, es + [e]), |Flat(es)|)
            else r == Rejected
  {
    hide Splice, Header, Le, Layout, Tail, Flat, Slots, Table;
    TailIsEnd(f, init, es);
    if Size(f, es) + len + f.TableSize(1) <= |init| {
      ReserveLayout(f, init, es, Untouched(init, es, recno, len));
    }
  }

  /** A write appends its entry; it is refused exactly when the entry and its header do not fit. */
  lemma WriteAppends(f: Format, init: seq<byte>, es: seq<Entry>, e: Entry)
    requires Fits(f, init, es)
    ensures var b := Built(f, init, es);
            var r := Write(f, b.buf, b.cursor, e);
            if Size(f, es) + |e.data| + f.TableSize(1) <= |init| then
              Fits(f, init, es + [e]) && r == Some(Built(f, init, es + [e]))
            else r == None
  {
    hide Reserve, Splice, Layout, Flat, Slots, Table;
    ReserveAppends(f, init, es, e.recno, |e.data|);
    if Size(f, es) + |e.data| + f.TableSize(1) <= |init| {
      var u := Untouched(init, es, e.recno, |e.data|);
      FillLayout(f, init, es + [u], |es|, 0, e.data);
      assert (es + [u])[..|es|] == es;
      WholeSplice(u.data, e.data);
      assert Filled(es + [u], |es|, 0, e.data) == es + [e];
    }
  }

  lemma WholeSplice(s: seq<byte>, b: seq<byte>)
    requires |s| == |b|
    ensures Splice(s, 0, b) == b
  {
  }

  // ------------------------------------------- pairs, on any buffer at all

  /** Two reservations in a row leave the headers one reservation of a pair leaves, on any buffer. */
  lemma PairReserveIsTwo(buf: seq<byte>, p: nat, klen: nat, dlen: nat)
    requires CursorOk(buf, p)
    ensures var pair := PairReserve(buf, p, klen, dlen);
            match Reserve(Plain, buf, p, 0, klen)
            case Rejected => pair == PairRejected
            case Reserved(b, key) =>
              match Reserve(Plain, b.buf, b.cursor, 0, dlen)
              case Rejected => pair == PairRejected
              case Reserved(b', data) => pair == PairReserved(b', key, data)
  {
    hide Le, Header, Splice, Tail;
    var r := Reserve(Plain, buf, p, 0, klen);
    if r.Reserved? {
      ReservedTail(buf, p, klen);
      var off := Tail(buf, p);
      if off + klen + dlen <= p - 16 {
        var mark, h1, h2 := Le(Plain.Sentinel()), Header(Plain, Slot(0, off, klen)), Header(Plain, Slot(0, off + klen, dlen));
        SpliceOver(buf, p - 8, mark, h1, mark + h2);
        Associative(mark, h2, h1);
      }
    }
  }

  /** After a reservation the next item starts where the reserved one ends. */
  lemma ReservedTail(buf: seq<byte>, p: nat, len: nat)
    requires CursorOk(buf, p)
    ensures var r := Reserve(Plain, buf, p, 0, len);
            r.Reserved? ==> Tail(r.bulk.buf, r.bulk.cursor) == Tail(buf, p) + len
  {
    var r, off := Reserve(Plain, buf, p, 0, len), Tail(buf, p);
    if r.Reserved? {
      hide Le, Tail;
      var lower := buf[..p - 8] + Le(Plain.Sentinel());
      assert r.bulk.buf == lower + (Le(len) + Le(off) + buf[p + 4..]);
      TwoWordsIn(lower, len, off, buf[p + 4..]);
      TailSum(r.bulk.buf, p - 8, off + len);
    }
  }

  /** A pair write is the write of the key and then of the data: taken or refused as a whole, with the same bytes. */
  lemma PairWriteIsTwo(buf: seq<byte>, p: nat, key: seq<byte>, data: seq<byte>)
    requires CursorOk(buf, p)
    ensures PairWrite(buf, p, key, data)
            == match Write(Plain, buf, p, Entry(0, key))
               case None => None
               case Some(b) => Write(Plain, b.buf, b.cursor, Entry(0, data))
  {
    hide Le, Header, Splice, Tail, PairReserve;
    PairReserveIsTwo(buf, p, |key|, |data|);
    var r := Reserve(Plain, buf, p, 0, |key|);
    if r.Reserved? {
      var b, off := r.bulk, r.dest;
      ReservedTail(buf, p, |key|);
      TailKept(b.buf, b.cursor, off, key);
      if off + |key| + |data| <= p - 16 {
        var h2 := Le(Plain.Sentinel()) + Header(Plain, Slot(0, off + |key|, |data|));
        SpliceCommutes(b.buf, off, key, p - 16, h2);
      }
    }
  }

  /** Item bytes stored below the cursor do not move the start of the next item. */
  lemma TailKept(buf: seq<byte>, p: nat, off: nat, b: seq<byte>)
    requires CursorOk(buf, p) && off + |b| <= p
    ensures Tail(Splice(buf, off, b), p) == Tail(buf, p)
  {
    hide Word, Splice;
    if p + 12 <= |buf| {
      WordKept(buf, off, b, p + 4);
      WordKept(buf, off, b, p + 8);
    }
  }
}
