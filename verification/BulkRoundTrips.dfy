/** Writer and reader together: what a fresh reader finds after any run of the writer. */
module BulkRoundTrips {
  import opened Bytes
  import opened BulkLayout
  import opened BulkWriter
  import opened BulkReader
  import opened BulkRuns

  /**
   After any run, with refused calls and stores into placed items anywhere in it, DB_MULTIPLE_NEXT returns exactly the
   run's items, each with its bytes, and then stops.
   */
  lemma RunReadsBack(init: seq<byte>, ops: seq<Op>)
    requires 4 <= |init| < TWO32 && forall op :: op in ops ==> Legal(Plain, op)
    ensures var buf, es := Run(Plain, init, ops).bulk.buf, ListRun(Plain, init, ops);
            && |buf| == |init|
            && var r := NextAll(buf, Top(buf));
            && r.Some? && |r.value| == |es|
            && forall i :: 0 <= i < |es| ==> Fetch(buf, r.value[i]) == Some(es[i].data)
  {
    hide Run, ListRun, Layout, NextAll, Fetch;
    RunRefines(Plain, init, ops);
    NextReturnsItems(init, ListRun(Plain, init, ops));
  }

  /** The bytes a slot names; None if they are not inside the buffer. */
  function SlotBytes(buf: seq<byte>, s: Slot): (r: Option<seq<byte>>) {
    if s.off + s.len <= |buf| then Some(buf[s.off..s.off + s.len]) else None
  }

  /** After any recno run, DB_MULTIPLE_RECNO_NEXT returns the numbers and bytes of the entries before the first 0. */
  lemma RecnoRunReadsBack(init: seq<byte>, ops: seq<Op>)
    requires 4 <= |init| < TWO32 && forall op :: op in ops ==> Legal(Recno, op)
    ensures var buf, es := Run(Recno, init, ops).bulk.buf, ListRun(Recno, init, ops);
            && |buf| == |init|
            && var r := Scan(Recno, buf, Top(buf));
            && r.Some? && |r.value| == BeforeZero(es)
            && forall i :: 0 <= i < BeforeZero(es) ==>
                 r.value[i].recno == es[i].recno && SlotBytes(buf, r.value[i]) == Some(es[i].data)
  {
    hide Run, ListRun, Layout, Scan, Flat, Slots;
    RunRefines(Recno, init, ops);
    var es := ListRun(Recno, init, ops);
    RecnoScan(init, es);
    forall i | 0 <= i < BeforeZero(es)
      ensures Slots(Recno, es)[i].recno == es[i].recno
      ensures SlotBytes(Layout(Recno, init, es), Slots(Recno, es)[i]) == Some(es[i].data)
    {
      SlotRecno(es, i);
      ItemAt(Recno, init, es, i);
    }
  }

  // ---------------------------------------------------------------- batches of pairs

  datatype Pair = Pair(key: seq<byte>, data: seq<byte>)

  /** The entries a batch of pairs puts into the buffer. */
  function PairEntries(kds: seq<Pair>): (es: seq<Entry>)
    ensures |es| == 2 * |kds|
    ensures forall i :: 0 <= i < |kds| ==> es[2 * i].data == kds[i].key && es[2 * i + 1].data == kds[i].data
  {
    if kds == [] then [] else [Entry(0, kds[0].key), Entry(0, kds[0].data)] + PairEntries(kds[1..])
  }

  function PairWriteAll(b: Bulk, kds: seq<Pair>): (r: Option<Bulk>)
    requires CursorOk(b.buf, b.cursor)
    decreases |kds|
  {
    if kds == [] then Some(b)
    else
      match PairWrite(b.buf, b.cursor, kds[0].key, kds[0].data)
      case None => None
      case Some(b') => PairWriteAll(b', kds[1..])
  }

  /** A batch of pairs is taken exactly when its single items are, and leaves the same bytes, on any buffer. */
  lemma {:induction false} PairBatchIsSingles(b: Bulk, kds: seq<Pair>)
    requires CursorOk(b.buf, b.cursor)
    ensures PairWriteAll(b, kds) == WriteAll(Plain, b, PairEntries(kds))
    decreases |kds|
  {
    if kds != [] {
      hide Write, PairWrite;
      var k, d := Entry(0, kds[0].key), Entry(0, kds[0].data);
      var es := PairEntries(kds);
      PairWriteIsTwo(b.buf, b.cursor, k.data, d.data);
      assert es[0] == k && es[1..][0] == d && es[1..][1..] == PairEntries(kds[1..]);
      var r := PairWrite(b.buf, b.cursor, k.data, d.data);
      if r.Some? {
        PairBatchIsSingles(r.value, kds[1..]);
      }
    }
  }

  /**
   A batch of pairs fits if and only if its bytes, 16 bytes a pair and one word fit; DB_MULTIPLE_KEY_NEXT then returns
   the pairs in order, each key and each datum with its bytes.
   */
  lemma PairRoundTrip(init: seq<byte>, kds: seq<Pair>)
    requires 4 <= |init| < TWO32
    ensures var r := PairWriteAll(WriteInit(Plain, init), kds);
            && (r.Some? <==> |Flat(PairEntries(kds))| + 16 * |kds| + 4 <= |init|)
            && (r.Some? ==>
                  && |r.value.buf| == |init|
                  && var back := KeyScan(r.value.buf, Top(r.value.buf));
                  && back.Some? && |back.value| == |kds|
                  && forall i :: 0 <= i < |kds| ==>
                       && SlotBytes(r.value.buf, back.value[i].key) == Some(kds[i].key)
                       && SlotBytes(r.value.buf, back.value[i].data) == Some(kds[i].data))
  {
    hide Layout, Slots, Flat, WriteAll, PairWriteAll, KeyScan, WriteInit, SlotBytes;
    var es := PairEntries(kds);
    assert CursorOk(WriteInit(Plain, init).buf, WriteInit(Plain, init).cursor) by { InitOk(init); }
    PairBatchIsSingles(WriteInit(Plain, init), kds);
    WriteAllCapacity(Plain, init, es);
    if Size(Plain, es) <= |init| {
      PairsRead(init, kds);
    }
  }

  lemma PairsRead(init: seq<byte>, kds: seq<Pair>)
    requires Fits(Plain, init, PairEntries(kds))
    ensures var buf := Layout(Plain, init, PairEntries(kds));
            var back := KeyScan(buf, Top(buf));
            && back.Some? && |back.value| == |kds|
            && forall i :: 0 <= i < |kds| ==>
                 && SlotBytes(buf, back.value[i].key) == Some(kds[i].key)
                 && SlotBytes(buf, back.value[i].data) == Some(kds[i].data)
  {
    hide Layout, Slots, Flat, KeyScan, PairEntries;
    var es := PairEntries(kds);
    KeyRoundTrip(init, es);
    forall i | 0 <= i < |kds|
      ensures SlotBytes(Layout(Plain, init, es), Slots(Plain, es)[2 * i]) == Some(kds[i].key)
      ensures SlotBytes(Layout(Plain, init, es), Slots(Plain, es)[2 * i + 1]) == Some(kds[i].data)
    {
      ItemAt(Plain, init, es, 2 * i);
      ItemAt(Plain, init, es, 2 * i + 1);
    }
  }

  lemma InitOk(init: seq<byte>)
    requires 4 <= |init| < TWO32
    ensures CursorOk(WriteInit(Plain, init).buf, WriteInit(Plain, init).cursor)
  {
  }
}
