/**
 Whole runs of the bulk writer. A run may mix writes, reservations, pairs, refused calls and stores into items
 already placed; it always leaves the bytes that writing its final entries one by one would leave.
 */
module BulkRuns {
  import opened Bytes
  import opened BulkLayout
  import opened BulkWriter

  datatype Op =
    | DoWrite(e: Entry)
    | DoReserve(recno: u32, len: nat)
    | DoPairWrite(key: seq<byte>, data: seq<byte>)
    | DoPairReserve(klen: nat, dlen: nat)
    | Fill(item: nat, at: nat, bytes: seq<byte>)  // the caller's own memcpy into an item it was given

  /** The key/data macros only know the plain form. */
  predicate Legal(f: Format, op: Op) {
    op.DoPairWrite? || op.DoPairReserve? ==> f.Plain?
  }

  /** The writer and the places handed out so far; after a refusal the caller goes on with the cursor it had. */
  datatype Session = Session(bulk: Bulk, places: seq<Slot>)

  predicate SessionOk(s: Session) {
    && CursorOk(s.bulk.buf, s.bulk.cursor)
    && forall i :: 0 <= i < |s.places| ==> s.places[i].off + s.places[i].len <= |s.bulk.buf|
  }

  function Extend(s: Session, b: Bulk, more: seq<Slot>): (s': Session)
    requires SessionOk(s) && CursorOk(b.buf, b.cursor) && |b.buf| == |s.bulk.buf|
    requires forall i :: 0 <= i < |more| ==> more[i].off + more[i].len <= |b.buf|
    ensures SessionOk(s')
  {
    Session(b, s.places + more)
  }

  function FillPlace(s: Session, i: nat, at: nat, bytes: seq<byte>): (s': Session)
    requires SessionOk(s) && i < |s.places| && at + |bytes| <= s.places[i].len
    ensures SessionOk(s')
  {
    s.(bulk := s.bulk.(buf := Splice(s.bulk.buf, s.places[i].off + at, bytes)))
  }

  function AfterReserve(f: Format, s: Session, recno: u32, len: nat): (s': Session)
    requires SessionOk(s)
    ensures SessionOk(s')
  {
    match Reserve(f, s.bulk.buf, s.bulk.cursor, recno, len)
    case Rejected => s
    case Reserved(b, dest) => Extend(s, b, [SlotOf(f, recno, dest, len)])
  }

  function AfterWrite(f: Format, s: Session, e: Entry): (s': Session)
    requires SessionOk(s)
    ensures SessionOk(s')
  {
    match Write(f, s.bulk.buf, s.bulk.cursor, e)
    case None => s
    case Some(b) => Extend(s, b, [SlotOf(f, e.recno, Tail(s.bulk.buf, s.bulk.cursor), |e.data|)])
  }

  function AfterPairReserve(s: Session, klen: nat, dlen: nat): (s': Session)
    requires SessionOk(s)
    ensures SessionOk(s')
  {
    match PairReserve(s.bulk.buf, s.bulk.cursor, klen, dlen)
    case PairRejected => s
    case PairReserved(b, key, data) => Extend(s, b, [Slot(0, key, klen), Slot(0, data, dlen)])
  }

  function AfterPairWrite(s: Session, key: seq<byte>, data: seq<byte>): (s': Session)
    requires SessionOk(s)
    ensures SessionOk(s')
  {
    match PairWrite(s.bulk.buf, s.bulk.cursor, key, data)
    case None => s
    case Some(b) =>
      var off := Tail(s.bulk.buf, s.bulk.cursor);
      Extend(s, b, [Slot(0, off, |key|), Slot(0, off + |key|, |data|)])
  }

  function Step(f: Format, s: Session, op: Op): (s': Session)
    requires SessionOk(s) && Legal(f, op)
    ensures SessionOk(s')
  {
    match op
    case DoReserve(recno, len) => AfterReserve(f, s, recno, len)
    case DoWrite(e) => AfterWrite(f, s, e)
    case DoPairReserve(klen, dlen) => AfterPairReserve(s, klen, dlen)
    case DoPairWrite(key, data) => AfterPairWrite(s, key, data)
    case Fill(i, at, bytes) =>
      if i < |s.places| && at + |bytes| <= s.places[i].len then FillPlace(s, i, at, bytes) else s
  }

  function Run(f: Format, init: seq<byte>, ops: seq<Op>): (s: Session)
    requires 4 <= |init| < TWO32 && forall op :: op in ops ==> Legal(f, op)
    ensures SessionOk(s)
  {
    if ops == [] then Session(WriteInit(f, init), [])
    else Step(f, Run(f, init, ops[..|ops| - 1]), ops[|ops| - 1])
  }

  // ---------------------------------------------------------------- the list a run stands for

  function Append(f: Format, init: seq<byte>, es: seq<Entry>, e: Entry): (r: seq<Entry>)
  {
    if Size(f, es) + |e.data| + f.TableSize(1) <= |init| then es + [e] else es
  }

  /** An unfilled entry holds what the buffer held at the start. */
  function AppendUntouched(f: Format, init: seq<byte>, es: seq<Entry>, recno: u32, len: nat): (r: seq<Entry>) {
    if Size(f, es) + len + f.TableSize(1) <= |init| then es + [Untouched(init, es, recno, len)] else es
  }

  function ListStep(f: Format, init: seq<byte>, es: seq<Entry>, op: Op): (r: seq<Entry>) {
    match op
    case DoReserve(recno, len) => AppendUntouched(f, init, es, recno, len)
    case DoWrite(e) => Append(f, init, es, e)
    case DoPairReserve(klen, dlen) =>
      if Size(f, es) + klen + dlen + f.TableSize(2) <= |init| then
        AppendUntouched(f, init, AppendUntouched(f, init, es, 0, klen), 0, dlen)
      else es
    case DoPairWrite(key, data) =>
      if Size(f, es) + |key| + |data| + f.TableSize(2) <= |init| then es + [Entry(0, key), Entry(0, data)] else es
    case Fill(i, at, bytes) =>
      if i < |es| && at + |bytes| <= |es[i].data| then Filled(es, i, at, bytes) else es
  }

  function ListRun(f: Format, init: seq<byte>, ops: seq<Op>): (es: seq<Entry>) {
    if ops == [] then [] else ListStep(f, init, ListRun(f, init, ops[..|ops| - 1]), ops[|ops| - 1])
  }

  /** The session in which the entries `es` stand in a buffer that held `init`. */
  function SessionOf(f: Format, init: seq<byte>, es: seq<Entry>): (s: Session)
    requires Fits(f, init, es)
  {
    Session(Built(f, init, es), Slots(f, es))
  }

  lemma PlacesOk(f: Format, init: seq<byte>, es: seq<Entry>)
    requires Fits(f, init, es)
    ensures SessionOk(SessionOf(f, init, es))
  {
    forall i | 0 <= i < |es|
      ensures Slots(f, es)[i].off + Slots(f, es)[i].len <= |init|
    {
      SlotAt(f, es, i);
    }
  }

  lemma WriteStep(f: Format, init: seq<byte>, es: seq<Entry>, e: Entry)
    requires Fits(f, init, es) && SessionOk(SessionOf(f, init, es))
    ensures var es' := Append(f, init, es, e);
            Fits(f, init, es') && Step(f, SessionOf(f, init, es), DoWrite(e)) == SessionOf(f, init, es')
  {
    hide Flat, Slots, Layout, Write, Tail;
    WriteAppends(f, init, es, e);
    TailIsEnd(f, init, es);
    if Size(f, es) + |e.data| + f.TableSize(1) <= |init| {
      SlotsAppend(f, es, e);
    }
  }

  lemma ReserveStep(f: Format, init: seq<byte>, es: seq<Entry>, recno: u32, len: nat)
    requires Fits(f, init, es) && SessionOk(SessionOf(f, init, es))
    ensures var es' := AppendUntouched(f, init, es, recno, len);
            Fits(f, init, es') && Step(f, SessionOf(f, init, es), DoReserve(recno, len)) == SessionOf(f, init, es')
  {
    hide Flat, Slots, Layout, Reserve, Tail;
    ReserveAppends(f, init, es, recno, len);
    if Size(f, es) + len + f.TableSize(1) <= |init| {
      SlotsAppend(f, es, Untouched(init, es, recno, len));
    }
  }

  lemma FillStep(f: Format, init: seq<byte>, es: seq<Entry>, i: nat, at: nat, bytes: seq<byte>)
    requires Fits(f, init, es) && SessionOk(SessionOf(f, init, es))
    ensures var es' := ListStep(f, init, es, Fill(i, at, bytes));
            Fits(f, init, es') && Step(f, SessionOf(f, init, es), Fill(i, at, bytes)) == SessionOf(f, init, es')
  {
    hide Flat, Slots, Layout, Splice;
    if i < |es| {
      SlotAt(f, es, i);
      if at + |bytes| <= |es[i].data| {
        FillLayout(f, init, es, i, at, bytes);
      }
    }
  }

  lemma SizeAppend(f: Format, es: seq<Entry>, e: Entry)
    ensures Size(f, es + [e]) == Size(f, es) + |e.data| + f.TableSize(1)
  {
    FlatAppend(es, e);
  }

  lemma PairReserveStep(init: seq<byte>, es: seq<Entry>, klen: nat, dlen: nat)
    requires Fits(Plain, init, es) && SessionOk(SessionOf(Plain, init, es))
    ensures var es', op := ListStep(Plain, init, es, DoPairReserve(klen, dlen)), DoPairReserve(klen, dlen);
            Fits(Plain, init, es') && Step(Plain, SessionOf(Plain, init, es), op) == SessionOf(Plain, init, es')
  {
    hide Flat, Slots, Layout, Reserve, PairReserve, Tail, Splice;
    var b := Built(Plain, init, es);
    PairReserveIsTwo(b.buf, b.cursor, klen, dlen);
    ReserveAppends(Plain, init, es, 0, klen);
    if Size(Plain, es) + klen + 8 <= |init| {
      var u := Untouched(init, es, 0, klen);
      SizeAppend(Plain, es, u);
      SlotsAppend(Plain, es, u);
      ReserveAppends(Plain, init, es + [u], 0, dlen);
      if Size(Plain, es + [u]) + dlen + 8 <= |init| {
        SlotsAppend(Plain, es + [u], Untouched(init, es + [u], 0, dlen));
      }
    }
  }

  lemma PairWriteStep(init: seq<byte>, es: seq<Entry>, key: seq<byte>, data: seq<byte>)
    requires Fits(Plain, init, es) && SessionOk(SessionOf(Plain, init, es))
    ensures var es', op := ListStep(Plain, init, es, DoPairWrite(key, data)), DoPairWrite(key, data);
            Fits(Plain, init, es') && Step(Plain, SessionOf(Plain, init, es), op) == SessionOf(Plain, init, es')
  {
    hide Flat, Slots, Layout, Write, PairWrite, Tail, Splice;
    var b, k, d := Built(Plain, init, es), Entry(0, key), Entry(0, data);
    PairWriteIsTwo(b.buf, b.cursor, key, data);
    WriteAppends(Plain, init, es, k);
    TailIsEnd(Plain, init, es);
    if Size(Plain, es) + |key| + 8 <= |init| {
      SizeAppend(Plain, es, k);
      SlotsAppend(Plain, es, k);
      WriteAppends(Plain, init, es + [k], d);
      assert es + [k] + [d] == es + [k, d];
      if Size(Plain, es + [k]) + |data| + 8 <= |init| {
        SlotsAppend(Plain, es + [k], d);
      }
    }
  }

  /** Every step on the bytes is the step on the list. */
  lemma StepRefines(f: Format, init: seq<byte>, es: seq<Entry>, op: Op)
    requires Fits(f, init, es) && Legal(f, op)
    ensures SessionOk(SessionOf(f, init, es))
    ensures var es' := ListStep(f, init, es, op);
            Fits(f, init, es') && Step(f, SessionOf(f, init, es), op) == SessionOf(f, init, es')
  {
    hide Step, Fits, SessionOf, SessionOk, Filled, Append, AppendUntouched;
    PlacesOk(f, init, es);
    match op
    case DoReserve(recno, len) => ReserveStep(f, init, es, recno, len);
    case DoWrite(e) => WriteStep(f, init, es, e);
    case DoPairReserve(klen, dlen) => PairReserveStep(init, es, klen, dlen);
    case DoPairWrite(key, data) => PairWriteStep(init, es, key, data);
    case Fill(i, at, bytes) => FillStep(f, init, es, i, at, bytes);
  }

  /**
   In every reachable state the buffer is the picture of the run's list: items side by side from the front, headers
   from the back, the sentinel under the cursor, and every other byte as it was before the run.
   */
  lemma {:induction false} RunRefines(f: Format, init: seq<byte>, ops: seq<Op>)
    requires 4 <= |init| < TWO32 && forall op :: op in ops ==> Legal(f, op)
    ensures var es := ListRun(f, init, ops);
            Fits(f, init, es) && Run(f, init, ops) == SessionOf(f, init, es)
    decreases |ops|
  {
    hide Step, ListStep, Layout;
    if ops == [] {
      InitBuilds(f, init);
    } else {
      var front := ops[..|ops| - 1];
      RunRefines(f, init, front);
      StepRefines(f, init, ListRun(f, init, front), ops[|ops| - 1]);
    }
  }

  // ---------------------------------------------------------------- writing a batch, and its capacity

  /** Writing entries one after the other until one is refused. */
  function WriteAll(f: Format, b: Bulk, es: seq<Entry>): (r: Option<Bulk>)
    requires CursorOk(b.buf, b.cursor)
    decreases |es|
  {
    if es == [] then Some(b)
    else
      match Write(f, b.buf, b.cursor, es[0])
      case None => None
      case Some(b') => WriteAll(f, b', es[1..])
  }

  lemma {:induction false} WriteAllFrom(f: Format, init: seq<byte>, done: seq<Entry>, es: seq<Entry>)
    requires Fits(f, init, done)
    ensures WriteAll(f, Built(f, init, done), es)
            == if Size(f, done + es) <= |init| then Some(Built(f, init, done + es)) else None
    decreases |es|
  {
    hide Layout, Write, Flat, Slots;
    if es == [] {
      assert done + es == done;
    } else {
      var e := es[0];
      WriteAppends(f, init, done, e);
      SizeAppend(f, done, e);
      assert done + es == done + [e] + es[1..];
      FlatConcat(done + [e], es[1..]);
      if Size(f, done + [e]) <= |init| {
        WriteAllFrom(f, init, done + [e], es[1..]);
      }
    }
  }

  /** Exact capacity: a batch is taken if and only if its bytes, its headers and one word fit the buffer. */
  lemma WriteAllCapacity(f: Format, init: seq<byte>, es: seq<Entry>)
    requires 4 <= |init| < TWO32
    ensures WriteAll(f, WriteInit(f, init), es) == if Size(f, es) <= |init| then Some(Built(f, init, es)) else None
  {
    hide Layout, Write, Slots, WriteAll, WriteInit;
    InitBuilds(f, init);
    WriteAllFrom(f, init, [], es);
    assert [] + es == es;
  }

  lemma Without<T>(s: seq<T>, a: seq<T>, b: seq<T>, x: T)
    requires s == a + [x] + b
    ensures multiset(a + b) == multiset(s) - multiset{x}
  {
    assert multiset(s) == multiset(a) + multiset{x} + multiset(b);
    assert multiset(a + b) == multiset(a) + multiset(b);
  }

  lemma Around<T>(s: seq<T>, x: T) returns (a: seq<T>, b: seq<T>)
    requires x in s
    ensures s == a + [x] + b
  {
    var k :| 0 <= k < |s| && s[k] == x;
    a, b := s[..k], s[k + 1..];
  }

  lemma FlatWithout(s: seq<Entry>, a: seq<Entry>, b: seq<Entry>, e: Entry)
    requires s == a + [e] + b
    ensures |Flat(s)| == |Flat(a + b)| + |e.data|
  {
    FlatConcat(a + [e], b);
    FlatAppend(a, e);
    FlatConcat(a, b);
  }

  lemma {:induction false} PermutedFlat(es: seq<Entry>, es': seq<Entry>)
    requires multiset(es) == multiset(es')
    ensures |Flat(es)| == |Flat(es')|
    decreases |es|
  {
    if es == [] {
      assert |multiset(es')| == 0;
    } else {
      hide Flat;
      var e := es[0];
      var a, b := Around(es, e);
      assert e in multiset(es');
      var a', b' := Around(es', e);
      Without(es, a, b, e);
      Without(es', a', b', e);
      PermutedFlat(a + b, a' + b');
      FlatWithout(es, a, b, e);
      FlatWithout(es', a', b', e);
    }
  }

  /** Whether a batch is taken does not depend on its order. */
  lemma CapacityIgnoresOrder(f: Format, init: seq<byte>, es: seq<Entry>, es': seq<Entry>)
    requires 4 <= |init| < TWO32
    requires multiset(es) == multiset(es')
    ensures WriteAll(f, WriteInit(f, init), es).Some? <==> WriteAll(f, WriteInit(f, init), es').Some?
  {
    PermutedFlat(es, es');
    assert |es| == |multiset(es)| == |multiset(es')| == |es'|;
    WriteAllCapacity(f, init, es);
    WriteAllCapacity(f, init, es');
  }

  /** However a run reached its entries, the bytes and the cursor are those of writing these entries in order. */
  lemma RunIsSequentialWrite(f: Format, init: seq<byte>, ops: seq<Op>)
    requires 4 <= |init| < TWO32 && forall op :: op in ops ==> Legal(f, op)
    ensures WriteAll(f, WriteInit(f, init), ListRun(f, init, ops)) == Some(Run(f, init, ops).bulk)
  {
    hide WriteAll, Run, ListRun, Layout, Flat, Slots;
    RunRefines(f, init, ops);
    WriteAllCapacity(f, init, ListRun(f, init, ops));
  }

  // ---------------------------------------------------------------- reserving first, filling later

  function Reserves(es: seq<Entry>): (ops: seq<Op>) {
    seq(|es|, i requires 0 <= i < |es| => DoReserve(es[i].recno, |es[i].data|))
  }

  /** Copy each item named in `order` into its place. */
  function Fills(es: seq<Entry>, order: seq<nat>): (ops: seq<Op>)
    requires forall j :: 0 <= j < |order| ==> order[j] < |es|
  {
    seq(|order|, j requires 0 <= j < |order| => Fill(order[j], 0, es[order[j]].data))
  }

  ghost predicate Alike(es: seq<Entry>, es': seq<Entry>) {
    |es| == |es'| && forall i :: 0 <= i < |es| ==> es[i].recno == es'[i].recno && |es[i].data| == |es'[i].data|
  }

  lemma ListRunAppend(f: Format, init: seq<byte>, ops: seq<Op>, op: Op)
    ensures ListRun(f, init, ops + [op]) == ListStep(f, init, ListRun(f, init, ops), op)
  {
    assert (ops + [op])[..|ops|] == ops;
  }

  lemma AlikeAppend(f: Format, init: seq<byte>, es: seq<Entry>, es': seq<Entry>, e: Entry)
    requires Alike(es, es') && Fits(f, init, es + [e])
    ensures Alike(es + [e], AppendUntouched(f, init, es', e.recno, |e.data|))
  {
    hide Flat, Slots;
    SizeAppend(f, es, e);
    SameShape(f, es, es');
  }

  lemma {:induction false} ReservesAlike(f: Format, init: seq<byte>, es: seq<Entry>)
    requires Fits(f, init, es)
    ensures Alike(es, ListRun(f, init, Reserves(es)))
    decreases |es|
  {
    if es != [] {
      hide Flat, ListRun, Alike, AppendUntouched;
      var front, e := es[..|es| - 1], es[|es| - 1];
      assert es == front + [e];
      SizeAppend(f, front, e);
      ReservesAlike(f, init, front);
      assert Reserves(es) == Reserves(front) + [DoReserve(e.recno, |e.data|)];
      ListRunAppend(f, init, Reserves(front), DoReserve(e.recno, |e.data|));
      AlikeAppend(f, init, front, ListRun(f, init, Reserves(front)), e);
    } else {
      assert Reserves(es) == [];
    }
  }

  lemma {:induction false} FillsDone(f: Format, init: seq<byte>, es: seq<Entry>, order: seq<nat>)
    requires Fits(f, init, es) && forall j :: 0 <= j < |order| ==> order[j] < |es|
    ensures var r := ListRun(f, init, Reserves(es) + Fills(es, order));
            Alike(es, r) && forall j :: 0 <= j < |order| ==> r[order[j]] == es[order[j]]
    decreases |order|
  {
    hide Fits, Flat, ListRun;
    if order == [] {
      ReservesAlike(f, init, es);
      assert Reserves(es) + Fills(es, order) == Reserves(es);
    } else {
      var front, i := order[..|order| - 1], order[|order| - 1];
      FillsDone(f, init, es, front);
      var op := Fill(i, 0, es[i].data);
      assert Reserves(es) + Fills(es, order) == Reserves(es) + Fills(es, front) + [op];
      ListRunAppend(f, init, Reserves(es) + Fills(es, front), op);
      var r := ListRun(f, init, Reserves(es) + Fills(es, front));
      WholeSplice(r[i].data, es[i].data);
    }
  }

  /** The items so far are the bytes the buffer began with. */
  ghost predicate AsBefore(init: seq<byte>, es: seq<Entry>) {
    |Flat(es)| <= |init| && Flat(es) == init[..|Flat(es)|]
  }

  lemma AppendAsBefore(f: Format, init: seq<byte>, es: seq<Entry>, recno: u32, len: nat)
    requires AsBefore(init, es)
    ensures AsBefore(init, AppendUntouched(f, init, es, recno, len))
  {
    hide Flat;
    var n := |Flat(es)|;
    if Size(f, es) + len + f.TableSize(1) <= |init| {
      FlatAppend(es, Untouched(init, es, recno, len));
      assert init[..n] + init[n..n + len] == init[..n + len];
    }
  }

  lemma {:induction false} ReservesUntouched(f: Format, init: seq<byte>, es: seq<Entry>)
    ensures AsBefore(init, ListRun(f, init, Reserves(es)))
    decreases |es|
  {
    hide AsBefore, AppendUntouched, ListRun;
    if es == [] {
      NothingAsBefore(f, init);
      assert Reserves(es) == [];
    } else {
      var front, op := es[..|es| - 1], DoReserve(es[|es| - 1].recno, |es[|es| - 1].data|);
      ReservesUntouched(f, init, front);
      assert Reserves(es) == Reserves(front) + [op];
      ListRunAppend(f, init, Reserves(front), op);
      AppendAsBefore(f, init, ListRun(f, init, Reserves(front)), op.recno, op.len);
    }
  }

  lemma NothingAsBefore(f: Format, init: seq<byte>)
    ensures AsBefore(init, ListRun(f, init, []))
  {
  }

  /** Reserving stores headers only: below the cursor the buffer is as it was before the first reservation. */
  lemma ReservesStoreNoItems(f: Format, init: seq<byte>, es: seq<Entry>)
    requires Fits(f, init, es)
    ensures var b := Run(f, init, Reserves(es)).bulk;
            b.cursor == Cursor(f, init, es) && |b.buf| == |init| && b.buf[..b.cursor] == init[..b.cursor]
  {
    hide Flat, Slots, Table, Run, ListRun;
    var r := ListRun(f, init, Reserves(es));
    RunRefines(f, init, Reserves(es));
    ReservesAlike(f, init, es);
    ReservesUntouched(f, init, es);
  }

  /**
   Reserving everything first stores no item byte; copying the items later, in any order, then leaves the bytes of
   writing one by one.
   */
  lemma DeferredFill(f: Format, init: seq<byte>, es: seq<Entry>, order: seq<nat>)
    requires Fits(f, init, es)
    requires forall j :: 0 <= j < |order| ==> order[j] < |es|
    requires forall i :: 0 <= i < |es| ==> i in order
    ensures Run(f, init, Reserves(es)).bulk.cursor == Cursor(f, init, es) <= |Run(f, init, Reserves(es)).bulk.buf| == |init|
    ensures Run(f, init, Reserves(es)).bulk.buf[..Cursor(f, init, es)] == init[..Cursor(f, init, es)]
    ensures Some(Run(f, init, Reserves(es) + Fills(es, order)).bulk) == WriteAll(f, WriteInit(f, init), es)
  {
    hide Flat, Layout, Slots, Run, ListRun, WriteAll;
    ReservesStoreNoItems(f, init, es);
    var ops := Reserves(es) + Fills(es, order);
    FillsDone(f, init, es, order);
    var r := ListRun(f, init, ops);
    forall i | 0 <= i < |es|
      ensures r[i] == es[i]
    {
      assert i in order;
    }
    assert r == es;
    RunIsSequentialWrite(f, init, ops);
  }
}
