/**
 Any number of section lists over one pool of sections, and every run of the list macros on them. Removed sections
 keep stale links, may be reinserted into the same or another list, and their old neighbours may leave too.
 */
module SectionRuns {
  import opened Bytes
  import opened SectionChain
  import SectionLaws

  datatype Ends<T> = Ends(first: Option<T>, last: Option<T>)

  /** `links` for all sections, `ends` for all BFDs. */
  datatype World<B, T> = World(links: map<T, Link<T>>, ends: map<B, Ends<T>>)

  type Lists<B, T> = map<B, seq<T>>

  function ChainOf<B, T>(w: World<B, T>, b: B): (c: Chain<T>)
    requires b in w.ends
  {
    Chain(w.links, w.ends[b].first, w.ends[b].last)
  }

  function Put<B, T>(w: World<B, T>, b: B, c: Chain<T>): (w': World<B, T>) {
    World(c.links, w.ends[b := Ends(c.first, c.last)])
  }

  datatype Op<B, T> =
    | DoAppend(b: B, s: T)
    | DoPrepend(b: B, s: T)
    | DoInsertAfter(b: B, at: T, s: T)
    | DoInsertBefore(b: B, at: T, s: T)
    | DoRemove(b: B, s: T)

  /** In no list. */
  ghost predicate Out<B, T>(ls: Lists<B, T>, s: T) {
    forall b :: b in ls ==> s !in ls[b]
  }

  /** What the macros ask of their caller: insert only what is in no list, next to, or remove only, what is in the list. */
  ghost predicate Legal<B, T>(links: map<T, Link<T>>, ls: Lists<B, T>, op: Op<B, T>) {
    && op.b in ls
    && match op
       case DoRemove(b, s) => s in ls[b]
       case DoInsertAfter(b, at, s) => at in ls[b] && s in links && Out(ls, s)
       case DoInsertBefore(b, at, s) => at in ls[b] && s in links && Out(ls, s)
       case DoAppend(b, s) => s in links && Out(ls, s)
       case DoPrepend(b, s) => s in links && Out(ls, s)
  }

  // ---------------------------------------------------------------- the invariant

  /** A section in no list is not the `prev` of its own `next`. */
  ghost predicate StaleApart<T>(links: map<T, Link<T>>, s: T)
    requires s in links
  {
    var n := links[s].next;
    n.Some? && n.value in links ==> links[n.value].prev != Some(s)
  }

  ghost predicate Apart<B, T>(ls: Lists<B, T>) {
    forall b, b', s :: b in ls && b' in ls && s in ls[b] && s in ls[b'] ==> b == b'
  }

  ghost predicate Inv<B, T>(w: World<B, T>, ls: Lists<B, T>) {
    && ls.Keys == w.ends.Keys
    && (forall b :: b in ls ==> Closed(ChainOf(w, b)) && Represents(ChainOf(w, b), ls[b]))
    && Apart(ls)
    && forall s :: s in w.links && Out(ls, s) ==> StaleApart(w.links, s)
  }

  /** No section has been in a list yet: all links are null and all lists empty. */
  ghost predicate Fresh<B, T>(w: World<B, T>) {
    && (forall s :: s in w.links ==> w.links[s] == Link(None, None))
    && forall b :: b in w.ends ==> w.ends[b] == Ends(None, None)
  }

  function NoLists<B(==), T>(w: World<B, T>): (ls: Lists<B, T>) {
    map b | b in w.ends :: []
  }

  lemma FreshInv<B, T>(w: World<B, T>)
    requires Fresh(w)
    ensures Inv(w, NoLists(w))
  {
  }

  // ---------------------------------------------------------------- one step

  /** The index of a section in a list. */
  ghost function IndexOf<T>(xs: seq<T>, s: T): (k: nat)
    requires s in xs
    ensures k < |xs| && xs[k] == s
  {
    var k :| 0 <= k < |xs| && xs[k] == s;
    k
  }

  /** What the operation means for the list it names. */
  ghost function ListAfter<B, T>(xs: seq<T>, op: Op<B, T>): (ys: seq<T>)
    requires op.DoInsertAfter? || op.DoInsertBefore? ==> op.at in xs
    requires op.DoRemove? ==> op.s in xs
  {
    match op
    case DoAppend(_, s) => xs + [s]
    case DoPrepend(_, s) => [s] + xs
    case DoInsertAfter(_, a, s) => InsertAt(xs, IndexOf(xs, a) + 1, s)
    case DoInsertBefore(_, a, s) => InsertAt(xs, IndexOf(xs, a), s)
    case DoRemove(_, s) => RemoveAt(xs, IndexOf(xs, s))
  }

  function ChainAfter<B, T(==)>(c: Chain<T>, op: Op<B, T>): (c': Chain<T>)
    requires Closed(c) && op.s in c.links
    requires op.DoInsertAfter? || op.DoInsertBefore? ==> op.at in c.links
    ensures Closed(c') && c'.links.Keys == c.links.Keys
  {
    match op
    case DoAppend(_, s) => Append(c, s)
    case DoPrepend(_, s) => Prepend(c, s)
    case DoInsertAfter(_, a, s) => InsertAfter(c, a, s)
    case DoInsertBefore(_, a, s) => InsertBefore(c, a, s)
    case DoRemove(_, s) => Remove(c, s)
  }

  lemma InKnown<T>(c: Chain<T>, xs: seq<T>, s: T)
    requires Represents(c, xs) && s in xs
    ensures s in c.links
  {
    var k := IndexOf(xs, s);
    assert Linked(c, xs, k);
  }

  /** `ys` is `xs` with the section `s` put in or taken out. */
  ghost predicate InOrOut<T>(xs: seq<T>, ys: seq<T>, s: T, out: bool) {
    && (s in ys <==> !out) && (s in xs <==> out)
    && (forall t :: t in ys && t != s ==> t in xs)
    && forall t :: t in xs && t != s ==> t in ys
  }

  lemma InsertMembers<T>(xs: seq<T>, k: nat, s: T)
    requires k <= |xs| && s !in xs
    ensures InOrOut(xs, InsertAt(xs, k, s), s, false)
  {
    var ys := InsertAt(xs, k, s);
    forall t | t in xs
      ensures t in ys
    {
      var i := IndexOf(xs, t);
      assert ys[if i < k then i else i + 1] == t;
    }
  }

  lemma RemoveMembers<T>(xs: seq<T>, k: nat)
    requires Distinct(xs) && k < |xs|
    ensures InOrOut(xs, RemoveAt(xs, k), xs[k], true)
  {
    var ys := RemoveAt(xs, k);
    forall t | t in xs && t != xs[k]
      ensures t in ys
    {
      var i := IndexOf(xs, t);
      assert ys[if i < k then i else i - 1] == t;
    }
  }

  /** The sections of the list after the operation: all of before, with `s` put in or taken out. */
  lemma Members<B, T>(xs: seq<T>, op: Op<B, T>)
    requires Distinct(xs)
    requires op.DoInsertAfter? || op.DoInsertBefore? ==> op.at in xs
    requires if op.DoRemove? then op.s in xs else op.s !in xs
    ensures InOrOut(xs, ListAfter(xs, op), op.s, op.DoRemove?)
  {
    hide InsertAt, RemoveAt, InOrOut;
    match op
    case DoAppend(_, s) => InsertMembers(xs, |xs|, s); InsertAtEnds(xs, s);
    case DoPrepend(_, s) => InsertMembers(xs, 0, s); InsertAtEnds(xs, s);
    case DoInsertAfter(_, a, s) => InsertMembers(xs, IndexOf(xs, a) + 1, s);
    case DoInsertBefore(_, a, s) => InsertMembers(xs, IndexOf(xs, a), s);
    case DoRemove(_, s) => RemoveMembers(xs, IndexOf(xs, s));
  }

  /** Every macro refines the operation on the plain sequence, and leaves sections outside the list alone. */
  lemma ChainRefines<B, T>(c: Chain<T>, xs: seq<T>, op: Op<B, T>)
    requires Closed(c) && Represents(c, xs) && op.s in c.links
    requires op.DoInsertAfter? || op.DoInsertBefore? ==> op.at in xs
    requires if op.DoRemove? then op.s in xs else op.s !in xs
    ensures op.DoInsertAfter? || op.DoInsertBefore? ==> op.at in c.links
    ensures var c' := ChainAfter(c, op);
            && Represents(c', ListAfter(xs, op)) && OthersKept(c, c', xs, op.s)
            && (op.DoRemove? ==> c'.links[op.s] == c.links[op.s])
  {
    hide Represents, Closed, Append, Prepend, InsertAfter, InsertBefore, Remove, InsertBetween, InsertAt, RemoveAt;
    match op
    case DoAppend(_, s) =>
      AppendIsInsert(c, xs, s);
      InsertRepresents(c, xs, |xs|, s);
      InsertAtEnds(xs, s);
    case DoPrepend(_, s) =>
      PrependIsInsert(c, xs, s);
      InsertRepresents(c, xs, 0, s);
      InsertAtEnds(xs, s);
    case DoInsertAfter(_, a, s) =>
      InKnown(c, xs, a);
      AfterIsInsert(c, xs, IndexOf(xs, a), s);
      InsertRepresents(c, xs, IndexOf(xs, a) + 1, s);
    case DoInsertBefore(_, a, s) =>
      InKnown(c, xs, a);
      BeforeIsInsert(c, xs, IndexOf(xs, a), s);
      InsertRepresents(c, xs, IndexOf(xs, a), s);
    case DoRemove(_, s) =>
      RemoveRepresents(c, xs, IndexOf(xs, s));
  }

  /**
   Any insertion followed by removing the same section restores every other section's links and both ends; the
   section itself keeps the links the insertion gave it.
   */
  lemma InsertionUndone<B, T>(c: Chain<T>, xs: seq<T>, op: Op<B, T>)
    requires Closed(c) && Represents(c, xs) && op.s in c.links && op.s !in xs && !op.DoRemove?
    requires op.DoInsertAfter? || op.DoInsertBefore? ==> op.at in xs && op.at in c.links
    ensures var c' := ChainAfter(c, op);
            Remove(c', op.s) == c.(links := c.links[op.s := c'.links[op.s]])
  {
    hide Represents, Closed, Append, Prepend, InsertAfter, InsertBefore, Remove, InsertBetween;
    var s := op.s;
    var k := match op
      case DoAppend(_, _) => |xs|
      case DoPrepend(_, _) => 0
      case DoInsertAfter(_, a, _) => IndexOf(xs, a) + 1
      case _ => IndexOf(xs, op.at);
    match op {
      case DoAppend(_, _) => AppendIsInsert(c, xs, s);
      case DoPrepend(_, _) => PrependIsInsert(c, xs, s);
      case DoInsertAfter(_, a, _) => AfterIsInsert(c, xs, IndexOf(xs, a), s);
      case DoInsertBefore(_, b, _) => BeforeIsInsert(c, xs, IndexOf(xs, b), s);
    }
    InsertLinks(c, xs, k, s);
    SectionLaws.InsertThenRemove(c, xs, k, s);
  }

  lemma InsertAtEnds<T>(xs: seq<T>, s: T)
    ensures InsertAt(xs, |xs|, s) == xs + [s] && InsertAt(xs, 0, s) == [s] + xs
  {
  }

  // ---------------------------------------------------------------- every step keeps the invariant

  lemma NeighboursIn<T>(c: Chain<T>, xs: seq<T>, m: T)
    requires Represents(c, xs) && m in xs
    ensures m in c.links
    ensures c.links[m].prev.Some? ==> c.links[m].prev.value in xs
    ensures c.links[m].next.Some? ==> c.links[m].next.value in xs && c.links[m].next.value != m
  {
    var k := IndexOf(xs, m);
    assert Linked(c, xs, k);
  }

  /** A chain whose members' links and ends are as before is the same sequence. */
  lemma RepresentsKept<T>(c: Chain<T>, c': Chain<T>, xs: seq<T>)
    requires Represents(c, xs) && c'.first == c.first && c'.last == c.last && c'.links.Keys == c.links.Keys
    requires forall t :: t in xs && t in c.links ==> c'.links[t] == c.links[t]
    ensures Represents(c', xs)
  {
    forall i | 0 <= i < |xs|
      ensures Linked(c', xs, i)
    {
      assert Linked(c, xs, i);
    }
  }

  /** One list has changed from `xs` to `ys`, and its chain from `c` to `c'`. */
  ghost predicate Changed<T>(c: Chain<T>, c': Chain<T>, xs: seq<T>, ys: seq<T>, s: T, out: bool) {
    && Represents(c, xs) && Represents(c', ys) && OthersKept(c, c', xs, s)
    && InOrOut(xs, ys, s, out)
    && s in c.links
    && (out ==> c'.links[s] == c.links[s])
  }

  /** A section outside all lists stays apart from its stale `next`. */
  lemma StaleKept<T>(c: Chain<T>, c': Chain<T>, xs: seq<T>, ys: seq<T>, s: T, out: bool, t: T)
    requires Changed(c, c', xs, ys, s, out) && t in c.links && t !in ys
    requires t !in xs ==> StaleApart(c.links, t)
    ensures StaleApart(c'.links, t)
  {
    hide Represents;
    var n := c'.links[t].next;
    if n.Some? && n.value in c'.links && c'.links[n.value].prev == Some(t) {
      var m := n.value;
      if m in ys {
        NeighboursIn(c', ys, m);
      } else {
        assert c'.links[m] == c.links[m];
        if t == s {
          NeighboursIn(c, xs, t);
        }
      }
    }
  }

  lemma OtherKept<B, T>(w: World<B, T>, ls: Lists<B, T>, b: B, c': Chain<T>, s: T, b': B)
    requires Inv(w, ls) && b in ls && b' in ls && b' != b && (s in ls[b] || Out(ls, s))
    requires Closed(c') && OthersKept(ChainOf(w, b), c', ls[b], s)
    ensures Closed(ChainOf(Put(w, b, c'), b')) && Represents(ChainOf(Put(w, b, c'), b'), ls[b'])
  {
    var c := ChainOf(w, b');
    forall t | t in ls[b'] && t in c.links
      ensures c'.links[t] == c.links[t]
    {
      assert t !in ls[b];
    }
    RepresentsKept(c, ChainOf(Put(w, b, c'), b'), ls[b']);
  }

  lemma ApartKept<B, T>(ls: Lists<B, T>, b: B, ys: seq<T>, s: T, out: bool)
    requires Apart(ls) && b in ls && InOrOut(ls[b], ys, s, out) && (out || Out(ls, s))
    ensures Apart(ls[b := ys]) && (s in ls[b] || Out(ls, s))
  {
  }

  lemma OutBefore<B, T>(ls: Lists<B, T>, b: B, ys: seq<T>, t: T)
    requires b in ls && Out(ls[b := ys], t)
    ensures t !in ys && (t !in ls[b] ==> Out(ls, t))
  {
    var ls' := ls[b := ys];
    assert b in ls' && ls'[b] == ys;
    assert forall b' :: b' in ls && b' != b ==> b' in ls' && ls'[b'] == ls[b'];
  }

  /** Changing one list as `Changed` says keeps the invariant of all of them. */
  lemma ChangeInv<B, T>(w: World<B, T>, ls: Lists<B, T>, b: B, c': Chain<T>, ys: seq<T>, s: T, out: bool)
    requires Inv(w, ls) && b in ls && Closed(c')
    requires Changed(ChainOf(w, b), c', ls[b], ys, s, out) && (out || Out(ls, s))
    ensures Inv(Put(w, b, c'), ls[b := ys])
  {
    hide Represents, Closed, StaleApart, Apart, Out, InOrOut;
    var w', ls' := Put(w, b, c'), ls[b := ys];
    ApartKept(ls, b, ys, s, out);
    assert ChainOf(w', b) == c';
    forall b' | b' in ls'
      ensures Closed(ChainOf(w', b')) && Represents(ChainOf(w', b'), ls'[b'])
    {
      if b' != b {
        OtherKept(w, ls, b, c', s, b');
      }
    }
    forall t | t in w'.links && Out(ls', t)
      ensures StaleApart(w'.links, t)
    {
      OutBefore(ls, b, ys, t);
      StaleKept(ChainOf(w, b), c', ls[b], ys, s, out, t);
    }
  }

  // ---------------------------------------------------------------- steps and runs

  function Step<B(==), T(==)>(w: World<B, T>, op: Op<B, T>): (w': World<B, T>)
    requires op.b in w.ends && Closed(ChainOf(w, op.b)) && op.s in w.links
    requires op.DoInsertAfter? || op.DoInsertBefore? ==> op.at in w.links
  {
    Put(w, op.b, ChainAfter(ChainOf(w, op.b), op))
  }

  ghost function ListsStep<B, T>(ls: Lists<B, T>, op: Op<B, T>): (ls': Lists<B, T>)
    requires op.b in ls
    requires op.DoInsertAfter? || op.DoInsertBefore? ==> op.at in ls[op.b]
    requires op.DoRemove? ==> op.s in ls[op.b]
  {
    ls[op.b := ListAfter(ls[op.b], op)]
  }

  /** A legal operation changes the list it names, as it says. */
  lemma StepChanges<B, T>(w: World<B, T>, ls: Lists<B, T>, op: Op<B, T>)
    requires Inv(w, ls) && Legal(w.links, ls, op)
    ensures op.b in w.ends && Closed(ChainOf(w, op.b)) && op.s in w.links
    ensures op.DoInsertAfter? || op.DoInsertBefore? ==> op.at in w.links
    ensures op.DoRemove? || Out(ls, op.s)
    ensures Changed(ChainOf(w, op.b), ChainAfter(ChainOf(w, op.b), op), ls[op.b], ListAfter(ls[op.b], op), op.s, op.DoRemove?)
  {
    var c, xs := ChainOf(w, op.b), ls[op.b];
    assert op.DoRemove? || Out(ls, op.s);
    if op.DoRemove? {
      InKnown(c, xs, op.s);
    } else {
      assert op.s !in xs;
    }
    hide ListAfter, ChainAfter, Out;
    ChainRefines(c, xs, op);
    Members(xs, op);
  }

  /** Every legal operation can be carried out and keeps the invariant, with its meaning on sequences. */
  lemma StepInv<B, T>(w: World<B, T>, ls: Lists<B, T>, op: Op<B, T>)
    requires Inv(w, ls) && Legal(w.links, ls, op)
    ensures op.b in w.ends && Closed(ChainOf(w, op.b)) && op.s in w.links
    ensures op.DoInsertAfter? || op.DoInsertBefore? ==> op.at in w.links
    ensures Inv(Step(w, op), ListsStep(ls, op)) && Step(w, op).links.Keys == w.links.Keys
  {
    hide ListAfter, ChainAfter, Closed, Inv, Changed, Out;
    StepChanges(w, ls, op);
    ChangeInv(w, ls, op.b, ChainAfter(ChainOf(w, op.b), op), ListAfter(ls[op.b], op), op.s, op.DoRemove?);
  }

  /** A run is legal when each operation is legal in the state the operations before it leave. */
  ghost predicate LegalRun<B, T>(links: map<T, Link<T>>, ls: Lists<B, T>, ops: seq<Op<B, T>>)
    decreases |ops|
  {
    ops == [] || (Legal(links, ls, ops[0]) && LegalRun(links, ListsStep(ls, ops[0]), ops[1..]))
  }

  ghost function ListsRun<B, T>(links: map<T, Link<T>>, ls: Lists<B, T>, ops: seq<Op<B, T>>): (ls': Lists<B, T>)
    requires LegalRun(links, ls, ops)
    decreases |ops|
  {
    if ops == [] then ls else ListsRun(links, ListsStep(ls, ops[0]), ops[1..])
  }

  /** The pointer state after a run; None if an operation could not be carried out. */
  ghost function Run<B, T>(w: World<B, T>, ops: seq<Op<B, T>>): (r: Option<World<B, T>>)
    decreases |ops|
  {
    if ops == [] then Some(w)
    else
      var op := ops[0];
      if && op.b in w.ends && Closed(ChainOf(w, op.b)) && op.s in w.links
         && (op.DoInsertAfter? || op.DoInsertBefore? ==> op.at in w.links)
      then Run(Step(w, op), ops[1..])
      else None
  }

  lemma LegalSame<B, T>(links: map<T, Link<T>>, links': map<T, Link<T>>, ls: Lists<B, T>, ops: seq<Op<B, T>>)
    requires links.Keys == links'.Keys && LegalRun(links, ls, ops)
    ensures LegalRun(links', ls, ops) && ListsRun(links', ls, ops) == ListsRun(links, ls, ops)
    decreases |ops|
  {
    hide ListsStep;
    if ops != [] {
      LegalSame(links, links', ListsStep(ls, ops[0]), ops[1..]);
    }
  }

  /** Every legal run can be carried out and refines the run on plain sequences; the invariant holds at its end. */
  lemma {:induction false} RunInv<B, T>(w: World<B, T>, ls: Lists<B, T>, ops: seq<Op<B, T>>)
    requires Inv(w, ls) && LegalRun(w.links, ls, ops)
    ensures Run(w, ops).Some? && Inv(Run(w, ops).value, ListsRun(w.links, ls, ops))
    decreases |ops|
  {
    if ops != [] {
      hide Inv, Step, ListsStep, Closed, Legal;
      StepInv(w, ls, ops[0]);
      var w', ls' := Step(w, ops[0]), ListsStep(ls, ops[0]);
      LegalSame(w.links, w'.links, ls', ops[1..]);
      RunInv(w', ls', ops[1..]);
    }
  }

  // ---------------------------------------------------------------- the removed test

  /** In a list, but not its last section. */
  ghost predicate Inside<T>(xs: seq<T>, s: T) {
    s in xs && xs[|xs| - 1] != s
  }

  lemma TestInList<T>(c: Chain<T>, xs: seq<T>, s: T)
    requires Closed(c) && Represents(c, xs) && s in xs
    ensures s in c.links && !RemovedFromList(c, s)
  {
    var k := IndexOf(xs, s);
    assert Linked(c, xs, k);
    if k + 1 < |xs| {
      assert Linked(c, xs, k + 1);
    }
  }

  /** The test looks at the list's end only for a section without `next`: the last of its own list, or a stale one. */
  lemma TestElsewhere<T>(c: Chain<T>, c': Chain<T>, xs: seq<T>, s: T)
    requires Closed(c) && Closed(c') && c'.links == c.links && Represents(c, xs) && s in xs && c'.last != Some(s)
    ensures s in c.links && (RemovedFromList(c', s) <==> xs[|xs| - 1] == s)
  {
    var k := IndexOf(xs, s);
    assert Linked(c, xs, k);
    if k + 1 < |xs| {
      assert Linked(c, xs, k + 1);
    }
  }

  lemma LastIn<T>(c: Chain<T>, xs: seq<T>)
    requires Represents(c, xs)
    ensures c.last.Some? ==> c.last.value in xs
  {
  }

  /**
   In every state the test says "removed" exactly for the sections that are neither in the list asked about nor inside
   another list. It errs only on a section that is in another list and not the last one there.
   */
  lemma RemovedExact<B, T>(w: World<B, T>, ls: Lists<B, T>, b: B, s: T)
    requires Inv(w, ls) && b in ls && s in w.links
    ensures Closed(ChainOf(w, b))
    ensures RemovedFromList(ChainOf(w, b), s)
            <==> s !in ls[b] && forall b' :: b' in ls && b' != b ==> !Inside(ls[b'], s)
  {
    hide Represents;
    var c := ChainOf(w, b);
    if s in ls[b] {
      TestInList(c, ls[b], s);
    } else {
      LastIn(c, ls[b]);
      if Out(ls, s) {
        assert StaleApart(w.links, s);
      } else {
        var b' :| b' in ls && s in ls[b'];
        TestElsewhere(ChainOf(w, b'), c, ls[b'], s);
        OnlyThere(ls, b', s);
      }
    }
  }

  lemma OnlyThere<B, T>(ls: Lists<B, T>, b: B, s: T)
    requires Apart(ls) && b in ls && s in ls[b]
    ensures forall b' :: b' in ls && b' != b ==> !Inside(ls[b'], s)
  {
  }

  /** The same after every legal run from fresh sections; with a single list the test is exactly non-membership. */
  lemma RemovedAfterRun<B, T>(w: World<B, T>, ops: seq<Op<B, T>>, b: B, s: T)
    requires Fresh(w) && LegalRun(w.links, NoLists(w), ops)
    requires b in w.ends && s in w.links
    ensures var r, ls := Run(w, ops), ListsRun(w.links, NoLists(w), ops);
            && r.Some? && Inv(r.value, ls) && b in ls && s in r.value.links && b in r.value.ends
            && Closed(ChainOf(r.value, b))
            && (RemovedFromList(ChainOf(r.value, b), s)
                <==> s !in ls[b] && forall b' :: b' in ls && b' != b ==> !Inside(ls[b'], s))
            && ((forall b' :: b' in ls ==> b' == b) ==> (RemovedFromList(ChainOf(r.value, b), s) <==> s !in ls[b]))
  {
    hide Run, ListsRun, Fresh, NoLists;
    FreshInv(w);
    RunInv(w, NoLists(w), ops);
    RunKeys(w, NoLists(w), ops);
    RemovedExact(Run(w, ops).value, ListsRun(w.links, NoLists(w), ops), b, s);
  }

  /**
   Where the test errs: two sections were appended to the second of two lists; asked whether the first of them is
   missing from the first list, which never held it, the test says no.
   */
  lemma RemovedTestErrs()
    ensures var w := World(map[0 := Link(None, None), 1 := Link(None, None)],
                           map[false := Ends(None, None), true := Ends(None, None)]);
            var ops := [DoAppend(true, 0), DoAppend(true, 1)];
            && Fresh(w) && LegalRun(w.links, NoLists(w), ops)
            && var r, ls := Run(w, ops), ListsRun(w.links, NoLists(w), ops);
            && ls == map[false := [], true := [0, 1]]
            && r.Some? && false in r.value.ends && Closed(ChainOf(r.value, false)) && 0 in r.value.links
            && !RemovedFromList(ChainOf(r.value, false), 0)
  {
    var w: World<bool, int> := World(map[0 := Link(None, None), 1 := Link(None, None)],
                                     map[false := Ends(None, None), true := Ends(None, None)]);
    var first, second := DoAppend(true, 0), DoAppend(true, 1);
    var ops: seq<Op<bool, int>> := [first, second];
    var ls0 := NoLists(w);
    assert ls0 == map[false := [], true := []];
    assert Legal(w.links, ls0, first);
    var ls1 := ListsStep(ls0, first);
    assert ListAfter(ls0[true], first) == [0] && ListAfter([0], second) == [0, 1];
    assert ls1 == map[false := [], true := [0]];
    assert ops[1..] == [second] && [second][1..] == [];
    assert Legal(w.links, ls1, second);
    var ls2 := ListsStep(ls1, second);
    assert ls2 == map[false := [], true := [0, 1]];
    assert LegalRun(w.links, ls2, []) && LegalRun(w.links, ls1, [second]);
    RemovedAfterRun(w, ops, false, 0);
    assert Inside(ls2[true], 0);
  }

  lemma {:induction false} RunKeys<B, T>(w: World<B, T>, ls: Lists<B, T>, ops: seq<Op<B, T>>)
    requires Inv(w, ls) && LegalRun(w.links, ls, ops)
    ensures Run(w, ops).Some? ==> Run(w, ops).value.links.Keys == w.links.Keys && Run(w, ops).value.ends.Keys == w.ends.Keys
    ensures ListsRun(w.links, ls, ops).Keys == ls.Keys
    decreases |ops|
  {
    if ops != [] {
      hide Inv, Closed, Legal;
      StepInv(w, ls, ops[0]);
      var w', ls' := Step(w, ops[0]), ListsStep(ls, ops[0]);
      LegalSame(w.links, w'.links, ls', ops[1..]);
      RunKeys(w', ls', ops[1..]);
      assert w'.ends.Keys == w.ends.Keys && ls'.Keys == ls.Keys;
    }
  }
}
