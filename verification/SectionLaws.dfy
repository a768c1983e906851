/** What one section list obeys: traversal, equal forms of the macros, and undoing. */
module SectionLaws {
  import opened Bytes
  import opened SectionChain

  // ---------------------------------------------------------------- traversal

  /** At most `n` steps along `next` from `p`. */
  function Forward<T(==)>(c: Chain<T>, p: Option<T>, n: nat): (xs: seq<T>)
    requires Closed(c) && Known(c.links, p)
    decreases n
  {
    if n == 0 || p.None? then [] else [p.value] + Forward(c, c.links[p.value].next, n - 1)
  }

  /** At most `n` steps along `prev` from `p`. */
  function Backward<T(==)>(c: Chain<T>, p: Option<T>, n: nat): (xs: seq<T>)
    requires Closed(c) && Known(c.links, p)
    decreases n
  {
    if n == 0 || p.None? then [] else [p.value] + Backward(c, c.links[p.value].prev, n - 1)
  }

  function Reverse<T>(xs: seq<T>): (r: seq<T>)
    ensures |r| == |xs| && forall i :: 0 <= i < |xs| ==> r[i] == xs[|xs| - 1 - i]
  {
    if xs == [] then [] else [xs[|xs| - 1]] + Reverse(xs[..|xs| - 1])
  }

  lemma {:induction false} ForwardFrom<T>(c: Chain<T>, xs: seq<T>, i: nat, n: nat)
    requires Closed(c) && Represents(c, xs) && i <= |xs| <= i + n
    ensures Known(c.links, Nth(xs, i)) && Forward(c, Nth(xs, i), n) == xs[i..]
    decreases n
  {
    NeighboursKnown(c, xs, i);
    if i < |xs| {
      assert Linked(c, xs, i);
      ForwardFrom(c, xs, i + 1, n - 1);
    }
  }

  lemma {:induction false} BackwardFrom<T>(c: Chain<T>, xs: seq<T>, i: nat, n: nat)
    requires Closed(c) && Represents(c, xs) && i <= |xs| && i <= n
    ensures Known(c.links, Nth(xs, i - 1)) && Backward(c, Nth(xs, i - 1), n) == Reverse(xs[..i])
    decreases n
  {
    NeighboursKnown(c, xs, i - 1);
    if i > 0 {
      assert Linked(c, xs, i - 1);
      BackwardFrom(c, xs, i - 1, n - 1);
      assert xs[..i][..i - 1] == xs[..i - 1];
    }
  }

  /** Both traversals reach null after as many steps as there are sections, and are mutual reverses. */
  lemma Traversals<T>(c: Chain<T>, xs: seq<T>, n: nat)
    requires Closed(c) && Represents(c, xs) && |xs| <= n
    ensures Forward(c, c.first, n) == xs
    ensures Backward(c, c.last, n) == Reverse(xs)
  {
    ForwardFrom(c, xs, 0, n);
    BackwardFrom(c, xs, |xs|, n);
    assert xs[..|xs|] == xs;
  }

  /** A chain is one sequence only. */
  lemma RepresentsOnce<T>(c: Chain<T>, xs: seq<T>, ys: seq<T>)
    requires Closed(c) && Represents(c, xs) && Represents(c, ys)
    ensures xs == ys
  {
    Traversals(c, xs, |xs| + |ys|);
    Traversals(c, ys, |xs| + |ys|);
  }

  // ---------------------------------------------------------------- equal forms

  /** Inserting after the last section is appending, pointer for pointer. */
  lemma AfterLastIsAppend<T>(c: Chain<T>, xs: seq<T>, s: T)
    requires Closed(c) && Represents(c, xs) && xs != [] && s in c.links && s !in xs
    ensures c.last.Some? && c.last.value in c.links && InsertAfter(c, c.last.value, s) == Append(c, s)
  {
    hide InsertAfter, Append, InsertBetween;
    AfterIsInsert(c, xs, |xs| - 1, s);
    AppendIsInsert(c, xs, s);
  }

  lemma BeforeFirstIsPrepend<T>(c: Chain<T>, xs: seq<T>, s: T)
    requires Closed(c) && Represents(c, xs) && xs != [] && s in c.links && s !in xs
    ensures c.first.Some? && c.first.value in c.links && InsertBefore(c, c.first.value, s) == Prepend(c, s)
  {
    hide InsertBefore, Prepend, InsertBetween;
    BeforeIsInsert(c, xs, 0, s);
    PrependIsInsert(c, xs, s);
  }

  /** Inserting before a section is inserting after the one before it. */
  lemma AfterIsBefore<T>(c: Chain<T>, xs: seq<T>, k: nat, s: T)
    requires Closed(c) && Represents(c, xs) && k + 1 < |xs| && s in c.links && s !in xs
    ensures Linked(c, xs, k) && Linked(c, xs, k + 1)
    ensures InsertAfter(c, xs[k], s) == InsertBefore(c, xs[k + 1], s)
  {
    hide InsertBefore, InsertAfter, InsertBetween;
    AfterIsInsert(c, xs, k, s);
    BeforeIsInsert(c, xs, k + 1, s);
  }

  // ---------------------------------------------------------------- undoing

  /** Any insertion followed by removing the same section restores every other section and both ends. */
  lemma InsertThenRemove<T>(c: Chain<T>, xs: seq<T>, k: nat, s: T)
    requires Closed(c) && Represents(c, xs) && k <= |xs| && s in c.links && s !in xs
    ensures Known(c.links, Nth(xs, k - 1)) && Known(c.links, Nth(xs, k))
    ensures var c' := InsertBetween(c, Nth(xs, k - 1), Nth(xs, k), s);
            Closed(c') && Remove(c', s) == c.(links := c.links[s := Link(Nth(xs, k), Nth(xs, k - 1))])
  {
    hide InsertBetween;
    InsertLinks(c, xs, k, s);
    if k > 0 { assert Linked(c, xs, k - 1); }
    if k < |xs| { assert Linked(c, xs, k); }
  }

  /** Put a removed section back beside a neighbour its own links still name, on the chosen side. */
  function Reinsert<T(==)>(c: Chain<T>, s: T, left: bool): (c': Chain<T>)
    requires Closed(c) && s in c.links
    ensures Closed(c') && c'.links.Keys == c.links.Keys
  {
    if left then
      match c.links[s].prev
      case Some(a) => InsertAfter(c, a, s)
      case None => Prepend(c, s)
    else
      match c.links[s].next
      case Some(b) => InsertBefore(c, b, s)
      case None => Append(c, s)
  }

  /** Left is after the section named by `prev`, right before the one named by `next`; null names an end of the list. */
  lemma ReinsertSides<T>(c: Chain<T>, s: T, t: T)
    requires Closed(c) && s in c.links && t in c.links
    ensures c.links[s].prev == Some(t) ==> Reinsert(c, s, true) == InsertAfter(c, t, s)
    ensures c.links[s].prev == None ==> Reinsert(c, s, true) == Prepend(c, s)
    ensures c.links[s].next == Some(t) ==> Reinsert(c, s, false) == InsertBefore(c, t, s)
    ensures c.links[s].next == None ==> Reinsert(c, s, false) == Append(c, s)
  {
  }

  /** In a list it is not in, a section whose links name two neighbours goes back between them, on either side. */
  lemma ReinsertIsInsert<T>(c: Chain<T>, xs: seq<T>, k: nat, s: T, left: bool)
    requires Closed(c) && Represents(c, xs) && k <= |xs| && s in c.links && s !in xs
    requires c.links[s] == Link(Nth(xs, k), Nth(xs, k - 1))
    ensures Known(c.links, Nth(xs, k - 1)) && Known(c.links, Nth(xs, k))
    ensures Reinsert(c, s, left) == InsertBetween(c, Nth(xs, k - 1), Nth(xs, k), s)
  {
    hide InsertBetween, InsertAfter, InsertBefore, Append, Prepend;
    NeighboursKnown(c, xs, k - 1);
    NeighboursKnown(c, xs, k);
    if left {
      if k > 0 { AfterIsInsert(c, xs, k - 1, s); } else { PrependIsInsert(c, xs, s); }
    } else {
      if k < |xs| { BeforeIsInsert(c, xs, k, s); } else { AppendIsInsert(c, xs, s); }
    }
  }

  /** Removing and putting back leaves every pointer of every section, and both ends, as they were. */
  lemma RemoveThenReinsert<T>(c: Chain<T>, xs: seq<T>, k: nat, left: bool)
    requires Closed(c) && Represents(c, xs) && k < |xs|
    ensures Linked(c, xs, k) && Reinsert(Remove(c, xs[k]), xs[k], left) == c
  {
    hide Remove, Reinsert, InsertBetween, RemoveAt;
    var s, ys := xs[k], RemoveAt(xs, k);
    RemoveRepresents(c, xs, k);
    RemoveLinks(c, xs, k);
    var c1 := Remove(c, s);
    assert Nth(ys, k - 1) == Nth(xs, k - 1) && Nth(ys, k) == Nth(xs, k + 1);
    ReinsertIsInsert(c1, ys, k, s, left);
    InsertLinks(c1, ys, k, s);
    var c2 := InsertBetween(c1, Nth(ys, k - 1), Nth(ys, k), s);
    SameLinks(c, xs, k, c1, c2);
    assert c2.links == c.links;
  }

  /**
   The same law said with the macros: after the section that was before it, or at the front, and before the section that
   was after it, or at the end.
   */
  lemma RemoveThenInsert<T>(c: Chain<T>, xs: seq<T>, k: nat)
    requires Closed(c) && Represents(c, xs) && k < |xs|
    ensures Linked(c, xs, k)
    ensures var c', s := Remove(c, xs[k]), xs[k];
            && (k > 0 ==> xs[k - 1] in c.links && InsertAfter(c', xs[k - 1], s) == c)
            && (k == 0 ==> Prepend(c', s) == c)
            && (k + 1 < |xs| ==> xs[k + 1] in c.links && InsertBefore(c', xs[k + 1], s) == c)
            && (k + 1 == |xs| ==> Append(c', s) == c)
  {
    hide Remove, Closed, InsertAfter, InsertBefore, Append, Prepend, RemoveAt;
    NeighboursKnown(c, xs, k - 1);
    NeighboursKnown(c, xs, k + 1);
    RemoveRepresents(c, xs, k);
    RemoveThenReinsert(c, xs, k, true);
    RemoveThenReinsert(c, xs, k, false);
  }

  lemma SameLinks<T>(c: Chain<T>, xs: seq<T>, k: nat, c1: Chain<T>, c2: Chain<T>)
    requires Represents(c, xs) && k < |xs| && Linked(c, xs, k)
    requires c.links.Keys == c1.links.Keys == c2.links.Keys
    requires var s, p, n := xs[k], Nth(xs, k - 1), Nth(xs, k + 1);
             && c2.links[s] == Link(n, p)
             && forall t :: t in c.links ==>
                  && c1.links[t] == Link(if Some(t) == p then n else c.links[t].next, if Some(t) == n then p else c.links[t].prev)
                  && (t != s ==> c2.links[t] == Link(if Some(t) == p then Some(s) else c1.links[t].next,
                                                     if Some(t) == n then Some(s) else c1.links[t].prev))
    ensures forall t :: t in c.links ==> c2.links[t] == c.links[t]
  {
    if k > 0 { assert Linked(c, xs, k - 1); }
    if k + 1 < |xs| { assert Linked(c, xs, k + 1); }
  }

  function RemoveAll<T(==)>(c: Chain<T>, ss: seq<T>): (c': Chain<T>)
    requires Closed(c) && forall s :: s in ss ==> s in c.links
    ensures Closed(c') && c'.links.Keys == c.links.Keys
    decreases |ss|
  {
    if ss == [] then c else RemoveAll(Remove(c, ss[0]), ss[1..])
  }

  /** The last section removed is put back first; each on a side of its own. */
  function ReinsertAll<T(==)>(c: Chain<T>, ss: seq<T>, lefts: seq<bool>): (c': Chain<T>)
    requires Closed(c) && |lefts| == |ss| && forall s :: s in ss ==> s in c.links
    ensures Closed(c') && c'.links.Keys == c.links.Keys
    decreases |ss|
  {
    if ss == [] then c else Reinsert(ReinsertAll(c, ss[1..], lefts[1..]), ss[0], lefts[0])
  }

  /** Undo: after removing any sections, putting them back in reverse order restores the whole pointer state. */
  lemma {:induction false} UndoRemovals<T>(c: Chain<T>, xs: seq<T>, ss: seq<T>, lefts: seq<bool>)
    requires Closed(c) && Represents(c, xs) && |lefts| == |ss|
    requires Distinct(ss) && forall s :: s in ss ==> s in xs && s in c.links
    ensures ReinsertAll(RemoveAll(c, ss), ss, lefts) == c
    decreases |ss|
  {
    if ss != [] {
      hide Remove, Reinsert, RemoveAt;
      assert ss[0] in xs;
      var k :| 0 <= k < |xs| && xs[k] == ss[0];
      RemoveRepresents(c, xs, k);
      RemoveThenReinsert(c, xs, k, lefts[0]);
      forall s | s in ss[1..]
        ensures s in RemoveAt(xs, k) && s in Remove(c, ss[0]).links
      {
        StillIn(xs, k, s);
      }
      UndoRemovals(Remove(c, ss[0]), RemoveAt(xs, k), ss[1..], lefts[1..]);
    }
  }

  lemma StillIn<T>(xs: seq<T>, k: nat, s: T)
    requires k < |xs| && s in xs && s != xs[k]
    ensures s in RemoveAt(xs, k)
  {
    var i :| 0 <= i < |xs| && xs[i] == s;
    assert RemoveAt(xs, k)[if i < k then i else i - 1] == s;
  }
}
