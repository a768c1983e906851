/**
 The pointers of a BFD section list: each section's `next` and `prev`, and the list's two ends. The list macros are
 written as the pointer updates they make; `Represents` says which sequence of sections a chain of pointers is.
 */
module SectionChain {
  import opened Bytes

  datatype Link<T> = Link(next: Option<T>, prev: Option<T>)

  /** `links` holds every section there is, in the list or not; a removed section keeps its old links. */
  datatype Chain<T> = Chain(links: map<T, Link<T>>, first: Option<T>, last: Option<T>)

  ghost predicate Known<T>(links: map<T, Link<T>>, p: Option<T>) {
    p.Some? ==> p.value in links
  }

  /** No pointer leads outside. */
  ghost predicate Closed<T>(c: Chain<T>) {
    && Known(c.links, c.first) && Known(c.links, c.last)
    && forall s :: s in c.links ==> Known(c.links, c.links[s].next) && Known(c.links, c.links[s].prev)
  }

  function SetNext<T(==)>(c: Chain<T>, s: T, p: Option<T>): (c': Chain<T>)
    requires s in c.links
    ensures c'.links.Keys == c.links.Keys
  {
    c.(links := c.links[s := c.links[s].(next := p)])
  }

  function SetPrev<T(==)>(c: Chain<T>, s: T, p: Option<T>): (c': Chain<T>)
    requires s in c.links
    ensures c'.links.Keys == c.links.Keys
  {
    c.(links := c.links[s := c.links[s].(prev := p)])
  }

  // ---------------------------------------------------------------- the macros

  function Remove<T(==)>(c: Chain<T>, s: T): (c': Chain<T>)
    requires Closed(c) && s in c.links
    ensures Closed(c') && c'.links.Keys == c.links.Keys
  {
    var Link(n, p) := c.links[s];
    var c1 := if p.Some? then SetNext(c, p.value, n) else c.(first := n);
    if n.Some? then SetPrev(c1, n.value, p) else c1.(last := p)
  }

  function Append<T(==)>(c: Chain<T>, s: T): (c': Chain<T>)
    requires Closed(c) && s in c.links
    ensures Closed(c') && c'.links.Keys == c.links.Keys
  {
    var c1 := SetNext(c, s, None);
    var c2 := if c1.last.Some? then SetNext(SetPrev(c1, s, c1.last), c1.last.value, Some(s))
              else SetPrev(c1, s, None).(first := Some(s));
    c2.(last := Some(s))
  }

  function Prepend<T(==)>(c: Chain<T>, s: T): (c': Chain<T>)
    requires Closed(c) && s in c.links
    ensures Closed(c') && c'.links.Keys == c.links.Keys
  {
    var c1 := SetPrev(c, s, None);
    var c2 := if c1.first.Some? then SetPrev(SetNext(c1, s, c1.first), c1.first.value, Some(s))
              else SetNext(c1, s, None).(last := Some(s));
    c2.(first := Some(s))
  }

  function InsertAfter<T(==)>(c: Chain<T>, a: T, s: T): (c': Chain<T>)
    requires Closed(c) && a in c.links && s in c.links
    ensures Closed(c') && c'.links.Keys == c.links.Keys
  {
    var n := c.links[a].next;
    var c1 := SetNext(SetPrev(SetNext(c, s, n), s, Some(a)), a, Some(s));
    if n.Some? then SetPrev(c1, n.value, Some(s)) else c1.(last := Some(s))
  }

  function InsertBefore<T(==)>(c: Chain<T>, b: T, s: T): (c': Chain<T>)
    requires Closed(c) && b in c.links && s in c.links
    ensures Closed(c') && c'.links.Keys == c.links.Keys
  {
    var p := c.links[b].prev;
    var c1 := SetPrev(SetNext(SetPrev(c, s, p), s, Some(b)), b, Some(s));
    if p.Some? then SetNext(c1, p.value, Some(s)) else c1.(first := Some(s))
  }

  /** The constant-time test: is the section not where its own `next` says it should be? */
  predicate RemovedFromList<T(==)>(c: Chain<T>, s: T)
    requires Closed(c) && s in c.links
  {
    match c.links[s].next
    case None => c.last != Some(s)
    case Some(n) => c.links[n].prev != Some(s)
  }

  // ---------------------------------------------------------------- chains and sequences

  function Nth<T>(xs: seq<T>, i: int): (r: Option<T>) {
    if 0 <= i < |xs| then Some(xs[i]) else None
  }

  ghost predicate Distinct<T>(xs: seq<T>) {
    forall i, j :: 0 <= i < j < |xs| ==> xs[i] != xs[j]
  }

  /** Section `i` points to its two neighbours in `xs`. */
  ghost predicate Linked<T>(c: Chain<T>, xs: seq<T>, i: int)
    requires 0 <= i < |xs|
  {
    xs[i] in c.links && c.links[xs[i]] == Link(Nth(xs, i + 1), Nth(xs, i - 1))
  }

  ghost predicate Represents<T>(c: Chain<T>, xs: seq<T>) {
    && Distinct(xs)
    && c.first == Nth(xs, 0) && c.last == Nth(xs, |xs| - 1)
    && forall i :: 0 <= i < |xs| ==> Linked(c, xs, i)
  }

  function InsertAt<T>(xs: seq<T>, k: nat, x: T): (r: seq<T>)
    requires k <= |xs|
    ensures |r| == |xs| + 1 && r[k] == x
    ensures forall i :: 0 <= i < k ==> r[i] == xs[i]
    ensures forall i :: k < i < |r| ==> r[i] == xs[i - 1]
  {
    xs[..k] + [x] + xs[k..]
  }

  function RemoveAt<T>(xs: seq<T>, k: nat): (r: seq<T>)
    requires k < |xs|
    ensures |r| == |xs| - 1
    ensures forall i :: 0 <= i < k ==> r[i] == xs[i]
    ensures forall i :: k <= i < |r| ==> r[i] == xs[i + 1]
  {
    xs[..k] + xs[k + 1..]
  }

  /** What every insertion comes to: `s` between its new neighbours, each possibly an end of the list. */
  function InsertBetween<T(==)>(c: Chain<T>, p: Option<T>, n: Option<T>, s: T): (c': Chain<T>)
    requires Closed(c) && Known(c.links, p) && Known(c.links, n) && s in c.links
    ensures c'.links.Keys == c.links.Keys
  {
    var c0 := c.(links := c.links[s := Link(n, p)]);
    var c1 := if p.Some? then SetNext(c0, p.value, Some(s)) else c0.(first := Some(s));
    if n.Some? then SetPrev(c1, n.value, Some(s)) else c1.(last := Some(s))
  }

  lemma NeighboursKnown<T>(c: Chain<T>, xs: seq<T>, i: int)
    requires Represents(c, xs)
    ensures Known(c.links, Nth(xs, i))
  {
    if 0 <= i < |xs| {
      assert Linked(c, xs, i);
    }
  }

  /** The links of sections outside `xs`, other than `s`, are as before. */
  ghost predicate OthersKept<T>(c: Chain<T>, c': Chain<T>, xs: seq<T>, s: T) {
    && c'.links.Keys == c.links.Keys
    && forall t :: t in c.links && t !in xs && t != s ==> c'.links[t] == c.links[t]
  }

  /** Insertion turns the two neighbours to the new section and touches nothing else. */
  lemma InsertLinks<T>(c: Chain<T>, xs: seq<T>, k: nat, s: T)
    requires Closed(c) && Represents(c, xs) && k <= |xs| && s in c.links && s !in xs
    ensures Known(c.links, Nth(xs, k - 1)) && Known(c.links, Nth(xs, k))
    ensures var p, n := Nth(xs, k - 1), Nth(xs, k);
            var c' := InsertBetween(c, p, n, s);
            && c'.first == (if k == 0 then Some(s) else c.first) && c'.last == (if k == |xs| then Some(s) else c.last)
            && c'.links[s] == Link(n, p)
            && forall t :: t in c.links && t != s ==>
                 c'.links[t] == Link(if Some(t) == p then Some(s) else c.links[t].next,
                                     if Some(t) == n then Some(s) else c.links[t].prev)
  {
    NeighboursKnown(c, xs, k - 1);
    NeighboursKnown(c, xs, k);
  }

  lemma InsertedLink<T>(c: Chain<T>, xs: seq<T>, k: nat, s: T, i: nat)
    requires Closed(c) && Represents(c, xs) && k <= |xs| && s in c.links && s !in xs && i <= |xs|
    ensures Known(c.links, Nth(xs, k - 1)) && Known(c.links, Nth(xs, k))
    ensures Linked(InsertBetween(c, Nth(xs, k - 1), Nth(xs, k), s), InsertAt(xs, k, s), i)
  {
    hide InsertBetween, InsertAt, Closed;
    InsertLinks(c, xs, k, s);
    if i != k {
      var j := if i < k then i else i - 1;
      assert InsertAt(xs, k, s)[i] == xs[j];
      assert Linked(c, xs, j);
    }
  }

  lemma InsertRepresents<T>(c: Chain<T>, xs: seq<T>, k: nat, s: T)
    requires Closed(c) && Represents(c, xs) && k <= |xs| && s in c.links && s !in xs
    ensures Known(c.links, Nth(xs, k - 1)) && Known(c.links, Nth(xs, k))
    ensures var c' := InsertBetween(c, Nth(xs, k - 1), Nth(xs, k), s);
            Represents(c', InsertAt(xs, k, s)) && OthersKept(c, c', xs, s)
  {
    hide InsertBetween, InsertAt, Closed, Linked;
    InsertLinks(c, xs, k, s);
    var c', ys := InsertBetween(c, Nth(xs, k - 1), Nth(xs, k), s), InsertAt(xs, k, s);
    forall i | 0 <= i <= |xs|
      ensures Linked(c', ys, i)
    {
      InsertedLink(c, xs, k, s, i);
    }
  }

  /** Removal bridges the two neighbours and touches nothing else; the removed section keeps its own links. */
  lemma RemoveLinks<T>(c: Chain<T>, xs: seq<T>, k: nat)
    requires Closed(c) && Represents(c, xs) && k < |xs|
    ensures Linked(c, xs, k)
    ensures var c', p, n := Remove(c, xs[k]), Nth(xs, k - 1), Nth(xs, k + 1);
            && c'.first == (if k == 0 then n else c.first) && c'.last == (if k == |xs| - 1 then p else c.last)
            && forall t :: t in c.links ==>
                 c'.links[t] == Link(if Some(t) == p then n else c.links[t].next, if Some(t) == n then p else c.links[t].prev)
  {
    assert Linked(c, xs, k);
  }

  lemma RemovedLink<T>(c: Chain<T>, xs: seq<T>, k: nat, i: nat)
    requires Closed(c) && Represents(c, xs) && k < |xs| && i < |xs| - 1
    ensures Linked(c, xs, k) && Linked(Remove(c, xs[k]), RemoveAt(xs, k), i)
  {
    hide Remove, RemoveAt, Closed;
    RemoveLinks(c, xs, k);
    var j := if i < k then i else i + 1;
    assert RemoveAt(xs, k)[i] == xs[j];
    assert Linked(c, xs, j);
  }

  lemma RemoveRepresents<T>(c: Chain<T>, xs: seq<T>, k: nat)
    requires Closed(c) && Represents(c, xs) && k < |xs|
    ensures Linked(c, xs, k)
    ensures var c' := Remove(c, xs[k]);
            && Represents(c', RemoveAt(xs, k)) && OthersKept(c, c', xs, xs[k])
            && c'.links[xs[k]] == c.links[xs[k]]
  {
    hide Remove, RemoveAt, Closed;
    RemoveLinks(c, xs, k);
    var c', ys := Remove(c, xs[k]), RemoveAt(xs, k);
    forall i | 0 <= i < |ys|
      ensures Linked(c', ys, i)
    {
      RemovedLink(c, xs, k, i);
    }
  }

  /** Append is insertion at the end. */
  lemma AppendIsInsert<T>(c: Chain<T>, xs: seq<T>, s: T)
    requires Closed(c) && Represents(c, xs) && s in c.links && s !in xs
    ensures Append(c, s) == InsertBetween(c, Nth(xs, |xs| - 1), None, s)
  {
  }

  lemma PrependIsInsert<T>(c: Chain<T>, xs: seq<T>, s: T)
    requires Closed(c) && Represents(c, xs) && s in c.links && s !in xs
    ensures Prepend(c, s) == InsertBetween(c, None, Nth(xs, 0), s)
  {
  }

  lemma AfterIsInsert<T>(c: Chain<T>, xs: seq<T>, k: nat, s: T)
    requires Closed(c) && Represents(c, xs) && k < |xs| && s in c.links && s !in xs
    ensures Linked(c, xs, k) && Known(c.links, Nth(xs, k + 1))
    ensures InsertAfter(c, xs[k], s) == InsertBetween(c, Some(xs[k]), Nth(xs, k + 1), s)
  {
    assert Linked(c, xs, k);
  }

  lemma BeforeIsInsert<T>(c: Chain<T>, xs: seq<T>, k: nat, s: T)
    requires Closed(c) && Represents(c, xs) && k < |xs| && s in c.links && s !in xs
    ensures Linked(c, xs, k) && Known(c.links, Nth(xs, k - 1))
    ensures InsertBefore(c, xs[k], s) == InsertBetween(c, Nth(xs, k - 1), Some(xs[k]), s)
  {
    assert Linked(c, xs, k);
  }
}
