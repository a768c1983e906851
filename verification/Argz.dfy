/** Iterating over an argz vector: strings one after the other, each ended by a NUL. */
module Argz {
  import opened Bytes

  const NUL: byte := 0

  /** The vectors the argz functions work on: empty, or ending in NUL. */
  predicate Terminated(v: seq<byte>) {
    v == [] || v[|v| - 1] == NUL
  }

  /** A string starts at the front of the vector and after every NUL that is not the last byte. */
  predicate IsStart(v: seq<byte>, k: int) {
    0 <= k < |v| && (k == 0 || v[k - 1] == NUL)
  }

  /** The first NUL from `e` on, or the length if there is none. */
  function NulFrom(v: seq<byte>, e: nat): (i: nat)
    requires e <= |v|
    ensures e <= i <= |v|
    ensures forall j :: e <= j < i ==> v[j] != NUL
    ensures i < |v| ==> v[i] == NUL
    ensures Terminated(v) && e < |v| ==> i < |v|
    decreases |v| - e
  {
    if e == |v| || v[e] == NUL then e else NulFrom(v, e + 1)
  }

  /** `strchr (e, '\0')`: the first NUL from `e` on. */
  method FindNul(v: seq<byte>, e: nat) returns (i: nat)
    requires e < |v| && NulFrom(v, e) < |v|
    ensures i == NulFrom(v, e)
    ensures v[i] == 0 && forall j :: e <= j < i ==> v[j] != 0
  {
    i := e;
    while v[i] != NUL
      invariant e <= i <= NulFrom(v, e)
      invariant forall j :: e <= j < i ==> v[j] != NUL
      decreases |v| - i
    {
      i := i + 1;
    }
  }

  /** `entry` is an offset, or null; an offset at or past the end is taken too. */
  function NextEntry(v: seq<byte>, entry: Option<nat>): (r: Option<nat>)
    ensures r.Some? ==> r.value < |v| && (entry.Some? ==> entry.value < r.value)
  {
    match entry
    case None => if |v| > 0 then Some(0) else None
    case Some(e) =>
      var e' := if e < |v| then NulFrom(v, e) + 1 else e;
      if e' >= |v| then None else Some(e')
  }

  /** `__argz_next` */
  method ArgzNext(v: seq<byte>, entry: Option<nat>) returns (r: Option<nat>)
    requires entry.Some? && entry.value < |v| ==> NulFrom(v, entry.value) < |v|
    ensures r == NextEntry(v, entry)
    ensures entry.Some? && entry.value < |v| ==>
              var n := if r.Some? then r.value else |v|;
              entry.value < n <= |v| && v[n - 1] == 0 && forall j :: entry.value <= j < n - 1 ==> v[j] != 0
  {
    if entry.Some? {
      var e := entry.value;
      if e < |v| {
        e := FindNul(v, e);
        e := e + 1;
      }
      r := if e >= |v| then None else Some(e);
    } else {
      r := if |v| > 0 then Some(0) else None;
    }
  }

  /**
   From null the first start is returned; from any position, inside a string or not, the next start after it; null
   exactly when there is none. All it takes is a byte 0 at or after the position: the vector need not end in one.
   */
  lemma NextIsNextStart(v: seq<byte>, entry: Option<nat>)
    requires entry.Some? && entry.value < |v| ==> NulFrom(v, entry.value) < |v|
    ensures var from := if entry.Some? then entry.value else -1;
            match NextEntry(v, entry)
            case None => forall k :: from < k ==> !IsStart(v, k)
            case Some(n) => from < n && IsStart(v, n) && forall k :: from < k < n ==> !IsStart(v, k)
  {
  }

  /** The byte before the entry returned is the first 0 from the old entry on; null means that this is the last byte. */
  lemma NextFollowsZero(v: seq<byte>, e: nat)
    requires e < |v| && NulFrom(v, e) < |v|
    ensures var n := if NextEntry(v, Some(e)).Some? then NextEntry(v, Some(e)).value else |v|;
            e < n <= |v| && v[n - 1] == 0 && forall j :: e <= j < n - 1 ==> v[j] != 0
  {
    hide NulFrom;
  }

  // ---------------------------------------------------------------- the strings of a vector

  /** The starts at or after `e`, in order. */
  function StartsFrom(v: seq<byte>, e: nat): (ks: seq<nat>)
    requires e <= |v|
    decreases |v| - e
  {
    if e == |v| then [] else (if IsStart(v, e) then [e] else []) + StartsFrom(v, e + 1)
  }

  /** The string at `k`, without its NUL. */
  function StringAt(v: seq<byte>, k: nat): (s: seq<byte>)
    requires k <= |v|
    ensures NUL !in s
  {
    v[k..NulFrom(v, k)]
  }

  /** The strings at the given starts, each with its NUL, one after the other. */
  function Joined(v: seq<byte>, ks: seq<nat>): (r: seq<byte>)
    requires forall i :: 0 <= i < |ks| ==> ks[i] <= |v|
  {
    if ks == [] then [] else StringAt(v, ks[0]) + [NUL] + Joined(v, ks[1..])
  }

  lemma {:induction false} StartsFromAre(v: seq<byte>, e: nat)
    requires e <= |v|
    ensures forall k :: k in StartsFrom(v, e) <==> e <= k && IsStart(v, k)
    ensures forall i, j :: 0 <= i < j < |StartsFrom(v, e)| ==> StartsFrom(v, e)[i] < StartsFrom(v, e)[j]
    decreases |v| - e
  {
    if e < |v| {
      StartsFromAre(v, e + 1);
      var rest := StartsFrom(v, e + 1);
      assert forall i :: 0 <= i < |rest| ==> rest[i] in rest;
    }
  }

  /** No start is skipped between `e` and the next one. */
  lemma {:induction false} StartsSkip(v: seq<byte>, e: nat, n: nat)
    requires e <= n <= |v|
    requires forall k :: e <= k < n ==> !IsStart(v, k)
    ensures StartsFrom(v, e) == StartsFrom(v, n)
    decreases n - e
  {
    if e < n {
      StartsSkip(v, e + 1, n);
    }
  }

  /** Stepping from `e`: the starts after `e` are the next entry and the starts after that. */
  lemma StartsStep(v: seq<byte>, e: nat)
    requires Terminated(v) && e < |v|
    ensures NextEntry(v, Some(e)).None? ==> StartsFrom(v, e + 1) == []
    ensures NextEntry(v, Some(e)).Some? ==>
              var n := NextEntry(v, Some(e)).value;
              StartsFrom(v, e + 1) == [n] + StartsFrom(v, n + 1)
  {
    hide NulFrom, NextEntry;
    NextIsNextStart(v, Some(e));
    var r := NextEntry(v, Some(e));
    if r.None? {
      StartsSkip(v, e + 1, |v|);
    } else {
      StartsSkip(v, e + 1, r.value);
    }
  }

  // ---------------------------------------------------------------- iterating

  /** The entries visited after `entry`, calling `__argz_next` until it returns null. */
  function Visited(v: seq<byte>, entry: Option<nat>): (ks: seq<nat>)
    decreases if entry.Some? then |v| - entry.value else |v| + 1
  {
    match NextEntry(v, entry)
    case None => []
    case Some(n) => [n] + Visited(v, Some(n))
  }

  lemma {:induction false} VisitedFrom(v: seq<byte>, e: nat)
    requires Terminated(v) && e < |v|
    ensures Visited(v, Some(e)) == StartsFrom(v, e + 1)
    decreases |v| - e
  {
    hide NextEntry;
    StartsStep(v, e);
    var r := NextEntry(v, Some(e));
    if r.Some? {
      VisitedFrom(v, r.value);
    }
  }

  lemma VisitedStarts(v: seq<byte>)
    requires Terminated(v)
    ensures Visited(v, None) == StartsFrom(v, 0)
  {
    if v != [] {
      VisitedFrom(v, 0);
    }
  }

  /** After a start the next one is behind the next NUL. */
  lemma StartsHead(v: seq<byte>, e: nat)
    requires IsStart(v, e) && NulFrom(v, e) < |v|
    ensures StartsFrom(v, e) == [e] + StartsFrom(v, NulFrom(v, e) + 1)
  {
    hide NulFrom;
    StartsSkip(v, e + 1, NulFrom(v, e) + 1);
  }

  /** A string starts at every start and runs up to the next one. */
  lemma {:induction false} JoinedFrom(v: seq<byte>, e: nat)
    requires Terminated(v) && (e == |v| || IsStart(v, e))
    ensures forall i :: 0 <= i < |StartsFrom(v, e)| ==> StartsFrom(v, e)[i] <= |v|
    ensures Joined(v, StartsFrom(v, e)) == v[e..]
    decreases |v| - e
  {
    StartsBound(v, e);
    if e < |v| {
      var z := NulFrom(v, e);
      StartsHead(v, e);
      StartsBound(v, z + 1);
      JoinedFrom(v, z + 1);
      hide NulFrom, StartsFrom, Joined, StringAt, IsStart;
      JoinedCons(v, e, StartsFrom(v, z + 1));
      SplitAtNul(v, e, z);
    }
  }

  lemma JoinedCons(v: seq<byte>, e: nat, ks: seq<nat>)
    requires e <= |v| && forall i :: 0 <= i < |ks| ==> ks[i] <= |v|
    ensures Joined(v, [e] + ks) == v[e..NulFrom(v, e)] + [NUL] + Joined(v, ks)
  {
    assert ([e] + ks)[1..] == ks;
  }

  lemma SplitAtNul(v: seq<byte>, e: nat, z: nat)
    requires e <= z < |v| && v[z] == NUL
    ensures v[e..] == v[e..z] + [NUL] + v[z + 1..]
  {
  }

  lemma StartsBound(v: seq<byte>, e: nat)
    requires e <= |v|
    ensures forall i :: 0 <= i < |StartsFrom(v, e)| ==> StartsFrom(v, e)[i] <= |v|
  {
    StartsFromAre(v, e);
    var ks := StartsFrom(v, e);
    assert forall i :: 0 <= i < |ks| ==> ks[i] in ks;
  }

  /**
   Iterating from null visits every string start exactly once and in order, and the visited strings, each with its
   NUL, are the vector.
   */
  lemma VisitsAll(v: seq<byte>)
    requires Terminated(v)
    ensures var ks := Visited(v, None);
            && (forall k :: k in ks <==> IsStart(v, k))
            && (forall i, j :: 0 <= i < j < |ks| ==> ks[i] < ks[j])
            && (forall i :: 0 <= i < |ks| ==> ks[i] <= |v|)
            && Joined(v, ks) == v
  {
    if v != [] {
      VisitedStarts(v);
      StartsFromAre(v, 0);
      JoinedFrom(v, 0);
      assert v[0..] == v;
    }
  }

  /** The vector of a list of strings. */
  function Vector(ss: seq<seq<byte>>): (v: seq<byte>)
    ensures Terminated(v)
  {
    if ss == [] then [] else ss[0] + [NUL] + Vector(ss[1..])
  }

  lemma {:induction false} StringsFrom(v: seq<byte>, e: nat, ss: seq<seq<byte>>)
    requires e <= |v| && v[e..] == Vector(ss) && (e == 0 || v[e - 1] == NUL)
    requires forall i :: 0 <= i < |ss| ==> NUL !in ss[i]
    ensures StringsAre(v, StartsFrom(v, e), ss)
    decreases |ss|
  {
    hide NulFrom, StartsFrom, StringAt, StringsAre;
    if ss == [] {
      StringsNone(v);
    } else {
      HeadString(v, e, ss);
      StartsHead(v, e);
      var z := e + |ss[0]|;
      StringsFrom(v, z + 1, ss[1..]);
      StringsCons(v, e, StartsFrom(v, z + 1), ss);
    }
  }

  /** The strings of `ss` stand at the places `ks`. */
  ghost predicate StringsAre(v: seq<byte>, ks: seq<nat>, ss: seq<seq<byte>>) {
    |ks| == |ss| && forall i :: 0 <= i < |ss| ==> ks[i] <= |v| && StringAt(v, ks[i]) == ss[i]
  }

  lemma StringsNone(v: seq<byte>)
    ensures StringsAre(v, StartsFrom(v, |v|), [])
  {
  }

  lemma StringsCons(v: seq<byte>, e: nat, rest: seq<nat>, ss: seq<seq<byte>>)
    requires ss != [] && e <= |v| && StringAt(v, e) == ss[0] && StringsAre(v, rest, ss[1..])
    ensures StringsAre(v, [e] + rest, ss)
  {
    hide StringAt;
    var ks := [e] + rest;
    forall i | 0 <= i < |ss|
      ensures ks[i] <= |v| && StringAt(v, ks[i]) == ss[i]
    {
      if i > 0 {
        assert ks[i] == rest[i - 1] && ss[i] == ss[1..][i - 1];
      }
    }
  }

  lemma HeadString(v: seq<byte>, e: nat, ss: seq<seq<byte>>)
    requires e <= |v| && ss != [] && v[e..] == Vector(ss) && NUL !in ss[0]
    ensures var z := e + |ss[0]|;
            && z < |v| && v[z] == NUL && v[z + 1..] == Vector(ss[1..])
            && NulFrom(v, e) == z && StringAt(v, e) == ss[0]
  {
    var z := e + |ss[0]|;
    var t := v[e..];
    assert t == ss[0] + [NUL] + Vector(ss[1..]);
    assert v[e..z] == t[..|ss[0]|] == ss[0];
    assert v[z] == t[|ss[0]|] == NUL;
    assert v[z + 1..] == t[|ss[0]| + 1..];
    assert forall j :: e <= j < z ==> v[j] == ss[0][j - e];
  }

  /** Round trip: iterating over the vector of any NUL-free strings returns these strings, in order, and no others. */
  lemma VisitsStrings(ss: seq<seq<byte>>)
    requires forall i :: 0 <= i < |ss| ==> NUL !in ss[i]
    ensures StringsAre(Vector(ss), Visited(Vector(ss), None), ss)
  {
    hide StringsAre, Vector;
    var v := Vector(ss);
    assert v[0..] == v;
    StringsFrom(v, 0, ss);
    VisitedStarts(v);
  }

  // ---------------------------------------------------------------- the two documented loops

  /** `entry = 0; while ((entry = argz_next (argz, argz_len, entry))) ...` */
  method WhileStyle(v: seq<byte>) returns (visited: seq<nat>)
    requires Terminated(v)
    ensures visited == Visited(v, None)
  {
    hide NulFrom, NextEntry;
    visited := [];
    var entry := ArgzNext(v, None);
    while entry.Some?
      invariant entry.Some? ==> entry.value < |v|
      invariant Visited(v, None) == visited + if entry.Some? then [entry.value] + Visited(v, entry) else []
      decreases if entry.Some? then |v| - entry.value else -1
    {
      visited := visited + [entry.value];
      entry := ArgzNext(v, entry);
    }
  }

  /** `for (entry = argz; entry; entry = argz_next (argz, argz_len, entry)) ...`, with `argz` not null. */
  method ForStyle(v: seq<byte>) returns (visited: seq<nat>)
    requires Terminated(v)
    ensures visited == [0] + Visited(v, Some(0))
  {
    hide NulFrom;
    visited := [];
    var entry := Some(0);
    while entry.Some?
      invariant entry.Some? ==> entry.value < |v| || entry.value == 0 == |v|
      invariant [0] + Visited(v, Some(0)) == visited + if entry.Some? then [entry.value] + Visited(v, entry) else []
      decreases if entry.Some? then |v| - entry.value else -1
    {
      visited := visited + [entry.value];
      entry := ArgzNext(v, entry);
    }
  }

  /** The two loops visit the same entries if and only if the vector is not empty. */
  lemma StylesAgree(v: seq<byte>)
    requires Terminated(v)
    ensures [0] + Visited(v, Some(0)) == Visited(v, None) <==> v != []
  {
  }

  /** On the empty vector the second loop visits one entry, the first none. */
  lemma StylesDiffer()
    ensures Visited([], None) == [] && [0] + Visited([], Some(0)) == [0]
  {
  }
}
