/**
 * The list helpers of util.go (dedupStrings, contains), and the two helpers grun calls
 * whose code is not part of this model (filter, removeStrings), specified from their use.
 */
module Util {

  ghost predicate NoDups(xs: seq<string>) {
    forall i, j :: 0 <= i < j < |xs| ==> xs[i] != xs[j]
  }

  /** a can be obtained from b by deleting elements: the order of a is the order in b. */
  ghost predicate IsSubsequence(a: seq<string>, b: seq<string>)
    decreases |b|
  {
    a == [] || (b != [] && (IsSubsequence(a, b[1..]) || (a[0] == b[0] && IsSubsequence(a[1..], b[1..]))))
  }

  /** Position of the first occurrence of x in xs. */
  function IndexOf(xs: seq<string>, x: string): (i: nat)
    requires x in xs
    ensures i < |xs| && xs[i] == x && x !in xs[..i]
    decreases |xs|
  {
    if xs[0] == x then 0 else (assert x in xs[1..]; 1 + IndexOf(xs[1..], x))
  }

  // ---------------------------------------------------------------------------
  // dedupStrings
  // ---------------------------------------------------------------------------

  /** What dedupStrings computes: each element at its first occurrence, later copies dropped. */
  function Dedup(xs: seq<string>): seq<string>
    decreases |xs|
  {
    if xs == [] then []
    else
      var d := Dedup(xs[..|xs| - 1]);
      if xs[|xs| - 1] in d then d else d + [xs[|xs| - 1]]
  }

  /** dedupStrings: walks the input once, remembering the strings seen in a map. */
  method DedupStrings(intSlice: seq<string>) returns (list: seq<string>)
    ensures list == Dedup(intSlice)
  {
    var keys: map<string, bool> := map[];
    list := [];
    for i := 0 to |intSlice|
      invariant list == Dedup(intSlice[..i])
      invariant forall x :: x in keys <==> x in list
    {
      var entry := intSlice[i];
      assert intSlice[..i + 1][..i] == intSlice[..i];
      if entry !in keys {
        keys := keys[entry := true];
        list := list + [entry];
      }
    }
    assert intSlice[..|intSlice|] == intSlice;
  }

  lemma {:induction false} DedupMembers(xs: seq<string>)
    ensures forall x :: x in Dedup(xs) <==> x in xs
    decreases |xs|
  {
    if xs != [] {
      DedupMembers(xs[..|xs| - 1]);
      assert xs == xs[..|xs| - 1] + [xs[|xs| - 1]];
    }
  }

  lemma {:induction false} DedupNoDups(xs: seq<string>)
    ensures NoDups(Dedup(xs))
    decreases |xs|
  {
    if xs != [] {
      DedupNoDups(xs[..|xs| - 1]);
    }
  }

  lemma IndexOfPrefix(xs: seq<string>, y: string, x: string)
    requires x in xs
    ensures IndexOf(xs + [y], x) == IndexOf(xs, x)
  {
    var i := IndexOf(xs, x);
    assert (xs + [y])[i] == x;
    assert (xs + [y])[..i] == xs[..i];
  }

  /** dedupStrings keeps first-occurrence order: output order is the order of first appearance. */
  lemma {:induction false} DedupFirstOccurrenceOrder(xs: seq<string>)
    ensures forall x :: x in Dedup(xs) ==> x in xs
    ensures forall i, j :: 0 <= i < j < |Dedup(xs)| ==>
              IndexOf(xs, Dedup(xs)[i]) < IndexOf(xs, Dedup(xs)[j])
    decreases |xs|
  {
    DedupMembers(xs);
    if xs != [] {
      var p := xs[..|xs| - 1];
      var y := xs[|xs| - 1];
      assert xs == p + [y];
      DedupFirstOccurrenceOrder(p);
      DedupMembers(p);
      var d := Dedup(p);
      forall x | x in d
        ensures IndexOf(xs, x) == IndexOf(p, x)
      {
        IndexOfPrefix(p, y, x);
      }
      if y !in d {
        assert y !in p;
        forall x | x in d
          ensures IndexOf(xs, x) < IndexOf(xs, y)
        {
          assert xs[..|p|] == p;
        }
      }
    }
  }

  /** A duplicate-free input is returned unchanged. */
  lemma {:induction false} DedupOfUnique(xs: seq<string>)
    requires NoDups(xs)
    ensures Dedup(xs) == xs
    decreases |xs|
  {
    if xs != [] {
      var p := xs[..|xs| - 1];
      DedupOfUnique(p);
      assert xs[|xs| - 1] !in p;
      assert xs == p + [xs[|xs| - 1]];
    }
  }

  /** dedupStrings is idempotent. */
  lemma DedupIdempotent(xs: seq<string>)
    ensures Dedup(Dedup(xs)) == Dedup(xs)
  {
    DedupNoDups(xs);
    DedupOfUnique(Dedup(xs));
  }

  // ---------------------------------------------------------------------------
  // contains
  // ---------------------------------------------------------------------------

  /** contains: a scan with an early return on the first equal element. */
  method Contains(haystack: seq<string>, needle: string) returns (found: bool)
    ensures found <==> needle in haystack
  {
    for i := 0 to |haystack|
      invariant needle !in haystack[..i]
    {
      if haystack[i] == needle {
        return true;
      }
      assert haystack[..i + 1] == haystack[..i] + [haystack[i]];
    }
    assert haystack[..|haystack|] == haystack;
    return false;
  }

  // ---------------------------------------------------------------------------
  // filter and removeStrings, as grun uses them
  // ---------------------------------------------------------------------------

  lemma SubsequenceOfTail(a: seq<string>, b: seq<string>)
    requires b != [] && IsSubsequence(a, b[1..])
    ensures IsSubsequence(a, b)
  {
  }

  /** filter(xs, keep): the elements satisfying keep, in their original order. */
  function Filter(xs: seq<string>, keep: string -> bool): (r: seq<string>)
    ensures forall i :: 0 <= i < |r| ==> keep(r[i])
    ensures forall x :: x in r <==> x in xs && keep(x)
    ensures IsSubsequence(r, xs)
    ensures NoDups(xs) ==> NoDups(r)
    decreases |xs|
  {
    if xs == [] then []
    else
      var rest := Filter(xs[1..], keep);
      assert xs == [xs[0]] + xs[1..];
      if keep(xs[0]) then
        assert ([xs[0]] + rest)[1..] == rest;
        [xs[0]] + rest
      else
        SubsequenceOfTail(rest, xs);
        rest
  }

  /** Filter keeps every copy of a kept element and no copy of a dropped one. */
  lemma {:induction false} FilterCounts(xs: seq<string>, keep: string -> bool)
    ensures forall x :: multiset(Filter(xs, keep))[x] == if keep(x) then multiset(xs)[x] else 0
    decreases |xs|
  {
    if xs != [] {
      FilterCounts(xs[1..], keep);
      assert xs == [xs[0]] + xs[1..];
    }
  }

  /** Filter looks at the first element, keeps it when keep holds, and goes on with the rest. */
  lemma FilterStep(xs: seq<string>, keep: string -> bool)
    requires xs != []
    ensures Filter(xs, keep) == (if keep(xs[0]) then [xs[0]] else []) + Filter(xs[1..], keep)
  {
  }

  /** The step of Filter on a + b when a is not empty. */
  lemma FilterStepAppend(a: seq<string>, b: seq<string>, keep: string -> bool)
    requires a != []
    ensures Filter(a + b, keep) == (if keep(a[0]) then [a[0]] else []) + Filter(a[1..] + b, keep)
  {
    FilterStep(a + b, keep);
    assert (a + b)[0] == a[0] && (a + b)[1..] == a[1..] + b;
  }

  /** Filtering a concatenation filters each part. */
  lemma {:induction false} FilterAppend(a: seq<string>, b: seq<string>, keep: string -> bool)
    ensures Filter(a + b, keep) == Filter(a, keep) + Filter(b, keep)
    decreases |a|
  {
    if a != [] {
      var head := if keep(a[0]) then [a[0]] else [];
      calc {
        Filter(a + b, keep);
        { FilterStepAppend(a, b, keep); }
        head + Filter(a[1..] + b, keep);
        { FilterAppend(a[1..], b, keep); }
        head + (Filter(a[1..], keep) + Filter(b, keep));
        (head + Filter(a[1..], keep)) + Filter(b, keep);
        { FilterStep(a, keep); }
        Filter(a, keep) + Filter(b, keep);
      }
    } else {
      assert a + b == b;
    }
  }

  /** removeStrings(xs, ys): the elements of xs that are not in ys, in order. */
  function RemoveStrings(xs: seq<string>, ys: seq<string>): (r: seq<string>)
    ensures forall x :: x in r <==> x in xs && x !in ys
    ensures IsSubsequence(r, xs)
    ensures NoDups(xs) ==> NoDups(r)
  {
    Filter(xs, x => x !in ys)
  }

  /** removeStrings keeps every copy of an element not in ys and no copy of one in ys. */
  lemma RemoveStringsCounts(xs: seq<string>, ys: seq<string>)
    ensures forall x :: multiset(RemoveStrings(xs, ys))[x] == if x in ys then 0 else multiset(xs)[x]
  {
    FilterCounts(xs, x => x !in ys);
  }
}
