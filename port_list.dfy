/** Normalisation of a port list: sort ascending, then drop repeated values. */
module PortList {
  import opened Net

  predicate Sorted(s: seq<Port>)
  {
    forall i, j :: 0 <= i < j < |s| ==> s[i] <= s[j]
  }

  /** Sorted ascending with no value repeated. */
  predicate StrictlyIncreasing(s: seq<Port>)
  {
    forall i, j :: 0 <= i < j < |s| ==> s[i] < s[j]
  }

  /** The set of values a port list holds, forgetting order and repeats. */
  function Elements(s: seq<Port>): set<Port>
  {
    set x | x in s
  }

  // ---------------------------------------------------------------------------
  // Reference definition of the normal form, independent of sort-then-dedup
  // ---------------------------------------------------------------------------

  /** Inserts x at its place in a strictly increasing list, unless it is already there. */
  function InsertUnique(s: seq<Port>, x: Port): (r: seq<Port>)
    requires StrictlyIncreasing(s)
    ensures StrictlyIncreasing(r)
    ensures Elements(r) == Elements(s) + {x}
  {
    if s == [] then [x]
    else if x < s[0] then [x] + s
    else if x == s[0] then s
    else
      var rest := InsertUnique(s[1..], x);
      HeadBelowTail(s);
      ElementsConcat([s[0]], s[1..]);
      ElementsConcat([s[0]], rest);
      assert s == [s[0]] + s[1..];
      assert forall k :: 0 <= k < |rest| ==> s[0] < rest[k] by {
        forall k | 0 <= k < |rest| ensures s[0] < rest[k] {
          assert rest[k] in Elements(rest);
        }
      }
      [s[0]] + rest
  }

  /** The normal form of a port list: its values, each once, in ascending order. */
  function Normalize(p: seq<Port>): (r: seq<Port>)
    ensures StrictlyIncreasing(r)
    ensures Elements(r) == Elements(p)
  {
    if p == [] then []
    else
      var init := Normalize(p[..|p| - 1]);
      assert p == p[..|p| - 1] + [p[|p| - 1]];
      ElementsConcat(p[..|p| - 1], [p[|p| - 1]]);
      InsertUnique(init, p[|p| - 1])
  }

  // ---------------------------------------------------------------------------
  // What removing adjacent repeats does
  // ---------------------------------------------------------------------------

  /** Keeps the first value of every run of equal adjacent values. */
  function DedupAdjacent(s: seq<Port>): (r: seq<Port>)
    ensures |r| <= |s|
    ensures s != [] ==> r != [] && r[|r| - 1] == s[|s| - 1]
  {
    if |s| <= 1 then s
    else
      var init := DedupAdjacent(s[..|s| - 1]);
      if s[|s| - 1] == s[|s| - 2] then init else init + [s[|s| - 1]]
  }

  /** Dropping adjacent repeats keeps every value, and on a sorted list leaves no repeat at all. */
  lemma {:induction false} DedupAdjacentProperties(s: seq<Port>)
    ensures Elements(DedupAdjacent(s)) == Elements(s)
    ensures Sorted(s) ==> StrictlyIncreasing(DedupAdjacent(s))
  {
    if |s| > 1 {
      var init := s[..|s| - 1];
      var last := s[|s| - 1];
      DedupAdjacentProperties(init);
      var d := DedupAdjacent(init);
      assert s == init + [last];
      ElementsConcat(init, [last]);
      ElementsConcat(d, [last]);
      assert d[|d| - 1] == s[|s| - 2];
      if last == s[|s| - 2] {
        assert d[|d| - 1] in Elements(d);
      } else if Sorted(s) {
        assert Sorted(init);
        AppendAbove(d, last);
      }
    }
  }

  /** Appending a value above the last one keeps a list strictly increasing. */
  lemma AppendAbove(s: seq<Port>, x: Port)
    requires StrictlyIncreasing(s) && (s != [] ==> s[|s| - 1] < x)
    ensures StrictlyIncreasing(s + [x])
  {
  }

  // ---------------------------------------------------------------------------
  // Uniqueness of the normal form
  // ---------------------------------------------------------------------------

  lemma ElementsConcat(s: seq<Port>, t: seq<Port>)
    ensures Elements(s + t) == Elements(s) + Elements(t)
  {
    forall x ensures x in s + t <==> x in s || x in t {
    }
  }

  lemma SameElementsSameMembers(s: seq<Port>, t: seq<Port>)
    requires Elements(s) == Elements(t)
    ensures forall x :: x in s <==> x in t
  {
    forall x ensures x in s <==> x in t {
      assert x in s <==> x in Elements(s);
      assert x in t <==> x in Elements(t);
    }
  }

  lemma ElementsEmpty(s: seq<Port>)
    ensures Elements(s) == {} <==> s == []
  {
    if s != [] {
      assert s[0] in Elements(s);
    }
  }

  /** In a strictly increasing list the head is below every later value. */
  lemma HeadBelowTail(s: seq<Port>)
    requires StrictlyIncreasing(s) && s != []
    ensures forall y :: y in s[1..] ==> s[0] < y
    ensures forall y :: y in s ==> s[0] <= y
    ensures Elements(s[1..]) == Elements(s) - {s[0]}
  {
    assert s == [s[0]] + s[1..];
    forall y | y in s[1..] ensures s[0] < y {
      var k :| 0 <= k < |s[1..]| && s[1..][k] == y;
      assert s[k + 1] == y;
    }
  }

  /** A strictly increasing list is determined by the set of its values. */
  lemma {:induction false} StrictlyIncreasingUnique(s: seq<Port>, t: seq<Port>)
    requires StrictlyIncreasing(s) && StrictlyIncreasing(t)
    requires Elements(s) == Elements(t)
    ensures s == t
    decreases |s|
  {
    ElementsEmpty(s);
    ElementsEmpty(t);
    if s != [] {
      assert s[0] in Elements(t);
      assert t != [];
      assert t[0] in Elements(s);
      HeadBelowTail(s);
      HeadBelowTail(t);
      assert s[0] == t[0];
      StrictlyIncreasingUnique(s[1..], t[1..]);
      assert s == [s[0]] + s[1..];
      assert t == [t[0]] + t[1..];
    }
  }

  /** Two strictly increasing lists are equal exactly when they hold the same values. */
  lemma SameSetIffEqual(s: seq<Port>, t: seq<Port>)
    ensures StrictlyIncreasing(s) && StrictlyIncreasing(t) ==>
      (s == t <==> Elements(s) == Elements(t))
  {
    if StrictlyIncreasing(s) && StrictlyIncreasing(t) && Elements(s) == Elements(t) {
      StrictlyIncreasingUnique(s, t);
    }
  }

  /** Normalising a normal list changes nothing. */
  lemma NormalizeOfNormal(s: seq<Port>)
    requires StrictlyIncreasing(s)
    ensures Normalize(s) == s
  {
    StrictlyIncreasingUnique(Normalize(s), s);
  }

  /** Normalisation is idempotent. */
  lemma NormalizeIdempotent(p: seq<Port>)
    ensures Normalize(Normalize(p)) == Normalize(p)
  {
    NormalizeOfNormal(Normalize(p));
  }

  /** Two port lists have the same normal form exactly when they hold the same values. */
  lemma NormalizeEqualIff(p1: seq<Port>, p2: seq<Port>)
    ensures Normalize(p1) == Normalize(p2) <==> Elements(p1) == Elements(p2)
  {
    if Elements(p1) == Elements(p2) {
      StrictlyIncreasingUnique(Normalize(p1), Normalize(p2));
    }
  }

  /** Sorting and then removing adjacent repeats yields the normal form. */
  lemma SortThenDedupIsNormal(p: seq<Port>, sorted: seq<Port>)
    requires Sorted(sorted) && multiset(sorted) == multiset(p)
    ensures DedupAdjacent(sorted) == Normalize(p)
  {
    assert Elements(sorted) == Elements(p) by {
      forall x ensures x in sorted <==> x in p {
        assert x in sorted <==> x in multiset(sorted);
        assert x in p <==> x in multiset(p);
      }
    }
    DedupAdjacentProperties(sorted);
    StrictlyIncreasingUnique(DedupAdjacent(sorted), Normalize(p));
  }

  // ---------------------------------------------------------------------------
  // The in-place operations on the vector
  // ---------------------------------------------------------------------------

  /** Sorts the array ascending, in place (insertion sort). */
  method SortInPlace(a: array<Port>)
    modifies a
    ensures Sorted(a[..])
    ensures multiset(a[..]) == multiset(old(a[..]))
  {
    if a.Length == 0 {
      return;
    }
    var i := 1;
    while i < a.Length
      invariant 1 <= i <= a.Length
      invariant Sorted(a[..i])
      invariant multiset(a[..]) == multiset(old(a[..]))
    {
      InsertLast(a, i);
      i := i + 1;
    }
    assert a[..i] == a[..];
  }

  /** Moves a[i] down into the sorted prefix a[..i], leaving a[..i + 1] sorted;
      the cells after i are not touched. */
  method InsertLast(a: array<Port>, i: nat)
    requires i < a.Length && Sorted(a[..i])
    modifies a
    ensures Sorted(a[..i + 1])
    ensures a[i + 1..] == old(a[i + 1..])
    ensures multiset(a[..]) == multiset(old(a[..]))
  {
    var j := i;
    while j > 0 && a[j - 1] > a[j]
      invariant 0 <= j <= i
      invariant forall k, l :: 0 <= k < l <= i && k != j && l != j ==> a[k] <= a[l]
      invariant forall l :: j < l <= i ==> a[j] < a[l]
      invariant a[i + 1..] == old(a[i + 1..])
      invariant multiset(a[..]) == multiset(old(a[..]))
    {
      a[j - 1], a[j] := a[j], a[j - 1];
      j := j - 1;
    }
  }

  /** One more input value either repeats the last one kept or is kept itself. */
  lemma DedupAdjacentStep(s: seq<Port>, r: nat)
    requires 1 <= r < |s|
    ensures DedupAdjacent(s[..r + 1])
         == if s[r] == s[r - 1] then DedupAdjacent(s[..r]) else DedupAdjacent(s[..r]) + [s[r]]
  {
    assert s[..r + 1][..r] == s[..r];
  }

  /** Removes adjacent repeated values in place, as a vector's dedup does; the
      kept values are moved to the front and their number is returned. */
  method DedupInPlace(a: array<Port>) returns (len: nat)
    modifies a
    ensures len <= a.Length
    ensures a[..len] == DedupAdjacent(old(a[..]))
  {
    if a.Length == 0 {
      return 0;
    }
    ghost var s := a[..];
    assert s[..1] == [s[0]];
    len := 1;
    var r := 1;
    while r < a.Length
      invariant 1 <= len <= r <= a.Length
      invariant forall k :: r <= k < a.Length ==> a[k] == s[k]
      invariant a[..len] == DedupAdjacent(s[..r])
      invariant a[len - 1] == s[r - 1]
    {
      DedupAdjacentStep(s, r);
      ghost var kept := a[..len];
      if a[r] != a[len - 1] {
        a[len] := a[r];
        assert a[..len + 1] == kept + [s[r]];
        len := len + 1;
      }
      r := r + 1;
    }
    assert s[..r] == s;
  }
}
