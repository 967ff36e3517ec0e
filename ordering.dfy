/** The order in which the scheduler visits projects: ascending start date,
    projects with equal start dates kept in their input order. */
module Ordering {
  import opened Domain

  predicate SortedByStart(s: seq<Project>)
  {
    forall i, j :: 0 <= i < j < |s| ==> StartDate(s[i]) <= StartDate(s[j])
  }

  /** `s` with `x` inserted after every trailing element whose start date is
      later than `x`'s: `x` lands after all elements whose start date is not
      later, which is what keeps the sort stable. */
  function Insert(s: seq<Project>, x: Project): seq<Project>
  {
    if s == [] || StartDate(s[|s| - 1]) <= StartDate(x) then s + [x]
    else Insert(s[..|s| - 1], x) + [s[|s| - 1]]
  }

  /** Insertion sort by start date, inserting the elements in input order. */
  function SortByStart(s: seq<Project>): seq<Project>
  {
    if s == [] then [] else Insert(SortByStart(s[..|s| - 1]), s[|s| - 1])
  }

  /** The projects of `s` whose start date is `d`, in their order in `s`. */
  function WithStart(s: seq<Project>, d: int): seq<Project>
  {
    if s == [] then []
    else WithStart(s[..|s| - 1], d) + (if StartDate(s[|s| - 1]) == d then [s[|s| - 1]] else [])
  }

  lemma WithStartAppend(s: seq<Project>, y: Project, d: int)
    ensures WithStart(s + [y], d) == WithStart(s, d) + (if StartDate(y) == d then [y] else [])
  {
    assert (s + [y])[..|s|] == s;
  }

  lemma {:induction false} InsertPermutes(s: seq<Project>, x: Project)
    ensures multiset(Insert(s, x)) == multiset(s) + multiset{x}
  {
    if s != [] && StartDate(s[|s| - 1]) > StartDate(x) {
      InsertPermutes(s[..|s| - 1], x);
      assert s == s[..|s| - 1] + [s[|s| - 1]];
    }
  }

  /** Every project of `s` starts no later than `b`. */
  predicate StartsBy(s: seq<Project>, b: int)
  {
    forall i :: 0 <= i < |s| ==> StartDate(s[i]) <= b
  }

  /** Inserting a project that starts by `b` into a sequence whose projects
      all start by `b` gives a sequence whose projects all start by `b`. */
  lemma {:induction false} InsertStartsBy(s: seq<Project>, x: Project, b: int)
    requires StartsBy(s, b) && StartDate(x) <= b
    ensures StartsBy(Insert(s, x), b)
  {
    if s != [] && StartDate(s[|s| - 1]) > StartDate(x) {
      InsertStartsBy(s[..|s| - 1], x, b);
    }
  }

  /** Appending a project that starts no earlier than everything in a sorted
      sequence keeps it sorted. */
  lemma AppendSorted(r: seq<Project>, y: Project)
    requires SortedByStart(r) && StartsBy(r, StartDate(y))
    ensures SortedByStart(r + [y])
  {
  }

  lemma {:induction false} InsertSorted(s: seq<Project>, x: Project)
    requires SortedByStart(s)
    ensures SortedByStart(Insert(s, x))
  {
    if s == [] || StartDate(s[|s| - 1]) <= StartDate(x) {
      assert StartsBy(s, StartDate(x));
      AppendSorted(s, x);
    } else {
      var init, last := s[..|s| - 1], s[|s| - 1];
      InsertSorted(init, x);
      assert StartsBy(init, StartDate(last));
      InsertStartsBy(init, x, StartDate(last));
      AppendSorted(Insert(init, x), last);
    }
  }

  lemma {:induction false} InsertKeepsOrderPerDate(s: seq<Project>, x: Project, d: int)
    ensures WithStart(Insert(s, x), d) == WithStart(s, d) + (if StartDate(x) == d then [x] else [])
  {
    var n := |s|;
    if s == [] || StartDate(s[n - 1]) <= StartDate(x) {
      WithStartAppend(s, x, d);
    } else {
      var init, last := s[..n - 1], s[n - 1];
      assert s == init + [last];
      assert Insert(s, x) == Insert(init, x) + [last];
      InsertKeepsOrderPerDate(init, x, d);
      WithStartAppend(Insert(init, x), last, d);
      WithStartAppend(init, last, d);
      if StartDate(x) == d {
        assert StartDate(last) != d;
        assert WithStart(Insert(s, x), d) == WithStart(init, d) + [x];
        assert WithStart(s, d) == WithStart(init, d);
      } else {
        assert WithStart(Insert(s, x), d) == WithStart(init, d) + (if StartDate(last) == d then [last] else []);
      }
    }
  }

  /** The sorted sequence is ordered by start date. */
  lemma {:induction false} SortByStartSorted(s: seq<Project>)
    ensures SortedByStart(SortByStart(s))
  {
    if s != [] {
      SortByStartSorted(s[..|s| - 1]);
      InsertSorted(SortByStart(s[..|s| - 1]), s[|s| - 1]);
    }
  }

  /** The sorted sequence holds exactly the input's projects. */
  lemma {:induction false} SortByStartPermutes(s: seq<Project>)
    ensures multiset(SortByStart(s)) == multiset(s)
  {
    if s != [] {
      var init, last := s[..|s| - 1], s[|s| - 1];
      SortByStartPermutes(init);
      InsertPermutes(SortByStart(init), last);
      assert s == init + [last];
    }
  }

  /** Stability: the projects sharing any one start date appear in the sorted
      sequence in the order they had in the input. */
  lemma {:induction false} SortByStartStable(s: seq<Project>, d: int)
    ensures WithStart(SortByStart(s), d) == WithStart(s, d)
  {
    if s != [] {
      SortByStartStable(s[..|s| - 1], d);
      InsertKeepsOrderPerDate(SortByStart(s[..|s| - 1]), s[|s| - 1], d);
    }
  }

  lemma {:induction false} WithStartMembers(s: seq<Project>, d: int, y: Project)
    ensures y in WithStart(s, d) <==> y in s && StartDate(y) == d
    decreases |s|
  {
    if s != [] {
      WithStartMembers(s[..|s| - 1], d, y);
      assert s == s[..|s| - 1] + [s[|s| - 1]];
    }
  }

  /** Dropping equal-dated last elements from two sequences that agree on
      every start date leaves two sequences that still agree. */
  lemma DropLastAgrees(t: seq<Project>, x: Project, u: seq<Project>, y: Project)
    requires StartDate(x) == StartDate(y)
    requires forall d :: WithStart(t + [x], d) == WithStart(u + [y], d)
    ensures x == y
    ensures forall d :: WithStart(t, d) == WithStart(u, d)
  {
    var d := StartDate(x);
    WithStartAppend(t, x, d);
    WithStartAppend(u, y, d);
    assert WithStart(t + [x], d) == WithStart(u + [y], d);
    forall e
      ensures WithStart(t, e) == WithStart(u, e)
    {
      WithStartAppend(t, x, e);
      WithStartAppend(u, y, e);
      assert WithStart(t + [x], e) == WithStart(u + [y], e);
      if e == d {
        var l := |WithStart(t, e)|;
        assert WithStart(t + [x], e) == WithStart(t, e) + [x];
        assert WithStart(u + [y], e) == WithStart(u, e) + [y];
        assert |WithStart(u, e)| == l;
        assert WithStart(t, e) == WithStart(t + [x], e)[..l];
        assert WithStart(u, e) == WithStart(u + [y], e)[..l];
      } else {
        assert WithStart(t + [x], e) == WithStart(t, e);
        assert WithStart(u + [y], e) == WithStart(u, e);
      }
    }
  }

  /** In a sequence sorted by start date, the last element has the latest
      start date. */
  lemma LastIsLatest(u: seq<Project>, x: Project)
    requires SortedByStart(u) && x in u
    ensures StartDate(x) <= StartDate(u[|u| - 1])
  {
    var i :| 0 <= i < |u| && u[i] == x;
  }

  /** Sequences that agree on every start date are empty together and, when
      sorted, end on the same start date. */
  lemma {:induction false} AgreeingEnds(t: seq<Project>, u: seq<Project>)
    requires forall d :: WithStart(t, d) == WithStart(u, d)
    ensures t == [] <==> u == []
    ensures t != [] && SortedByStart(t) && SortedByStart(u) ==>
              StartDate(t[|t| - 1]) == StartDate(u[|u| - 1])
  {
    if t != [] {
      var x := t[|t| - 1];
      WithStartMembers(t, StartDate(x), x);
      WithStartMembers(u, StartDate(x), x);
      assert WithStart(t, StartDate(x)) == WithStart(u, StartDate(x));
    }
    if u != [] {
      var y := u[|u| - 1];
      WithStartMembers(t, StartDate(y), y);
      WithStartMembers(u, StartDate(y), y);
      assert WithStart(t, StartDate(y)) == WithStart(u, StartDate(y));
      if t != [] && SortedByStart(t) && SortedByStart(u) {
        LastIsLatest(t, y);
        LastIsLatest(u, t[|t| - 1]);
      }
    }
  }

  /** Two sequences sorted by start date that agree on the order of the
      projects of every start date are equal. */
  lemma {:induction false} SortedGroupsDetermine(t: seq<Project>, u: seq<Project>)
    requires SortedByStart(t) && SortedByStart(u)
    requires forall d :: WithStart(t, d) == WithStart(u, d)
    ensures t == u
    decreases |t|
  {
    AgreeingEnds(t, u);
    if t != [] {
      var t', u' := t[..|t| - 1], u[..|u| - 1];
      assert t == t' + [t[|t| - 1]] && u == u' + [u[|u| - 1]];
      DropLastAgrees(t', t[|t| - 1], u', u[|u| - 1]);
      SortedDropLast(t);
      SortedDropLast(u);
      SortedGroupsDetermine(t', u');
    }
  }

  /** Dropping the last element keeps a sequence sorted by start date. */
  lemma SortedDropLast(s: seq<Project>)
    requires s != [] && SortedByStart(s)
    ensures SortedByStart(s[..|s| - 1])
  {
  }

  /** Any stable sort by start date gives exactly `SortByStart`: whatever
      sorting routine produces a sequence ordered by start date that keeps the
      input order among projects of equal start date produces this one. */
  lemma SortByStartUnique(s: seq<Project>, t: seq<Project>)
    requires SortedByStart(t)
    requires forall d :: WithStart(t, d) == WithStart(s, d)
    ensures t == SortByStart(s)
  {
    SortByStartSorted(s);
    forall d
      ensures WithStart(t, d) == WithStart(SortByStart(s), d)
    {
      SortByStartStable(s, d);
    }
    SortedGroupsDetermine(t, SortByStart(s));
  }

  /** Inserting `x` places it right after the longest prefix whose last
      element does not start later than `x`. */
  lemma {:induction false} InsertPosition(s: seq<Project>, x: Project, j: nat)
    requires j <= |s|
    requires j == 0 || StartDate(s[j - 1]) <= StartDate(x)
    requires forall k :: j <= k < |s| ==> StartDate(s[k]) > StartDate(x)
    ensures Insert(s, x) == s[..j] + [x] + s[j..]
    decreases |s|
  {
    if |s| > j {
      var init, last := s[..|s| - 1], s[|s| - 1];
      assert Insert(s, x) == Insert(init, x) + [last];
      InsertPosition(init, x, j);
      assert init[..j] == s[..j];
      assert s[j..] == init[j..] + [last];
    } else {
      assert s[..j] == s && s[j..] == [];
    }
  }

  /** Moves `a[i]` left past the trailing elements of `a[..i]` whose start
      date is later (all of them, when `a[..i]` is sorted), leaving the rest
      of the array alone. */
  method InsertAt(a: array<Project>, i: nat)
    requires i < a.Length
    modifies a
    ensures a[..i + 1] == Insert(old(a[..i]), old(a[i]))
    ensures a[i + 1..] == old(a[i + 1..])
  {
    ghost var prev := a[..];
    var x := a[i];
    var j := i;
    while j > 0 && StartDate(a[j - 1]) > StartDate(x)
      invariant 0 <= j <= i
      invariant forall k :: 0 <= k < j ==> a[k] == prev[k]
      invariant forall k :: j < k <= i ==> a[k] == prev[k - 1]
      invariant forall k :: i < k < a.Length ==> a[k] == prev[k]
      invariant forall k :: j <= k < i ==> StartDate(prev[k]) > StartDate(x)
    {
      a[j] := a[j - 1];
      j := j - 1;
    }
    a[j] := x;
    InsertPosition(prev[..i], x, j);
    ShiftedIsInserted(a[..], prev, prev[..i], x, i, j);
  }

  /** The array contents the insertion loop leaves: the prefix up to `j`, then
      `x`, then the rest of the old prefix shifted one place right, then the
      untouched suffix. */
  lemma ShiftedIsInserted(cur: seq<Project>, prev: seq<Project>, sorted: seq<Project>, x: Project, i: nat, j: nat)
    requires j <= i < |cur| == |prev| && |sorted| == i
    requires forall k :: 0 <= k < j ==> cur[k] == sorted[k]
    requires cur[j] == x
    requires forall k :: j < k <= i ==> cur[k] == sorted[k - 1]
    requires forall k :: i < k < |cur| ==> cur[k] == prev[k]
    ensures cur[..i + 1] == sorted[..j] + [x] + sorted[j..]
    ensures cur[i + 1..] == prev[i + 1..]
  {
    var inserted := sorted[..j] + [x] + sorted[j..];
    forall k | 0 <= k <= i
      ensures cur[k] == inserted[k]
    {
      if k < j {
        assert inserted[k] == sorted[k];
      } else if j < k {
        assert inserted[k] == sorted[k - 1];
      }
    }
  }

  /** One step of the in-place sort: inserting element `i` into a sorted
      prefix extends the sorted prefix by one and leaves the rest of the input
      alone. */
  lemma SortStep(input: seq<Project>, i: nat, before: seq<Project>, after: seq<Project>)
    requires i < |input| == |before| == |after|
    requires before[..i] == SortByStart(input[..i]) && before[i..] == input[i..]
    requires after[..i + 1] == Insert(before[..i], before[i])
    requires after[i + 1..] == before[i + 1..]
    ensures after[..i + 1] == SortByStart(input[..i + 1])
    ensures after[i + 1..] == input[i + 1..]
  {
    assert before[i] == input[i];
    assert input[..i + 1][..i] == input[..i];
  }

  /** The stable sort of the project list, in place, one insertion at a time. */
  method SortProjects(a: array<Project>)
    modifies a
    ensures a[..] == SortByStart(old(a[..]))
  {
    ghost var input := a[..];
    for i := 0 to a.Length
      invariant a[..i] == SortByStart(input[..i])
      invariant a[i..] == input[i..]
    {
      ghost var before := a[..];
      InsertAt(a, i);
      SortStep(input, i, before, a[..]);
    }
    assert input[..a.Length] == input;
  }
}
