/** Candidate selection and the mentoring check: the two read-only queries
    the scheduler makes for every role slot. */
module Selection {
  import opened Wrappers
  import opened Domain

  /** Every entry of `taken` is an index into the pool. */
  predicate InPool(pool: seq<Contributor>, taken: seq<nat>)
  {
    forall j :: 0 <= j < |taken| ==> taken[j] < |pool|
  }

  /** Pool entry `i` may fill a slot for `role` at `level` in a project that
      starts on `startDate`: it is not already on the team, it is free by then,
      and it holds the role at the level or above. */
  predicate Eligible(pool: seq<Contributor>, taken: seq<nat>, startDate: int, role: string, level: int, i: nat)
    requires i < |pool|
  {
    i !in taken && pool[i].available <= startDate && HasSkillAtLeast(pool[i], role, level)
  }

  /** No pool entry is eligible. */
  predicate NoneEligible(pool: seq<Contributor>, taken: seq<nat>, startDate: int, role: string, level: int)
  {
    forall i :: 0 <= i < |pool| ==> !Eligible(pool, taken, startDate, role, level, i)
  }

  /** Entry `k` is the best fit: eligible, of the lowest skill for `role` among
      all eligible entries, and the first in pool order among those of that
      lowest skill. */
  predicate BestFit(pool: seq<Contributor>, taken: seq<nat>, startDate: int, role: string, level: int, k: nat)
  {
    && k < |pool|
    && Eligible(pool, taken, startDate, role, level, k)
    && (forall i :: 0 <= i < |pool| && Eligible(pool, taken, startDate, role, level, i) ==>
          pool[k].skills[role] <= pool[i].skills[role])
    && (forall i :: 0 <= i < k && Eligible(pool, taken, startDate, role, level, i) ==>
          pool[k].skills[role] < pool[i].skills[role])
  }

  /** The contributor a full scan of `pool[..n]` holds at its end: the first
      eligible entry, replaced only by a later one of strictly lower skill.
      It is always an eligible entry of the scanned prefix. */
  function SelectUpTo(pool: seq<Contributor>, taken: seq<nat>, startDate: int, role: string, level: int, n: nat): (r: Option<nat>)
    requires n <= |pool|
    ensures r.Some? ==> r.value < n && Eligible(pool, taken, startDate, role, level, r.value)
    decreases n
  {
    if n == 0 then None
    else
      var best := SelectUpTo(pool, taken, startDate, role, level, n - 1);
      if Eligible(pool, taken, startDate, role, level, n - 1)
         && (best.None? || pool[n - 1].skills[role] < pool[best.value].skills[role])
      then Some(n - 1)
      else best
  }

  /** The contributor candidate selection picks for a slot. */
  function Select(pool: seq<Contributor>, taken: seq<nat>, startDate: int, role: string, level: int): Option<nat>
  {
    SelectUpTo(pool, taken, startDate, role, level, |pool|)
  }

  /** The scan of a prefix yields nothing exactly when nothing in the prefix is
      eligible, and otherwise the prefix's first entry of lowest skill. */
  lemma {:induction false} SelectUpToIsBestFit(pool: seq<Contributor>, taken: seq<nat>, startDate: int, role: string, level: int, n: nat)
    requires n <= |pool|
    ensures SelectUpTo(pool, taken, startDate, role, level, n).None? <==>
            forall i :: 0 <= i < n ==> !Eligible(pool, taken, startDate, role, level, i)
    ensures SelectUpTo(pool, taken, startDate, role, level, n).Some? ==>
            var k := SelectUpTo(pool, taken, startDate, role, level, n).value;
            && (forall i :: 0 <= i < n && Eligible(pool, taken, startDate, role, level, i) ==>
                  pool[k].skills[role] <= pool[i].skills[role])
            && (forall i :: 0 <= i < k && Eligible(pool, taken, startDate, role, level, i) ==>
                  pool[k].skills[role] < pool[i].skills[role])
  {
    if n > 0 {
      SelectUpToIsBestFit(pool, taken, startDate, role, level, n - 1);
    }
  }

  /** Selection returns None exactly when no contributor is eligible, and
      otherwise the best fit. */
  lemma SelectIsBestFit(pool: seq<Contributor>, taken: seq<nat>, startDate: int, role: string, level: int)
    ensures Select(pool, taken, startDate, role, level).None? <==> NoneEligible(pool, taken, startDate, role, level)
    ensures Select(pool, taken, startDate, role, level).Some? ==>
            BestFit(pool, taken, startDate, role, level, Select(pool, taken, startDate, role, level).value)
  {
    SelectUpToIsBestFit(pool, taken, startDate, role, level, |pool|);
  }

  /** The best fit is unique, so "first eligible entry of lowest skill" is a
      complete description of the selection. */
  lemma BestFitUnique(pool: seq<Contributor>, taken: seq<nat>, startDate: int, role: string, level: int, k: nat, k': nat)
    requires BestFit(pool, taken, startDate, role, level, k)
    requires BestFit(pool, taken, startDate, role, level, k')
    ensures k == k'
  {
  }

  /** Once the scan holds an entry whose skill equals the required level, no
      later entry can replace it (every eligible skill is at least the level),
      so stopping the scan there does not change the result. */
  lemma {:induction false} SelectExactStays(pool: seq<Contributor>, taken: seq<nat>, startDate: int, role: string, level: int, n: nat, m: nat)
    requires n <= m <= |pool|
    requires SelectUpTo(pool, taken, startDate, role, level, n).Some?
    requires pool[SelectUpTo(pool, taken, startDate, role, level, n).value].skills[role] == level
    ensures SelectUpTo(pool, taken, startDate, role, level, m) == SelectUpTo(pool, taken, startDate, role, level, n)
    decreases m
  {
    if m > n {
      SelectExactStays(pool, taken, startDate, role, level, n, m - 1);
    }
  }

  /** Candidate selection: scan the pool in order, keep the eligible entry of
      lowest skill seen so far (ties keep the earlier one), and stop early at
      an entry whose skill is exactly the required level. */
  method GetAvailableContributor(pool: array<Contributor>, taken: seq<nat>, startDate: int, role: string, level: int)
    returns (selected: Option<nat>)
    ensures selected == Select(pool[..], taken, startDate, role, level)
    ensures selected.None? <==> NoneEligible(pool[..], taken, startDate, role, level)
    ensures selected.Some? ==> BestFit(pool[..], taken, startDate, role, level, selected.value)
  {
    selected := None;
    for i := 0 to pool.Length
      invariant selected == SelectUpTo(pool[..], taken, startDate, role, level, i)
    {
      var contributor := pool[i];
      if i !in taken && contributor.available <= startDate && role in contributor.skills && level <= contributor.skills[role] {
        if selected.None? || contributor.skills[role] < pool[selected.value].skills[role] {
          selected := Some(i);
        }
        if pool[selected.value].skills[role] == level {
          SelectExactStays(pool[..], taken, startDate, role, level, i + 1, pool.Length);
          SelectIsBestFit(pool[..], taken, startDate, role, level);
          return;
        }
      }
    }
    SelectIsBestFit(pool[..], taken, startDate, role, level);
  }

  /** The mentoring check: some contributor already on the team holds `role`
      at `level` or above. Scans `taken` in order. */
  function CanBeMentored(pool: seq<Contributor>, role: string, level: int, taken: seq<nat>): (b: bool)
    requires InPool(pool, taken)
    ensures b <==> exists j :: 0 <= j < |taken| && HasSkillAtLeast(pool[taken[j]], role, level)
  {
    if taken == [] then false
    else HasSkillAtLeast(pool[taken[0]], role, level) || CanBeMentored(pool, role, level, taken[1..])
  }
}
