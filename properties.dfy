/** What the scheduler guarantees: about one project's role loop, about one
    commit, and about a whole run. */
module SchedulerProperties {
  import opened Wrappers
  import opened Domain
  import opened Selection
  import opened Scheduler

  /** No pool index appears twice. */
  predicate Distinct(team: seq<nat>)
  {
    forall i, j :: 0 <= i < j < |team| ==> team[i] != team[j]
  }

  /** Slot `r` goes to `c` when `before` is already on the team. */
  predicate Fills(pool: seq<Contributor>, before: seq<nat>, startDate: int, r: Role, c: nat)
  {
    InPool(pool, before) && Pick(pool, before, startDate, r) == Some(c)
  }

  /** The role loop gives slot `k` to the contributor selection picks given
      the team of slots `0..k-1`, and stops only at a slot selection cannot
      fill. */
  lemma {:induction false} TakenFillsInOrder(pool: seq<Contributor>, startDate: int, roles: seq<Role>)
    ensures var t := Taken(pool, startDate, roles);
            && (forall k :: 0 <= k < |t| ==> Fills(pool, t[..k], startDate, roles[k], t[k]))
            && (|t| < |roles| ==> Pick(pool, t, startDate, roles[|t|]).None?)
  {
    TakenFillsSlots(pool, startDate, roles);
    TakenStopsAtMiss(pool, startDate, roles);
  }

  /** Slot `k` of the team goes to the contributor picked given slots
      `0..k-1`. */
  lemma {:induction false} TakenFillsSlots(pool: seq<Contributor>, startDate: int, roles: seq<Role>)
    ensures var t := Taken(pool, startDate, roles);
            forall k :: 0 <= k < |t| ==> Fills(pool, t[..k], startDate, roles[k], t[k])
    decreases |roles|
  {
    if roles != [] {
      var n := |roles|;
      var init := roles[..n - 1];
      TakenFillsSlots(pool, startDate, init);
      var t' := Taken(pool, startDate, init);
      var t := Taken(pool, startDate, roles);
      assert init + [roles[n - 1]] == roles;
      if |t'| < n - 1 || Pick(pool, t', startDate, roles[n - 1]).None? {
        assert t == t';
        FillsSameRoles(pool, startDate, init, roles, t);
      } else {
        var c := Pick(pool, t', startDate, roles[n - 1]).value;
        assert t == t' + [c];
        FillsExtend(pool, startDate, init, roles[n - 1], t', c);
      }
    }
  }

  /** The role loop stops only at a slot for which nothing is picked. */
  lemma {:induction false} TakenStopsAtMiss(pool: seq<Contributor>, startDate: int, roles: seq<Role>)
    ensures var t := Taken(pool, startDate, roles);
            |t| < |roles| ==> Pick(pool, t, startDate, roles[|t|]).None?
    decreases |roles|
  {
    if roles != [] {
      var n := |roles|;
      var init := roles[..n - 1];
      TakenStopsAtMiss(pool, startDate, init);
      var t' := Taken(pool, startDate, init);
      assert roles[..n - 1] == init;
      if |t'| < n - 1 {
        assert roles[|t'|] == init[|t'|];
      }
    }
  }

  /** A team that fills a roster's slots in order fills the same slots of any
      longer roster in order. */
  lemma FillsSameRoles(pool: seq<Contributor>, startDate: int, init: seq<Role>, roles: seq<Role>, t: seq<nat>)
    requires |t| <= |init| <= |roles| && init == roles[..|init|]
    requires forall k :: 0 <= k < |t| ==> Fills(pool, t[..k], startDate, init[k], t[k])
    ensures forall k :: 0 <= k < |t| ==> Fills(pool, t[..k], startDate, roles[k], t[k])
  {
    forall k | 0 <= k < |t|
      ensures Fills(pool, t[..k], startDate, roles[k], t[k])
    {
      assert init[k] == roles[k];
    }
  }

  /** Appending slot `r`, filled by `c`, to a team that fills `init` in order
      gives a team that fills `init + [r]` in order. */
  lemma FillsExtend(pool: seq<Contributor>, startDate: int, init: seq<Role>, r: Role, t': seq<nat>, c: nat)
    requires |t'| == |init|
    requires forall k :: 0 <= k < |t'| ==> Fills(pool, t'[..k], startDate, init[k], t'[k])
    requires Fills(pool, t', startDate, r, c)
    ensures var t, roles := t' + [c], init + [r];
            forall k :: 0 <= k < |t| ==> Fills(pool, t[..k], startDate, roles[k], t[k])
  {
    var t, roles := t' + [c], init + [r];
    forall k | 0 <= k < |t|
      ensures Fills(pool, t[..k], startDate, roles[k], t[k])
    {
      if k < |t'| {
        assert t[..k] == t'[..k];
      } else {
        assert t[..k] == t';
      }
    }
  }

  /** Every slot the role loop fills goes to a contributor who is new to the
      team, free by the start date and holds the role at the slot's level, or
      one below it; the team has no repeats; and when the loop stops early,
      nobody at all was eligible for the slot it stopped at. */
  lemma {:induction false} TakenEligible(pool: seq<Contributor>, startDate: int, roles: seq<Role>)
    ensures var t := Taken(pool, startDate, roles);
            && Distinct(t)
            && (forall k :: 0 <= k < |t| ==>
                  && BestFit(pool, t[..k], startDate, roles[k].name, EffectiveLevel(pool, t[..k], roles[k]), t[k])
                  && pool[t[k]].available <= startDate
                  && HasSkillAtLeast(pool[t[k]], roles[k].name, roles[k].level - 1))
            && (|t| < |roles| ==> NoneEligible(pool, t, startDate, roles[|t|].name, EffectiveLevel(pool, t, roles[|t|])))
  {
    var t := Taken(pool, startDate, roles);
    TakenFillsInOrder(pool, startDate, roles);
    forall k | 0 <= k < |t|
      ensures BestFit(pool, t[..k], startDate, roles[k].name, EffectiveLevel(pool, t[..k], roles[k]), t[k])
      ensures t[k] !in t[..k]
    {
      SelectIsBestFit(pool, t[..k], startDate, roles[k].name, EffectiveLevel(pool, t[..k], roles[k]));
    }
    forall i, j | 0 <= i < j < |t|
      ensures t[i] != t[j]
    {
      assert t[i] == t[..j][i];
    }
    if |t| < |roles| {
      SelectIsBestFit(pool, t, startDate, roles[|t|].name, EffectiveLevel(pool, t, roles[|t|]));
    }
  }

  /** The team has no repeats, and every member is free by the start date. */
  lemma TakenDistinctAndFree(pool: seq<Contributor>, startDate: int, roles: seq<Role>)
    ensures var t := Taken(pool, startDate, roles);
            && Distinct(t)
            && forall k :: 0 <= k < |t| ==> pool[t[k]].available <= startDate
  {
    TakenEligible(pool, startDate, roles);
  }

  /** Mentoring is sound: a slot filled by someone below the slot's level has
      an earlier teammate holding the role at that level, and the relaxation
      is never more than one level. */
  lemma TakenMentoring(pool: seq<Contributor>, startDate: int, roles: seq<Role>, k: nat)
    requires k < |Taken(pool, startDate, roles)|
    ensures var t := Taken(pool, startDate, roles);
            && roles[k].name in pool[t[k]].skills
            && pool[t[k]].skills[roles[k].name] >= roles[k].level - 1
            && (pool[t[k]].skills[roles[k].name] < roles[k].level ==>
                  exists j :: 0 <= j < k && HasSkillAtLeast(pool[t[j]], roles[k].name, roles[k].level))
  {
    var t := Taken(pool, startDate, roles);
    TakenFillsInOrder(pool, startDate, roles);
    FillsMentoring(pool, t[..k], startDate, roles[k], t[k]);
    if pool[t[k]].skills[roles[k].name] < roles[k].level {
      var j :| 0 <= j < k && HasSkillAtLeast(pool[t[..k][j]], roles[k].name, roles[k].level);
      assert t[..k][j] == t[j];
    }
  }

  /** The contributor picked for a slot holds its role at the slot's level or
      one below, and one below only when a teammate could mentor. */
  lemma FillsMentoring(pool: seq<Contributor>, before: seq<nat>, startDate: int, r: Role, c: nat)
    requires Fills(pool, before, startDate, r, c)
    ensures c < |pool| && r.name in pool[c].skills && pool[c].skills[r.name] >= r.level - 1
    ensures pool[c].skills[r.name] < r.level ==> CanBeMentored(pool, r.name, r.level, before)
  {
  }

  /** `after` is `before` having worked in slot `r` of a project due on
      `bestBefore`: same name and set of skills, busy until the deadline, the
      slot's skill up by exactly one when it was at most the slot's level and
      unchanged otherwise, every other skill unchanged. */
  predicate Trained(before: Contributor, after: Contributor, r: Role, bestBefore: int)
  {
    && after.name == before.name
    && after.available == bestBefore
    && after.skills.Keys == before.skills.Keys
    && (forall role :: role in before.skills && role != r.name ==> after.skills[role] == before.skills[role])
    && (r.name in before.skills ==>
          if before.skills[r.name] <= r.level then after.skills[r.name] == before.skills[r.name] + 1
          else after.skills[r.name] == before.skills[r.name])
  }

  /** `Train` trains a contributor for the slot. */
  lemma TrainIsTrained(c: Contributor, r: Role, bestBefore: int)
    ensures Trained(c, Train(c, r, bestBefore), r, bestBefore)
  {
  }

  /** Training member `k - 1` of a team of distinct contributors, when
      members `0..k-2` are already trained and everyone else is as in `pool`,
      gives a pool in which members `0..k-1` are trained and everyone else is
      as in `pool`. */
  lemma CommitOneMore(pool: seq<Contributor>, prev: seq<Contributor>, team: seq<nat>, roles: seq<Role>, bestBefore: int, k: nat)
    requires 0 < k <= |team| && k <= |roles| && InPool(pool, team) && Distinct(team) && |prev| == |pool|
    requires forall m :: 0 <= m < k - 1 ==> Trained(pool[team[m]], prev[team[m]], roles[m], bestBefore)
    requires forall i :: 0 <= i < |pool| && i !in team[..k - 1] ==> prev[i] == pool[i]
    ensures var r := prev[team[k - 1] := Train(prev[team[k - 1]], roles[k - 1], bestBefore)];
            && (forall m :: 0 <= m < k ==> Trained(pool[team[m]], r[team[m]], roles[m], bestBefore))
            && (forall i :: 0 <= i < |pool| && i !in team[..k] ==> r[i] == pool[i])
  {
    var x := team[k - 1];
    var r := prev[x := Train(prev[x], roles[k - 1], bestBefore)];
    assert x !in team[..k - 1];
    TrainIsTrained(pool[x], roles[k - 1], bestBefore);
    forall m | 0 <= m < k - 1
      ensures r[team[m]] == prev[team[m]]
    {
      assert team[m] != x;
    }
    assert team[..k] == team[..k - 1] + [x];
  }

  /** Committing a team of distinct contributors trains each member for its
      own slot, and touches nobody outside the team. */
  lemma {:induction false} CommitUpToEffect(pool: seq<Contributor>, team: seq<nat>, roles: seq<Role>, bestBefore: int, k: nat)
    requires k <= |team| && k <= |roles| && InPool(pool, team) && Distinct(team)
    ensures var r := CommitUpTo(pool, team, roles, bestBefore, k);
            && (forall m :: 0 <= m < k ==> Trained(pool[team[m]], r[team[m]], roles[m], bestBefore))
            && (forall i :: 0 <= i < |pool| && i !in team[..k] ==> r[i] == pool[i])
    decreases k
  {
    if k > 0 {
      CommitUpToEffect(pool, team, roles, bestBefore, k - 1);
      CommitOneMore(pool, CommitUpTo(pool, team, roles, bestBefore, k - 1), team, roles, bestBefore, k);
    }
  }

  /** All-or-nothing: a project whose role loop stopped early changes neither
      the pool nor the solution, and the slot it stopped at had no eligible
      contributor. */
  lemma StepSkips(s: State, p: Project)
    requires |Taken(s.pool, StartDate(p), p.roles)| < |p.roles|
    ensures Step(s, p) == s
    ensures var t := Taken(s.pool, StartDate(p), p.roles);
            NoneEligible(s.pool, t, StartDate(p), p.roles[|t|].name, EffectiveLevel(s.pool, t, p.roles[|t|]))
  {
    TakenEligible(s.pool, StartDate(p), p.roles);
  }

  /** The pool after a commit: the same contributors under the same names,
      each member trained for its slot, nobody else changed; when every
      member was free by the deadline, nobody's availability moves back. */
  lemma CommitEffect(pool: seq<Contributor>, p: Project, t: seq<nat>)
    requires |t| == |p.roles| && InPool(pool, t) && Distinct(t)
    ensures var r := Commit(pool, p, t);
            && |r| == |pool|
            && (forall k :: 0 <= k < |t| ==> Trained(pool[t[k]], r[t[k]], p.roles[k], p.bestBefore))
            && (forall i :: 0 <= i < |pool| && i !in t ==> r[i] == pool[i])
            && (forall i :: 0 <= i < |pool| ==> r[i].name == pool[i].name)
            && ((forall k :: 0 <= k < |t| ==> pool[t[k]].available <= p.bestBefore) ==>
                  forall i :: 0 <= i < |pool| ==> r[i].available >= pool[i].available)
  {
    var r := Commit(pool, p, t);
    CommitUpToEffect(pool, t, p.roles, p.bestBefore, |t|);
    assert t[..|t|] == t;
    forall i | 0 <= i < |pool| && i in t
      ensures r[i].name == pool[i].name
      ensures (forall k :: 0 <= k < |t| ==> pool[t[k]].available <= p.bestBefore) ==> r[i].available >= pool[i].available
    {
      var k :| 0 <= k < |t| && t[k] == i;
      assert Trained(pool[t[k]], r[t[k]], p.roles[k], p.bestBefore);
    }
  }

  /** A project whose every slot was filled appends one record naming its
      team in slot order; each member becomes busy until the deadline and is
      trained for its slot; nobody else changes. */
  lemma StepCommits(s: State, p: Project)
    requires |Taken(s.pool, StartDate(p), p.roles)| == |p.roles|
    ensures var t := Taken(s.pool, StartDate(p), p.roles);
            var s' := Step(s, p);
            && |s'.pool| == |s.pool|
            && s'.solution == s.solution + [FilledProject(p.name, Names(s.pool, t))]
            && (forall k :: 0 <= k < |t| ==> Trained(s.pool[t[k]], s'.pool[t[k]], p.roles[k], p.bestBefore))
            && (forall i :: 0 <= i < |s.pool| && i !in t ==> s'.pool[i] == s.pool[i])
  {
    var t := Taken(s.pool, StartDate(p), p.roles);
    TakenDistinctAndFree(s.pool, StartDate(p), p.roles);
    CommitEffect(s.pool, p, t);
    NamesKept(s.pool, Commit(s.pool, p, t), t);
  }

  /** A team's names are the same in two pools that agree on every name. */
  lemma NamesKept(pool: seq<Contributor>, pool': seq<Contributor>, team: seq<nat>)
    requires |pool'| == |pool| && InPool(pool, team)
    requires forall i :: 0 <= i < |pool| ==> pool'[i].name == pool[i].name
    ensures Names(pool', team) == Names(pool, team)
  {
  }

  /** With names unique in the pool, a committed record names pairwise
      distinct contributors, one per slot, and names stay unique. */
  lemma StepRoster(s: State, p: Project)
    requires UniqueNames(s.pool)
    requires |Taken(s.pool, StartDate(p), p.roles)| == |p.roles|
    ensures var s' := Step(s, p);
            var names := s'.solution[|s'.solution| - 1].contributors;
            && |s'.solution| == |s.solution| + 1
            && |names| == |p.roles|
            && (forall i, j :: 0 <= i < j < |names| ==> names[i] != names[j])
            && UniqueNames(s'.pool)
  {
    var t := Taken(s.pool, StartDate(p), p.roles);
    TakenDistinctAndFree(s.pool, StartDate(p), p.roles);
    CommitEffect(s.pool, p, t);
    StepCommits(s, p);
    DistinctNames(s.pool, t);
  }

  /** With names unique in the pool, a team without repeats has pairwise
      distinct names. */
  lemma DistinctNames(pool: seq<Contributor>, team: seq<nat>)
    requires UniqueNames(pool) && InPool(pool, team) && Distinct(team)
    ensures var names := Names(pool, team);
            forall i, j :: 0 <= i < j < |names| ==> names[i] != names[j]
  {
    var names := Names(pool, team);
    forall i, j | 0 <= i < j < |names|
      ensures names[i] != names[j]
    {
      assert team[i] != team[j];
    }
  }

  /** Availability never moves backwards for a project of non-negative
      length: every member was free by the start date, which is not after the
      deadline. */
  lemma StepAvailabilityMonotone(s: State, p: Project)
    requires p.length >= 0
    ensures var s' := Step(s, p);
            && |s'.pool| == |s.pool|
            && forall i :: 0 <= i < |s.pool| ==> s'.pool[i].available >= s.pool[i].available
  {
    var t := Taken(s.pool, StartDate(p), p.roles);
    if |t| == |p.roles| {
      TakenDistinctAndFree(s.pool, StartDate(p), p.roles);
      CommitEffect(s.pool, p, t);
    }
  }

  /** `after` holds the same skills as `before`, none lower and none more
      than one higher. */
  predicate SkillsGrowByAtMostOne(before: Contributor, after: Contributor)
  {
    && after.skills.Keys == before.skills.Keys
    && forall role :: role in before.skills ==>
         before.skills[role] <= after.skills[role] <= before.skills[role] + 1
  }

  lemma TrainedGrowsByAtMostOne(before: Contributor, after: Contributor, r: Role, bestBefore: int)
    requires Trained(before, after, r, bestBefore)
    ensures SkillsGrowByAtMostOne(before, after)
  {
  }

  /** Skills only grow, by at most one per project, and no skill is gained
      or lost. */
  lemma StepSkillsMonotone(s: State, p: Project)
    ensures var s' := Step(s, p);
            && |s'.pool| == |s.pool|
            && forall i :: 0 <= i < |s.pool| ==> SkillsGrowByAtMostOne(s.pool[i], s'.pool[i])
  {
    var t := Taken(s.pool, StartDate(p), p.roles);
    if |t| == |p.roles| {
      TakenDistinctAndFree(s.pool, StartDate(p), p.roles);
      CommitEffect(s.pool, p, t);
      var s' := Step(s, p);
      forall i | 0 <= i < |s.pool|
        ensures SkillsGrowByAtMostOne(s.pool[i], s'.pool[i])
      {
        if i in t {
          var k :| 0 <= k < |t| && t[k] == i;
          TrainedGrowsByAtMostOne(s.pool[t[k]], s'.pool[t[k]], p.roles[k], p.bestBefore);
        }
      }
    }
  }

  /** The positions in `ps` of the projects a run commits, in visiting order. */
  ghost function Committed(pool: seq<Contributor>, ps: seq<Project>): seq<nat>
    decreases |ps|
  {
    if ps == [] then []
    else
      var n := |ps|;
      var before := Run(pool, ps[..n - 1]);
      var idx := Committed(pool, ps[..n - 1]);
      if |Taken(before.pool, StartDate(ps[n - 1]), ps[n - 1].roles)| == |ps[n - 1].roles| then idx + [n - 1] else idx
  }

  /** Project `j` of `ps` is committed: every slot is filled in the state the
      run has reached when it visits `j`. */
  ghost predicate Staffed(pool: seq<Contributor>, ps: seq<Project>, j: nat)
    requires j < |ps|
  {
    var before := Run(pool, ps[..j]);
    |Taken(before.pool, StartDate(ps[j]), ps[j].roles)| == |ps[j].roles|
  }

  /** A run keeps the pool's size and every contributor's name. */
  lemma {:induction false} RunKeepsNames(pool: seq<Contributor>, ps: seq<Project>)
    ensures var s := Run(pool, ps);
            && |s.pool| == |pool|
            && forall i :: 0 <= i < |pool| ==> s.pool[i].name == pool[i].name
    decreases |ps|
  {
    if ps != [] {
      var n := |ps|;
      RunKeepsNames(pool, ps[..n - 1]);
      var before := Run(pool, ps[..n - 1]);
      var t := Taken(before.pool, StartDate(ps[n - 1]), ps[n - 1].roles);
      if |t| == |ps[n - 1].roles| {
        TakenDistinctAndFree(before.pool, StartDate(ps[n - 1]), ps[n - 1].roles);
        CommitEffect(before.pool, ps[n - 1], t);
      }
    }
  }

  /** Record `k` of a run is that of project `idx[k]`: its name and one
      contributor per slot. */
  predicate RecordOf(solution: seq<FilledProject>, ps: seq<Project>, idx: seq<nat>, k: nat)
    requires k < |solution| && k < |idx|
  {
    idx[k] < |ps| && solution[k].name == ps[idx[k]].name && |solution[k].contributors| == |ps[idx[k]].roles|
  }

  /** `solution` holds one record per project index of `idx`, in order: the
      indices strictly increase, and record `k` is that of project `idx[k]`. */
  predicate RecordsOf(solution: seq<FilledProject>, ps: seq<Project>, idx: seq<nat>)
  {
    && |solution| == |idx|
    && (forall k :: 0 <= k < |idx| ==> RecordOf(solution, ps, idx, k))
    && (forall k, m :: 0 <= k < m < |idx| ==> idx[k] < idx[m] < |ps|)
  }

  /** The records of a run over `init`, extended by the record of project
      `|init|` of `ps` or by nothing, are the records of the run over `ps`. */
  lemma RecordsGrow(sol: seq<FilledProject>, sol': seq<FilledProject>, init: seq<Project>, ps: seq<Project>, idx: seq<nat>, idx': seq<nat>)
    requires |ps| > 0 && init == ps[..|ps| - 1] && RecordsOf(sol, init, idx)
    requires || (sol' == sol && idx' == idx)
             || (&& idx' == idx + [|init|] && |sol'| == |sol| + 1 && sol'[..|sol|] == sol
                 && sol'[|sol|].name == ps[|init|].name
                 && |sol'[|sol|].contributors| == |ps[|init|].roles|)
    ensures RecordsOf(sol', ps, idx')
  {
    forall k | 0 <= k < |idx'|
      ensures RecordOf(sol', ps, idx', k)
    {
      if k < |idx| {
        assert RecordOf(sol, init, idx, k);
        assert idx'[k] == idx[k] && sol'[k] == sol[k];
        assert init[idx[k]] == ps[idx[k]];
      }
    }
    forall k | 0 <= k < |idx|
      ensures idx[k] < |init|
    {
      assert RecordOf(sol, init, idx, k);
    }
  }

  /** A run's output: one record per committed project, in visiting order,
      each carrying its project's name and one contributor per slot. */
  lemma {:induction false} RunRecords(pool: seq<Contributor>, ps: seq<Project>)
    ensures RecordsOf(Run(pool, ps).solution, ps, Committed(pool, ps))
    decreases |ps|
  {
    if ps != [] {
      var n := |ps|;
      var init := ps[..n - 1];
      RunRecords(pool, init);
      var before, last := Run(pool, init), ps[n - 1];
      var s, idx, idx' := Run(pool, ps), Committed(pool, ps), Committed(pool, init);
      assert s == Step(before, last);
      var t := Taken(before.pool, StartDate(last), last.roles);
      if |t| == |last.roles| {
        assert idx == idx' + [n - 1];
        StepCommits(before, last);
        var record := s.solution[|before.solution|];
        assert s.solution[..|before.solution|] == before.solution;
        assert record.name == last.name && |record.contributors| == |t|;
        RecordsGrow(before.solution, s.solution, init, ps, idx', idx);
      } else {
        assert idx == idx' && s == before;
        RecordsGrow(before.solution, s.solution, init, ps, idx', idx);
      }
    }
  }

  /** A run commits project `j` exactly when all its slots can be filled in
      the state the run has reached when it visits `j`. */
  lemma {:induction false} RunCommitsStaffed(pool: seq<Contributor>, ps: seq<Project>, j: nat)
    requires j < |ps|
    ensures j in Committed(pool, ps) <==> Staffed(pool, ps, j)
    decreases |ps|
  {
    var init := ps[..|ps| - 1];
    CommittedStep(pool, ps);
    if j < |ps| - 1 {
      RunCommitsStaffed(pool, init, j);
      StaffedInPrefix(pool, ps, j);
    } else {
      NotYetCommitted(pool, init);
    }
  }

  /** The projects a run commits: those of the run over all but the last
      project, and the last one when it is staffed. */
  lemma CommittedStep(pool: seq<Contributor>, ps: seq<Project>)
    requires ps != []
    ensures Committed(pool, ps) ==
              Committed(pool, ps[..|ps| - 1]) + (if Staffed(pool, ps, |ps| - 1) then [|ps| - 1] else [])
  {
  }

  /** Whether a project is staffed does not depend on the projects after it. */
  lemma StaffedInPrefix(pool: seq<Contributor>, ps: seq<Project>, j: nat)
    requires j < |ps| - 1
    ensures Staffed(pool, ps, j) == Staffed(pool, ps[..|ps| - 1], j)
  {
    assert ps[..|ps| - 1][..j] == ps[..j];
  }

  /** A run over `ps` commits no project at index `|ps|` or beyond. */
  lemma NotYetCommitted(pool: seq<Contributor>, ps: seq<Project>)
    ensures |ps| !in Committed(pool, ps)
  {
    var idx := Committed(pool, ps);
    RunRecords(pool, ps);
    forall k | 0 <= k < |idx|
      ensures idx[k] != |ps|
    {
      assert RecordOf(Run(pool, ps).solution, ps, idx, k);
    }
  }

  /** Every record of `solution` names pairwise distinct contributors. */
  predicate RostersDistinct(solution: seq<FilledProject>)
  {
    forall k :: 0 <= k < |solution| ==>
      forall i, j :: 0 <= i < j < |solution[k].contributors| ==>
        solution[k].contributors[i] != solution[k].contributors[j]
  }

  /** One project keeps names unique and every record's names distinct. */
  lemma StepRostersDistinct(s: State, p: Project)
    requires UniqueNames(s.pool) && RostersDistinct(s.solution)
    ensures UniqueNames(Step(s, p).pool) && RostersDistinct(Step(s, p).solution)
  {
    if |Taken(s.pool, StartDate(p), p.roles)| == |p.roles| {
      StepRoster(s, p);
      StepCommits(s, p);
    }
  }

  /** With names unique in the initial pool, every record of a run names
      pairwise distinct contributors. */
  lemma {:induction false} RunRostersDistinct(pool: seq<Contributor>, ps: seq<Project>)
    requires UniqueNames(pool)
    ensures UniqueNames(Run(pool, ps).pool) && RostersDistinct(Run(pool, ps).solution)
    decreases |ps|
  {
    if ps != [] {
      RunRostersDistinct(pool, ps[..|ps| - 1]);
      StepRostersDistinct(Run(pool, ps[..|ps| - 1]), ps[|ps| - 1]);
    }
  }

  /** Over a run of projects of non-negative length, no contributor's
      availability moves backwards and no skill shrinks or disappears. */
  lemma {:induction false} RunMonotone(pool: seq<Contributor>, ps: seq<Project>)
    requires forall j :: 0 <= j < |ps| ==> ps[j].length >= 0
    ensures var s := Run(pool, ps);
            && |s.pool| == |pool|
            && forall i :: 0 <= i < |pool| ==>
                 && s.pool[i].available >= pool[i].available
                 && s.pool[i].skills.Keys == pool[i].skills.Keys
                 && forall role :: role in pool[i].skills ==> s.pool[i].skills[role] >= pool[i].skills[role]
    decreases |ps|
  {
    if ps != [] {
      var n := |ps|;
      RunMonotone(pool, ps[..n - 1]);
      var before := Run(pool, ps[..n - 1]);
      StepAvailabilityMonotone(before, ps[n - 1]);
      StepSkillsMonotone(before, ps[n - 1]);
    }
  }
}
