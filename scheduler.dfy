/** The greedy scheduler: visit projects by start date, fill each project's
    roles in order (with the one-level mentoring relaxation), and commit a
    project's roster only when every role was filled. */
module Scheduler {
  import opened Wrappers
  import opened Domain
  import opened Selection
  import opened Ordering

  /** The level a slot asks of candidates: one below the role's level when a
      teammate already on the project holds the role at that level. */
  function EffectiveLevel(pool: seq<Contributor>, taken: seq<nat>, r: Role): int
    requires InPool(pool, taken)
  {
    if CanBeMentored(pool, r.name, r.level, taken) then r.level - 1 else r.level
  }

  /** The contributor chosen for slot `r` when `taken` is already on the team. */
  function Pick(pool: seq<Contributor>, taken: seq<nat>, startDate: int, r: Role): Option<nat>
    requires InPool(pool, taken)
  {
    Select(pool, taken, startDate, r.name, EffectiveLevel(pool, taken, r))
  }

  /** The team the role loop builds for a project starting on `startDate`
      whose roster is `roles`: slots are filled in order, and the loop stops
      at the first slot nobody can fill. A team shorter than `roles` is a
      project that cannot be staffed. */
  function Taken(pool: seq<Contributor>, startDate: int, roles: seq<Role>): (t: seq<nat>)
    ensures |t| <= |roles|
    ensures InPool(pool, t)
    decreases |roles|
  {
    if roles == [] then []
    else
      var n := |roles|;
      var t := Taken(pool, startDate, roles[..n - 1]);
      if |t| < n - 1 then t
      else match Pick(pool, t, startDate, roles[n - 1])
        case None => t
        case Some(c) => t + [c]
  }

  /** A contributor after working in slot `r` of a project due on
      `bestBefore`: busy until the deadline, and one level better at the role
      when not above the slot's (unrelaxed) level before. */
  function Train(c: Contributor, r: Role, bestBefore: int): Contributor
  {
    var skills :=
      if r.name in c.skills && c.skills[r.name] <= r.level then c.skills[r.name := c.skills[r.name] + 1]
      else c.skills;
    c.(available := bestBefore, skills := skills)
  }

  /** The pool after training the first `k` team members, in slot order. */
  function CommitUpTo(pool: seq<Contributor>, team: seq<nat>, roles: seq<Role>, bestBefore: int, k: nat): (r: seq<Contributor>)
    requires k <= |team| && k <= |roles| && InPool(pool, team)
    ensures |r| == |pool|
  {
    if k == 0 then pool
    else
      var prev := CommitUpTo(pool, team, roles, bestBefore, k - 1);
      prev[team[k - 1] := Train(prev[team[k - 1]], roles[k - 1], bestBefore)]
  }

  /** The pool after a full team commits to project `p`. */
  function Commit(pool: seq<Contributor>, p: Project, team: seq<nat>): seq<Contributor>
    requires |team| == |p.roles| && InPool(pool, team)
  {
    CommitUpTo(pool, team, p.roles, p.bestBefore, |team|)
  }

  /** The names of the team members, in slot order. */
  function Names(pool: seq<Contributor>, team: seq<nat>): seq<string>
    requires InPool(pool, team)
  {
    seq(|team|, k requires 0 <= k < |team| => pool[team[k]].name)
  }

  /** The scheduler's state between projects. */
  datatype State = State(pool: seq<Contributor>, solution: seq<FilledProject>)

  /** One project: staff it and commit, or leave everything as it was. */
  function Step(s: State, p: Project): State
  {
    var team := Taken(s.pool, StartDate(p), p.roles);
    if |team| == |p.roles| then
      var pool' := Commit(s.pool, p, team);
      State(pool', s.solution + [FilledProject(p.name, Names(pool', team))])
    else s
  }

  /** The scheduler's state after visiting `ps` in order from `pool` and an
      empty solution. */
  function Run(pool: seq<Contributor>, ps: seq<Project>): State
    decreases |ps|
  {
    if ps == [] then State(pool, [])
    else Step(Run(pool, ps[..|ps| - 1]), ps[|ps| - 1])
  }

  /** One more slot of the role loop, when every earlier slot was filled:
      the team grows by the contributor picked for it, or stays as it is. */
  lemma TakenExtends(pool: seq<Contributor>, startDate: int, roles: seq<Role>, k: nat)
    requires k < |roles|
    requires |Taken(pool, startDate, roles[..k])| == k
    ensures var t := Taken(pool, startDate, roles[..k]);
            Taken(pool, startDate, roles[..k + 1]) ==
              match Pick(pool, t, startDate, roles[k])
              case None => t
              case Some(c) => t + [c]
  {
    assert roles[..k + 1][..k] == roles[..k];
    assert roles[..k + 1][k] == roles[k];
  }

  /** After the first slot nobody can fill, the team stays as it is. */
  lemma TakenStaysAfterMiss(pool: seq<Contributor>, startDate: int, roles: seq<Role>, k: nat, m: nat)
    requires k < m <= |roles|
    requires |Taken(pool, startDate, roles[..k])| == k
    requires Pick(pool, Taken(pool, startDate, roles[..k]), startDate, roles[k]).None?
    ensures Taken(pool, startDate, roles[..m]) == Taken(pool, startDate, roles[..k])
  {
    TakenExtends(pool, startDate, roles, k);
    TakenShortStays(pool, startDate, roles, k + 1, m);
  }

  /** Once the team is short of the slots tried so far, later slots leave it
      as it is. */
  lemma {:induction false} TakenShortStays(pool: seq<Contributor>, startDate: int, roles: seq<Role>, k: nat, m: nat)
    requires 0 < k <= m <= |roles|
    requires |Taken(pool, startDate, roles[..k])| < k
    ensures Taken(pool, startDate, roles[..m]) == Taken(pool, startDate, roles[..k])
    decreases m
  {
    if m > k {
      TakenShortStays(pool, startDate, roles, k, m - 1);
      assert roles[..m][..m - 1] == roles[..m - 1];
    }
  }

  /** The role loop: fill the project's slots in order, relaxing a slot's
      level by one when a teammate already taken could mentor, and stop at the
      first slot for which no contributor is found. */
  method FillRoles(pool: array<Contributor>, project: Project) returns (taken: seq<nat>)
    ensures taken == Taken(pool[..], StartDate(project), project.roles)
  {
    var roles := project.roles;
    var startDate := StartDate(project);
    ghost var contributors := pool[..];
    taken := [];
    for k := 0 to |roles|
      invariant |taken| == k
      invariant taken == Taken(contributors, startDate, roles[..k])
    {
      var role := roles[k];
      var level := role.level;
      if CanBeMentored(pool[..], role.name, level, taken) {
        level := level - 1;
      }
      assert level == EffectiveLevel(contributors, taken, role);
      var contributor := GetAvailableContributor(pool, taken, startDate, role.name, level);
      TakenExtends(contributors, startDate, roles, k);
      if contributor.None? {
        TakenStaysAfterMiss(contributors, startDate, roles, k, |roles|);
        assert roles[..|roles|] == roles;
        return;
      }
      taken := taken + [contributor.value];
    }
    assert roles[..|roles|] == roles;
  }

  /** The commit loop: for each team member and its slot, in slot order, make
      the member busy until the deadline and train it. */
  method CommitTeam(pool: array<Contributor>, project: Project, taken: seq<nat>)
    requires |taken| == |project.roles| && InPool(pool[..], taken)
    modifies pool
    ensures pool[..] == Commit(old(pool[..]), project, taken)
  {
    ghost var before := pool[..];
    for k := 0 to |taken|
      invariant pool[..] == CommitUpTo(before, taken, project.roles, project.bestBefore, k)
    {
      var contributor := pool[taken[k]];
      var role := project.roles[k];
      contributor := contributor.(available := project.bestBefore);
      if role.name in contributor.skills && contributor.skills[role.name] <= role.level {
        contributor := contributor.(skills := contributor.skills[role.name := contributor.skills[role.name] + 1]);
      }
      pool[taken[k]] := contributor;
    }
  }

  /** The scheduler: sort the projects by start date in place, then staff them
      one by one, committing a project's team only when every slot was filled
      and recording each committed project with its team's names. */
  method Solve(pool: array<Contributor>, projects: array<Project>) returns (solution: seq<FilledProject>)
    modifies pool, projects
    ensures projects[..] == SortByStart(old(projects[..]))
    ensures State(pool[..], solution) == Run(old(pool[..]), projects[..])
  {
    SortProjects(projects);
    ghost var initial := pool[..];
    solution := [];
    for i := 0 to projects.Length
      invariant projects[..] == SortByStart(old(projects[..]))
      invariant State(pool[..], solution) == Run(initial, projects[..i])
    {
      var project := projects[i];
      var taken := FillRoles(pool, project);
      if |taken| == |project.roles| {
        CommitTeam(pool, project, taken);
        solution := solution + [FilledProject(project.name, Names(pool[..], taken))];
      }
      assert projects[..i + 1][..i] == projects[..i];
    }
    assert projects[..projects.Length] == projects[..];
  }
}
