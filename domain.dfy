/** The records the scheduler works on: contributors, projects and the
    roster records it emits. */
module Domain {

  /** A person with named skills and the first day on which they are free.
      The scheduler changes `skills` and `available` in place; in this model
      a contributor is an element of the pool array and is identified by its
      index there. */
  datatype Contributor = Contributor(name: string, skills: map<string, int>, available: int)

  /** One slot of a project's roster: a role name and the level it needs. */
  datatype Role = Role(name: string, level: int)

  /** A project: how long it takes, what it is worth (never read by the
      scheduler), its deadline and its ordered roster of role slots. */
  datatype Project = Project(name: string, length: int, points: int, bestBefore: int, roles: seq<Role>)

  /** The output record: a project's name and the names of the contributors
      who staff it, one per role, in role order. */
  datatype FilledProject = FilledProject(name: string, contributors: seq<string>)

  /** The latest day the project can start and still meet its deadline. It is
      not clamped: it is negative exactly when the project is longer than its
      deadline, and it never lies after the deadline when the length is not
      negative. */
  function StartDate(p: Project): (d: int)
    ensures d < 0 <==> p.length > p.bestBefore
    ensures p.length >= 0 <==> d <= p.bestBefore
  {
    p.bestBefore - p.length
  }

  /** `c` holds `role` at `level` or above. */
  predicate HasSkillAtLeast(c: Contributor, role: string, level: int)
  {
    role in c.skills && c.skills[role] >= level
  }

  /** Names identify contributors: no two pool entries share one. */
  predicate UniqueNames(pool: seq<Contributor>)
  {
    forall i, j :: 0 <= i < j < |pool| ==> pool[i].name != pool[j].name
  }
}
