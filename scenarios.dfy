/** Two small worked examples of the scheduler's behaviour. */
module Scenarios {
  import opened Domain
  import opened Scheduler

  /** A single slot that only the stronger contributor can fill: it goes to
      A, who is already above the slot's level and so does not gain a level. */
  lemma SingleSlot()
    ensures var a := Contributor("A", map["coding" := 3], 0);
            var b := Contributor("B", map["coding" := 1], 0);
            var p1 := Project("P1", 1, 10, 3, [Role("coding", 2)]);
            Run([a, b], [p1]) == State([a.(available := 3), b], [FilledProject("P1", ["A"])])
  {
    var a := Contributor("A", map["coding" := 3], 0);
    var b := Contributor("B", map["coding" := 1], 0);
    var p1 := Project("P1", 1, 10, 3, [Role("coding", 2)]);
    assert [p1][..0] == [];
    assert Taken([a, b], 2, [Role("coding", 2)]) == [0];
    assert Train(a, Role("coding", 2), 3) == a.(available := 3);
    assert CommitUpTo([a, b], [0], p1.roles, 3, 0) == [a, b];
    var pool' := Commit([a, b], p1, [0]);
    assert pool' == [a.(available := 3), b];
    assert Names(pool', [0]) == ["A"];
    assert Run([a, b], [p1]) == Step(State([a, b], []), p1);
  }

  /** A mentored slot: A takes the first slot, then mentors B into the second
      slot one level below its requirement; both gain a level because both
      were at most at their slot's unrelaxed level. */
  lemma MentoredSlot()
    ensures var a := Contributor("A", map["coding" := 3], 0);
            var b := Contributor("B", map["coding" := 1], 0);
            var p := Project("P", 1, 10, 3, [Role("coding", 3), Role("coding", 2)]);
            Run([a, b], [p]) ==
              State([Contributor("A", map["coding" := 4], 3), Contributor("B", map["coding" := 2], 3)],
                    [FilledProject("P", ["A", "B"])])
  {
    var a := Contributor("A", map["coding" := 3], 0);
    var b := Contributor("B", map["coding" := 1], 0);
    var roles := [Role("coding", 3), Role("coding", 2)];
    var p := Project("P", 1, 10, 3, roles);
    assert [p][..0] == [];
    MentoredTeam();
    MentoredCommit();
    var a', b' := Contributor("A", map["coding" := 4], 3), Contributor("B", map["coding" := 2], 3);
    assert Names([a', b'], [0, 1]) == ["A", "B"];
    assert Run([a, b], [p]) == Step(State([a, b], []), p);
  }

  /** The commit of the mentored example: both members are busy until day 3
      and gain a level. */
  lemma MentoredCommit()
    ensures var a := Contributor("A", map["coding" := 3], 0);
            var b := Contributor("B", map["coding" := 1], 0);
            var p := Project("P", 1, 10, 3, [Role("coding", 3), Role("coding", 2)]);
            Commit([a, b], p, [0, 1]) ==
              [Contributor("A", map["coding" := 4], 3), Contributor("B", map["coding" := 2], 3)]
  {
    var a := Contributor("A", map["coding" := 3], 0);
    var b := Contributor("B", map["coding" := 1], 0);
    var roles := [Role("coding", 3), Role("coding", 2)];
    var a' := Contributor("A", map["coding" := 4], 3);
    var b' := Contributor("B", map["coding" := 2], 3);
    assert map["coding" := 3]["coding" := 4] == map["coding" := 4];
    assert map["coding" := 1]["coding" := 2] == map["coding" := 2];
    assert Train(a, roles[0], 3) == a';
    assert Train(b, roles[1], 3) == b';
    assert CommitUpTo([a, b], [0, 1], roles, 3, 0) == [a, b];
    assert CommitUpTo([a, b], [0, 1], roles, 3, 1) == [a', b];
  }

  /** The team of the mentored example: A in the first slot, B in the
      second. */
  lemma MentoredTeam()
    ensures var a := Contributor("A", map["coding" := 3], 0);
            var b := Contributor("B", map["coding" := 1], 0);
            Taken([a, b], 2, [Role("coding", 3), Role("coding", 2)]) == [0, 1]
  {
    var a := Contributor("A", map["coding" := 3], 0);
    var b := Contributor("B", map["coding" := 1], 0);
    var roles := [Role("coding", 3), Role("coding", 2)];
    assert roles[..1] == [Role("coding", 3)];
    assert roles[..1][..0] == [];
    assert Taken([a, b], 2, roles[..1]) == [0];
    assert roles[..2] == roles;
  }
}
