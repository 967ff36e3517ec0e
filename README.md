# Greedy project staffing, verified in Dafny

This project models the scheduler of a project-staffing optimiser and proves what it guarantees. Contributors hold named skills at integer levels and become free on some day. Projects have a length, a deadline (`best_before`) and an ordered roster of (role, level) slots. The scheduler works in four steps:

1. It sorts the projects by start date (`best_before - length`). The sort is stable.
2. It fills each project's slots in order. Each slot goes to the best-fit free contributor: the eligible one with the lowest skill, the earliest in the pool on ties. A slot's level drops by one when a teammate already on the project holds the role at the slot's level. This relaxation is called mentoring.
3. It commits a project only when every slot was filled.
4. A commit makes every member busy until the deadline. It also raises a member's skill for its slot by one when that skill was at most the slot's original level.

Modules: the components of `solve.py`, plus properties, scenarios and `Option`:

- `Domain` (`domain.dfy`): the records `Contributor`, `Role`, `Project` and `FilledProject`, and the start date.
- `Selection` (`selection.dfy`): candidate selection and the mentoring check.
- `Ordering` (`ordering.dfy`): the stable sort of the project list, done in place on an array.
- `Scheduler` (`scheduler.dfy`): the role loop, the commit loop and `Solve`. Each is an imperative method over an array. Each is proved equal to a specification function (`Taken`, `Commit`, `Run`).
- `SchedulerProperties` (`properties.dfy`): what one project's role loop, one commit and a whole run guarantee.
- `Scenarios` (`scenarios.dfy`): two worked examples.
- `Wrappers` (`wrappers.dfy`): `Option`.

How the source is represented:

- The contributor pool is an `array<Contributor>`, and a contributor is identified by its index in it. The Python `taken` list holds references into the pool, so the model's `taken` is a sequence of pool indices.
- The in-place updates of `available` and `skills` become replacements of one array element.
- Python's `not selected_contributor` and `not contributor` test a dataclass instance. Such an instance is always truthy, so both tests are true only for `None`. The model tests `None?`.

## Model

| member | source | states |
|---|---|---|
| Domain.StartDate | solve.py:25-27 | the start date is `best_before - length`, not clamped: it is negative exactly when the length exceeds the deadline, and not after the deadline exactly when the length is non-negative |
| Selection.SelectUpTo | solve.py:78-91 | after scanning any prefix of the pool, the contributor held is an eligible member of that prefix (not taken, free by the start date, holds the role at the level or above) |
| Selection.SelectUpToIsBestFit | solve.py:79-90 | the scan of a prefix holds nothing exactly when nobody in it is eligible; otherwise it holds an entry of lowest skill among the eligible ones, strictly below every earlier eligible entry |
| Selection.SelectIsBestFit | solve.py:78-95 | selection returns None exactly when no contributor in the pool is eligible; otherwise it returns the best fit: eligible, of minimum skill for the role, first in pool order among equal minima |
| Selection.BestFitUnique | solve.py:86-90 | at most one contributor is the best fit, so the minimum-skill, first-in-order description fixes the result |
| Selection.SelectExactStays | solve.py:92-93 | once the held contributor's skill equals the required level, no later contributor replaces it, so the early return gives the same result as the full scan |
| Selection.GetAvailableContributor | solve.py:71-95 | the loop with its early return returns exactly the specified selection: None exactly when nobody is eligible, otherwise the best fit; it reads the pool and `taken` and changes neither |
| Selection.CanBeMentored | solve.py:98-102 | true exactly when some contributor already taken holds the role at the given level or above; reads only |
| Ordering.InsertPosition | solve.py:108 | one insertion places the project right after the longest prefix whose last element does not start later |
| Ordering.InsertAt | solve.py:108 | moving one element left past the trailing later-starting elements of the prefix performs that insertion in place and leaves the rest of the array unchanged |
| Ordering.SortProjects | solve.py:108 | the in-place sort leaves the project array equal to the stable sort by start date of its old contents |
| Ordering.InsertPermutes | solve.py:108 | an insertion adds exactly the inserted project to the multiset of projects |
| Ordering.InsertSorted | solve.py:108 | inserting into a sequence sorted by start date keeps it sorted |
| Ordering.InsertKeepsOrderPerDate | solve.py:108 | an insertion puts the new project after every project with the same start date |
| Ordering.SortByStartSorted | solve.py:108 | the sorted project list is in non-decreasing start-date order |
| Ordering.SortByStartPermutes | solve.py:108 | the sorted project list holds exactly the input projects (a permutation) |
| Ordering.SortByStartStable | solve.py:108 | projects that share a start date keep their input order (stability) |
| Ordering.SortedGroupsDetermine | solve.py:108 | two date-sorted sequences that agree on the order within every start date are equal |
| Ordering.SortByStartUnique | solve.py:108 | any sequence sorted by start date that keeps the input order within each start date equals the model's sort, so every stable sort gives this order |
| Scheduler.Taken | solve.py:112-121 | the team the role loop builds has at most one contributor per slot, and each is a pool index; what each member is is stated by `SchedulerProperties.TakenEligible` |
| Scheduler.TakenExtends | solve.py:113-121 | when every earlier slot was filled, the next slot adds the contributor picked for it (with the mentoring relaxation) or leaves the team unchanged |
| Scheduler.TakenStaysAfterMiss | solve.py:119-120 | after the first slot nobody can fill, the later slots are not tried and the team stays as it is |
| Scheduler.FillRoles | solve.py:112-121 | the role loop, with its mentoring relaxation and its break on the first miss, returns exactly the specified team |
| Scheduler.CommitUpTo | solve.py:124-127 | committing any prefix of the team keeps the pool's size; what each member becomes is stated by `SchedulerProperties.CommitUpToEffect` |
| Scheduler.CommitTeam | solve.py:124-127 | the commit loop leaves the pool equal to the specified commit of the old pool |
| Scheduler.Solve | solve.py:105-132 | the project array ends up stably sorted by start date, and the pool and the returned solution equal the specified run over the sorted projects from the old pool |
| SchedulerProperties.TakenFillsInOrder | solve.py:113-121 | slot k of a project goes to the contributor selection picks, given the members of slots 0..k-1 and the level after the mentoring relaxation; the loop stops only at a slot selection cannot fill |
| SchedulerProperties.FillsExtend | solve.py:121 | appending a filled slot to a team that fills its slots in order gives a team that fills the longer roster in order |
| SchedulerProperties.TakenEligible | solve.py:113-121 | every member is the best fit for its slot; the member is free by the start date and holds the role at the slot's level or one below; no contributor appears twice; when the loop stops early, nobody was eligible for the slot it stopped at |
| SchedulerProperties.TakenDistinctAndFree | solve.py:116-121 | the team has no repeats and every member is free by the start date |
| SchedulerProperties.FillsMentoring | solve.py:113-118 | the contributor picked for a slot holds the role at the slot's level or one below, and one below only when a teammate already taken could mentor |
| SchedulerProperties.TakenMentoring | solve.py:114-115 | a member below its slot's level is exactly one below it, and some earlier member of the same project holds the role at the slot's level |
| SchedulerProperties.CommitUpToEffect | solve.py:124-127 | committing a team of distinct members trains each member for its own slot and leaves everyone outside the team untouched |
| SchedulerProperties.CommitEffect | solve.py:124-127 | after a commit, each member's `available` is the deadline; its skill for the slot rises by exactly 1 when it was at most the original level, and is otherwise unchanged; its other skills and its name do not change; nobody else changes; availability never decreases when every member was free by the deadline |
| SchedulerProperties.StepSkips | solve.py:119-123 | all-or-nothing: a project whose loop stopped early leaves the pool and the solution unchanged, and the slot it stopped at had no eligible contributor |
| SchedulerProperties.StepCommits | solve.py:123-130 | a fully staffed project appends one record with its name and its members' names in slot order; the members are trained and busy until the deadline; nobody else changes |
| SchedulerProperties.StepRoster | solve.py:121-129 | with unique names, a committed record has one name per slot, the names are pairwise distinct, and names stay unique |
| SchedulerProperties.StepAvailabilityMonotone | solve.py:125 | for a project of non-negative length, nobody's `available` decreases, because every member was free by the start date, which is not after the deadline |
| SchedulerProperties.TrainedGrowsByAtMostOne | solve.py:126-127 | training keeps the set of skills, and no skill falls or rises by more than one |
| SchedulerProperties.StepSkillsMonotone | solve.py:126-127 | one project changes no contributor's set of skills, and no skill falls or rises by more than one |
| SchedulerProperties.RunKeepsNames | solve.py:111-130 | a run keeps the pool's size and every contributor's name |
| SchedulerProperties.RunRecords | solve.py:110-132 | the solution has one record per committed project, in processing order (strictly increasing positions); each record carries its project's name and one contributor per role |
| SchedulerProperties.RunCommitsStaffed | solve.py:111-130 | a project is committed exactly when all its slots can be filled in the state the run has reached at its turn |
| SchedulerProperties.StepRostersDistinct | solve.py:121-129 | with unique names in the pool, one project keeps names unique and adds no record that names a contributor twice |
| SchedulerProperties.RunRostersDistinct | solve.py:128-129 | with unique names in the initial pool, every record of a run names pairwise distinct contributors |
| SchedulerProperties.RunMonotone | solve.py:111-127 | over projects of non-negative length, no contributor's `available` decreases; no skill shrinks; no skill is gained or lost |
| Scenarios.SingleSlot | solve.py:105-132 | one slot at level 2 that only A (coding 3) can fill: A gets it, becomes busy until day 3, and keeps coding 3 |
| Scenarios.MentoredSlot | solve.py:105-132 | slots coding 3 and coding 2: A (coding 3) takes the first slot and mentors B (coding 1) into the second; both are trained, to coding 4 and coding 2 |

## Left out

- `parse` (solve.py:36-68), `format` (solve.py:135-142) and the batch entry point (solve.py:145-150): file reading and writing and the loop over instance names. They are I/O, so `Solve` takes the parsed contributors and projects as arrays and returns the solution as a sequence.
- The `tqdm` progress bar (solve.py:111) is cosmetic and is not modelled.
- `points` is a field of `Project`, but nothing in the model reads it, as nothing in the scheduler does.
- Identity in `not in taken`: the source compares dataclasses by value. The model compares pool indices. The two agree when contributor names are unique. The properties about distinct names assume this (`UniqueNames`).
- Sort algorithm: Python's built-in stable sort is modelled as an insertion sort. `Ordering.SortByStartUnique` proves that every stable sort by start date yields the same order, so the choice is not observable.
- Aliasing: `taken` holds references into the pool in the source and indices in the model. An update of a contributor object becomes the replacement of one array element.
- A missing skill at commit: the source would raise `KeyError` at solve.py:126 if a member lacked the slot's role. The model's `Train` only increments a skill the contributor holds. `SchedulerProperties.TakenMentoring` proves that every member holds its slot's role, so this case never arises.
- Integers are unbounded in Python and in the model, so nothing wraps. Negative levels and lengths are allowed, as the source does not reject them.
- `FilledProject.contributors` is annotated as a list of contributors in the source, but it receives names (solve.py:129). The model follows the code and stores strings.
- Monotone availability holds only for projects of non-negative length. A project of negative length starts after its deadline, so a member who was free by the start date can get a `best_before` earlier than its previous `available`. `StepAvailabilityMonotone` and `RunMonotone` therefore require non-negative lengths. The code does not check lengths, so the property is conditional.
- Determinism needs no lemma: every specification is a function, so equal inputs give equal results.
