/**
 * The persisted state of the contest platform: seven tables, the lookups
 * the controllers share, and the access rules they compare against.
 */
module Store {
  import opened Results
  import opened Tables

  /** The identity service's user id, already resolved from the bearer token. */
  type Uid = string

  /** Access levels; they are compared numerically, BASIC < CONTEST_CREATOR < ADMIN. */
  const BASIC: int := 1
  const CONTEST_CREATOR: int := 2
  const ADMIN: int := 3

  datatype User = User(firebaseUID: Uid, displayName: string, email: string, accessLevel: int)
  /** Dates are integer timestamps; `secret` is the join code, absent on contests created through the API. */
  datatype Contest = Contest(userId: int, title: string, startDate: int, endDate: int, secret: Option<string>)
  datatype Task = Task(contestId: int, text: string)
  datatype Solution = Solution(taskId: int, userId: int, text: string, markId: Option<int>)
  datatype Mark = Mark(solutionId: int, userId: int, value: real, comment: string)
  /** Grading rights of a user in a contest. */
  datatype Commission = Commission(contestId: int, userId: int)
  /** Submission rights of a user in a contest. */
  datatype Participation = Participation(contestId: int, userId: int)

  datatype Store = Store(
    users: Table<User>,
    contests: Table<Contest>,
    tasks: Table<Task>,
    solutions: Table<Solution>,
    marks: Table<Mark>,
    commissions: Table<Commission>,
    participations: Table<Participation>)
  {
    /** Every table's ids are keys below its sequence's next value. */
    ghost predicate Valid() {
      && Tables.Valid(users) && Tables.Valid(contests) && Tables.Valid(tasks)
      && Tables.Valid(solutions) && Tables.Valid(marks)
      && Tables.Valid(commissions) && Tables.Valid(participations)
    }
  }

  // ---------------------------------------------------------------------------
  // Lookups shared by the controllers.

  /** The local user row of the authenticated caller (`findOne({where: {firebaseUID: uid}})`). */
  function UserByUid(s: Store, uid: Uid): (r: Option<Row<User>>)
    ensures r.Some? ==> r.value in s.users.rows && r.value.data.firebaseUID == uid
    ensures r.None? <==> forall u :: u in s.users.rows ==> u.data.firebaseUID != uid
  {
    FindFirst(s.users.rows, (u: Row<User>) => u.data.firebaseUID == uid)
  }

  /** `commissionRepository.findOne({where: {userId, contestId}})`. */
  function CommissionOf(s: Store, userId: int, contestId: int): (r: Option<Row<Commission>>)
    ensures r.Some? ==> r.value in s.commissions.rows && r.value.data == Commission(contestId, userId)
    ensures r.None? <==> forall k :: k in s.commissions.rows ==> k.data != Commission(contestId, userId)
  {
    FindFirst(s.commissions.rows, (k: Row<Commission>) => k.data.userId == userId && k.data.contestId == contestId)
  }

  /** `participationRepository.findOne({where: {userId, contestId}})`. */
  function ParticipationOf(s: Store, userId: int, contestId: int): (r: Option<Row<Participation>>)
    ensures r.Some? ==> r.value in s.participations.rows && r.value.data == Participation(contestId, userId)
    ensures r.None? <==> forall p :: p in s.participations.rows ==> p.data != Participation(contestId, userId)
  {
    FindFirst(s.participations.rows, (p: Row<Participation>) => p.data.userId == userId && p.data.contestId == contestId)
  }

  /** `solutionRepository.findOne({where: {taskId, userId}})`. */
  function SolutionOf(s: Store, taskId: int, userId: int): (r: Option<Row<Solution>>)
    ensures r.Some? ==> r.value in s.solutions.rows && r.value.data.taskId == taskId && r.value.data.userId == userId
    ensures r.None? <==> forall x :: x in s.solutions.rows ==> x.data.taskId != taskId || x.data.userId != userId
  {
    FindFirst(s.solutions.rows, (x: Row<Solution>) => x.data.taskId == taskId && x.data.userId == userId)
  }

  /** Ids of the tasks whose contestId is in `contestIds`. */
  function TaskIdsIn(s: Store, contestIds: set<int>): (ids: set<int>)
    ensures forall t :: t in s.tasks.rows && t.data.contestId in contestIds ==> t.id in ids
    ensures Tables.Valid(s.tasks) ==> forall t :: t in s.tasks.rows && t.id in ids ==> t.data.contestId in contestIds
  {
    IdsWhere(s.tasks, (t: Row<Task>) => t.data.contestId in contestIds)
  }

  /** Ids of the commission rows of contest `contestId`. */
  function CommissionIdsIn(s: Store, contestId: int): (ids: set<int>)
    ensures forall k :: k in s.commissions.rows && k.data.contestId == contestId ==> k.id in ids
    ensures Tables.Valid(s.commissions) ==>
              forall k :: k in s.commissions.rows && k.id in ids ==> k.data.contestId == contestId
  {
    IdsWhere(s.commissions, (k: Row<Commission>) => k.data.contestId == contestId)
  }

  /** Ids of the participation rows of contest `contestId`. */
  function ParticipationIdsIn(s: Store, contestId: int): (ids: set<int>)
    ensures forall p :: p in s.participations.rows && p.data.contestId == contestId ==> p.id in ids
    ensures Tables.Valid(s.participations) ==>
              forall p :: p in s.participations.rows && p.id in ids ==> p.data.contestId == contestId
  {
    IdsWhere(s.participations, (p: Row<Participation>) => p.data.contestId == contestId)
  }

  /** Ids of the solutions whose taskId is in `taskIds`. */
  function SolutionIdsOn(s: Store, taskIds: set<int>): (ids: set<int>)
    ensures forall x :: x in s.solutions.rows && x.data.taskId in taskIds ==> x.id in ids
    ensures Tables.Valid(s.solutions) ==> forall x :: x in s.solutions.rows && x.id in ids ==> x.data.taskId in taskIds
  {
    IdsWhere(s.solutions, (x: Row<Solution>) => x.data.taskId in taskIds)
  }

  /** Ids of the solutions written by `userId`. */
  function SolutionIdsBy(s: Store, userId: int): (ids: set<int>)
    ensures forall x :: x in s.solutions.rows && x.data.userId == userId ==> x.id in ids
    ensures Tables.Valid(s.solutions) ==> forall x :: x in s.solutions.rows && x.id in ids ==> x.data.userId == userId
  {
    IdsWhere(s.solutions, (x: Row<Solution>) => x.data.userId == userId)
  }

  /** Ids of the marks whose solutionId is in `solutionIds`. */
  function MarkIdsOn(s: Store, solutionIds: set<int>): (ids: set<int>)
    ensures forall m :: m in s.marks.rows && m.data.solutionId in solutionIds ==> m.id in ids
    ensures Tables.Valid(s.marks) ==> forall m :: m in s.marks.rows && m.id in ids ==> m.data.solutionId in solutionIds
  {
    IdsWhere(s.marks, (m: Row<Mark>) => m.data.solutionId in solutionIds)
  }

  /** The marks on solutions in `solutionIds` (`markRepository.find({where: {solutionId: {inq}}})`). */
  function MarksOn(s: Store, solutionIds: set<int>): seq<Row<Mark>> {
    Filter(s.marks.rows, (m: Row<Mark>) => m.data.solutionId in solutionIds)
  }

  // ---------------------------------------------------------------------------
  // Access rules.

  predicate IsAdmin(u: Row<User>) {
    u.data.accessLevel >= ADMIN
  }

  predicate Owns(u: Row<User>, c: Row<Contest>) {
    c.data.userId == u.id
  }

  predicate OwnerOrAdmin(u: Row<User>, c: Row<Contest>) {
    Owns(u, c) || IsAdmin(u)
  }

  /** Some participation row puts user `u` in contest `contestId`. */
  ghost predicate Participates(s: Store, u: Row<User>, contestId: int) {
    exists p :: p in s.participations.rows && p.data == Participation(contestId, u.id)
  }

  /** Some commission row makes user `u` a grader of contest `contestId`. */
  ghost predicate OnCommission(s: Store, u: Row<User>, contestId: int) {
    exists k :: k in s.commissions.rows && k.data == Commission(contestId, u.id)
  }

  // ---------------------------------------------------------------------------
  // Uniqueness the repository triggers are meant to keep.

  /** At most one commission row per (contestId, userId). */
  ghost predicate CommissionsUnique(s: Store) {
    forall a, b :: a in s.commissions.rows && b in s.commissions.rows && a.data == b.data ==> a == b
  }

  /** At most one participation row per (contestId, userId). */
  ghost predicate ParticipationsUnique(s: Store) {
    forall a, b :: a in s.participations.rows && b in s.participations.rows && a.data == b.data ==> a == b
  }

  /** At most one solution per (taskId, userId). */
  ghost predicate SolutionsUnique(s: Store) {
    forall a, b ::
      a in s.solutions.rows && b in s.solutions.rows && a.data.taskId == b.data.taskId && a.data.userId == b.data.userId
      ==> a == b
  }
}
