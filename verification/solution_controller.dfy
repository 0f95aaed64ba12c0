/** The solution endpoints. */
module SolutionController {
  import opened Results
  import opened Tables
  import opened Store
  import opened Messages
  import SolutionRepository

  /** `GET /solution/all`: every solution, for an ADMIN only. */
  function GetAll(s: Store, uid: Uid): (r: Result<seq<Row<Solution>>>)
    ensures UserByUid(s, uid).None? ==> r == Err(NoSuchUserUid)
    ensures r.Ok? <==> UserByUid(s, uid).Some? && IsAdmin(UserByUid(s, uid).value)
    ensures r.Err? ==> r.msg in {NoSuchUserUid, InsufficientPermissions}
    ensures r.Ok? ==> r.value == s.solutions.rows
  {
    var user := UserByUid(s, uid);
    if user.None? then Err(NoSuchUserUid)
    else if user.value.data.accessLevel < ADMIN then Err(InsufficientPermissions)
    else Ok(s.solutions.rows)
  }

  /** `GET /solution/by_contest/{id}`: the solutions to the contest's tasks, for its owner or an ADMIN. */
  function GetSolutionsToContest(s: Store, uid: Uid, id: int): (r: Result<seq<Row<Solution>>>)
    ensures UserByUid(s, uid).None? ==> r == Err(NoSuchUserUid)
    ensures UserByUid(s, uid).Some? && FindById(s.contests, id).None? ==> r == Err(NoSuchContest)
    ensures r.Ok? <==>
              && UserByUid(s, uid).Some? && FindById(s.contests, id).Some?
              && OwnerOrAdmin(UserByUid(s, uid).value, FindById(s.contests, id).value)
    ensures r.Err? && UserByUid(s, uid).Some? && FindById(s.contests, id).Some? ==> r.msg == NotContestAdmin
    ensures r.Ok? ==> forall x :: x in r.value ==>
              x in s.solutions.rows && exists t :: t in s.tasks.rows && t.data.contestId == id && t.id == x.data.taskId
    ensures r.Ok? ==> forall x, t ::
              (x in s.solutions.rows && t in s.tasks.rows && t.data.contestId == id && t.id == x.data.taskId)
              ==> x in r.value
  {
    var user := UserByUid(s, uid);
    var contest := FindById(s.contests, id);
    if user.None? then Err(NoSuchUserUid)
    else if contest.None? then Err(NoSuchContest)
    else if user.value.id != contest.value.data.userId && user.value.data.accessLevel < ADMIN then
      Err(NotContestAdmin)
    else
      var taskIds := TaskIdsIn(s, {id});
      Ok(Filter(s.solutions.rows, (x: Row<Solution>) => x.data.taskId in taskIds))
  }

  /**
   * `POST /solution/add/{task_id}`. Any existing user may submit (there is no
   * participation check) while `startDate <= now <= endDate` of the task's
   * contest, once per task. The row is then created through the repository,
   * whose trigger re-checks task, contest and start date.
   */
  function AddSolutionByContestId(s: Store, uid: Uid, now: int, taskId: int, text: string)
    : (r: Result<(Store, Row<Solution>)>)
    ensures UserByUid(s, uid).None? ==> r == Err(NoSuchUserUid)
    ensures UserByUid(s, uid).Some? && FindById(s.tasks, taskId).None? ==> r == Err(NoSuchTaskWithId)
    ensures r.Ok? <==>
              && UserByUid(s, uid).Some? && FindById(s.tasks, taskId).Some?
              && var contest := FindById(s.contests, FindById(s.tasks, taskId).value.data.contestId);
              && contest.Some? && contest.value.data.startDate <= now <= contest.value.data.endDate
              && forall x :: x in s.solutions.rows ==>
                   !(x.data.taskId == taskId && x.data.userId == UserByUid(s, uid).value.id)
    ensures r.Err? ==> r.msg in {NoSuchUserUid, NoSuchTaskWithId, UndefinedContest, NotBeforeStart, NotAfterEnd, AlreadySent}
    ensures UserByUid(s, uid).Some? && FindById(s.tasks, taskId).Some? ==>
              var contest := FindById(s.contests, FindById(s.tasks, taskId).value.data.contestId);
              && (contest.None? ==> r == Err(UndefinedContest))
              && (contest.Some? && now < contest.value.data.startDate ==> r == Err(NotBeforeStart))
              && (contest.Some? && contest.value.data.startDate <= now && now > contest.value.data.endDate
                  ==> r == Err(NotAfterEnd))
              && (contest.Some? && contest.value.data.startDate <= now <= contest.value.data.endDate
                  && (exists x :: x in s.solutions.rows && x.data.taskId == taskId
                                  && x.data.userId == UserByUid(s, uid).value.id)
                  ==> r == Err(AlreadySent))
    ensures r.Ok? ==>
              && r.value.1.data == Solution(taskId, UserByUid(s, uid).value.id, text, None)
              && r.value.0 == s.(solutions := r.value.0.solutions)
              && r.value.1 in r.value.0.solutions.rows
              && (forall x :: x in r.value.0.solutions.rows ==> x in s.solutions.rows || x == r.value.1)
              && (forall x :: x in s.solutions.rows ==> x in r.value.0.solutions.rows)
    ensures r.Ok? && SolutionsUnique(s) ==> SolutionsUnique(r.value.0)
    ensures r.Ok? && s.Valid() ==> r.value.0.Valid()
  {
    var adder := UserByUid(s, uid);
    var task := FindById(s.tasks, taskId);
    if adder.None? then Err(NoSuchUserUid)
    else if task.None? then Err(NoSuchTaskWithId)
    else
      // The `contest` relation included with the task; reading its dates fails when it is missing.
      var contest := FindById(s.contests, task.value.data.contestId);
      if contest.None? then Err(UndefinedContest)
      else if now < contest.value.data.startDate then Err(NotBeforeStart)
      else if now > contest.value.data.endDate then Err(NotAfterEnd)
      else if SolutionOf(s, taskId, adder.value.id).Some? then Err(AlreadySent)
      else SolutionRepository.Create(s, now, Solution(taskId, adder.value.id, text, None))
  }

  /** Whether a submission is accepted does not depend on the participation table. */
  lemma AddSolutionIgnoresParticipations(s: Store, ps: Table<Participation>, uid: Uid, now: int, taskId: int, text: string)
    ensures AddSolutionByContestId(s.(participations := ps), uid, now, taskId, text).Ok?
        <==> AddSolutionByContestId(s, uid, now, taskId, text).Ok?
  {
  }

  /**
   * `PATCH /solution/{id}`: only the author may edit, and only the text
   * changes. The repository trigger lets this update through unchecked.
   */
  function PatchSolutionById(s: Store, uid: Uid, id: int, text: string): (r: Result<Store>)
    ensures UserByUid(s, uid).None? ==> r == Err(NoSuchUser)
    ensures UserByUid(s, uid).Some? && FindById(s.solutions, id).None? ==> r == Err(NoSuchSolution)
    ensures r.Ok? <==>
              && UserByUid(s, uid).Some? && FindById(s.solutions, id).Some?
              && FindById(s.solutions, id).value.data.userId == UserByUid(s, uid).value.id
    ensures r.Err? ==> r.msg in {NoSuchUser, NoSuchSolution, NotYourSolution}
    ensures r.Ok? ==>
              && r.value == s.(solutions := r.value.solutions)
              && (forall x :: x in s.solutions.rows && x.id != id ==> x in r.value.solutions.rows)
              && (forall x :: x in s.solutions.rows && x.id == id ==> Row(id, x.data.(text := text)) in r.value.solutions.rows)
              && (forall y :: y in r.value.solutions.rows ==>
                    (y in s.solutions.rows && y.id != id)
                    || (y.id == id && exists x :: x in s.solutions.rows && x.id == id && y.data == x.data.(text := text)))
    ensures r.Ok? && s.Valid() ==> r.value.Valid()
  {
    var user := UserByUid(s, uid);
    var solution := FindById(s.solutions, id);
    if user.None? then Err(NoSuchUser)
    else if solution.None? then Err(NoSuchSolution)
    else if solution.value.data.userId != user.value.id then Err(NotYourSolution)
    else Ok(s.(solutions := UpdateById(s.solutions, id, (d: Solution) => d.(text := text))))
  }

  /**
   * An ADMIN passes the guard of the per-contest solution listing for every
   * existing contest, and that listing is part of the all-solutions one.
   */
  lemma GetAllCoversContestSolutions(s: Store, uid: Uid, id: int)
    ensures GetAll(s, uid).Ok? && FindById(s.contests, id).Some? ==>
              && GetSolutionsToContest(s, uid, id).Ok?
              && forall x :: x in GetSolutionsToContest(s, uid, id).value ==> x in GetAll(s, uid).value
  {
  }
}
