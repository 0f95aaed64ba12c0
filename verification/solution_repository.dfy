/** The 'before save' trigger of the solution repository, and `create` guarded by it. */
module SolutionRepository {
  import opened Results
  import opened Tables
  import opened Store
  import opened Messages

  /**
   * The trigger. Only a save that inserts a new row is checked: the task must
   * exist, its contest must exist, and the contest must have started. There
   * is no end-date check.
   */
  function BeforeSave(s: Store, now: int, x: Solution, isNewInstance: bool): (r: Check)
    ensures !isNewInstance ==> r == Pass
    ensures isNewInstance && (forall t :: t in s.tasks.rows ==> t.id != x.taskId) ==> r == Reject(NoTaskWithId)
    ensures r.Reject? ==> r.msg == NoTaskWithId || r.msg == NoContestWithId || r.msg == NotStartedYet
    ensures isNewInstance && FindById(s.tasks, x.taskId).Some? ==>
              var contest := FindById(s.contests, FindById(s.tasks, x.taskId).value.data.contestId);
              && (contest.None? ==> r == Reject(NoContestWithId))
              && (contest.Some? && now < contest.value.data.startDate ==> r == Reject(NotStartedYet))
    ensures isNewInstance && r == Pass ==>
              exists t, c :: t in s.tasks.rows && t.id == x.taskId
                && c in s.contests.rows && c.id == t.data.contestId && c.data.startDate <= now
  {
    if isNewInstance then
      var task := FindById(s.tasks, x.taskId);
      if task.None? then Reject(NoTaskWithId)
      else
        var contest := FindById(s.contests, task.value.data.contestId);
        if contest.None? then Reject(NoContestWithId)
        else if now < contest.value.data.startDate then Reject(NotStartedYet)
        else Pass
    else Pass
  }

  /** `solutionRepository.create(x)`: the trigger, then the insert. */
  function Create(s: Store, now: int, x: Solution): (r: Result<(Store, Row<Solution>)>)
    ensures r.Ok? <==> BeforeSave(s, now, x, true) == Pass
    ensures r.Err? ==> r.msg == BeforeSave(s, now, x, true).msg
    ensures r.Ok? ==> r.value.1.data == x && r.value.0 == s.(solutions := r.value.0.solutions)
    ensures r.Ok? ==> r.value.1 in r.value.0.solutions.rows
    ensures r.Ok? ==> forall y :: y in r.value.0.solutions.rows ==> y in s.solutions.rows || y == r.value.1
    ensures r.Ok? ==> forall y :: y in s.solutions.rows ==> y in r.value.0.solutions.rows
    ensures r.Ok? && s.Valid() ==> r.value.0.Valid()
  {
    var check := BeforeSave(s, now, x, true);
    if check.Reject? then Err(check.msg)
    else
      var (solutions', row) := Insert(s.solutions, x);
      Ok((s.(solutions := solutions'), row))
  }

  /** Updates (`save` of a loaded row, `updateById`) are never rejected by the trigger. */
  lemma UpdatesPassUnchecked(s: Store, now: int, x: Solution)
    ensures BeforeSave(s, now, x, false) == Pass
  {
  }

  /** A new solution for a contest that has ended is still let through: the trigger has no end-date check. */
  lemma NoEndDateCheck(s: Store, now: int, x: Solution, t: Row<Task>, c: Row<Contest>)
    requires t in s.tasks.rows && t.id == x.taskId && c in s.contests.rows && c.id == t.data.contestId
    requires s.Valid() && c.data.startDate <= now
    ensures BeforeSave(s, now, x, true) == Pass
  {
  }
}
