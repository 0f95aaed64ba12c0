/** The task endpoints. */
module TaskController {
  import opened Results
  import opened Tables
  import opened Store
  import opened Messages

  /**
   * `DELETE /task/{id}`. The task must exist; this is checked before the
   * caller is looked up. Authorization then compares the caller with the
   * contest whose id equals the task's own id, not the task's contestId.
   */
  function DelTaskById(s: Store, uid: Uid, id: int): (r: Result<Store>)
    ensures FindById(s.tasks, id).None? ==> r == Err(NoSuchTask)
    ensures FindById(s.tasks, id).Some? && UserByUid(s, uid).None? ==> r == Err(NoSuchUserUid)
    ensures r.Ok? <==>
              && FindById(s.tasks, id).Some? && UserByUid(s, uid).Some?
              && FindById(s.contests, FindById(s.tasks, id).value.id).Some?
              && OwnerOrAdmin(UserByUid(s, uid).value, FindById(s.contests, FindById(s.tasks, id).value.id).value)
    ensures r.Err? ==> r.msg in {NoSuchTask, NoSuchUserUid, NoSuchContest, InsufficientPermissions}
    ensures (FindById(s.tasks, id).Some? && UserByUid(s, uid).Some? && FindById(s.contests, id).None?)
              ==> r == Err(NoSuchContest)
    ensures (FindById(s.tasks, id).Some? && UserByUid(s, uid).Some? && FindById(s.contests, id).Some?
             && !OwnerOrAdmin(UserByUid(s, uid).value, FindById(s.contests, id).value))
              ==> r == Err(InsufficientPermissions)
    ensures r.Ok? ==> r.value == Cascade(s, id)
    ensures r.Ok? && s.Valid() ==> r.value.Valid()
  {
    var task := FindById(s.tasks, id);
    if task.None? then Err(NoSuchTask)
    else
      var contest := FindById(s.contests, task.value.id);
      var user := UserByUid(s, uid);
      if user.None? then Err(NoSuchUserUid)
      else if contest.None? then Err(NoSuchContest)
      else if contest.value.data.userId != user.value.id && user.value.data.accessLevel < ADMIN then
        Err(InsufficientPermissions)
      else Ok(Cascade(s, id))
  }

  /** The fan-out of a task delete as one atomic step: the task, its solutions, and the marks on them. */
  function Cascade(s: Store, id: int): (s': Store)
    ensures s' == s.(tasks := s'.tasks, solutions := s'.solutions, marks := s'.marks)
    ensures s.Valid() ==> s'.Valid()
    ensures forall t :: t in s'.tasks.rows ==> t.id != id && t in s.tasks.rows
    ensures forall x :: x in s'.solutions.rows ==> x.data.taskId != id && x in s.solutions.rows
    ensures forall m :: m in s'.marks.rows ==> m.data.solutionId !in SolutionIdsOn(s, {id}) && m in s.marks.rows
    ensures forall t :: t in s.tasks.rows && t.id != id ==> t in s'.tasks.rows
    ensures Tables.Valid(s.solutions) ==>
              forall x :: x in s.solutions.rows && x.data.taskId != id ==> x in s'.solutions.rows
    ensures Tables.Valid(s.marks) ==>
              forall m :: m in s.marks.rows && m.data.solutionId !in SolutionIdsOn(s, {id}) ==> m in s'.marks.rows
  {
    var solutionIds := SolutionIdsOn(s, {id});
    s.(tasks := DeleteIds(s.tasks, {id}),
       solutions := DeleteIds(s.solutions, solutionIds),
       marks := DeleteIds(s.marks, MarkIdsOn(s, solutionIds)))
  }

  /** After a task delete the task, its solutions and the marks on them are gone; only those tables changed. */
  lemma DelTaskByIdRemoves(s: Store, uid: Uid, id: int)
    ensures DelTaskById(s, uid, id).Ok? ==>
      var s' := DelTaskById(s, uid, id).value;
      && s' == s.(tasks := s'.tasks, solutions := s'.solutions, marks := s'.marks)
      && (forall t :: t in s'.tasks.rows ==> t.id != id)
      && (forall x :: x in s'.solutions.rows ==> x.data.taskId != id)
      && (forall m :: m in s'.marks.rows ==> m.data.solutionId !in SolutionIdsOn(s, {id}))
  {
    if DelTaskById(s, uid, id).Ok? {
      assert DelTaskById(s, uid, id).value == Cascade(s, id);
    }
  }

  /** Other tasks, and the solutions and marks of other tasks, survive a task delete. */
  lemma DelTaskByIdFrame(s: Store, uid: Uid, id: int)
    requires s.Valid()
    ensures DelTaskById(s, uid, id).Ok? ==>
      var s' := DelTaskById(s, uid, id).value;
      && (forall t :: t in s.tasks.rows && t.id != id ==> t in s'.tasks.rows)
      && (forall x :: x in s.solutions.rows && x.data.taskId != id ==> x in s'.solutions.rows)
      && (forall m :: m in s.marks.rows && m.data.solutionId !in SolutionIdsOn(s, {id}) ==> m in s'.marks.rows)
  {
    if DelTaskById(s, uid, id).Ok? {
      assert DelTaskById(s, uid, id).value == Cascade(s, id);
    }
    assert Tables.Valid(s.solutions) && Tables.Valid(s.marks);
  }

  /**
   * Task delete authorized against the task's own contest (its contestId):
   * only that contest's owner or an ADMIN may remove the task.
   */
  function DelTaskByIdIntended(s: Store, uid: Uid, id: int): (r: Result<Store>)
    ensures FindById(s.tasks, id).None? ==> r == Err(NoSuchTask)
    ensures r.Ok? <==>
              && FindById(s.tasks, id).Some? && UserByUid(s, uid).Some?
              && var contest := FindById(s.contests, FindById(s.tasks, id).value.data.contestId);
              && contest.Some? && OwnerOrAdmin(UserByUid(s, uid).value, contest.value)
    ensures r.Err? ==> r.msg in {NoSuchTask, NoSuchUserUid, NoSuchContest, InsufficientPermissions}
    ensures r.Ok? ==> r.value == Cascade(s, id)
  {
    var task := FindById(s.tasks, id);
    if task.None? then Err(NoSuchTask)
    else
      var contest := FindById(s.contests, task.value.data.contestId);
      var user := UserByUid(s, uid);
      if user.None? then Err(NoSuchUserUid)
      else if contest.None? then Err(NoSuchContest)
      else if contest.value.data.userId != user.value.id && user.value.data.accessLevel < ADMIN then
        Err(InsufficientPermissions)
      else Ok(Cascade(s, id))
  }

  /**
   * When the contest whose id equals the task's id belongs to the caller but
   * the task's own contest does not (and the caller is no ADMIN), the delete
   * goes through as written and is refused by the intended check.
   */
  lemma DelTaskByIdWrongContest(s: Store, uid: Uid, a: Row<User>, t: Row<Task>, c1: Row<Contest>, c2: Row<Contest>)
    requires UserByUid(s, uid) == Some(a) && FindById(s.tasks, t.id) == Some(t)
    requires FindById(s.contests, t.id) == Some(c1) && FindById(s.contests, t.data.contestId) == Some(c2)
    requires Owns(a, c1) && !OwnerOrAdmin(a, c2)
    ensures DelTaskById(s, uid, t.id).Ok?
    ensures DelTaskByIdIntended(s, uid, t.id) == Err(InsufficientPermissions)
  {
  }

  /** A valid store: user A owns contest 1, user B owns contest 2, task 1 belongs to contest 2. */
  function WrongContestStore(): (s: Store)
    ensures s.Valid()
  {
    var a := Row(1, User("uid-a", "A", "a@x.org", BASIC));
    var b := Row(2, User("uid-b", "B", "b@x.org", BASIC));
    var c1 := Row(1, Contest(1, "mine", 0, 10, None));
    var c2 := Row(2, Contest(2, "theirs", 0, 10, None));
    assert forall x :: x in [a, b] ==> x == a || x == b;
    assert forall x :: x in [c1, c2] ==> x == c1 || x == c2;
    Store(Table([a, b], 3), Table([c1, c2], 3), Table([Row(1, Task(2, "q"))], 2),
          Table([], 1), Table([], 1), Table([], 1), Table([], 1))
  }

  /**
   * In that store A may delete task 1 as written, although the task's
   * contest is B's; the intended check refuses.
   */
  lemma DelTaskByIdWrongContestWitness()
    ensures DelTaskById(WrongContestStore(), "uid-a", 1).Ok?
    ensures DelTaskByIdIntended(WrongContestStore(), "uid-a", 1) == Err(InsufficientPermissions)
  {
    var s := WrongContestStore();
    var a := s.users.rows[0];
    var t := s.tasks.rows[0];
    var c1 := s.contests.rows[0];
    var c2 := s.contests.rows[1];
    assert UserByUid(s, "uid-a") == Some(a);
    assert FindById(s.tasks, 1) == Some(t);
    assert FindById(s.contests, 1) == Some(c1);
    assert FindById(s.contests, 2) == Some(c2) by {
      assert s.contests.rows[1..] == [c2];
    }
    DelTaskByIdWrongContest(s, "uid-a", a, t, c1, c2);
  }

  /** `GET /task/all`: every task, for an ADMIN only. */
  function GetAll(s: Store, uid: Uid): (r: Result<seq<Row<Task>>>)
    ensures UserByUid(s, uid).None? ==> r == Err(NoSuchUserUid)
    ensures r.Ok? <==> UserByUid(s, uid).Some? && IsAdmin(UserByUid(s, uid).value)
    ensures r.Err? ==> r.msg in {NoSuchUserUid, InsufficientPermissions}
    ensures r.Ok? ==> r.value == s.tasks.rows
  {
    var user := UserByUid(s, uid);
    if user.None? then Err(NoSuchUserUid)
    else if user.value.data.accessLevel < ADMIN then Err(InsufficientPermissions)
    else Ok(s.tasks.rows)
  }

  /** `GET /task/by_contest/{id}`: the contest's tasks, for its owner or a participant. */
  function GetTasksByContestId(s: Store, uid: Uid, id: int): (r: Result<seq<Row<Task>>>)
    ensures UserByUid(s, uid).None? ==> r == Err(NoSuchUserUid)
    ensures UserByUid(s, uid).Some? && FindById(s.contests, id).None? ==> r == Err(NoSuchContest)
    ensures r.Ok? <==>
              && UserByUid(s, uid).Some? && FindById(s.contests, id).Some?
              && (Owns(UserByUid(s, uid).value, FindById(s.contests, id).value)
                  || Participates(s, UserByUid(s, uid).value, id))
    ensures r.Err? && UserByUid(s, uid).Some? && FindById(s.contests, id).Some? ==> r.msg == NotYourContest
    ensures r.Ok? ==> forall t :: t in r.value ==> t in s.tasks.rows && t.data.contestId == id
    ensures r.Ok? ==> forall t :: t in s.tasks.rows && t.data.contestId == id ==> t in r.value
  {
    var user := UserByUid(s, uid);
    var contest := FindById(s.contests, id);
    if user.None? then Err(NoSuchUserUid)
    else if contest.None? then Err(NoSuchContest)
    else
      var isAdminOfContest := contest.value.data.userId == user.value.id;
      var participation := ParticipationOf(s, user.value.id, contest.value.id);
      if participation.None? && !isAdminOfContest then Err(NotYourContest)
      else Ok(Filter(s.tasks.rows, (t: Row<Task>) => t.data.contestId == contest.value.id))
  }

  /**
   * `POST /task/by_contest/add/{contest_id}`: only the contest's owner may add
   * a task (an ADMIN may not); the task gets the contest's id and the text.
   */
  function AddTaskByContestId(s: Store, uid: Uid, contestId: int, text: string): (r: Result<(Store, Row<Task>)>)
    ensures UserByUid(s, uid).None? ==> r == Err(NoSuchUserUid)
    ensures UserByUid(s, uid).Some? && FindById(s.contests, contestId).None? ==> r == Err(NoSuchContestWithId)
    ensures r.Ok? <==>
              && UserByUid(s, uid).Some? && FindById(s.contests, contestId).Some?
              && Owns(UserByUid(s, uid).value, FindById(s.contests, contestId).value)
    ensures r.Err? ==> r.msg in {NoSuchUserUid, NoSuchContestWithId, NotYourContestTasks}
    ensures r.Ok? ==>
              && r.value.1.data == Task(contestId, text)
              && r.value.0 == s.(tasks := r.value.0.tasks)
              && r.value.1 in r.value.0.tasks.rows
              && (forall t :: t in r.value.0.tasks.rows ==> t in s.tasks.rows || t == r.value.1)
              && (forall t :: t in s.tasks.rows ==> t in r.value.0.tasks.rows)
    ensures r.Ok? && s.Valid() ==> r.value.0.Valid()
  {
    var adder := UserByUid(s, uid);
    var contest := FindById(s.contests, contestId);
    if adder.None? then Err(NoSuchUserUid)
    else if contest.None? then Err(NoSuchContestWithId)
    else if adder.value.id != contest.value.data.userId then Err(NotYourContestTasks)
    else
      var (tasks', row) := Insert(s.tasks, Task(contest.value.id, text));
      Ok((s.(tasks := tasks'), row))
  }

  /**
   * A contest's task listing is part of the all-tasks listing whenever the
   * caller may see both. An ADMIN has no bypass in the per-contest guard:
   * only ownership or participation opens it.
   */
  lemma GetAllCoversContestTasks(s: Store, uid: Uid, id: int)
    ensures GetAll(s, uid).Ok? && GetTasksByContestId(s, uid, id).Ok? ==>
              forall t :: t in GetTasksByContestId(s, uid, id).value ==> t in GetAll(s, uid).value
    ensures GetAll(s, uid).Ok? && FindById(s.contests, id).Some? ==>
              (GetTasksByContestId(s, uid, id).Ok? <==>
                 Owns(UserByUid(s, uid).value, FindById(s.contests, id).value)
                 || Participates(s, UserByUid(s, uid).value, id))
  {
  }
}
