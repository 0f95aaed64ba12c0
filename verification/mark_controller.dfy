/** The mark endpoints. */
module MarkController {
  import opened Results
  import opened Tables
  import opened Store
  import opened Messages

  /** The mark values the grading endpoint accepts, out of every JSON number. */
  predicate ValidMarkValue(value: real) {
    value == 0.0 || value == 2.0 || value == 5.0 || value == 6.0
  }

  /** The contest a solution belongs to, through its task; absent when a link is missing. */
  function ContestOfSolution(s: Store, solutionId: int): Option<Row<Contest>> {
    var solution := FindById(s.solutions, solutionId);
    if solution.None? then None
    else
      var task := FindById(s.tasks, solution.value.data.taskId);
      if task.None? then None else FindById(s.contests, task.value.data.contestId)
  }

  /**
   * Mark `m` is on a solution to a task of one of the contests `contestIds`;
   * with `author`, on a solution `author` wrote.
   */
  ghost predicate MarkInContests(s: Store, m: Row<Mark>, contestIds: set<int>, author: Option<int>) {
    exists x, t :: x in s.solutions.rows && t in s.tasks.rows
      && t.data.contestId in contestIds && x.data.taskId == t.id && m.data.solutionId == x.id
      && (author.Some? ==> x.data.userId == author.value)
  }

  /** The contests user `u` participates in. */
  function ParticipatedContests(s: Store, u: Row<User>): (r: set<int>)
    ensures forall c :: c in r ==> Participates(s, u, c)
    ensures forall p :: p in s.participations.rows && p.data.userId == u.id ==> p.data.contestId in r
  {
    set p | p in s.participations.rows && p.data.userId == u.id :: p.data.contestId
  }

  /**
   * The marks on solutions to tasks of the contests `contestIds` (written by
   * `author` when given): the tasks, their solutions and their marks are
   * looked up one table after the other.
   */
  function MarksInContests(s: Store, contestIds: set<int>, author: Option<int>): (r: seq<Row<Mark>>)
    ensures forall m :: m in r ==> m in s.marks.rows && MarkInContests(s, m, contestIds, author)
    ensures forall m :: m in s.marks.rows && MarkInContests(s, m, contestIds, author) ==> m in r
  {
    var taskIds := IdsWhere(s.tasks, (t: Row<Task>) => t.data.contestId in contestIds);
    var solutionIds := IdsWhere(s.solutions, (x: Row<Solution>) =>
      x.data.taskId in taskIds && (author.Some? ==> x.data.userId == author.value));
    MarksOn(s, solutionIds)
  }

  /**
   * `PATCH /mark/{id}`: allowed to a member of the contest's commission, to
   * its owner, or to a user whose level is exactly ADMIN. The new value is
   * not checked against the accepted mark values.
   */
  function PatchMarkById(s: Store, uid: Uid, id: int, value: real, comment: string): (r: Result<Store>)
    ensures UserByUid(s, uid).None? ==> r == Err(NoSuchUser)
    ensures UserByUid(s, uid).Some? && FindById(s.marks, id).None? ==> r == Err(NoSuchMark)
    ensures r.Ok? <==>
              && UserByUid(s, uid).Some? && FindById(s.marks, id).Some?
              && var contest := ContestOfSolution(s, FindById(s.marks, id).value.data.solutionId);
              && contest.Some?
              && (|| OnCommission(s, UserByUid(s, uid).value, contest.value.id)
                  || Owns(UserByUid(s, uid).value, contest.value)
                  || UserByUid(s, uid).value.data.accessLevel == ADMIN)
    ensures r.Err? ==>
              r.msg in {NoSuchUser, NoSuchMark, NoSuchSolution, NoSuchTask, NoSuchContest, InsufficientPermissions}
    ensures r.Ok? ==>
              && r.value == s.(marks := r.value.marks)
              && (forall m :: m in s.marks.rows && m.id != id ==> m in r.value.marks.rows)
              && (forall m :: m in s.marks.rows && m.id == id ==>
                    Row(id, m.data.(value := value, comment := comment)) in r.value.marks.rows)
              && |r.value.marks.rows| == |s.marks.rows|
              && (forall y :: y in r.value.marks.rows ==>
                    (y in s.marks.rows && y.id != id)
                    || (y.id == id && exists m :: m in s.marks.rows && m.id == id
                                                  && y.data == m.data.(value := value, comment := comment)))
    ensures r.Ok? && s.Valid() ==> r.value.Valid()
  {
    var user := UserByUid(s, uid);
    if user.None? then Err(NoSuchUser)
    else
      var isAdmin := user.value.data.accessLevel == ADMIN;
      var mark := FindById(s.marks, id);
      if mark.None? then Err(NoSuchMark)
      else
        var solution := FindById(s.solutions, mark.value.data.solutionId);
        if solution.None? then Err(NoSuchSolution)
        else
          var task := FindById(s.tasks, solution.value.data.taskId);
          if task.None? then Err(NoSuchTask)
          else
            var contest := FindById(s.contests, task.value.data.contestId);
            if contest.None? then Err(NoSuchContest)
            else
              var isAdminOfContest := user.value.id == contest.value.data.userId;
              var commission := CommissionOf(s, user.value.id, contest.value.id);
              if commission.None? && !isAdminOfContest && !isAdmin then Err(InsufficientPermissions)
              else Ok(s.(marks := UpdateById(s.marks, id, (m: Mark) => m.(value := value, comment := comment))))
  }

  /** Whether a mark edit is allowed does not depend on the value written. */
  lemma PatchMarkByIdIgnoresValue(s: Store, uid: Uid, id: int, v1: real, v2: real, comment: string)
    ensures PatchMarkById(s, uid, id, v1, comment).Ok? <==> PatchMarkById(s, uid, id, v2, comment).Ok?
  {
  }

  /** `GET /mark/by_contest/{id}`: the marks on solutions to the contest's tasks, for its owner or a participant. */
  function GetMarksByContestId(s: Store, uid: Uid, id: int): (r: Result<seq<Row<Mark>>>)
    ensures UserByUid(s, uid).None? ==> r == Err(NoSuchUserUid)
    ensures UserByUid(s, uid).Some? && FindById(s.contests, id).None? ==> r == Err(NoSuchContest)
    ensures r.Ok? <==>
              && UserByUid(s, uid).Some? && FindById(s.contests, id).Some?
              && (Owns(UserByUid(s, uid).value, FindById(s.contests, id).value)
                  || Participates(s, UserByUid(s, uid).value, id))
    ensures r.Err? && UserByUid(s, uid).Some? && FindById(s.contests, id).Some? ==> r.msg == NotYourContest
    ensures r.Ok? ==> forall m :: m in r.value ==> m in s.marks.rows && MarkInContests(s, m, {id}, None)
    ensures r.Ok? ==> forall m :: m in s.marks.rows && MarkInContests(s, m, {id}, None) ==> m in r.value
  {
    var user := UserByUid(s, uid);
    var contest := FindById(s.contests, id);
    if user.None? then Err(NoSuchUserUid)
    else if contest.None? then Err(NoSuchContest)
    else
      var isAdminOfContest := contest.value.data.userId == user.value.id;
      var participation := ParticipationOf(s, user.value.id, contest.value.id);
      if participation.None? && !isAdminOfContest then Err(NotYourContest)
      else Ok(MarksInContests(s, {contest.value.id}, None))
  }

  /**
   * `GET /mark/my/by_contest/{id}`: the marks on the caller's own solutions to
   * the contest's tasks. There is no permission check and no contest lookup.
   */
  function GetMyMarksByContestId(s: Store, uid: Uid, id: int): (r: Result<seq<Row<Mark>>>)
    ensures r.Ok? <==> UserByUid(s, uid).Some?
    ensures r.Err? ==> r.msg == NoSuchUserUid
    ensures r.Ok? ==> forall m :: m in r.value ==>
              m in s.marks.rows && MarkInContests(s, m, {id}, Some(UserByUid(s, uid).value.id))
    ensures r.Ok? ==> forall m :: m in s.marks.rows && MarkInContests(s, m, {id}, Some(UserByUid(s, uid).value.id)) ==>
              m in r.value
  {
    var user := UserByUid(s, uid);
    if user.None? then Err(NoSuchUserUid)
    else Ok(MarksInContests(s, {id}, Some(user.value.id)))
  }

  /** `GET /mark/my`: the marks on the caller's solutions to tasks of contests the caller participates in. */
  function GetMyMarks(s: Store, uid: Uid): (r: Result<seq<Row<Mark>>>)
    ensures r.Ok? <==> UserByUid(s, uid).Some?
    ensures r.Err? ==> r.msg == NoSuchUserUid
    ensures r.Ok? ==> forall m :: m in r.value ==>
              m in s.marks.rows
              && MarkInContests(s, m, ParticipatedContests(s, UserByUid(s, uid).value), Some(UserByUid(s, uid).value.id))
    ensures r.Ok? ==> forall m ::
              (m in s.marks.rows
               && MarkInContests(s, m, ParticipatedContests(s, UserByUid(s, uid).value), Some(UserByUid(s, uid).value.id)))
              ==> m in r.value
  {
    var user := UserByUid(s, uid);
    if user.None? then Err(NoSuchUserUid)
    else
      Ok(MarksInContests(s, ParticipatedContests(s, user.value), Some(user.value.id)))
  }

  /**
   * `POST /mark/by_solution/{id}`. The value is checked first, before any
   * lookup. The caller must sit on the commission of the solution's contest;
   * owning the contest or being an ADMIN is not enough. A new mark is
   * created (there is no duplicate check) and the solution's markId is
   * pointed at it.
   */
  function MarkSolution(s: Store, uid: Uid, id: int, value: real, comment: string): (r: Result<Store>)
    ensures !ValidMarkValue(value) ==> r == Err(InvalidValue)
    ensures ValidMarkValue(value) && UserByUid(s, uid).None? ==> r == Err(NoSuchUserUid)
    ensures r.Ok? <==>
              && ValidMarkValue(value) && UserByUid(s, uid).Some? && ContestOfSolution(s, id).Some?
              && OnCommission(s, UserByUid(s, uid).value, ContestOfSolution(s, id).value.id)
    ensures r.Err? ==>
              r.msg in {InvalidValue, NoSuchUserUid, NoSuchSolution, NoSuchTask, NoSuchContest, NoSuchCommission}
    ensures r.Ok? ==> r.value == Grade(s, UserByUid(s, uid).value.id, id, value, comment)
  {
    if value != 0.0 && value != 2.0 && value != 5.0 && value != 6.0 then Err(InvalidValue)
    else
      var user := UserByUid(s, uid);
      if user.None? then Err(NoSuchUserUid)
      else
        var solution := FindById(s.solutions, id);
        if solution.None? then Err(NoSuchSolution)
        else
          var task := FindById(s.tasks, solution.value.data.taskId);
          if task.None? then Err(NoSuchTask)
          else
            var contest := FindById(s.contests, task.value.data.contestId);
            if contest.None? then Err(NoSuchContest)
            else if CommissionOf(s, user.value.id, contest.value.id).None? then Err(NoSuchCommission)
            else
              Ok(Grade(s, user.value.id, id, value, comment))
  }

  /**
   * The write half of grading: creates the mark of grader `graderId` on
   * solution `id` and points the solution's markId at it.
   */
  function Grade(s: Store, graderId: int, id: int, value: real, comment: string): (s': Store)
    ensures var mark := Row(s.marks.next, Mark(id, graderId, value, comment));
            && s' == s.(marks := s'.marks, solutions := s'.solutions)
            && mark in s'.marks.rows && s'.marks.next > s.marks.next
            && (forall m :: m in s'.marks.rows ==> m in s.marks.rows || m == mark)
            && (forall m :: m in s.marks.rows ==> m in s'.marks.rows)
            && (forall x :: x in s.solutions.rows && x.id != id ==> x in s'.solutions.rows)
            && (forall x :: x in s.solutions.rows && x.id == id ==>
                  Row(id, x.data.(markId := Some(mark.id))) in s'.solutions.rows)
            && |s'.marks.rows| == |s.marks.rows| + 1 && |s'.solutions.rows| == |s.solutions.rows|
            && (forall y :: y in s'.solutions.rows ==>
                  (y in s.solutions.rows && y.id != id)
                  || (y.id == id && exists x :: x in s.solutions.rows && x.id == id
                                                && y.data == x.data.(markId := Some(mark.id))))
    ensures s.Valid() ==> s'.Valid()
    ensures Tables.Valid(s.solutions) ==>
              forall x :: x in s.solutions.rows && x.id == id ==>
                FindById(s'.solutions, id) == Some(Row(id, x.data.(markId := Some(s.marks.next))))
  {
    var (marks', mark) := Insert(s.marks, Mark(id, graderId, value, comment));
    var solutions' := UpdateById(s.solutions, id, (x: Solution) => x.(markId := Some(mark.id)));
    s.(marks := marks', solutions := solutions')
  }

  /**
   * Grading the same solution again succeeds and adds a second mark: the
   * solution's markId now names the newer one, and the older mark stays.
   */
  lemma MarkSolutionTwiceAddsTwoMarks(s: Store, uid: Uid, id: int, v1: real, c1: string, v2: real, c2: string)
    requires s.Valid() && ValidMarkValue(v1) && ValidMarkValue(v2)
    requires UserByUid(s, uid).Some? && ContestOfSolution(s, id).Some?
    requires OnCommission(s, UserByUid(s, uid).value, ContestOfSolution(s, id).value.id)
    ensures var grader := UserByUid(s, uid).value.id;
            var s1 := Grade(s, grader, id, v1, c1);
            && MarkSolution(s, uid, id, v1, c1) == Ok(s1)
            && MarkSolution(s1, uid, id, v2, c2) == Ok(Grade(s1, grader, id, v2, c2))
            && Row(s.marks.next, Mark(id, grader, v1, c1)) in Grade(s1, grader, id, v2, c2).marks.rows
            && Row(s1.marks.next, Mark(id, grader, v2, c2)) in Grade(s1, grader, id, v2, c2).marks.rows
            && s1.marks.next != s.marks.next
            && forall x :: x in Grade(s1, grader, id, v2, c2).solutions.rows && x.id == id ==>
                 x.data.markId == Some(s1.marks.next)
  {
    var u := UserByUid(s, uid).value;
    GradeKeepsGraderRights(s, uid, u, id, v1, c1);
  }

  /** A grading step leaves the caller's user row, the solution's contest and the caller's commission row in place. */
  lemma GradeKeepsGraderRights(s: Store, uid: Uid, u: Row<User>, id: int, v: real, c: string)
    requires s.Valid() && UserByUid(s, uid) == Some(u) && ContestOfSolution(s, id).Some?
    requires OnCommission(s, u, ContestOfSolution(s, id).value.id)
    ensures var s1 := Grade(s, u.id, id, v, c);
            && s1.Valid() && UserByUid(s1, uid) == Some(u)
            && ContestOfSolution(s1, id) == ContestOfSolution(s, id)
            && OnCommission(s1, u, ContestOfSolution(s, id).value.id)
  {
    var s1 := Grade(s, u.id, id, v, c);
    assert FindById(s.solutions, id).Some?;
    assert s1.users == s.users && s1.tasks == s.tasks && s1.contests == s.contests;
    assert s1.commissions == s.commissions;
  }
}
