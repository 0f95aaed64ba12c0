/**
 * The contest endpoints. Each takes the store and the caller's resolved
 * identity-service uid and returns the new store or listing, or the string
 * the endpoint rejects with.
 */
module ContestController {
  import opened Results
  import opened Tables
  import opened Store
  import opened Messages

  /** The request body of contest creation; the dates are still unparsed strings. */
  datatype ContestRequest = ContestRequest(title: string, startDate: string, endDate: string)

  /**
   * `DELETE /contest/{id}`: the caller must exist, the contest must exist, and
   * the caller must own it or be an ADMIN. The contest, its tasks,
   * commissions and participations, the solutions to its tasks and the marks
   * on those solutions are removed in one step.
   */
  function DelContestById(s: Store, uid: Uid, id: int): (r: Result<Store>)
    ensures UserByUid(s, uid).None? ==> r == Err(NoSuchUserUid)
    ensures UserByUid(s, uid).Some? && FindById(s.contests, id).None? ==> r == Err(NoSuchContest)
    ensures r.Ok? <==>
              && UserByUid(s, uid).Some? && FindById(s.contests, id).Some?
              && OwnerOrAdmin(UserByUid(s, uid).value, FindById(s.contests, id).value)
    ensures r.Err? ==> r.msg in {NoSuchUserUid, NoSuchContest, InsufficientPermissions}
    ensures (UserByUid(s, uid).Some? && FindById(s.contests, id).Some?
             && !OwnerOrAdmin(UserByUid(s, uid).value, FindById(s.contests, id).value))
              ==> r == Err(InsufficientPermissions)
    ensures r.Ok? ==> r.value == Cascade(s, id)
    ensures r.Ok? && s.Valid() ==> r.value.Valid()
  {
    var user := UserByUid(s, uid);
    var contest := FindById(s.contests, id);
    if user.None? then Err(NoSuchUserUid)
    else if contest.None? then Err(NoSuchContest)
    else if contest.value.data.userId != user.value.id && user.value.data.accessLevel < ADMIN then
      Err(InsufficientPermissions)
    else Ok(Cascade(s, id))
  }

  /**
   * The fan-out of a contest delete as one atomic step: the contest, then the
   * rows found through it (tasks, commissions, participations; the solutions
   * to those tasks; the marks on those solutions), each deleted by id.
   */
  function Cascade(s: Store, id: int): (s': Store)
    ensures s'.users == s.users
    ensures s.Valid() ==> s'.Valid()
    ensures forall c :: c in s'.contests.rows ==> c.id != id && c in s.contests.rows
    ensures forall t :: t in s'.tasks.rows ==> t.data.contestId != id && t in s.tasks.rows
    ensures forall k :: k in s'.commissions.rows ==> k.data.contestId != id && k in s.commissions.rows
    ensures forall p :: p in s'.participations.rows ==> p.data.contestId != id && p in s.participations.rows
    ensures forall x :: x in s'.solutions.rows ==> x.data.taskId !in TaskIdsIn(s, {id}) && x in s.solutions.rows
    ensures forall m :: m in s'.marks.rows ==>
              m.data.solutionId !in SolutionIdsOn(s, TaskIdsIn(s, {id})) && m in s.marks.rows
    ensures forall c :: c in s.contests.rows && c.id != id ==> c in s'.contests.rows
    ensures Tables.Valid(s.tasks) ==>
              forall t :: t in s.tasks.rows && t.data.contestId != id ==> t in s'.tasks.rows
    ensures Tables.Valid(s.commissions) ==>
              forall k :: k in s.commissions.rows && k.data.contestId != id ==> k in s'.commissions.rows
    ensures Tables.Valid(s.participations) ==>
              forall p :: p in s.participations.rows && p.data.contestId != id ==> p in s'.participations.rows
    ensures Tables.Valid(s.solutions) ==>
              forall x :: x in s.solutions.rows && x.data.taskId !in TaskIdsIn(s, {id}) ==> x in s'.solutions.rows
    ensures Tables.Valid(s.marks) ==>
              forall m :: m in s.marks.rows && m.data.solutionId !in SolutionIdsOn(s, TaskIdsIn(s, {id})) ==>
                m in s'.marks.rows
  {
    var taskIds := TaskIdsIn(s, {id});
    var solutionIds := SolutionIdsOn(s, taskIds);
    s.(contests := DeleteIds(s.contests, {id}),
       tasks := DeleteIds(s.tasks, taskIds),
       commissions := DeleteIds(s.commissions, CommissionIdsIn(s, id)),
       participations := DeleteIds(s.participations, ParticipationIdsIn(s, id)),
       solutions := DeleteIds(s.solutions, solutionIds),
       marks := DeleteIds(s.marks, MarkIdsOn(s, solutionIds)))
  }

  /** After a contest delete nothing that pointed at the contest remains, and no row was altered. */
  lemma DelContestByIdLeavesNoOrphans(s: Store, uid: Uid, id: int)
    ensures DelContestById(s, uid, id).Ok? ==>
      var s' := DelContestById(s, uid, id).value;
      && (forall c :: c in s'.contests.rows ==> c.id != id && c in s.contests.rows)
      && (forall t :: t in s'.tasks.rows ==> t.data.contestId != id && t in s.tasks.rows)
      && (forall k :: k in s'.commissions.rows ==> k.data.contestId != id && k in s.commissions.rows)
      && (forall p :: p in s'.participations.rows ==> p.data.contestId != id && p in s.participations.rows)
      && (forall x :: x in s'.solutions.rows ==> x.data.taskId !in TaskIdsIn(s, {id}) && x in s.solutions.rows)
      && (forall m :: m in s'.marks.rows ==>
            m.data.solutionId !in SolutionIdsOn(s, TaskIdsIn(s, {id})) && m in s.marks.rows)
      && s'.users == s.users
  {
    if DelContestById(s, uid, id).Ok? {
      assert DelContestById(s, uid, id).value == Cascade(s, id);
    }
  }

  /** Rows not linked to the contest through task, solution and mark survive a contest delete. */
  lemma DelContestByIdFrame(s: Store, uid: Uid, id: int)
    requires s.Valid()
    ensures DelContestById(s, uid, id).Ok? ==>
      var s' := DelContestById(s, uid, id).value;
      && (forall c :: c in s.contests.rows && c.id != id ==> c in s'.contests.rows)
      && (forall t :: t in s.tasks.rows && t.data.contestId != id ==> t in s'.tasks.rows)
      && (forall k :: k in s.commissions.rows && k.data.contestId != id ==> k in s'.commissions.rows)
      && (forall p :: p in s.participations.rows && p.data.contestId != id ==> p in s'.participations.rows)
      && (forall x :: x in s.solutions.rows && x.data.taskId !in TaskIdsIn(s, {id}) ==> x in s'.solutions.rows)
      && (forall m :: m in s.marks.rows && m.data.solutionId !in SolutionIdsOn(s, TaskIdsIn(s, {id})) ==>
            m in s'.marks.rows)
  {
    if DelContestById(s, uid, id).Ok? {
      assert DelContestById(s, uid, id).value == Cascade(s, id);
    }
    assert Tables.Valid(s.tasks) && Tables.Valid(s.commissions) && Tables.Valid(s.participations);
    assert Tables.Valid(s.solutions) && Tables.Valid(s.marks);
  }

  /** `GET /contest/all`: every contest, for an ADMIN only. */
  function GetAll(s: Store, uid: Uid): (r: Result<seq<Row<Contest>>>)
    ensures UserByUid(s, uid).None? ==> r == Err(NoSuchUserUid)
    ensures r.Ok? <==> UserByUid(s, uid).Some? && IsAdmin(UserByUid(s, uid).value)
    ensures r.Err? ==> r.msg in {NoSuchUserUid, InsufficientPermissions}
    ensures r.Ok? ==> r.value == s.contests.rows
  {
    var user := UserByUid(s, uid);
    if user.None? then Err(NoSuchUserUid)
    else if user.value.data.accessLevel < ADMIN then Err(InsufficientPermissions)
    else Ok(s.contests.rows)
  }

  /**
   * What `new Date(JSON.parse(text))` makes of a date field: `JSON.parse`
   * throws a SyntaxError (with the parser's message) on text that is not
   * JSON; otherwise the date is invalid (NaN) or a point in time.
   */
  datatype ParsedDate = NotJson(error: string) | InvalidDate | ValidDate(time: int)

  /**
   * `POST /contest/create`. Both fields are parsed as JSON first, the start
   * date before the end date, so a syntax error in either wins over every
   * other check. Then both dates must be valid, the contest must start
   * strictly after `now` and strictly before it ends; only then is the
   * caller looked up, who needs at least CONTEST_CREATOR and becomes the
   * owner.
   */
  function Register(s: Store, uid: Uid, now: int, request: ContestRequest, parseDate: string -> ParsedDate)
    : (r: Result<(Store, Row<Contest>)>)
    ensures parseDate(request.startDate).NotJson? ==> r == Err(parseDate(request.startDate).error)
    ensures !parseDate(request.startDate).NotJson? && parseDate(request.endDate).NotJson? ==>
              r == Err(parseDate(request.endDate).error)
    ensures (!parseDate(request.startDate).NotJson? && !parseDate(request.endDate).NotJson?
             && (parseDate(request.startDate).InvalidDate? || parseDate(request.endDate).InvalidDate?))
              ==> r == Err(NotValidDate)
    ensures parseDate(request.startDate).ValidDate? && parseDate(request.endDate).ValidDate? ==>
              var start, end := parseDate(request.startDate).time, parseDate(request.endDate).time;
              && (now >= start ==> r == Err(StartInFuture))
              && (now < start && start >= end ==> r == Err(StartBeforeEnd))
              && (now < start < end && UserByUid(s, uid).None? ==> r == Err(NoSuchUserUid))
              && (now < start < end && UserByUid(s, uid).Some? && UserByUid(s, uid).value.data.accessLevel < CONTEST_CREATOR
                  ==> r == Err(InsufficientPermissions))
    ensures r.Ok? <==>
              && parseDate(request.startDate).ValidDate? && parseDate(request.endDate).ValidDate?
              && now < parseDate(request.startDate).time < parseDate(request.endDate).time
              && UserByUid(s, uid).Some? && UserByUid(s, uid).value.data.accessLevel >= CONTEST_CREATOR
    ensures r.Ok? ==>
              && r.value.1.data == Contest(UserByUid(s, uid).value.id, request.title,
                                           parseDate(request.startDate).time, parseDate(request.endDate).time, None)
              && r.value.1 in r.value.0.contests.rows
              && r.value.0 == s.(contests := r.value.0.contests)
              && (forall c :: c in r.value.0.contests.rows ==> c in s.contests.rows || c == r.value.1)
              && (forall c :: c in s.contests.rows ==> c in r.value.0.contests.rows)
    ensures r.Ok? && s.Valid() ==> r.value.0.Valid()
  {
    var startDate := parseDate(request.startDate);
    var endDate := parseDate(request.endDate);
    if startDate.NotJson? then Err(startDate.error)
    else if endDate.NotJson? then Err(endDate.error)
    else if startDate.InvalidDate? then Err(NotValidDate)
    else if endDate.InvalidDate? then Err(NotValidDate)
    else if !(now < startDate.time) then Err(StartInFuture)
    else if !(startDate.time < endDate.time) then Err(StartBeforeEnd)
    else
      var user := UserByUid(s, uid);
      if user.None? then Err(NoSuchUserUid)
      else if user.value.data.accessLevel < CONTEST_CREATOR then Err(InsufficientPermissions)
      else
        var (contests', row) :=
          Insert(s.contests, Contest(user.value.id, request.title, startDate.time, endDate.time, None));
        Ok((s.(contests := contests'), row))
  }

  /**
   * `GET /contest/{id}`: the contest, if the caller owns it or has a
   * participation row for it. An ADMIN has no bypass here.
   */
  function GetContestById(s: Store, uid: Uid, id: int): (r: Result<Row<Contest>>)
    ensures UserByUid(s, uid).None? ==> r == Err(NoSuchUserUid)
    ensures UserByUid(s, uid).Some? && FindById(s.contests, id).None? ==> r == Err(NoSuchContest)
    ensures r.Ok? <==>
              && UserByUid(s, uid).Some? && FindById(s.contests, id).Some?
              && (Owns(UserByUid(s, uid).value, FindById(s.contests, id).value)
                  || Participates(s, UserByUid(s, uid).value, id))
    ensures r.Ok? ==> r.value in s.contests.rows && r.value.id == id
    ensures r.Err? && UserByUid(s, uid).Some? && FindById(s.contests, id).Some? ==> r.msg == NotYourContest
  {
    var user := UserByUid(s, uid);
    if user.None? then Err(NoSuchUserUid)
    else
      var contest := FindById(s.contests, id);
      var participation := ParticipationOf(s, user.value.id, id);
      if contest.None? then Err(NoSuchContest)
      else if contest.value.data.userId == user.value.id then Ok(contest.value)
      else if participation.None? then Err(NotYourContest)
      else Ok(contest.value)
  }

  /** `GET /contest/my/as_admin`: the contests the caller owns. */
  function GetMyContestsAsAdmin(s: Store, uid: Uid): (r: Result<seq<Row<Contest>>>)
    ensures r.Ok? <==> UserByUid(s, uid).Some?
    ensures r.Err? ==> r.msg == NoSuchUserUid
    ensures r.Ok? ==> forall c :: c in r.value ==> c in s.contests.rows && Owns(UserByUid(s, uid).value, c)
    ensures r.Ok? ==> forall c :: c in s.contests.rows && Owns(UserByUid(s, uid).value, c) ==> c in r.value
  {
    var user := UserByUid(s, uid);
    if user.None? then Err(NoSuchUserUid)
    else Ok(Filter(s.contests.rows, (c: Row<Contest>) => c.data.userId == user.value.id))
  }

  /**
   * `GET /contest/my/as_commission`: the contests whose id equals the id of
   * one of the caller's commission rows (the commission row's own id, not
   * its contestId).
   */
  function GetMyContestsAsCommission(s: Store, uid: Uid): (r: Result<seq<Row<Contest>>>)
    ensures r.Ok? <==> UserByUid(s, uid).Some?
    ensures r.Err? ==> r.msg == NoSuchUserUid
    ensures r.Ok? ==> forall c :: c in r.value ==>
              c in s.contests.rows
              && exists k :: k in s.commissions.rows && k.data.userId == UserByUid(s, uid).value.id && k.id == c.id
    ensures r.Ok? ==> forall c, k ::
              (c in s.contests.rows && k in s.commissions.rows && k.data.userId == UserByUid(s, uid).value.id && k.id == c.id)
              ==> c in r.value
  {
    var user := UserByUid(s, uid);
    if user.None? then Err(NoSuchUserUid)
    else
      var commissionIds := IdsWhere(s.commissions, (k: Row<Commission>) => k.data.userId == user.value.id);
      Ok(Filter(s.contests.rows, (c: Row<Contest>) => c.id in commissionIds))
  }

  /** The contests the caller sits on the commission of, as the as_commission listing evidently means. */
  function GetMyContestsAsCommissionIntended(s: Store, uid: Uid): (r: Result<seq<Row<Contest>>>)
    ensures r.Ok? <==> UserByUid(s, uid).Some?
    ensures r.Err? ==> r.msg == NoSuchUserUid
    ensures r.Ok? ==> forall c :: c in r.value ==> c in s.contests.rows && OnCommission(s, UserByUid(s, uid).value, c.id)
    ensures r.Ok? ==> forall c :: c in s.contests.rows && OnCommission(s, UserByUid(s, uid).value, c.id) ==> c in r.value
  {
    var user := UserByUid(s, uid);
    if user.None? then Err(NoSuchUserUid)
    else
      var contestIds := set k | k in s.commissions.rows && k.data.userId == user.value.id :: k.data.contestId;
      Ok(Filter(s.contests.rows, (c: Row<Contest>) => c.id in contestIds))
  }

  /**
   * A contest the caller grades is missing from the as_commission listing
   * when none of the caller's commission rows happens to carry its id as
   * the row's own id.
   */
  lemma GetMyContestsAsCommissionMisses(s: Store, uid: Uid, a: Row<User>, k: Row<Commission>, c: Row<Contest>)
    requires UserByUid(s, uid) == Some(a) && k in s.commissions.rows && k.data == Commission(c.id, a.id)
    requires c in s.contests.rows
    requires forall k' :: k' in s.commissions.rows && k'.data.userId == a.id ==> k'.id != c.id
    ensures c !in GetMyContestsAsCommission(s, uid).value
    ensures c in GetMyContestsAsCommissionIntended(s, uid).value
  {
  }

  /**
   * A valid store: user 1 sits on the commission of contest 2 through
   * commission row 1, and contest 1 is someone else's.
   */
  function CommissionIdStore(): (s: Store)
    ensures s.Valid()
  {
    var c1 := Row(1, Contest(2, "other", 0, 10, None));
    var c2 := Row(2, Contest(2, "graded", 0, 10, None));
    assert forall x :: x in [c1, c2] ==> x == c1 || x == c2;
    Store(Table([Row(1, User("uid-a", "A", "a@x.org", BASIC))], 2), Table([c1, c2], 3), Table([], 1),
          Table([], 1), Table([], 1), Table([Row(1, Commission(2, 1))], 2), Table([], 1))
  }

  /** There, user 1's as_commission listing holds contest 1, which they do not grade, and not contest 2, which they do. */
  lemma GetMyContestsAsCommissionWitness()
    ensures var s := CommissionIdStore();
            && s.contests.rows[0] in GetMyContestsAsCommission(s, "uid-a").value
            && s.contests.rows[1] !in GetMyContestsAsCommission(s, "uid-a").value
            && !OnCommission(s, s.users.rows[0], s.contests.rows[0].id)
            && OnCommission(s, s.users.rows[0], s.contests.rows[1].id)
  {
    var s := CommissionIdStore();
    var a := s.users.rows[0];
    var k := s.commissions.rows[0];
    assert UserByUid(s, "uid-a") == Some(a);
    assert forall k' :: k' in s.commissions.rows ==> k' == k;
    GetMyContestsAsCommissionMisses(s, "uid-a", a, k, s.contests.rows[1]);
    assert s.contests.rows[0].id == k.id;
  }

  /** `GET /contest/my/as_user`: the contests the caller has a participation row for. */
  function GetMyContestsAsUser(s: Store, uid: Uid): (r: Result<seq<Row<Contest>>>)
    ensures r.Ok? <==> UserByUid(s, uid).Some?
    ensures r.Err? ==> r.msg == NoSuchUserUid
    ensures r.Ok? ==> forall c :: c in r.value ==> c in s.contests.rows && Participates(s, UserByUid(s, uid).value, c.id)
    ensures r.Ok? ==> forall c :: c in s.contests.rows && Participates(s, UserByUid(s, uid).value, c.id) ==> c in r.value
  {
    var user := UserByUid(s, uid);
    if user.None? then Err(NoSuchUserUid)
    else
      var contestIds := set p | p in s.participations.rows && p.data.userId == user.value.id :: p.data.contestId;
      Ok(Filter(s.contests.rows, (c: Row<Contest>) => c.id in contestIds))
  }

  /**
   * An ADMIN's listing of all contests contains every contest the per-user
   * listings and the single-contest lookup hand the same caller.
   */
  lemma GetAllCoversListings(s: Store, uid: Uid, id: int)
    ensures GetAll(s, uid).Ok? ==>
              && GetMyContestsAsAdmin(s, uid).Ok? && GetMyContestsAsUser(s, uid).Ok?
              && GetMyContestsAsCommission(s, uid).Ok?
              && (forall c :: c in GetMyContestsAsAdmin(s, uid).value ==> c in GetAll(s, uid).value)
              && (forall c :: c in GetMyContestsAsUser(s, uid).value ==> c in GetAll(s, uid).value)
              && (forall c :: c in GetMyContestsAsCommission(s, uid).value ==> c in GetAll(s, uid).value)
              && (GetContestById(s, uid, id).Ok? ==> GetContestById(s, uid, id).value in GetAll(s, uid).value)
  {
  }
}
