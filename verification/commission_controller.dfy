/** The commission endpoints. */
module CommissionController {
  import opened Results
  import opened Tables
  import opened Store
  import opened Messages
  import CommissionRepository

  /**
   * `DELETE /commission/{id}` (the handler is named `delTaskById`): the
   * commission must exist, then the caller, then the commission's contest;
   * the caller must own that contest or be an ADMIN.
   */
  function DelCommissionById(s: Store, uid: Uid, id: int): (r: Result<Store>)
    ensures FindById(s.commissions, id).None? ==> r == Err(NoSuchCommission)
    ensures FindById(s.commissions, id).Some? && UserByUid(s, uid).None? ==> r == Err(NoSuchUserUid)
    ensures r.Ok? <==>
              && FindById(s.commissions, id).Some? && UserByUid(s, uid).Some?
              && var contest := FindById(s.contests, FindById(s.commissions, id).value.data.contestId);
              && contest.Some? && OwnerOrAdmin(UserByUid(s, uid).value, contest.value)
    ensures r.Err? ==> r.msg in {NoSuchCommission, NoSuchUserUid, NoSuchContest, InsufficientPermissions}
    ensures r.Ok? ==> r.value == Cascade(s, id, UserByUid(s, uid).value.id)
  {
    var commission := FindById(s.commissions, id);
    if commission.None? then Err(NoSuchCommission)
    else
      var contest := FindById(s.contests, commission.value.data.contestId);
      var user := UserByUid(s, uid);
      if user.None? then Err(NoSuchUserUid)
      else if contest.None? then Err(NoSuchContest)
      else if contest.value.data.userId != user.value.id && user.value.data.accessLevel < ADMIN then
        Err(InsufficientPermissions)
      else Ok(Cascade(s, id, user.value.id))
  }

  /**
   * The fan-out of a commission delete as one atomic step: the commission
   * row, every solution written by `callerId` (the user making the request,
   * in any contest) and the marks on those solutions.
   */
  function Cascade(s: Store, id: int, callerId: int): (s': Store)
    ensures s' == s.(commissions := s'.commissions, solutions := s'.solutions, marks := s'.marks)
    ensures s.Valid() ==> s'.Valid()
    ensures forall k :: k in s'.commissions.rows ==> k.id != id && k in s.commissions.rows
    ensures forall k :: k in s.commissions.rows && k.id != id ==> k in s'.commissions.rows
    ensures forall x :: x in s'.solutions.rows ==> x.data.userId != callerId && x in s.solutions.rows
    ensures Tables.Valid(s.solutions) ==>
              forall x :: x in s.solutions.rows && x.data.userId != callerId ==> x in s'.solutions.rows
    ensures forall m :: m in s'.marks.rows ==> m.data.solutionId !in SolutionIdsBy(s, callerId) && m in s.marks.rows
    ensures Tables.Valid(s.marks) ==>
              forall m :: m in s.marks.rows && m.data.solutionId !in SolutionIdsBy(s, callerId) ==> m in s'.marks.rows
  {
    var solutionIds := SolutionIdsBy(s, callerId);
    s.(commissions := DeleteIds(s.commissions, {id}),
       solutions := DeleteIds(s.solutions, solutionIds),
       marks := DeleteIds(s.marks, MarkIdsOn(s, solutionIds)))
  }

  /**
   * The solutions a commission delete removes are the caller's, not the
   * commissioned user's: a commission member's own solutions survive when
   * somebody else deletes the row.
   */
  lemma DelCommissionByIdKeepsMembersSolutions(s: Store, uid: Uid, id: int)
    requires s.Valid() && DelCommissionById(s, uid, id).Ok?
    requires FindById(s.commissions, id).value.data.userId != UserByUid(s, uid).value.id
    ensures var member := FindById(s.commissions, id).value.data.userId;
            forall x :: x in s.solutions.rows && x.data.userId == member ==>
              x in DelCommissionById(s, uid, id).value.solutions.rows
  {
    assert Tables.Valid(s.solutions);
  }

  /** `GET /commission/all`: every commission row, for an ADMIN only. */
  function GetAll(s: Store, uid: Uid): (r: Result<seq<Row<Commission>>>)
    ensures UserByUid(s, uid).None? ==> r == Err(NoSuchUserUid)
    ensures r.Ok? <==> UserByUid(s, uid).Some? && IsAdmin(UserByUid(s, uid).value)
    ensures r.Err? ==> r.msg in {NoSuchUserUid, InsufficientPermissions}
    ensures r.Ok? ==> r.value == s.commissions.rows
  {
    var user := UserByUid(s, uid);
    if user.None? then Err(NoSuchUserUid)
    else if user.value.data.accessLevel < ADMIN then Err(InsufficientPermissions)
    else Ok(s.commissions.rows)
  }

  /**
   * `GET /commission/by_contest/add/{contest_id}/{user_id}`: the adder, the
   * user to add and the contest must exist, the adder must be the contest's
   * owner (an ADMIN has no bypass), and the contest must not have ended
   * (`endDate < now` rejects, so the end instant itself is still allowed).
   * The row is then created through the repository trigger.
   */
  function AddCommissionByContestId(s: Store, uid: Uid, now: int, contestId: int, userId: int)
    : (r: Result<(Store, Row<Commission>)>)
    ensures UserByUid(s, uid).None? ==> r == Err(NoSuchUserUid)
    ensures UserByUid(s, uid).Some? && FindById(s.users, userId).None? ==> r == Err(NoSuchUserWithId)
    ensures UserByUid(s, uid).Some? && FindById(s.users, userId).Some? && FindById(s.contests, contestId).None? ==>
              r == Err(NoSuchContestWithId)
    ensures r.Ok? <==>
              && UserByUid(s, uid).Some? && FindById(s.users, userId).Some? && FindById(s.contests, contestId).Some?
              && Owns(UserByUid(s, uid).value, FindById(s.contests, contestId).value)
              && now <= FindById(s.contests, contestId).value.data.endDate
              && forall k :: k in s.commissions.rows ==> k.data != Commission(contestId, userId)
    ensures r.Err? ==>
              r.msg in {NoSuchUserUid, NoSuchUserWithId, NoSuchContestWithId, NotYourContestCommission,
                        CommissionAfterEnd, CommissionExists}
    ensures r.Ok? ==>
              && r.value.1.data == Commission(contestId, userId)
              && r.value.0 == s.(commissions := r.value.0.commissions)
              && r.value.1 in r.value.0.commissions.rows
              && (forall k :: k in r.value.0.commissions.rows ==> k in s.commissions.rows || k == r.value.1)
              && (forall k :: k in s.commissions.rows ==> k in r.value.0.commissions.rows)
    ensures r.Ok? && CommissionsUnique(s) ==> CommissionsUnique(r.value.0)
    ensures r.Ok? && s.Valid() ==> r.value.0.Valid()
  {
    var adder := UserByUid(s, uid);
    var toAdd := FindById(s.users, userId);
    var contest := FindById(s.contests, contestId);
    if adder.None? then Err(NoSuchUserUid)
    else if toAdd.None? then Err(NoSuchUserWithId)
    else if contest.None? then Err(NoSuchContestWithId)
    else if adder.value.id != contest.value.data.userId then Err(NotYourContestCommission)
    else if contest.value.data.endDate < now then Err(CommissionAfterEnd)
    else CommissionRepository.Create(s, Commission(contestId, userId))
  }

  /** `GET /commission/by_contest/{contest_id}`: the contest's commission rows, for its owner or an ADMIN. */
  function GetCommissionsByContestId(s: Store, uid: Uid, contestId: int): (r: Result<seq<Row<Commission>>>)
    ensures UserByUid(s, uid).None? ==> r == Err(NoSuchUserUid)
    ensures UserByUid(s, uid).Some? && FindById(s.contests, contestId).None? ==> r == Err(NoSuchContestWithId)
    ensures r.Ok? <==>
              && UserByUid(s, uid).Some? && FindById(s.contests, contestId).Some?
              && OwnerOrAdmin(UserByUid(s, uid).value, FindById(s.contests, contestId).value)
    ensures r.Err? ==> r.msg in {NoSuchUserUid, NoSuchContestWithId, InsufficientPermissions}
    ensures r.Ok? ==> forall k :: k in r.value ==> k in s.commissions.rows && k.data.contestId == contestId
    ensures r.Ok? ==> forall k :: k in s.commissions.rows && k.data.contestId == contestId ==> k in r.value
  {
    var user := UserByUid(s, uid);
    var contest := FindById(s.contests, contestId);
    if user.None? then Err(NoSuchUserUid)
    else if contest.None? then Err(NoSuchContestWithId)
    else if contest.value.data.userId != user.value.id && user.value.data.accessLevel < ADMIN then
      Err(InsufficientPermissions)
    else Ok(Filter(s.commissions.rows, (k: Row<Commission>) => k.data.contestId == contestId))
  }

  /**
   * An ADMIN passes the guard of the per-contest commission listing for
   * every existing contest, and that listing is part of the all-commissions
   * one.
   */
  lemma GetAllCoversContestCommissions(s: Store, uid: Uid, id: int)
    ensures GetAll(s, uid).Ok? && FindById(s.contests, id).Some? ==>
              && GetCommissionsByContestId(s, uid, id).Ok?
              && forall k :: k in GetCommissionsByContestId(s, uid, id).value ==> k in GetAll(s, uid).value
  {
  }
}
