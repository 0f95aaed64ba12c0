/** The participation endpoints. */
module ParticipationController {
  import opened Results
  import opened Tables
  import opened Store
  import opened Messages
  import ParticipationRepository

  /**
   * `DELETE /participation/{id}` (the handler is named `delTaskById`): the
   * participation must exist, then the caller, then its contest; the caller
   * must own that contest or be an ADMIN.
   */
  function DelParticipationById(s: Store, uid: Uid, id: int): (r: Result<Store>)
    ensures FindById(s.participations, id).None? ==> r == Err(NoSuchParticipation)
    ensures FindById(s.participations, id).Some? && UserByUid(s, uid).None? ==> r == Err(NoSuchUserUid)
    ensures r.Ok? <==>
              && FindById(s.participations, id).Some? && UserByUid(s, uid).Some?
              && var contest := FindById(s.contests, FindById(s.participations, id).value.data.contestId);
              && contest.Some? && OwnerOrAdmin(UserByUid(s, uid).value, contest.value)
    ensures r.Err? ==> r.msg in {NoSuchParticipation, NoSuchUserUid, NoSuchContest, InsufficientPermissions}
    ensures r.Ok? ==> r.value == Cascade(s, id, UserByUid(s, uid).value.id)
  {
    var participation := FindById(s.participations, id);
    if participation.None? then Err(NoSuchParticipation)
    else
      var contest := FindById(s.contests, participation.value.data.contestId);
      var user := UserByUid(s, uid);
      if user.None? then Err(NoSuchUserUid)
      else if contest.None? then Err(NoSuchContest)
      else if contest.value.data.userId != user.value.id && user.value.data.accessLevel < ADMIN then
        Err(InsufficientPermissions)
      else Ok(Cascade(s, id, user.value.id))
  }

  /**
   * The fan-out of a participation delete as one atomic step: the
   * participation row, every solution written by `callerId` (the user making
   * the request, in any contest) and the marks on those solutions.
   */
  function Cascade(s: Store, id: int, callerId: int): (s': Store)
    ensures s' == s.(participations := s'.participations, solutions := s'.solutions, marks := s'.marks)
    ensures s.Valid() ==> s'.Valid()
    ensures forall p :: p in s'.participations.rows ==> p.id != id && p in s.participations.rows
    ensures forall p :: p in s.participations.rows && p.id != id ==> p in s'.participations.rows
    ensures forall x :: x in s'.solutions.rows ==> x.data.userId != callerId && x in s.solutions.rows
    ensures Tables.Valid(s.solutions) ==>
              forall x :: x in s.solutions.rows && x.data.userId != callerId ==> x in s'.solutions.rows
    ensures forall m :: m in s'.marks.rows ==> m.data.solutionId !in SolutionIdsBy(s, callerId) && m in s.marks.rows
    ensures Tables.Valid(s.marks) ==>
              forall m :: m in s.marks.rows && m.data.solutionId !in SolutionIdsBy(s, callerId) ==> m in s'.marks.rows
  {
    var solutionIds := SolutionIdsBy(s, callerId);
    s.(participations := DeleteIds(s.participations, {id}),
       solutions := DeleteIds(s.solutions, solutionIds),
       marks := DeleteIds(s.marks, MarkIdsOn(s, solutionIds)))
  }

  /**
   * A participation delete removes exactly one participation row: every
   * other row survives, in particular the participant's rows in other
   * contests, and the commissions, tasks, contests and users are untouched.
   */
  lemma DelParticipationByIdRemovesOnlyThatRow(s: Store, uid: Uid, id: int)
    requires DelParticipationById(s, uid, id).Ok?
    ensures var s' := DelParticipationById(s, uid, id).value;
            && (forall p :: p in s.participations.rows ==> (p in s'.participations.rows <==> p.id != id))
            && s'.users == s.users && s'.contests == s.contests && s'.tasks == s.tasks
            && s'.commissions == s.commissions
  {
    var s' := Cascade(s, id, UserByUid(s, uid).value.id);
    assert DelParticipationById(s, uid, id).value == s';
  }

  /** `GET /participation/all`: every participation row, for an ADMIN only. */
  function GetAll(s: Store, uid: Uid): (r: Result<seq<Row<Participation>>>)
    ensures UserByUid(s, uid).None? ==> r == Err(NoSuchUserUid)
    ensures r.Ok? <==> UserByUid(s, uid).Some? && IsAdmin(UserByUid(s, uid).value)
    ensures r.Err? ==> r.msg in {NoSuchUserUid, InsufficientPermissions}
    ensures r.Ok? ==> r.value == s.participations.rows
  {
    var user := UserByUid(s, uid);
    if user.None? then Err(NoSuchUserUid)
    else if user.value.data.accessLevel < ADMIN then Err(InsufficientPermissions)
    else Ok(s.participations.rows)
  }

  /** The first contest whose join code is `secret`. */
  function ContestBySecret(s: Store, secret: string): (r: Option<Row<Contest>>)
    ensures r.Some? ==> r.value in s.contests.rows && r.value.data.secret == Some(secret)
    ensures r.None? <==> forall c :: c in s.contests.rows ==> c.data.secret != Some(secret)
  {
    FindFirst(s.contests.rows, (c: Row<Contest>) => c.data.secret == Some(secret))
  }

  /**
   * `GET /participation/by_contest/add/{contest_secret}`: joins the caller to
   * the contest with that join code. There is no role check and no time
   * check; the repository trigger rejects a second row for the same pair.
   */
  function AddParticipationByContestId(s: Store, uid: Uid, secret: string): (r: Result<(Store, Row<Participation>)>)
    ensures UserByUid(s, uid).None? ==> r == Err(NoSuchUserUid)
    ensures UserByUid(s, uid).Some? && ContestBySecret(s, secret).None? ==> r == Err(NoSuchContestWithId)
    ensures r.Ok? <==>
              && UserByUid(s, uid).Some? && ContestBySecret(s, secret).Some?
              && !Participates(s, UserByUid(s, uid).value, ContestBySecret(s, secret).value.id)
    ensures r.Err? ==> r.msg in {NoSuchUserUid, NoSuchContestWithId, CommissionExists}
    ensures r.Ok? ==>
              && r.value.1.data == Participation(ContestBySecret(s, secret).value.id, UserByUid(s, uid).value.id)
              && r.value.0 == s.(participations := r.value.0.participations)
              && r.value.1 in r.value.0.participations.rows
              && (forall p :: p in r.value.0.participations.rows ==> p in s.participations.rows || p == r.value.1)
              && (forall p :: p in s.participations.rows ==> p in r.value.0.participations.rows)
    ensures r.Ok? ==> Participates(r.value.0, UserByUid(s, uid).value, ContestBySecret(s, secret).value.id)
    ensures r.Ok? && ParticipationsUnique(s) ==> ParticipationsUnique(r.value.0)
    ensures r.Ok? && s.Valid() ==> r.value.0.Valid()
  {
    var user := UserByUid(s, uid);
    var contest := ContestBySecret(s, secret);
    if user.None? then Err(NoSuchUserUid)
    else if contest.None? then Err(NoSuchContestWithId)
    else ParticipationRepository.Create(s, Participation(contest.value.id, user.value.id))
  }

  /** `GET /participation/by_contest/{contest_id}`: the contest's participation rows, for its owner or an ADMIN. */
  function GetParticipationByContestId(s: Store, uid: Uid, contestId: int): (r: Result<seq<Row<Participation>>>)
    ensures UserByUid(s, uid).None? ==> r == Err(NoSuchUserUid)
    ensures UserByUid(s, uid).Some? && FindById(s.contests, contestId).None? ==> r == Err(NoSuchContestWithId)
    ensures r.Ok? <==>
              && UserByUid(s, uid).Some? && FindById(s.contests, contestId).Some?
              && OwnerOrAdmin(UserByUid(s, uid).value, FindById(s.contests, contestId).value)
    ensures r.Err? ==> r.msg in {NoSuchUserUid, NoSuchContestWithId, InsufficientPermissions}
    ensures r.Ok? ==> forall p :: p in r.value ==> p in s.participations.rows && p.data.contestId == contestId
    ensures r.Ok? ==> forall p :: p in s.participations.rows && p.data.contestId == contestId ==> p in r.value
  {
    var user := UserByUid(s, uid);
    var contest := FindById(s.contests, contestId);
    if user.None? then Err(NoSuchUserUid)
    else if contest.None? then Err(NoSuchContestWithId)
    else if contest.value.data.userId != user.value.id && user.value.data.accessLevel < ADMIN then
      Err(InsufficientPermissions)
    else Ok(Filter(s.participations.rows, (p: Row<Participation>) => p.data.contestId == contestId))
  }

  /**
   * An ADMIN passes the guard of the per-contest participation listing for
   * every existing contest, and that listing is part of the
   * all-participations one.
   */
  lemma GetAllCoversContestParticipations(s: Store, uid: Uid, id: int)
    ensures GetAll(s, uid).Ok? && FindById(s.contests, id).Some? ==>
              && GetParticipationByContestId(s, uid, id).Ok?
              && forall p :: p in GetParticipationByContestId(s, uid, id).value ==> p in GetAll(s, uid).value
  {
  }
}
