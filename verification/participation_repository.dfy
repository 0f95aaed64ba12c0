/** The 'before save' trigger of the participation repository, and `create` guarded by it. */
module ParticipationRepository {
  import opened Results
  import opened Tables
  import opened Store
  import opened Messages

  /**
   * The trigger, run on every save (there is no new-instance guard): the
   * contest must exist, then the user, then no row may already pair them.
   * A duplicate is reported with the commission trigger's message.
   */
  function BeforeSave(s: Store, x: Participation): (r: Check)
    ensures (forall c :: c in s.contests.rows ==> c.id != x.contestId) ==> r == Reject(NoContestWithId)
    ensures ((exists c :: c in s.contests.rows && c.id == x.contestId) && (forall u :: u in s.users.rows ==> u.id != x.userId))
              ==> r == Reject(NoUserWithId)
    ensures r.Reject? ==> r.msg == NoContestWithId || r.msg == NoUserWithId || r.msg == CommissionExists
    ensures ((exists c :: c in s.contests.rows && c.id == x.contestId) && (exists u :: u in s.users.rows && u.id == x.userId)
             && (exists k :: k in s.participations.rows && k.data == x))
              ==> r == Reject(CommissionExists)
    ensures r == Pass <==>
              && (exists c :: c in s.contests.rows && c.id == x.contestId)
              && (exists u :: u in s.users.rows && u.id == x.userId)
              && (forall k :: k in s.participations.rows ==> k.data != x)
  {
    var contest := FindById(s.contests, x.contestId);
    if contest.None? then Reject(NoContestWithId)
    else
      var user := FindById(s.users, x.userId);
      if user.None? then Reject(NoUserWithId)
      else if ParticipationOf(s, user.value.id, contest.value.id).Some? then Reject(CommissionExists)
      else Pass
  }

  /** `participationRepository.create(x)`: the trigger, then the insert. */
  function Create(s: Store, x: Participation): (r: Result<(Store, Row<Participation>)>)
    ensures r.Ok? <==> BeforeSave(s, x) == Pass
    ensures r.Err? ==> r.msg == BeforeSave(s, x).msg
    ensures r.Ok? ==> r.value.1.data == x && r.value.0 == s.(participations := r.value.0.participations)
    ensures r.Ok? ==> r.value.1 in r.value.0.participations.rows
    ensures r.Ok? ==> forall k :: k in r.value.0.participations.rows ==> k in s.participations.rows || k == r.value.1
    ensures r.Ok? ==> forall k :: k in s.participations.rows ==> k in r.value.0.participations.rows
    ensures r.Ok? && ParticipationsUnique(s) ==> ParticipationsUnique(r.value.0)
    ensures r.Ok? && s.Valid() ==> r.value.0.Valid()
  {
    var check := BeforeSave(s, x);
    if check.Reject? then Err(check.msg)
    else
      var (participations', row) := Insert(s.participations, x);
      Ok((s.(participations := participations'), row))
  }

  /** Saving a row that is already stored is always rejected, because the trigger runs on updates too. */
  lemma ResaveRejected(s: Store, k: Row<Participation>)
    requires k in s.participations.rows
    ensures BeforeSave(s, k.data).Reject?
  {
  }
}
