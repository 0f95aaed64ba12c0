/** The 'before save' trigger of the commission repository, and `create` guarded by it. */
module CommissionRepository {
  import opened Results
  import opened Tables
  import opened Store
  import opened Messages

  /**
   * The trigger, run on every save (there is no new-instance guard): the
   * contest must exist, then the user, then no row may already pair them.
   */
  function BeforeSave(s: Store, x: Commission): (r: Check)
    ensures (forall c :: c in s.contests.rows ==> c.id != x.contestId) ==> r == Reject(NoContestWithId)
    ensures ((exists c :: c in s.contests.rows && c.id == x.contestId) && (forall u :: u in s.users.rows ==> u.id != x.userId))
              ==> r == Reject(NoUserWithId)
    ensures r.Reject? ==> r.msg == NoContestWithId || r.msg == NoUserWithId || r.msg == CommissionExists
    ensures ((exists c :: c in s.contests.rows && c.id == x.contestId) && (exists u :: u in s.users.rows && u.id == x.userId)
             && (exists k :: k in s.commissions.rows && k.data == x))
              ==> r == Reject(CommissionExists)
    ensures r == Pass <==>
              && (exists c :: c in s.contests.rows && c.id == x.contestId)
              && (exists u :: u in s.users.rows && u.id == x.userId)
              && (forall k :: k in s.commissions.rows ==> k.data != x)
  {
    var contest := FindById(s.contests, x.contestId);
    if contest.None? then Reject(NoContestWithId)
    else
      var user := FindById(s.users, x.userId);
      if user.None? then Reject(NoUserWithId)
      else if CommissionOf(s, user.value.id, contest.value.id).Some? then Reject(CommissionExists)
      else Pass
  }

  /** `commissionRepository.create(x)`: the trigger, then the insert. */
  function Create(s: Store, x: Commission): (r: Result<(Store, Row<Commission>)>)
    ensures r.Ok? <==> BeforeSave(s, x) == Pass
    ensures r.Err? ==> r.msg == BeforeSave(s, x).msg
    ensures r.Ok? ==> r.value.1.data == x && r.value.0 == s.(commissions := r.value.0.commissions)
    ensures r.Ok? ==> r.value.1 in r.value.0.commissions.rows
    ensures r.Ok? ==> forall k :: k in r.value.0.commissions.rows ==> k in s.commissions.rows || k == r.value.1
    ensures r.Ok? ==> forall k :: k in s.commissions.rows ==> k in r.value.0.commissions.rows
    ensures r.Ok? && CommissionsUnique(s) ==> CommissionsUnique(r.value.0)
    ensures r.Ok? && s.Valid() ==> r.value.0.Valid()
  {
    var check := BeforeSave(s, x);
    if check.Reject? then Err(check.msg)
    else
      var (commissions', row) := Insert(s.commissions, x);
      Ok((s.(commissions := commissions'), row))
  }

  /** Saving a row that is already stored is always rejected, because the trigger runs on updates too. */
  lemma ResaveRejected(s: Store, k: Row<Commission>)
    requires k in s.commissions.rows
    ensures BeforeSave(s, k.data).Reject?
  {
  }
}
