/** The user repository's availability check, and the uniqueness property it is meant to protect. */
module UserRepository {
  import opened Tables
  import opened Store

  /**
   * A value as a JavaScript condition sees it: a plain boolean, or a Promise
   * object whose eventual boolean the condition never looks at.
   */
  datatype JsCondition = JsBool(b: bool) | JsPromise(eventually: bool)

  /** JavaScript truthiness: every object, a pending Promise included, is truthy. */
  predicate Truthy(v: JsCondition) {
    match v
    case JsBool(b) => b
    case JsPromise(_) => true
  }

  /** No stored user has address `email`. */
  ghost predicate EmailFree(s: Store, email: string) {
    forall u :: u in s.users.rows ==> u.data.email != email
  }

  /** No two stored users share an address. */
  ghost predicate EmailsUnique(s: Store) {
    forall a, b :: a in s.users.rows && b in s.users.rows && a.data.email == b.data.email ==> a == b
  }

  /**
   * `userRepository.checkEmailAvailable(email)`: an async method, so what the
   * caller receives is a Promise that settles to whether the address is free.
   */
  function CheckEmailAvailable(s: Store, email: string): (r: JsCondition)
    ensures r.JsPromise?
    ensures r.eventually <==> EmailFree(s, email)
  {
    var taken := Filter(s.users.rows, (u: Row<User>) => u.data.email == email);
    assert |taken| > 0 ==> taken[0] in taken;
    JsPromise(|taken| == 0)
  }
}
