/**
 * The user endpoints. The identity service (account creation, sign-in,
 * custom tokens) is outside the model: its outcome is a parameter, and so is
 * the email pattern.
 */
module UserController {
  import opened Results
  import opened Tables
  import opened Store
  import opened Messages
  import opened UserRepository

  datatype RegisterRequest = RegisterRequest(displayName: string, email: string, password: string)

  /**
   * JavaScript's `length` of a string: the number of UTF-16 code units, so a
   * character outside the Basic Multilingual Plane counts twice.
   */
  function Utf16Length(s: string): (n: nat)
    ensures |s| <= n <= 2 * |s|
  {
    if |s| == 0 then 0
    else (if s[0] as int > 0xFFFF then 2 else 1) + Utf16Length(s[1..])
  }

  /** On a string without characters above U+FFFF the two lengths agree. */
  lemma {:induction false} Utf16LengthOfBmp(s: string)
    requires forall i :: 0 <= i < |s| ==> s[i] as int <= 0xFFFF
    ensures Utf16Length(s) == |s|
  {
    if |s| > 0 {
      Utf16LengthOfBmp(s[1..]);
    }
  }

  /**
   * `POST /user/register`: the email must match the pattern, then the
   * password must be at least 6 UTF-16 code units long; the availability check is not
   * awaited, so its branch is dead. The identity service's outcome decides
   * the rest: its error message is passed on, or the returned uid is stored
   * with the request's email and display name at level BASIC.
   */
  function Register(s: Store, request: RegisterRequest, isEmail: string -> bool, createUser: Result<Uid>)
    : (r: Result<(Store, Row<User>)>)
    ensures !isEmail(request.email) ==> r == Err(NotValidEmail)
    ensures isEmail(request.email) && Utf16Length(request.password) < 6 ==> r == Err(PasswordTooShort)
    ensures isEmail(request.email) && Utf16Length(request.password) >= 6 && createUser.Err? ==> r == Err(createUser.msg)
    ensures r.Ok? <==> isEmail(request.email) && Utf16Length(request.password) >= 6 && createUser.Ok?
    ensures r.Ok? ==>
              && r.value.1.data == User(createUser.value, request.displayName, request.email, BASIC)
              && r.value.0 == s.(users := r.value.0.users)
              && r.value.1 in r.value.0.users.rows
              && (forall u :: u in r.value.0.users.rows ==> u in s.users.rows || u == r.value.1)
              && (forall u :: u in s.users.rows ==> u in r.value.0.users.rows)
    ensures r.Ok? && s.Valid() ==> r.value.0.Valid()
  {
    if !isEmail(request.email) then Err(NotValidEmail)
    else if Utf16Length(request.password) < 6 then Err(PasswordTooShort)
    else if !Truthy(CheckEmailAvailable(s, request.email)) then Err(EmailInUse)
    else if createUser.Err? then Err(createUser.msg)
    else
      var (users', row) := Insert(s.users, User(createUser.value, request.displayName, request.email, BASIC));
      Ok((s.(users := users'), row))
  }

  /** "Email already in use." is never the outcome of a registration. */
  lemma RegisterNeverReportsEmailInUse(s: Store, request: RegisterRequest, isEmail: string -> bool, createUser: Result<Uid>)
    requires createUser.Err? ==> createUser.msg != EmailInUse
    ensures Register(s, request, isEmail, createUser) != Err(EmailInUse)
  {
  }

  /**
   * The length check counts code units: three emoji (six code units, three
   * characters) pass it, and the identity service's outcome decides.
   */
  lemma RegisterCountsCodeUnits(s: Store, name: string, email: string, isEmail: string -> bool, createUser: Result<Uid>)
    requires isEmail(email)
    ensures var r := Register(s, RegisterRequest(name, email, "\U{1F600}\U{1F600}\U{1F600}"), isEmail, createUser);
            && |"\U{1F600}\U{1F600}\U{1F600}"| == 3
            && (createUser.Err? ==> r == Err(createUser.msg))
            && (r.Ok? <==> createUser.Ok?)
  {
    assert Utf16Length("\U{1F600}\U{1F600}\U{1F600}") == 6;
  }

  /**
   * The local table and the identity service can diverge (an address the
   * table holds that the service no longer knows). When the service then
   * accepts the address again, nothing local refuses it: in this concrete
   * store registration succeeds and two users share the address. In the
   * ordinary case the service itself refuses the address with its own
   * message, and "Email already in use." is still never produced.
   */
  lemma RegisterDuplicateEmailWitness()
    ensures var r := Register(AliceStore(), RegisterRequest("Eve", "a@x.org", "secret"), _ => true, Ok("uid-e"));
            && EmailsUnique(AliceStore())
            && r.Ok? && !EmailsUnique(r.value.0)
  {
    var s := AliceStore();
    assert Utf16Length("secret") == 6;
    assert s.users.rows[0].data.email == "a@x.org";
    RegisterDuplicates(s, RegisterRequest("Eve", "a@x.org", "secret"), _ => true, Ok("uid-e"));
  }

  /** A valid store holding one user, Alice, with address a@x.org. */
  function AliceStore(): (s: Store)
    ensures s.Valid() && EmailsUnique(s)
  {
    Store(Table([Row(1, User("uid-a", "Alice", "a@x.org", BASIC))], 2), Table([], 1), Table([], 1), Table([], 1),
          Table([], 1), Table([], 1), Table([], 1))
  }

  /**
   * In a valid store, once the identity service accepts an address the
   * table already holds, registration succeeds and the addresses stop being
   * unique.
   */
  lemma RegisterDuplicates(s: Store, request: RegisterRequest, isEmail: string -> bool, createUser: Result<Uid>)
    requires s.Valid() && !EmailFree(s, request.email)
    requires isEmail(request.email) && Utf16Length(request.password) >= 6 && createUser.Ok?
    ensures var r := Register(s, request, isEmail, createUser);
            r.Ok? && !EmailsUnique(r.value.0)
  {
    var r := Register(s, request, isEmail, createUser);
    var held :| held in s.users.rows && held.data.email == request.email;
    assert held in r.value.0.users.rows && held.id != r.value.1.id;
  }

  /**
   * Registration with the availability check awaited: a taken address is
   * refused with "Email already in use.", so addresses stay unique.
   */
  function RegisterAwaited(s: Store, request: RegisterRequest, isEmail: string -> bool, createUser: Result<Uid>)
    : (r: Result<(Store, Row<User>)>)
    ensures isEmail(request.email) && Utf16Length(request.password) >= 6 && !EmailFree(s, request.email) ==> r == Err(EmailInUse)
    ensures r.Ok? <==>
              isEmail(request.email) && Utf16Length(request.password) >= 6 && EmailFree(s, request.email) && createUser.Ok?
    ensures r.Ok? ==> r.value.1.data == User(createUser.value, request.displayName, request.email, BASIC)
    ensures r.Ok? && EmailsUnique(s) ==> EmailsUnique(r.value.0)
    ensures r.Ok? && s.Valid() ==> r.value.0.Valid()
  {
    if !isEmail(request.email) then Err(NotValidEmail)
    else if Utf16Length(request.password) < 6 then Err(PasswordTooShort)
    else if !CheckEmailAvailable(s, request.email).eventually then Err(EmailInUse)
    else if createUser.Err? then Err(createUser.msg)
    else
      var (users', row) := Insert(s.users, User(createUser.value, request.displayName, request.email, BASIC));
      Ok((s.(users := users'), row))
  }

  /**
   * `POST /user/login`: the email must match the pattern before the identity
   * service is asked; the availability check is dead here too. The result is
   * the identity service's token or its error message.
   */
  function Login(s: Store, email: string, isEmail: string -> bool, signIn: Result<string>): (r: Result<string>)
    ensures !isEmail(email) ==> r == Err(NotValidEmail)
    ensures isEmail(email) ==> r == signIn
  {
    if !isEmail(email) then Err(NotValidEmail)
    else if !Truthy(CheckEmailAvailable(s, email)) then Err(EmailInUse)
    else signIn
  }

  /**
   * The outcome of a login does not depend on the local user table: the
   * availability check is dead, so only the pattern and the identity
   * service decide.
   */
  lemma LoginIgnoresStore(s1: Store, s2: Store, email: string, isEmail: string -> bool, signIn: Result<string>)
    ensures Login(s1, email, isEmail, signIn) == Login(s2, email, isEmail, signIn)
    ensures signIn.Err? && signIn.msg != EmailInUse ==> Login(s1, email, isEmail, signIn) != Err(EmailInUse)
  {
  }

  /** `GET /user/all`: every user, for an ADMIN only. */
  function GetAll(s: Store, uid: Uid): (r: Result<seq<Row<User>>>)
    ensures UserByUid(s, uid).None? ==> r == Err(NoSuchUserUid)
    ensures r.Ok? <==> UserByUid(s, uid).Some? && IsAdmin(UserByUid(s, uid).value)
    ensures r.Err? ==> r.msg in {NoSuchUserUid, InsufficientPermissions}
    ensures r.Ok? ==> r.value == s.users.rows
  {
    var user := UserByUid(s, uid);
    if user.None? then Err(NoSuchUserUid)
    else if user.value.data.accessLevel < ADMIN then Err(InsufficientPermissions)
    else Ok(s.users.rows)
  }

  /**
   * A user who registers appears in an ADMIN's listing of all users
   * afterwards, and no row of the listing before is lost.
   */
  lemma RegisteredUserListed(s: Store, request: RegisterRequest, isEmail: string -> bool, createUser: Result<Uid>, admin: Uid)
    requires GetAll(s, admin).Ok?
    ensures var r := Register(s, request, isEmail, createUser);
            r.Ok? ==>
              && GetAll(r.value.0, admin).Ok?
              && r.value.1 in GetAll(r.value.0, admin).value
              && forall u :: u in GetAll(s, admin).value ==> u in GetAll(r.value.0, admin).value
  {
    var r := Register(s, request, isEmail, createUser);
    if r.Ok? {
      assert r.value.0.users.rows == s.users.rows + [r.value.1];
      FindFirstAppend(s.users.rows, [r.value.1], (u: Row<User>) => u.data.firebaseUID == admin);
      assert UserByUid(r.value.0, admin) == UserByUid(s, admin);
    }
  }
}
