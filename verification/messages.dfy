/** The rejection strings the controllers, triggers and the authentication strategy produce. */
module Messages {
  // Controllers.
  const NoSuchUserUid := "No such user with given firebaseUID. Could be deleted."
  const NoSuchUser := "No such user."
  const NoSuchUserWithId := "No such user with given id. Could be deleted."
  const NoSuchContest := "No such contest."
  const NoSuchContestWithId := "No such contest with given id. Could be deleted."
  const NoSuchTask := "No such task."
  const NoSuchTaskWithId := "No such task with given id."
  const NoSuchSolution := "No such solution."
  const NoSuchMark := "No such mark."
  const NoSuchCommission := "No such commission."
  const NoSuchParticipation := "No such participation."
  const InsufficientPermissions := "Insufficient permissions."
  const NotYourContest := "Not your contest."
  const NotYourContestTasks := "Not your contest, you can not add tasks to this contest."
  const NotYourContestCommission := "Not your contest, you can not add anyone to commission."
  const NotContestAdmin := "You are not the admin of this contest."
  const NotYourSolution := "Not your solution."
  const NotValidDate := "Not a valid date."
  const StartInFuture := "Contest needs to start in future."
  const StartBeforeEnd := "Start date needs to be before end date."
  const NotBeforeStart := "Not before start."
  const NotAfterEnd := "Not after end."
  const AlreadySent := "You have already sent a solution to given task."
  const CommissionAfterEnd := "Can not edit commission after the end of contest."
  const InvalidValue := "Invalid value."
  const NotValidEmail := "Not a valid email."
  const PasswordTooShort := "Password too short."
  const EmailInUse := "Email already in use."
  /** What JavaScript throws when the submission endpoint reads `task.contest.startDate` of a task whose contest is gone. */
  const UndefinedContest := "Cannot read property 'startDate' of undefined"

  // Repository 'before save' triggers.
  const NoTaskWithId := "No task with given id."
  const NoContestWithId := "No contest with given id."
  const NoUserWithId := "No user with given id."
  const NotStartedYet := "Contest not started yet."
  const CommissionExists := "Given commission already exists."

  // Authentication strategy.
  const HeaderNotFound := "Authorization header not found."
  const NotBearer := "Authorization header is not of type 'Bearer'."
  const TooManyParts := "Authorization header value has too many parts. It must follow the pattern: 'Bearer xx.yy.zz' where xx.yy.zz is a valid JWT token."
}
