# Contest grading backend, modelled in Dafny

This project models the business rules of a contest-grading backend. Users
create contests and add tasks to them. Participants join a contest with its
secret join code and submit solutions. Members of a contest's commission grade
those solutions with marks.

The persisted state is a `Store` of seven tables: users, contests, tasks,
solutions, marks, commissions and participations. A table is a sequence of
rows `Row(id, data)` in storage order, plus the next value of that table's id
sequence (`tables.dfy`, `store.dfy`). Each ORM call the controllers make is
one function over a table:

- `findOne` is `FindFirst` / `FindById`: the first row in storage order.
- `find` with a `where` filter is `Filter`, which keeps the order.
- `create` is `Insert`.
- `delete` / `deleteById` is `DeleteIds`.
- `updateById` is `UpdateById`.

Every REST endpoint is a pure function. It takes the store, the caller's uid
(already resolved from the bearer token), the current time where the endpoint
reads it, and the request's arguments. It returns `Ok` with the new store or
the listing, or `Err` with the exact string the endpoint rejects with
(`messages.dfy`). A rejection carries no store, so the model has "nothing
changes" on every error path. The code agrees everywhere but in registration,
which keeps the created user row when the custom token fails afterwards (see
"Left out"). A cascade delete is one atomic step
(`Cascade` in each controller).

The store invariant `Store.Valid` says that in every table ids are keys and
lie below the sequence's next value. Every creating or updating endpoint
preserves it. The frame lemmas assume it. The "no orphans" lemmas do not
need it.

Dates are integers. Mark values are JSON numbers, modelled as reals, so fractions are covered. Contest-date parsing is a function parameter with three
outcomes: JSON syntax error, invalid date, or a point in time. The email pattern
is a predicate parameter. The identity service's outcome (account creation, sign-in) is a
`Result` parameter.

## Model

| member | source | states |
|---|---|---|
| ContestController.DelContestById | src/controllers/contest.controller.ts:46-71 | A contest delete succeeds iff the caller exists, the contest exists, and the caller owns it or has level >= ADMIN. Otherwise it fails with the first failing check's message, and an existing caller who neither owns the contest nor is an ADMIN gets "Insufficient permissions.". Success is exactly the atomic cascade, and the store invariant is kept. |
| ContestController.Cascade | src/controllers/contest.controller.ts:73-126 | Removes the contest, its tasks, commissions and participations, the solutions to those tasks and the marks on those solutions; every remaining row was there before. Users are untouched. Every row not linked to the contest survives. |
| ContestController.DelContestByIdLeavesNoOrphans | src/controllers/contest.controller.ts:73-126 | After a successful contest delete, no contest with that id remains. No task, commission or participation of that contest remains. No solution to one of its tasks and no mark on such a solution remains. No surviving row was altered. |
| ContestController.DelContestByIdFrame | src/controllers/contest.controller.ts:76-126 | In a valid store, every row not linked to the deleted contest through task, then solution, then mark survives unchanged. |
| ContestController.GetAll | src/controllers/contest.controller.ts:143-162 | Listing all contests succeeds iff the caller exists and has level >= ADMIN, and it returns the whole table. |
| ContestController.GetAllCoversListings | src/controllers/contest.controller.ts:143-418 | For an ADMIN, the as_admin, as_commission and as_user listings succeed, and they and the single-contest lookup return only contests of the all-contests listing. |
| ContestController.Register | src/controllers/contest.controller.ts:185-225 | Both date fields are JSON-parsed first, start before end, so a syntax error in either is the rejection even when the other date is invalid. Then an invalid date gives "Not a valid date.", and now < start < end (both strict) is required, each with its own message. These checks come before the caller lookup. A missing caller gives the unknown-uid message, and a caller below CONTEST_CREATOR gets "Insufficient permissions.". The new contest is owned by the caller, carries the parsed dates and has no join code. Only the contests table grows, by exactly that row. |
| ContestController.GetContestById | src/controllers/contest.controller.ts:242-284 | Returns the contest iff the caller owns it or has a participation row for it. An ADMIN gets no bypass. |
| ContestController.GetMyContestsAsAdmin | src/controllers/contest.controller.ts:301-320 | Returns exactly the contests the caller owns. |
| ContestController.GetMyContestsAsCommission | src/controllers/contest.controller.ts:338-368 | Returns exactly the contests whose id equals the row id of one of the caller's commission rows. |
| ContestController.GetMyContestsAsCommissionIntended | src/controllers/contest.controller.ts:353-368 | Returns exactly the contests the caller sits on the commission of. |
| ContestController.GetMyContestsAsCommissionMisses | src/controllers/contest.controller.ts:359-368 | A contest the caller grades is missing from the as-written listing when no commission row of the caller has the contest's id as its own id. The intended listing includes it. |
| ContestController.GetMyContestsAsCommissionWitness | src/controllers/contest.controller.ts:359-368 | In a concrete store, the as-written listing contains a contest the caller does not grade and omits the one they do grade. |
| ContestController.GetMyContestsAsUser | src/controllers/contest.controller.ts:386-418 | Returns exactly the contests the caller has a participation row for. |
| TaskController.DelTaskById | src/controllers/task.controller.ts:43-78 | A missing task is reported before anything else. Authorization compares the caller with the contest whose id equals the task's own id. The delete succeeds iff that contest exists and the caller owns it or is an ADMIN; a missing contest gives "No such contest." and a caller who is neither gives "Insufficient permissions.". Success is exactly the atomic cascade. |
| TaskController.Cascade | src/controllers/task.controller.ts:80-103 | Removes the task, every solution to it and every mark on those solutions. Other tasks survive. In a valid store, the solutions and marks of other tasks survive too. |
| TaskController.DelTaskByIdRemoves | src/controllers/task.controller.ts:80-103 | After a successful task delete, the task, its solutions and their marks are gone. Only those three tables changed. |
| TaskController.DelTaskByIdFrame | src/controllers/task.controller.ts:80-98 | In a valid store, other tasks and the solutions and marks of other tasks survive a task delete. |
| TaskController.DelTaskByIdIntended | src/controllers/task.controller.ts:57-78 | The corrected task delete, authorized against the task's contestId. It succeeds iff the caller owns the task's contest or is an ADMIN. |
| TaskController.DelTaskByIdWrongContest | src/controllers/task.controller.ts:57-78 | A caller who owns the contest numbered like the task, but not the task's own contest, can delete the task as written. The corrected delete refuses the same caller. |
| TaskController.DelTaskByIdWrongContestWitness | src/controllers/task.controller.ts:57-78 | The wrong-contest delete happens in a concrete valid store. |
| TaskController.GetAll | src/controllers/task.controller.ts:119-136 | Listing all tasks succeeds iff the caller is an ADMIN, and it returns the whole table. |
| TaskController.GetAllCoversContestTasks | src/controllers/task.controller.ts:119-198 | A contest's task listing is contained in the all-tasks listing. An ADMIN gets the contest's tasks iff owning it or participating: the per-contest guard has no ADMIN bypass. |
| TaskController.GetTasksByContestId | src/controllers/task.controller.ts:152-198 | Allowed iff the caller owns the contest or participates in it. Returns exactly the tasks with that contestId. |
| TaskController.AddTaskByContestId | src/controllers/task.controller.ts:215-246 | Only the contest's owner may add a task; an ADMIN gets no bypass. The new task has the contest's id and the request text. |
| SolutionController.GetAll | src/controllers/solution.controller.ts:44-63 | Listing all solutions succeeds iff the caller is an ADMIN. |
| SolutionController.GetAllCoversContestSolutions | src/controllers/solution.controller.ts:44-154 | An ADMIN passes the per-contest guard for every existing contest, and that listing is contained in the all-solutions listing. |
| SolutionController.GetSolutionsToContest | src/controllers/solution.controller.ts:86-154 | Allowed iff the caller owns the contest or is an ADMIN. Returns exactly the solutions to the contest's tasks. |
| SolutionController.AddSolutionByContestId | src/controllers/solution.controller.ts:172-229 | Submission succeeds iff the caller and task exist, the task's contest exists, start <= now <= end (both ends inclusive), and the caller has no solution to the task yet. Each failure has its own message: a missing contest the runtime error, now < start "Not before start.", now > end "Not after end.", an existing (task, caller) row the already-sent message. The new row is (taskId, caller, text, no mark). (taskId, userId) uniqueness and the store invariant are kept. |
| SolutionController.AddSolutionIgnoresParticipations | src/controllers/solution.controller.ts:195-229 | Whether a submission is accepted does not depend on the participation table. |
| SolutionController.PatchSolutionById | src/controllers/solution.controller.ts:246-276 | Only the solution's author may edit it. Only the text of that solution changes, and every other row is kept. |
| SolutionRepository.BeforeSave | src/repositories/solution.repository.ts:61-94 | Only a new instance is checked. Its task must exist ("No task with given id."), then the task's contest ("No contest with given id."), then the contest must have started ("Contest not started yet."). There is no end-date check. |
| SolutionRepository.Create | src/repositories/solution.repository.ts:61-94 | A create succeeds iff the trigger passes, and then appends exactly the given solution. |
| SolutionRepository.NoEndDateCheck | src/repositories/solution.repository.ts:89-94 | A new solution to a contest that has ended still passes the trigger. |
| MarkController.PatchMarkById | src/controllers/mark.controller.ts:46-120 | Editing a mark succeeds iff its solution, task and contest exist and the caller is on the contest's commission, owns the contest, or has level exactly ADMIN. Only the marks table changes and it keeps its size. Every row with that id becomes its old row with the new value and comment; every other row is kept. |
| MarkController.PatchMarkByIdIgnoresValue | src/controllers/mark.controller.ts:116-120 | Whether an edit is allowed does not depend on the new value, so any JSON number gets through, fractions such as 2.5 included. |
| MarkController.MarksInContests | src/controllers/mark.controller.ts:179-221 | The tasks, then solutions, then marks lookup returns exactly the marks on solutions to tasks of the given contests, restricted to one author when one is given. |
| MarkController.GetMarksByContestId | src/controllers/mark.controller.ts:138-221 | Allowed iff the caller owns the contest or participates in it. Returns exactly the marks on solutions to the contest's tasks. |
| MarkController.GetMyMarksByContestId | src/controllers/mark.controller.ts:237-297 | There is no permission check and no contest lookup; only the caller must exist. Returns exactly the marks on the caller's own solutions to that contest's tasks. |
| MarkController.GetMyMarks | src/controllers/mark.controller.ts:315-385 | Returns exactly the marks on the caller's solutions to tasks of contests the caller participates in. |
| MarkController.MarkSolution | src/controllers/mark.controller.ts:404-465 | A value outside {0,2,5,6} is refused before any lookup. After that, grading succeeds iff the caller exists, the solution's task and contest exist, and the caller has a commission row for that contest. Owning the contest or being an ADMIN is not enough. |
| MarkController.Grade | src/controllers/mark.controller.ts:467-478 | Creates the mark (solution, grader, value, comment) with the marks sequence's next id. Points that solution's markId at the new mark. The marks table grows by exactly that row; every solution row with that id becomes its old row with the new markId, every other solution row is kept, and the solutions table keeps its size. Nothing else changes. |
| MarkController.MarkSolutionTwiceAddsTwoMarks | src/controllers/mark.controller.ts:463-478 | A commission member can grade the same solution twice, and both grades succeed. Both marks are kept, and the solution's markId names the second one. |
| CommissionController.DelCommissionById | src/controllers/commission.controller.ts:39-77 | The commission is looked up first, then the caller, then its contest. The delete succeeds iff all three exist and the caller owns the contest or is an ADMIN. |
| CommissionController.Cascade | src/controllers/commission.controller.ts:79-102 | Removes the commission row, every solution written by the caller in any contest, and the marks on them. Every other commission survives. Users, contests, tasks and participations are untouched. |
| CommissionController.DelCommissionByIdKeepsMembersSolutions | src/controllers/commission.controller.ts:79-98 | When someone else deletes a member's commission row, the member's own solutions survive. |
| CommissionController.GetAll | src/controllers/commission.controller.ts:121-151 | Listing all commissions succeeds iff the caller is an ADMIN. |
| CommissionController.GetAllCoversContestCommissions | src/controllers/commission.controller.ts:121-285 | An ADMIN passes the per-contest guard for every existing contest, and that listing is contained in the all-commissions listing. |
| CommissionController.AddCommissionByContestId | src/controllers/commission.controller.ts:168-210 | Adding succeeds iff the adder, the user to add and the contest exist, the adder owns the contest (no ADMIN bypass), now <= endDate, and no row for the same pair exists yet. The new row is exactly (contestId, userId). Uniqueness is kept. |
| CommissionController.GetCommissionsByContestId | src/controllers/commission.controller.ts:243-285 | Allowed iff the caller owns the contest or is an ADMIN. Returns exactly the rows of that contest. |
| CommissionRepository.BeforeSave | src/repositories/commission.repository.ts:46-84 | Checks that the contest exists, then the user, then that no row has the same pair. Each failure has its own message, a duplicate giving "Given commission already exists.". It passes iff all three hold. |
| CommissionRepository.Create | src/repositories/commission.repository.ts:46-84 | A create succeeds iff the trigger passes. It appends exactly the given row and keeps (contestId, userId) unique. |
| CommissionRepository.ResaveRejected | src/repositories/commission.repository.ts:46-84 | Saving a row that is already stored is rejected, because the trigger has no new-instance guard. |
| ParticipationController.DelParticipationById | src/controllers/participation.controller.ts:40-78 | The participation is looked up first, then the caller, then its contest. The delete succeeds iff all three exist and the caller owns the contest or is an ADMIN. |
| ParticipationController.Cascade | src/controllers/participation.controller.ts:80-103 | Removes the participation row, every solution written by the caller in any contest, and the marks on them. |
| ParticipationController.DelParticipationByIdRemovesOnlyThatRow | src/controllers/participation.controller.ts:97 | A participation row disappears iff it has the given id. Users, contests, tasks and commissions are untouched. |
| ParticipationController.GetAll | src/controllers/participation.controller.ts:120-149 | Listing all participations succeeds iff the caller is an ADMIN. |
| ParticipationController.GetAllCoversContestParticipations | src/controllers/participation.controller.ts:120-251 | An ADMIN passes the per-contest guard for every existing contest, and that listing is contained in the all-participations listing. |
| ParticipationController.AddParticipationByContestId | src/controllers/participation.controller.ts:165-192 | Joining succeeds iff the caller exists, a contest has that join code, and the caller does not participate yet; there is no role or time check. The new row is (that contest, caller). Uniqueness is kept. |
| ParticipationController.GetParticipationByContestId | src/controllers/participation.controller.ts:209-251 | Allowed iff the caller owns the contest or is an ADMIN. Returns exactly the rows of that contest. |
| ParticipationRepository.BeforeSave | src/repositories/participation.repository.ts:46-84 | Checks that the contest exists, then the user, then that there is no duplicate. A duplicate, when contest and user exist, is refused with the commission trigger's message "Given commission already exists.". It passes iff all three hold. |
| ParticipationRepository.Create | src/repositories/participation.repository.ts:46-84 | A create succeeds iff the trigger passes. It appends exactly the given row and keeps (contestId, userId) unique. |
| ParticipationRepository.ResaveRejected | src/repositories/participation.repository.ts:46-84 | Saving a stored row is rejected. |
| UserRepository.CheckEmailAvailable | src/repositories/user.repository.ts:18-30 | Returns a Promise that settles to true iff no user has the address. |
| UserController.Register | src/controllers/user.controller.ts:132-160 | Checks the email pattern first, then that the password is at least 6 UTF-16 code units long (JavaScript's `length`), then the identity service's outcome. Registration succeeds iff all three pass. The stored user has the service's uid, the request's name and email, and level BASIC. |
| UserController.RegisterNeverReportsEmailInUse | src/controllers/user.controller.ts:141-142 | "Email already in use." is never the outcome of registration. |
| UserController.RegisterDuplicateEmailWitness | src/controllers/user.controller.ts:141-160 | When the local table and the identity service have diverged, so that the service accepts an address the table already holds, nothing local refuses it: registration succeeds and two users share the address. |
| UserController.RegisterDuplicates | src/controllers/user.controller.ts:141-160 | In every valid store, once the identity service accepts an address the table already holds, registration succeeds and two users share the address. |
| UserController.Utf16Length | src/controllers/user.controller.ts:138 | The JavaScript length of a string lies between its number of characters and twice that. |
| UserController.Utf16LengthOfBmp | src/controllers/user.controller.ts:138 | Without characters above U+FFFF the JavaScript length is the number of characters. |
| UserController.RegisterCountsCodeUnits | src/controllers/user.controller.ts:138-160 | A password of three emoji (three characters, six code units) passes the length check; the identity service's outcome decides. |
| UserController.LoginIgnoresStore | src/controllers/user.controller.ts:62-84 | A login's outcome is the same for every local user table, and it is never "Email already in use." unless the identity service says so. |
| UserController.RegisteredUserListed | src/controllers/user.controller.ts:100-160 | After a registration an ADMIN's listing of all users holds the new row and every row it held before. |
| UserController.RegisterAwaited | src/controllers/user.controller.ts:141-160 | The corrected registration, which awaits the availability check. A taken address is refused, and email uniqueness is kept. |
| UserController.Login | src/controllers/user.controller.ts:62-84 | An invalid email is refused before the identity service is asked. Otherwise the result is the service's. |
| UserController.GetAll | src/controllers/user.controller.ts:100-117 | Listing all users succeeds iff the caller is an ADMIN. |
| AuthStrategy.Split | src/utils/firebase.authentication.strategy.ts:44 | Splitting on a character gives one more piece than there are separators, and no piece contains the separator. |
| AuthStrategy.JoinSplit | src/utils/firebase.authentication.strategy.ts:44 | Joining the pieces of a split gives the original string back. |
| AuthStrategy.SplitJoin | src/utils/firebase.authentication.strategy.ts:44 | Splitting a join of separator-free pieces gives the pieces back. |
| AuthStrategy.ExtractCredentials | src/utils/firebase.authentication.strategy.ts:29-55 | A missing or empty header is refused as not found. A header not starting with "Bearer" is refused as not Bearer. The token is extracted iff the header contains exactly one space; it is the second piece and has no space. |
| AuthStrategy.ExtractCredentialsRoundTrip | src/utils/firebase.authentication.strategy.ts:39-54 | "Bearer " + t yields t for every space-free token t. |
| AuthStrategy.ExtractCredentialsAccepts | src/utils/firebase.authentication.strategy.ts:39-54 | An accepted header is a space-free first word starting with "Bearer", one space, and the token. |
| AuthStrategy.BearerWithoutSpace | src/utils/firebase.authentication.strategy.ts:39-54 | "Bearerx y" yields "y": the prefix test needs no space after "Bearer". |
| AuthStrategy.BearerEmptyToken | src/utils/firebase.authentication.strategy.ts:39-54 | "Bearer " yields the empty token. |

## Behaviour worth noting

- `AddSolutionByContestId` has no participation check: any existing user may submit to a running contest.
- `MarkSolution` requires a commission row, even for the contest's owner or an ADMIN.
- Deleting a commission or participation row also removes the caller's own solutions, in every contest, and the marks on them. The commission member's or participant's solutions stay.

## Left out

- Identity service: token verification, account creation, sign-in and custom tokens. The caller's uid is an input, and the service's outcomes are `Result` parameters.
- The email regular expression: it is the predicate parameter `isEmail`.
- Date parsing and `Date` arithmetic: dates are integers, and contest creation takes a `parseDate` parameter that reports a JSON syntax error with the parser's message, an invalid date, or a point in time. The rejection for a syntax error is an Error object in the code; the model keeps only its message.
- `isDateAfterToday` in the solution repository: it is not called anywhere.
- Relation includes (user display names, `task.contest`), ordering through `getOrder`, and the solution listing's `filterby` header on markId. A listing's order is the table's storage order.
- `getMe` in the user controller: a plain lookup with no rule to state.
- Concurrency: the un-awaited promise arrays in the cascades, the missing transactions, and the check-then-insert races in the triggers. Each cascade is one atomic step, so a partial delete is not modelled.
- HTTP plumbing: response envelopes, the logging interceptor and middleware, bootstrap, the datasource and migrations.
- The Task, Solution, Mark and Commission model files are not part of this model. Their field lists are taken from how the controllers use them.
- The contest `secret` column is a plain optional field, although the contest model file does not declare it.
- The custom token returned by register and login: registration returns the created user row instead.
- UserController.Register: when `createCustomToken` fails after the user row is stored, the code rejects and keeps the row. The model has no failure after the insert, so its "an error leaves the store unchanged" does not cover this path.
- SolutionController.AddSolutionByContestId: a task whose contest is gone makes the code throw a TypeError. The model reports it as the string "Cannot read property 'startDate' of undefined", one Node version's wording; newer versions word it differently, and the code's rejection is an Error object, not a string.

## Findings

| source | as written | input that shows it | evidently intended | confidence | as-written member | corrected member |
|---|---|---|---|---|---|---|
| src/controllers/task.controller.ts:57-61 | The contest that authorizes a task delete is looked up by the task's own id. | User A owns contest 1, user B owns contest 2, and task 1 belongs to contest 2. A deletes task 1, and the delete succeeds. | Look the contest up by the task's contestId. | high, not executed | TaskController.DelTaskByIdWrongContestWitness | TaskController.DelTaskByIdIntended |
| src/controllers/contest.controller.ts:359-368 | The as_commission listing matches contest ids against the ids of the caller's commission rows. | User 1's only commission row is row 1, for contest 2. The listing returns contest 1 and omits contest 2. | Match against the commission rows' contestId. | high, not executed | ContestController.GetMyContestsAsCommissionWitness | ContestController.GetMyContestsAsCommissionIntended |
| src/controllers/user.controller.ts:141-142 | The availability check's Promise is tested without `await`, and a Promise is always truthy. | Registering an address the table already holds is never refused with "Email already in use.". Normally the identity service refuses it with its own message; when the table and the service have diverged (the service accepts a@x.org while the table holds it), the registration succeeds and two rows share a@x.org. | Await the check and refuse with "Email already in use.". | high, not executed | UserController.RegisterDuplicateEmailWitness | UserController.RegisterAwaited |
