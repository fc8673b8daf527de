# teacherapi: a verified model of the request-processing core

This project models the request-processing core of the teacherapi
school-registration backend in Dafny, and proves properties of that model.
The backend has four endpoints:

- `POST /api/register` registers students to a teacher, teachers to a
  student, or both.
- `GET /api/commonstudents` lists the students that every given teacher
  teaches.
- `POST /api/suspend` suspends a student.
- `POST /api/retrievefornotifications` lists the students a teacher's
  notification reaches.

MySQL is replaced by an abstract store, `Store.Tables`. It has three parts:

- the set of teacher emails;
- a map from each student email to its `suspended` flag;
- the set of (teacher, student) edges.

The schema of `pkg/server/databases/mysql.go` supplies the invariants. Both
emails are primary keys, the edges have a composite key and foreign keys,
and `suspended` defaults to 0.

The controllers work on a `Databases.Database` object, which holds the three
tables as fields. `Execute` runs one statement (`Store.Stmt`, applied by
`Store.Apply`) and changes the tables in place. The read methods answer the
three queries the controllers send.

Database failures are an input. Within one request, the calls to the
database are numbered from 0 in the order they are issued. The call whose
number is in `faults` fails. Where a controller may issue several
statements, its outcome is stated against the pure function `Store.Run`.
`Run` applies a plan of statements call by call and stops at the first
failing call.

The source files are modelled as follows:

- The two patterns of `patterns.go` are specification predicates:
  `Patterns.HasEmail` (unanchored) and `Patterns.NotificationShape`
  (anchored). Each has a recursive decision function proved equal to it.
- The generic set of `set.go` is the class `Sets.Set`, with its map as a
  field.
- The message builders of `error.go` are the `Messages.*Message` methods.
  They use the same accumulating loop as the source, and each is proved to
  agree with a join of the names.
- Each controller is a method with the source's early returns. Its
  `ensures` gives the response and the new tables for every branch.

Three behaviours of the controllers are worth stating up front:

- Register answers 502 with the database-error message when the body does
  not bind (pkg/controllers/register.go:30-40).
- In Register, a failing insert in the teacher pair writes a 500, and the
  request carries on with the student pair and the final 204
  (pkg/controllers/register.go:79-84).
- Suspend answers 500 when the UPDATE fails (pkg/controllers/suspend.go:45-48).

## Model

| member | source | states |
|---|---|---|
| Patterns.HasEmailIffAnchor | pkg/utilities/patterns/patterns.go:8 | a substring has the email shape exactly when some '@' of the string has a local character before it and a domain with a dot and at least two letters after it |
| Patterns.ContainsEmail | pkg/utilities/patterns/patterns.go:8 | the recursive email scan returns true if and only if the unanchored email pattern matches somewhere in the string |
| Patterns.HasEmailWrapped | pkg/utilities/patterns/patterns.go:8 | the pattern has no anchors, so text added around a matching string keeps it matching |
| Patterns.IsNotification | pkg/utilities/patterns/patterns.go:7 | the notification check returns true if and only if the whole string is plain words followed by zero or more mentions |
| Patterns.ValidatePattern | pkg/utilities/patterns/patterns.go:11-14 | for the email pattern the answer is HasEmail; for the notification pattern it is NotificationShape |
| Patterns.WordsIff | pkg/utilities/patterns/patterns.go:7 | the grammar `([a-zA-Z0-9_.,!?-]+\s?)*` holds exactly when every character is a word character, or a whitespace character directly after a word character |
| Patterns.MentionsIff | pkg/utilities/patterns/patterns.go:7 | the mention grammar `(@email\s*)*` holds exactly when the left-to-right mention reader accepts |
| Patterns.NotificationSplit | pkg/utilities/patterns/patterns.go:7 | a notification is its longest word-or-space prefix as plain words, then the rest as mentions |
| Patterns.EmptyNotification | pkg/utilities/patterns/patterns.go:7 | the empty notification matches the pattern; at the endpoint the binder rejects "" before the pattern runs |
| Patterns.BareAtRejected | pkg/utilities/patterns/patterns.go:7 | when the first '@', the one right after the plain words, is not followed by a local-part character, the notification is rejected |
| Patterns.AtWithoutEmailRejected | pkg/utilities/patterns/patterns.go:7 | when the first '@', the one right after the plain words, is followed by text without another '@', the notification is rejected |
| Patterns.TextAfterMentionRejected | pkg/utilities/patterns/patterns.go:7 | a plain word after a mention is rejected |
| PatternExamples.AcceptedTestCom | tests/pattern_test.go:21 | `test@test.com` contains an email |
| PatternExamples.AcceptedTest12Com | tests/pattern_test.go:22 | `test12@gmail.com` contains an email |
| PatternExamples.AcceptedElevenTestCom | tests/pattern_test.go:23 | `11test@test.com` contains an email |
| PatternExamples.AcceptedT3stCom | tests/pattern_test.go:24 | `T3st@test.com` contains an email |
| PatternExamples.AcceptedTestOrg | tests/pattern_test.go:25 | `test@test.org` contains an email |
| PatternExamples.AcceptedTest12Org | tests/pattern_test.go:26 | `test12@gmail.org` contains an email |
| PatternExamples.AcceptedElevenTestOrg | tests/pattern_test.go:27 | `11test@test.org` contains an email |
| PatternExamples.AcceptedT3stOrg | tests/pattern_test.go:28 | `T3st@test.org` contains an email |
| PatternExamples.RejectedEmails | tests/pattern_test.go:41-49 | the four invalid samples contain no email |
| PatternExamples.OneLetterTldRejected | pkg/utilities/patterns/patterns.go:8 | `a@b.c` is rejected: the top-level domain needs two letters |
| PatternExamples.NoEmailWithoutAt | pkg/utilities/patterns/patterns.go:8 | a string without '@' contains no email |
| PatternExamples.NoEmailWithoutDot | pkg/utilities/patterns/patterns.go:8 | a string without '.' contains no email |
| PatternExamples.AcceptedWords | tests/pattern_test.go:57 | `hello world!` is a notification |
| PatternExamples.AcceptedWordsTrailingSpace | tests/pattern_test.go:58 | `hello world! ` (one trailing space) is a notification |
| PatternExamples.AcceptedWordsNoPunctuation | tests/pattern_test.go:59 | `hello world` is a notification |
| PatternExamples.AcceptedOneMention | tests/pattern_test.go:60 | words followed by one mention are a notification |
| PatternExamples.AcceptedTwoMentions | tests/pattern_test.go:61 | words followed by two mentions are a notification |
| PatternExamples.RejectedBareAtEnd | tests/pattern_test.go:71 | `hello world @` is rejected |
| PatternExamples.RejectedMentionFirst | tests/pattern_test.go:72 | a mention before the words is rejected |
| PatternExamples.RejectedWordAfterMention | tests/pattern_test.go:73 | a word after a mention is rejected |
| PatternExamples.RejectedNonEmailMention | tests/pattern_test.go:74 | `@wrongformat.com` is not a mention, so the string is rejected |
| PatternExamples.RejectedBareAtBeforeMention | tests/pattern_test.go:75 | a bare '@' before a mention is rejected |
| Sets.Set.New | pkg/utilities/set/set.go:7-9 | a new set has no members and Length 0 |
| Sets.Set.Add | pkg/utilities/set/set.go:12-14 | afterwards the item is a member and no other membership changes; Length grows by one exactly when the item was absent |
| Sets.Set.Remove | pkg/utilities/set/set.go:17-19 | afterwards the item is not a member and no other membership changes; Length drops by one exactly when it was present |
| Sets.Set.Contains | pkg/utilities/set/set.go:22-25 | true exactly for members; it only reads the set |
| Sets.Set.Length | pkg/utilities/set/set.go:28-30 | the number of members; it only reads the set |
| Sets.Set.ToArray | pkg/utilities/set/set.go:33-39 | each member exactly once and nothing else, as many elements as Length |
| Messages.AppendNames | pkg/utilities/messages/error.go:19-29 | the loop's output is the prefix followed by the names joined with ", " |
| Messages.MissingQueryParamsMessage | pkg/utilities/messages/error.go:18-30 | the missing-query-parameters prefix followed by the names joined with ", " |
| Messages.InvalidParamsMessage | pkg/utilities/messages/error.go:33-45 | the wrong-type-or-format prefix followed by the names joined with ", " |
| Messages.ShortLists | pkg/utilities/messages/error.go:21-27 | no names give the bare prefix; one name gives the prefix and that name, with no trailing separator |
| Messages.MessageLength | pkg/utilities/messages/error.go:22-26 | n names give exactly n - 1 separators |
| Messages.MissingTeacherText | pkg/controllers/commonstudents.go:29-31 | the message for a missing teacher parameter, spelled out |
| Messages.InvalidNotificationText | pkg/controllers/retrievefornotifications.go:55-57 | the message for a notification of the wrong shape, spelled out |
| Messages.TeacherStudentsPairText | pkg/utilities/messages/error.go:88-90 | the teacher/students pair message is the text the register test expects |
| Messages.StudentTeachersPairText | pkg/utilities/messages/error.go:88-90 | the student/teachers pair message is the text the register test expects |
| Text.JoinSnoc | pkg/utilities/messages/error.go:21-27 | appending a name adds one separator and the name, except to the empty list |
| Text.JoinLength | pkg/utilities/messages/error.go:22-26 | joining n strings adds exactly n - 1 separators |
| Text.JoinElementAt | pkg/controllers/commonstudents.go:40-47 | element k of a join sits at its offset |
| Text.JoinSeparatorAfter | pkg/controllers/commonstudents.go:41-43 | a separator directly follows every element but the last |
| Sorting.SortStrings | pkg/controllers/commonstudents.go:66 | the result is sorted and a permutation of the input |
| Sorting.SortedUnique | pkg/controllers/commonstudents.go:66 | two sorted permutations of the same list are equal, so the sort has one answer |
| Sorting.SortKeepsElements | pkg/controllers/retrievefornotifications.go:107-108 | sorting keeps the elements, and keeps a list without repetitions free of them |
| Sorting.SortedDistinctUnique | pkg/controllers/retrievefornotifications.go:107-108 | a sorted list without repetitions is determined by its elements |
| Sorting.LexLeTotal | pkg/controllers/commonstudents.go:66 | any two strings are comparable in the byte order sort.Strings uses |
| Sorting.LexLeAntisymmetric | pkg/controllers/commonstudents.go:66 | byte order is antisymmetric |
| Sorting.LexLeTransitive | pkg/controllers/commonstudents.go:66 | byte order is transitive |
| Store.Suspended | pkg/controllers/suspend.go:40-42 | the named student's flag becomes true; an unknown email changes nothing; no teacher, edge or other flag changes |
| Store.ApplyValid | pkg/server/databases/mysql.go:53-57 | every statement keeps the foreign keys of the teaches table |
| Store.RunStopsAtFirstFault | pkg/controllers/register.go:132-148 | the calls before the first failure all succeed and their rows are applied; the failing call and everything after it are not |
| Store.RunWithoutFault | pkg/controllers/register.go:129-150 | with no failing call, the whole plan is applied and issued |
| Store.RunGrows | pkg/controllers/register.go:129-168 | a plan of INSERT IGNORE statements never removes a row or changes a flag, whichever calls fail |
| Store.RunValid | pkg/server/databases/mysql.go:53-57 | every run keeps the foreign keys |
| Store.PlanLength | pkg/controllers/register.go:127-176 | actions 1 and 2 issue one row, then two statements per listed email; any other action issues nothing |
| Store.Registered | pkg/controllers/register.go:129-149 | the teacher, each listed student and each (teacher, student) edge are present; new students are unsuspended; nothing is lost |
| Store.Enrolled | pkg/controllers/register.go:152-172 | the student, each listed teacher and each (teacher, student) edge, oriented from the listed teacher, are present; nothing is lost |
| Store.TeacherPlanApplied | pkg/controllers/register.go:129-149 | applying action 1 gives Registered |
| Store.StudentPlanApplied | pkg/controllers/register.go:152-172 | applying action 2 gives Enrolled |
| Store.TeacherPlanRun | pkg/controllers/register.go:129-150 | action 1 with no failing call ends in Registered after 1 + 2n statements |
| Store.StudentPlanRun | pkg/controllers/register.go:152-173 | action 2 with no failing call ends in Enrolled after 1 + 2n statements |
| Store.RegisteredIdempotent | pkg/controllers/register.go:129-149 | registering students to a teacher twice is registering them once |
| Store.EnrolledIdempotent | pkg/controllers/register.go:152-172 | registering teachers to a student twice is registering them once |
| Store.RegisteredAbsorbs | pkg/controllers/register.go:129-149 | registering rows the tables already hold changes nothing, suspended flags included |
| Store.EnrolledAbsorbs | pkg/controllers/register.go:152-172 | enrolling rows the tables already hold changes nothing |
| Store.SuspendedIdempotent | pkg/controllers/suspend.go:40-42 | suspending twice is suspending once |
| Store.Roster | pkg/controllers/retrievefornotifications.go:65-70 | the students with an edge from the teacher |
| Store.UnsuspendedRoster | pkg/controllers/retrievefornotifications.go:65-70 | the students of the teacher that are student rows with suspended = 0 |
| Store.CountUnsuspended | pkg/controllers/retrievefornotifications.go:93-96 | the COUNT(*) is at most 1, and it is 1 exactly for an unsuspended student |
| Store.CommonStudentsOf | pkg/controllers/commonstudents.go:40-50 | exactly the students that every listed teacher teaches |
| Store.Recipients | pkg/controllers/retrievefornotifications.go:61-106 | exactly the unsuspended students taught by the teacher or mentioned |
| Databases.Database.constructor | pkg/server/databases/mysql.go:41-57 | the database holds the given tables |
| Databases.Database.Execute | pkg/controllers/register.go:129-130 | a successful call applies the statement; a failing call changes nothing and reports the error |
| Databases.Database.SelectUnsuspendedRoster | pkg/controllers/retrievefornotifications.go:65-70 | the roster rows: each unsuspended student of the teacher once |
| Databases.Database.SelectCount | pkg/controllers/retrievefornotifications.go:93-96 | the COUNT(*) of unsuspended students with the email |
| Databases.Database.SelectCommon | pkg/controllers/commonstudents.go:50 | the rows of the INTERSECT query: each common student once |
| Databases.Enumerate | pkg/controllers/commonstudents.go:57-65 | a result set read row by row: each element once |
| Queries.QueryLayout | pkg/controllers/commonstudents.go:40-47 | the SELECT of teacher k sits at its offset in the query, followed by " INTERSECT " unless k is last |
| Queries.QueryLength | pkg/controllers/commonstudents.go:40-47 | n teachers give n SELECTs and n - 1 separators |
| Queries.SingleTeacherQuery | pkg/controllers/commonstudents.go:44-46 | one teacher gives that teacher's SELECT alone |
| CommonStudentsController.BuildQuery | pkg/controllers/commonstudents.go:40-47 | the loop builds the per-teacher SELECTs in input order, joined by " INTERSECT " |
| CommonStudentsController.CommonStudents | pkg/controllers/commonstudents.go:24-69 | no teacher gives 400 naming `teacher`; a failing query gives 502; otherwise 200 with the common students, sorted, each once |
| CommonStudentsController.CommonStudentsDetermined | pkg/controllers/commonstudents.go:57-68 | the body does not depend on the order the rows arrive in |
| CommonStudentsController.SingleTeacher | pkg/controllers/commonstudents.go:44-46 | one teacher gives that teacher's whole roster, suspended students included |
| CommonStudentsController.UnknownTeacher | pkg/controllers/commonstudents.go:57-68 | a teacher without edges gives an empty list |
| CommonStudentsController.CommonStudentsOfElems | pkg/controllers/commonstudents.go:40-50 | the order of the teachers and their repetitions do not matter |
| NotificationsController.ReceiveForNotifications | pkg/controllers/retrievefornotifications.go:31-111 | given a bound request whose two required fields are non-empty, and mentions that are email-shaped pieces of the notification: a bind failure gives 400; a notification of the wrong shape gives 400 naming it, before any query; a failing query gives 500; otherwise 200 with the recipients, sorted, each once, each on the teacher's roster or occurring in the notification; it reads the tables and changes nothing |
| NotificationsController.Resolve | pkg/controllers/retrievefornotifications.go:61-108 | the error flag is set exactly when one of the calls fails; otherwise the list is sorted, free of repetitions and exactly the recipients |
| NotificationsController.AddRoster | pkg/controllers/retrievefornotifications.go:65-85 | the set gains exactly the unsuspended roster |
| NotificationsController.AddMentions | pkg/controllers/retrievefornotifications.go:89-106 | the set gains exactly the mentioned unsuspended students, or the loop reports the failing call |
| NotificationsController.AddIfCounted | pkg/controllers/retrievefornotifications.go:93-105 | a mention joins the set exactly when its count is 1 |
| NotificationsController.SuspendedNeverRecipient | pkg/controllers/retrievefornotifications.go:65-96 | a suspended student is never a recipient, neither through the roster nor through a mention |
| NotificationsController.UnknownNeverRecipient | pkg/controllers/retrievefornotifications.go:93-105 | an email that is not a student is never a recipient |
| NotificationsController.MentionOrderIrrelevant | pkg/controllers/retrievefornotifications.go:61-108 | repeated or reordered mentions give the same recipients |
| NotificationsController.RecipientsDetermined | pkg/controllers/retrievefornotifications.go:107-108 | the body does not depend on the set's iteration order |
| NotificationsController.MentionedRecipientsAreEmails | pkg/controllers/retrievefornotifications.go:89-106 | a recipient that is not on the teacher's roster is an email-shaped piece of the notification, so the notification contains an email |
| RegisterController.ValidateEmails | pkg/controllers/register.go:71-77 | true exactly when every email passes the email check |
| RegisterController.InsertIntoDB | pkg/controllers/register.go:118-177 | the new tables, the error and the number of statements sent are those of Run on the action's plan |
| RegisterController.InsertStudentsOf | pkg/controllers/register.go:129-150 | action 1 as Run: the teacher row, then for each student its row and its edge |
| RegisterController.InsertTeachersOf | pkg/controllers/register.go:152-173 | action 2 as Run: the student row, then for each teacher its row and its edge |
| RegisterController.InsertTeacherEdges | pkg/controllers/register.go:136-149 | the loop of action 1 as Run, stopping at the first failing statement |
| RegisterController.InsertStudentEdges | pkg/controllers/register.go:159-172 | the loop of action 2 as Run, stopping at the first failing statement |
| RegisterController.Register | pkg/controllers/register.go:26-113 | the responses written and the new tables are RegisterOutcome of the old tables |
| RegisterController.BindFailureRejected | pkg/controllers/register.go:30-40 | a body that does not bind gets 502 and writes nothing |
| RegisterController.UnmatchedPairRejected | pkg/controllers/register.go:42-58 | one half of a pair missing gives 400 with that pair's message, before any email check or write |
| RegisterController.InvalidTeacherPairWritesNothing | pkg/controllers/register.go:65-77 | in the teacher pair, a bad teacher gives the teacher format message and a bad student the student one; nothing is written |
| RegisterController.InvalidStudentPairWritesNothing | pkg/controllers/register.go:87-103 | with only the student pair, a bad student gives the student format message and a bad teachers list the teacher format message; nothing is written |
| RegisterController.TeacherPairKeptOnStudentRejection | pkg/controllers/register.go:79-103 | for any failing statements: when the student pair fails an email check, the tables the teacher pair left stay, a 500 precedes the 400 if the teacher pair failed, and the 400 names the student format for a bad student and the teacher format for a bad teachers list; with no failure the tables are Registered |
| RegisterController.EmptyRequest | pkg/controllers/register.go:61-112 | four empty fields write nothing and end with 204 |
| RegisterController.TeacherPairRegistered | pkg/controllers/register.go:61-112 | the teacher pair alone gives 204 and Registered |
| RegisterController.StudentPairEnrolled | pkg/controllers/register.go:87-112 | the student pair alone gives 204 and Enrolled |
| RegisterController.BothPairsRegistered | pkg/controllers/register.go:61-112 | both pairs give 204, the teacher pair applied first |
| RegisterController.StoreErrorDoesNotStop | pkg/controllers/register.go:79-110 | whichever statement of the teacher pair fails, a 500 is written and the student pair is still applied to the tables the teacher pair left, numbered after it, before the 204 |
| RegisterController.UnmatchedPairsDistinguished | pkg/controllers/register.go:42-58 | a request rejected for its teacher pair and one rejected for its student pair never get the same responses |
| RegisterController.RegisterGrows | pkg/controllers/register.go:129-168 | registering never removes a row or changes a suspended flag, whichever statements fail |
| RegisterController.RegisterValid | pkg/server/databases/mysql.go:53-57 | registering keeps the foreign keys |
| RegisterController.RegisterIdempotent | pkg/controllers/register.go:129-168 | sending the same request twice without failures ends as after once, with the same responses |
| RegisterController.RegisteredAreCommonStudents | pkg/controllers/register.go:129-149 | after the teacher pair, every listed student is a common student of that teacher |
| RegisterController.FreshTeacherCommonStudents | pkg/controllers/register.go:129-149 | for a teacher with no edges yet, after the teacher pair is registered, the common students of that teacher alone are exactly the listed students |
| RegisterController.FreshTeacherCommonStudentsBody | pkg/controllers/commonstudents.go:24-69 | for such a teacher, any sorted, repetition-free body listing that teacher's common students equals the listed students, sorted and without repetitions |
| SuspendController.Suspend | pkg/controllers/suspend.go:22-51 | a bind failure gives 400 and no update; a failing UPDATE gives 500 and no update; otherwise 204 and the flag set |
| SuspendController.SuspendedStudentNotNotified | pkg/controllers/suspend.go:40-42 | a suspended student is not a recipient of any notification |
| SuspendController.SuspensionOnlyRemovesThatStudent | pkg/controllers/suspend.go:40-42 | a suspension removes that student from the recipients and no one else |
| SuspendController.SuspensionKeepsCommonStudents | pkg/controllers/suspend.go:40-42 | a suspension does not change the common students |
| SuspendController.SuspendValid | pkg/controllers/suspend.go:40-42 | a suspension keeps the foreign keys |
| Scenarios.SuspendScenario | tests/api_test.go:63-96 | suspending the fixture's student sets its flag to 1 |
| Scenarios.CommonStudentsScenario | tests/api_test.go:129-208 | teacher1 has common and student1; teacher1 with teacher2 share only common; an unknown teacher has none |
| Scenarios.CommonStudentsBodyScenario | tests/api_test.go:185-190 | the body for teacher1 is exactly `["common@gmail.com","student1@gmail.com"]` |
| Scenarios.NotificationScenario | tests/api_test.go:245-301 | without mentions, only the unsuspended student of the teacher is reached |
| Scenarios.MentionScenario | tests/api_test.go:304-315 | the mentions add tagged1 and tagged2, once each |
| Scenarios.NotificationBodyScenario | tests/api_test.go:304-315 | the body is exactly the three recipients in ascending order |

## Left out

- Go's `regexp` engine is not modelled. Each pattern is a predicate with a
  decision function proved equal to it, not a regular-expression matcher.
- `FindAllString` is not modelled. The mentions it extracts are the input
  `tagged` of `ReceiveForNotifications`. Its leftmost-first matching need
  not return the emails the mentions name. For the accepted notification
  `x@a.bc@d.ee` (the word `x`, then the mention `@a.bc@d.ee`) it returns
  `["x@a.bc"]`, not `a.bc@d.ee`, so re-deriving the mentions from the
  mention grammar would not be faithful.
- NotificationsController.ReceiveForNotifications: it requires only what
  every match of `FindAllString` satisfies: each email of `tagged` is
  email-shaped and occurs in the notification. It does not require that
  `tagged` lists all the matches, in order, without overlaps.
- SQL text is not parsed or executed. `SelectCommon` requires the query
  built for its teacher list. The query text is proved to be built as the
  source builds it, but the model does not capture the pasting of unescaped
  emails into the query, which allows SQL injection.
- A `Scan` error is not modelled separately. It is folded into a failure of
  the query call it belongs to, which gives the same response.
- An error while iterating result rows is not modelled. Neither controller
  calls `result.Err()`, so a driver error inside `result.Next()` ends the
  loop silently. The source then answers 200 with a truncated list
  (pkg/controllers/commonstudents.go:57-68), or goes on to the mentions with
  a partial roster (pkg/controllers/retrievefornotifications.go:77-85). In
  the model a call either fails wholly or returns every row.
- Key comparison is exact string equality. The schema declares no collation
  (pkg/server/databases/mysql.go:41-57), so MySQL compares emails under the
  server's default collation. That collation is case-insensitive, and the
  defaults of recent servers are also accent-insensitive; PAD SPACE
  collations also ignore trailing spaces. For example, with the
  student `tagged1@gmail.com` stored, a mention of `Tagged1@gmail.com`
  counts 1 in the source and is added in its own spelling; the model does
  not add it. The same difference affects INSERT IGNORE deduplication and
  the teacher filter of the common-students query.
- The truncation of emails longer than the `VARCHAR(255)` columns under
  INSERT IGNORE is not modelled.
- HTTP and JSON are not rendered. An empty result is the empty sequence,
  although Go renders a nil slice as `null`. When Register writes a 500 and
  then a 204, the model records both responses in order; what gin does with
  the second write is not part of this model.
- `GetErrorMessage`, `MissingParamsMessage` and `TypeErrorParamsMessage`
  are not modelled. They depend on validator and JSON error types. A bind
  failure is an abstract `Bind` outcome carrying an opaque detail.
- Register's two bind-failure branches are one case in the model. Both
  answer 502 with the database-error message, and `GetErrorMessage` always
  returns one of the two values (pkg/controllers/register.go:30-40).
- The text of `INVALID_TEACHER_EMAIL_FORMAT` and
  `INVALID_STUDENT_EMAIL_FORMAT` is not modelled; they are abstract
  `Message` constructors.
- The binder's `required` rule for the notification request
  (pkg/models/request/retrievefornotifications.go:5-6) is not computed. A
  `Bound` notification request stands for a body that passed it:
  `RequiredFieldsPresent` says both fields are then non-empty, and
  ReceiveForNotifications requires it of a bound request. A missing or empty
  field is a `BindFailed` outcome, answered 400.
- The suspend endpoint's request type is modelled as a record with one
  `student` field; its binding rules are part of the abstract `Bind`
  outcome.
- The length limits the end-to-end tests expect (`max=60`, `max=200`) are
  not modelled: no binding tag in the request types declares them.
- `sort.Strings` sorts in place; the model uses a pure verified sort on
  sequences instead. The order `ToArray` hands back is left open (Go
  randomises map iteration), and the body is proved not to depend on it.
- Concurrency, transactions and the connection pool are not modelled, nor
  is the database server itself: its failures are the `faults` set.
- The router, `main`, the middlewares and the sanitizer are not modelled.
  They are wiring and library calls, and the sanitizer is never registered.
- Database creation and teardown are not modelled; the schema appears only
  as the invariant `Store.Valid` and the INSERT IGNORE semantics.
- `Sets.Set.Remove` is modelled and proved, although no controller calls it.
