/**
 * POST /api/register: registers students to a teacher, teachers to a
 * student, or both.
 *
 * The statements of one request are numbered from 0 in the order they are
 * issued; a statement whose number is in `faults` fails.
 */
module RegisterController {
  import opened Seqs
  import opened Sorting
  import opened Store
  import opened Patterns
  import opened Messages
  import opened Http
  import opened Databases

  /** Whether every email of the list passes the (unanchored) email check. */
  ghost predicate AllEmails(emails: seq<string>) {
    forall i | 0 <= i < |emails| :: HasEmail(emails[i])
  }

  /** The validation loop: false at the first email that fails the email check. */
  method ValidateEmails(emails: seq<string>) returns (valid: bool)
    ensures valid <==> AllEmails(emails)
  {
    for i := 0 to |emails|
      invariant AllEmails(emails[..i])
    {
      var emailFormat := ValidatePattern(EmailPattern, emails[i]);
      if !emailFormat {
        return false;
      }
      assert emails[..i + 1][i] == emails[i];
    }
    assert emails[..|emails|] == emails;
    return true;
  }

  /**
   * insertIntoDB: issues Plan(target, list, action) from statement number
   * `call`, stopping at the first failing statement. `issued` counts the
   * statements sent, the failing one included.
   */
  method InsertIntoDB(target: string, list: seq<string>, action: int, db: Database, faults: set<nat>, call: nat)
    returns (failed: bool, issued: nat)
    modifies db
    ensures var o := Run(old(db.State()), Plan(target, list, action), faults, call);
      db.State() == o.tables && failed == o.failed && issued == o.issued
  {
    if action == 1 {
      failed, issued := InsertStudentsOf(target, list, db, faults, call);
    } else if action == 2 {
      failed, issued := InsertTeachersOf(target, list, db, faults, call);
    } else {
      failed, issued := false, 0;
    }
  }

  /** Action 1: the teacher row, then for each student its row and its edge from the teacher. */
  method InsertStudentsOf(teacher: string, students: seq<string>, db: Database, faults: set<nat>, call: nat)
    returns (failed: bool, issued: nat)
    modifies db
    ensures var o := Run(old(db.State()), Plan(teacher, students, 1), faults, call);
      db.State() == o.tables && failed == o.failed && issued == o.issued
  {
    ghost var t0 := db.State();
    var ok := db.Execute(InsertTeacher(teacher), call in faults);
    if !ok {
      return true, 1;
    }
    RunCons(t0, InsertTeacher(teacher), TeacherEdges(teacher, students), faults, call);
    failed, issued := InsertTeacherEdges(teacher, students, db, faults, call + 1);
    issued := issued + 1;
  }

  /** The loop of action 1: for each student its row, then its edge from the teacher. */
  method InsertTeacherEdges(teacher: string, students: seq<string>, db: Database, faults: set<nat>, call: nat)
    returns (failed: bool, issued: nat)
    modifies db
    ensures var o := Run(old(db.State()), TeacherEdges(teacher, students), faults, call);
      db.State() == o.tables && failed == o.failed && issued == o.issued
  {
    ghost var whole := Run(db.State(), TeacherEdges(teacher, students), faults, call);
    assert students[0..] == students;
    issued := 0;
    for i := 0 to |students|
      invariant issued == 2 * i
      invariant whole == Later(Run(db.State(), TeacherEdges(teacher, students[i..]), faults, call + issued), issued)
    {
      TeacherStep(whole, db.State(), teacher, students, i, faults, call, issued);
      var stepFailed, stepIssued := InsertPair(db, InsertStudent(students[i]), InsertTeaches(teacher, students[i]), faults, call + issued);
      if stepFailed {
        return true, issued + stepIssued;
      }
      issued := issued + 2;
    }
    assert students[|students|..] == [];
    return false, issued;
  }

  /** Action 2: the student row, then for each teacher its row and its edge to the student. */
  method InsertTeachersOf(student: string, teachers: seq<string>, db: Database, faults: set<nat>, call: nat)
    returns (failed: bool, issued: nat)
    modifies db
    ensures var o := Run(old(db.State()), Plan(student, teachers, 2), faults, call);
      db.State() == o.tables && failed == o.failed && issued == o.issued
  {
    ghost var t0 := db.State();
    var ok := db.Execute(InsertStudent(student), call in faults);
    if !ok {
      return true, 1;
    }
    RunCons(t0, InsertStudent(student), StudentEdges(student, teachers), faults, call);
    failed, issued := InsertStudentEdges(student, teachers, db, faults, call + 1);
    issued := issued + 1;
  }

  /** The loop of action 2: for each teacher its row, then its edge to the student. */
  method InsertStudentEdges(student: string, teachers: seq<string>, db: Database, faults: set<nat>, call: nat)
    returns (failed: bool, issued: nat)
    modifies db
    ensures var o := Run(old(db.State()), StudentEdges(student, teachers), faults, call);
      db.State() == o.tables && failed == o.failed && issued == o.issued
  {
    ghost var whole := Run(db.State(), StudentEdges(student, teachers), faults, call);
    assert teachers[0..] == teachers;
    issued := 0;
    for i := 0 to |teachers|
      invariant issued == 2 * i
      invariant whole == Later(Run(db.State(), StudentEdges(student, teachers[i..]), faults, call + issued), issued)
    {
      StudentStep(whole, db.State(), student, teachers, i, faults, call, issued);
      var stepFailed, stepIssued := InsertPair(db, InsertTeacher(teachers[i]), InsertTeaches(teachers[i], student), faults, call + issued);
      if stepFailed {
        return true, issued + stepIssued;
      }
      issued := issued + 2;
    }
    assert teachers[|teachers|..] == [];
    return false, issued;
  }

  /** The two statements for one listed email: its row, then its edge. */
  method InsertPair(db: Database, row: Stmt, edge: Stmt, faults: set<nat>, call: nat) returns (failed: bool, issued: nat)
    modifies db
    ensures var o := Run(old(db.State()), [row, edge], faults, call);
      db.State() == o.tables && failed == o.failed && issued == o.issued
  {
    RunTwo(db.State(), row, edge, faults, call);
    var ok := db.Execute(row, call in faults);
    if !ok {
      return true, 1;
    }
    ok := db.Execute(edge, call + 1 in faults);
    if !ok {
      return true, 2;
    }
    return false, 2;
  }

  /** What a register request produces: the responses written, in order, and the tables after it. */
  datatype RegisterResult = RegisterResult(responses: seq<Response>, tables: Tables)

  function DatabaseError(status: int): Response {
    MessageResponse(status, Text(MessageDatabaseError))
  }

  /**
   * Register, as a function of the tables, the request and the failing
   * statements. A body that does not bind: 502. Then the two pair checks,
   * then the teacher pair (email checks, action 1 from statement 0), then
   * the student pair (email checks, action 2 numbered after the first), then
   * 204. A failed action adds a 500 and does not stop the request; a failed
   * email check ends it, keeping what was written before.
   */
  ghost function RegisterOutcome(t: Tables, request: Bind<RegisterRequest>, faults: set<nat>): RegisterResult {
    match request
    case BindFailed(_) => RegisterResult([DatabaseError(StatusBadGateway)], t)
    case Bound(r) =>
      var haveTeacher, haveStudents := r.teacher != "", |r.students| > 0;
      var haveStudent, haveTeachers := r.student != "", |r.teachers| > 0;
      if (haveTeacher && !haveStudents) || (!haveTeacher && haveStudents) then
        RegisterResult([MessageResponse(StatusBadRequest, Text(MissingValidPairMessage("teacher", "students")))], t)
      else if (haveStudent && !haveTeachers) || (!haveStudent && haveTeachers) then
        RegisterResult([MessageResponse(StatusBadRequest, Text(MissingValidPairMessage("student", "teachers")))], t)
      else
        TeacherStage(t, r, faults)
  }

  /**
   * The teacher pair of a register request that passed the pair checks: the
   * email checks, action 1 from statement 0, then the student pair.
   */
  ghost function TeacherStage(t: Tables, r: RegisterRequest, faults: set<nat>): RegisterResult {
    var haveTeacher, haveStudents := r.teacher != "", |r.students| > 0;
    if haveTeacher && haveStudents && !HasEmail(r.teacher) then
      RegisterResult([MessageResponse(StatusBadRequest, InvalidTeacherEmailFormat)], t)
    else if haveTeacher && haveStudents && !AllEmails(r.students) then
      RegisterResult([MessageResponse(StatusBadRequest, InvalidStudentEmailFormat)], t)
    else
      var first := if haveTeacher && haveStudents then Run(t, Plan(r.teacher, r.students, 1), faults, 0) else Outcome(t, 0, false);
      var written := if first.failed then [DatabaseError(StatusInternalServerError)] else [];
      StudentStage(first.tables, first.issued, written, r, faults)
  }

  /**
   * The student pair of a register request, given the tables after the
   * teacher pair, the number of statements issued so far and the responses
   * written so far: the email checks, action 2, then 204.
   */
  ghost function StudentStage(t: Tables, call: nat, written: seq<Response>, r: RegisterRequest, faults: set<nat>): RegisterResult {
    var haveStudent, haveTeachers := r.student != "", |r.teachers| > 0;
    if haveStudent && haveTeachers && !HasEmail(r.student) then
      RegisterResult(written + [MessageResponse(StatusBadRequest, InvalidStudentEmailFormat)], t)
    else if haveStudent && haveTeachers && !AllEmails(r.teachers) then
      RegisterResult(written + [MessageResponse(StatusBadRequest, InvalidTeacherEmailFormat)], t)
    else
      var second := if haveStudent && haveTeachers then Run(t, Plan(r.student, r.teachers, 2), faults, call) else Outcome(t, 0, false);
      var more := if second.failed then [DatabaseError(StatusInternalServerError)] else [];
      RegisterResult(written + more + [NoBody(StatusNoContent)], second.tables)
  }

  /** Register: the checks in order, with early returns, and the two actions. */
  method Register(db: Database, request: Bind<RegisterRequest>, faults: set<nat>) returns (responses: seq<Response>)
    modifies db
    ensures RegisterResult(responses, db.State()) == RegisterOutcome(old(db.State()), request, faults)
  {
    if request.BindFailed? {
      return [DatabaseError(StatusBadGateway)];
    }
    var r := request.value;

    var haveTeacher := r.teacher != "";
    var haveStudents := |r.students| > 0;
    if (haveTeacher && !haveStudents) || (!haveTeacher && haveStudents) {
      return [MessageResponse(StatusBadRequest, Text(MissingValidPairMessage("teacher", "students")))];
    }

    var haveStudent := r.student != "";
    var haveTeachers := |r.teachers| > 0;
    if (haveStudent && !haveTeachers) || (!haveStudent && haveTeachers) {
      return [MessageResponse(StatusBadRequest, Text(MissingValidPairMessage("student", "teachers")))];
    }

    responses := AddToTeacher(db, r, faults);
  }

  /** The teacher half of Register, then the student half. */
  method AddToTeacher(db: Database, r: RegisterRequest, faults: set<nat>) returns (responses: seq<Response>)
    modifies db
    ensures RegisterResult(responses, db.State()) == TeacherStage(old(db.State()), r, faults)
  {
    responses := [];
    var issued := 0;
    var canAddToTeacher := r.teacher != "" && |r.students| > 0;
    if canAddToTeacher {
      var validTeacherEmail := ValidatePattern(EmailPattern, r.teacher);
      if !validTeacherEmail {
        return [MessageResponse(StatusBadRequest, InvalidTeacherEmailFormat)];
      }
      var emailFormat := ValidateEmails(r.students);
      if !emailFormat {
        return [MessageResponse(StatusBadRequest, InvalidStudentEmailFormat)];
      }
      var failed;
      failed, issued := InsertIntoDB(r.teacher, r.students, 1, db, faults, 0);
      if failed {
        responses := responses + [DatabaseError(StatusInternalServerError)];
      }
    }
    responses := AddToStudent(db, r, faults, issued, responses);
  }

  /** The student half of Register, after the teacher half has issued `issued` statements. */
  method AddToStudent(db: Database, r: RegisterRequest, faults: set<nat>, issued: nat, written: seq<Response>) returns (responses: seq<Response>)
    modifies db
    ensures RegisterResult(responses, db.State()) == StudentStage(old(db.State()), issued, written, r, faults)
  {
    responses := written;
    var canAddToStudent := r.student != "" && |r.teachers| > 0;
    if canAddToStudent {
      var validStudentEmail := ValidatePattern(EmailPattern, r.student);
      if !validStudentEmail {
        return responses + [MessageResponse(StatusBadRequest, InvalidStudentEmailFormat)];
      }
      var emailFormat := ValidateEmails(r.teachers);
      if !emailFormat {
        return responses + [MessageResponse(StatusBadRequest, InvalidTeacherEmailFormat)];
      }
      var failed, more := InsertIntoDB(r.student, r.teachers, 2, db, faults, issued);
      if failed {
        responses := responses + [DatabaseError(StatusInternalServerError)];
      }
    }
    responses := responses + [NoBody(StatusNoContent)];
  }

  /** A request whose pairs are both present and whose emails all pass the check. */
  ghost predicate AcceptedBoth(r: RegisterRequest) {
    && r.teacher != "" && |r.students| > 0 && HasEmail(r.teacher) && AllEmails(r.students)
    && r.student != "" && |r.teachers| > 0 && HasEmail(r.student) && AllEmails(r.teachers)
  }

  /** A request with only the teacher pair, present and with all emails passing the check. */
  ghost predicate AcceptedTeacherPair(r: RegisterRequest) {
    && r.teacher != "" && |r.students| > 0 && HasEmail(r.teacher) && AllEmails(r.students)
    && r.student == "" && r.teachers == []
  }

  /** A request with only the student pair, present and with all emails passing the check. */
  ghost predicate AcceptedStudentPair(r: RegisterRequest) {
    && r.teacher == "" && r.students == []
    && r.student != "" && |r.teachers| > 0 && HasEmail(r.student) && AllEmails(r.teachers)
  }

  /** A body that does not bind gets one 502 and writes nothing. */
  lemma BindFailureRejected(t: Tables, detail: string, faults: set<nat>)
    ensures RegisterOutcome(t, BindFailed(detail), faults) == RegisterResult([DatabaseError(StatusBadGateway)], t)
  {
  }

  /**
   * A pair with one half missing is rejected before any email check or
   * write, whatever the emails and the failing statements.
   */
  lemma UnmatchedPairRejected(t: Tables, r: RegisterRequest, faults: set<nat>)
    requires (r.teacher != "") != (|r.students| > 0) || (r.student != "") != (|r.teachers| > 0)
    ensures var o := RegisterOutcome(t, Bound(r), faults);
      && o.tables == t && |o.responses| == 1
      && o.responses[0] == MessageResponse(StatusBadRequest, Text(
           if (r.teacher != "") != (|r.students| > 0) then MissingValidPairMessage("teacher", "students")
           else MissingValidPairMessage("student", "teachers")))
  {
  }

  /** An email failing the check in the teacher pair ends the request before any write. */
  lemma InvalidTeacherPairWritesNothing(t: Tables, r: RegisterRequest, faults: set<nat>)
    requires r.teacher != "" && |r.students| > 0 && (r.student != "") == (|r.teachers| > 0)
    requires !HasEmail(r.teacher) || !AllEmails(r.students)
    ensures RegisterOutcome(t, Bound(r), faults) == RegisterResult([MessageResponse(StatusBadRequest,
      if !HasEmail(r.teacher) then InvalidTeacherEmailFormat else InvalidStudentEmailFormat)], t)
  {
  }

  /**
   * A request with only the student pair, where an email fails the check,
   * ends before any write: a bad student gets the student format message, a
   * bad teachers list the teacher format message.
   */
  lemma InvalidStudentPairWritesNothing(t: Tables, r: RegisterRequest, faults: set<nat>)
    requires r.teacher == "" && r.students == [] && r.student != "" && |r.teachers| > 0
    requires !HasEmail(r.student) || !AllEmails(r.teachers)
    ensures RegisterOutcome(t, Bound(r), faults) == RegisterResult([MessageResponse(StatusBadRequest,
      if !HasEmail(r.student) then InvalidStudentEmailFormat else InvalidTeacherEmailFormat)], t)
  {
  }

  /** A request with all four fields empty writes nothing and answers 204. */
  lemma EmptyRequest(t: Tables, faults: set<nat>)
    ensures RegisterOutcome(t, Bound(RegisterRequest("", [], "", [])), faults) == RegisterResult([NoBody(StatusNoContent)], t)
  {
  }

  /**
   * The teacher pair alone, with no failing statement: 204, and the tables
   * are Registered: the teacher, each student and each edge added.
   */
  lemma TeacherPairRegistered(t: Tables, r: RegisterRequest)
    requires AcceptedTeacherPair(r)
    ensures RegisterOutcome(t, Bound(r), {}) == RegisterResult([NoBody(StatusNoContent)], Registered(t, r.teacher, r.students))
  {
    TeacherPlanRun(t, r.teacher, r.students, {}, 0);
  }

  /**
   * The student pair alone, with no failing statement: 204, and the tables
   * are Enrolled: the student, each teacher and each edge added.
   */
  lemma StudentPairEnrolled(t: Tables, r: RegisterRequest)
    requires AcceptedStudentPair(r)
    ensures RegisterOutcome(t, Bound(r), {}) == RegisterResult([NoBody(StatusNoContent)], Enrolled(t, r.student, r.teachers))
  {
    StudentPlanRun(t, r.student, r.teachers, {}, 0);
  }

  /** Both pairs, with no failing statement: 204, the teacher pair first, then the student pair. */
  lemma BothPairsRegistered(t: Tables, r: RegisterRequest)
    requires AcceptedBoth(r)
    ensures RegisterOutcome(t, Bound(r), {})
         == RegisterResult([NoBody(StatusNoContent)], Enrolled(Registered(t, r.teacher, r.students), r.student, r.teachers))
  {
    TeacherPlanRun(t, r.teacher, r.students, {}, 0);
    var first := Run(t, Plan(r.teacher, r.students, 1), {}, 0);
    StudentPlanRun(first.tables, r.student, r.teachers, {}, first.issued);
    var second := Run(first.tables, Plan(r.student, r.teachers, 2), {}, first.issued);
    assert !first.failed && !second.failed;
  }

  /**
   * The writes of the teacher pair stay when the student pair then fails an
   * email check, whichever statements of the teacher pair fail: a 500 if
   * one did, then the check's 400, with the two format messages in the
   * student pair's order (student first, then the teachers).
   */
  lemma TeacherPairKeptOnStudentRejection(t: Tables, r: RegisterRequest, faults: set<nat>)
    requires r.teacher != "" && |r.students| > 0 && HasEmail(r.teacher) && AllEmails(r.students)
    requires r.student != "" && |r.teachers| > 0 && (!HasEmail(r.student) || !AllEmails(r.teachers))
    ensures var first := Run(t, Plan(r.teacher, r.students, 1), faults, 0);
      RegisterOutcome(t, Bound(r), faults) == RegisterResult(
        (if first.failed then [DatabaseError(StatusInternalServerError)] else [])
        + [MessageResponse(StatusBadRequest, if !HasEmail(r.student) then InvalidStudentEmailFormat else InvalidTeacherEmailFormat)],
        first.tables)
    ensures NoFault(faults, 0, 1 + 2 * |r.students|) ==>
      RegisterOutcome(t, Bound(r), faults).tables == Registered(t, r.teacher, r.students)
  {
    if NoFault(faults, 0, 1 + 2 * |r.students|) {
      TeacherPlanRun(t, r.teacher, r.students, faults, 0);
    }
  }

  /**
   * A database error in the teacher pair does not stop the request: whichever
   * of its statements fails, a 500 is written, the student pair is still
   * written on the tables the teacher pair left, from the next statement
   * number on, and the request ends with 204.
   */
  lemma StoreErrorDoesNotStop(t: Tables, r: RegisterRequest, faults: set<nat>)
    requires AcceptedBoth(r)
    requires var first := Run(t, Plan(r.teacher, r.students, 1), faults, 0);
      first.failed && NoFault(faults, first.issued, 1 + 2 * |r.teachers|)
    ensures var first := Run(t, Plan(r.teacher, r.students, 1), faults, 0);
      RegisterOutcome(t, Bound(r), faults)
        == RegisterResult([DatabaseError(StatusInternalServerError), NoBody(StatusNoContent)], Enrolled(first.tables, r.student, r.teachers))
  {
    var first := Run(t, Plan(r.teacher, r.students, 1), faults, 0);
    StudentPlanRun(first.tables, r.student, r.teachers, faults, first.issued);
  }

  /**
   * The two pair checks answer differently: a request rejected for its
   * teacher pair and one rejected for its student pair never get the same
   * responses.
   */
  lemma UnmatchedPairsDistinguished(t: Tables, r: RegisterRequest, u: Tables, q: RegisterRequest, faults: set<nat>)
    requires (r.teacher != "") != (|r.students| > 0)
    requires (q.teacher != "") == (|q.students| > 0) && (q.student != "") != (|q.teachers| > 0)
    ensures RegisterOutcome(t, Bound(r), faults).responses != RegisterOutcome(u, Bound(q), faults).responses
  {
    UnmatchedPairRejected(t, r, faults);
    UnmatchedPairRejected(u, q, faults);
    var a, b := MissingValidPairMessage("teacher", "students"), MissingValidPairMessage("student", "teachers");
    assert a[12] != b[12];
  }

  /**
   * Registering never removes a row and never changes a student's suspended
   * flag, whichever statements fail.
   */
  lemma RegisterGrows(t: Tables, request: Bind<RegisterRequest>, faults: set<nat>)
    ensures Grows(t, RegisterOutcome(t, request, faults).tables)
  {
    if request.Bound? {
      var r := request.value;
      PlanInsertsOnly(r.teacher, r.students, 1);
      RunGrows(t, Plan(r.teacher, r.students, 1), faults, 0);
      var first := if r.teacher != "" && |r.students| > 0 then Run(t, Plan(r.teacher, r.students, 1), faults, 0) else Outcome(t, 0, false);
      PlanInsertsOnly(r.student, r.teachers, 2);
      RunGrows(first.tables, Plan(r.student, r.teachers, 2), faults, first.issued);
    }
  }

  /** Registering keeps the foreign keys of teaches, whichever statements fail. */
  lemma RegisterValid(t: Tables, request: Bind<RegisterRequest>, faults: set<nat>)
    requires Valid(t)
    ensures Valid(RegisterOutcome(t, request, faults).tables)
  {
    if request.Bound? {
      var r := request.value;
      RunValid(t, Plan(r.teacher, r.students, 1), faults, 0);
      var first := if r.teacher != "" && |r.students| > 0 then Run(t, Plan(r.teacher, r.students, 1), faults, 0) else Outcome(t, 0, false);
      RunValid(first.tables, Plan(r.student, r.teachers, 2), faults, first.issued);
    }
  }

  /** Sending the same request twice, with no failing statement, ends as after once, with the same answer. */
  lemma RegisterIdempotent(t: Tables, request: Bind<RegisterRequest>)
    ensures var once := RegisterOutcome(t, request, {});
      RegisterOutcome(once.tables, request, {}) == once
  {
    if request.Bound? {
      var r := request.value;
      if AcceptedBoth(r) {
        BothPairsRegistered(t, r);
        var u := Enrolled(Registered(t, r.teacher, r.students), r.student, r.teachers);
        BothPairsRegistered(u, r);
        RegisteredAbsorbs(u, r.teacher, r.students);
        EnrolledAbsorbs(u, r.student, r.teachers);
      } else if AcceptedTeacherPair(r) {
        TeacherPairRegistered(t, r);
        var u := Registered(t, r.teacher, r.students);
        TeacherPairRegistered(u, r);
        RegisteredAbsorbs(u, r.teacher, r.students);
      } else if AcceptedStudentPair(r) {
        StudentPairEnrolled(t, r);
        var u := Enrolled(t, r.student, r.teachers);
        StudentPairEnrolled(u, r);
        EnrolledAbsorbs(u, r.student, r.teachers);
      } else if r.teacher != "" && |r.students| > 0 && HasEmail(r.teacher) && AllEmails(r.students)
             && r.student != "" && |r.teachers| > 0 {
        TeacherPlanRun(t, r.teacher, r.students, {}, 0);
        var u := Registered(t, r.teacher, r.students);
        TeacherPlanRun(u, r.teacher, r.students, {}, 0);
        RegisteredAbsorbs(u, r.teacher, r.students);
      }
    }
  }

  /**
   * After the teacher pair is registered, the common students of that
   * teacher alone include every listed student.
   */
  lemma RegisteredAreCommonStudents(t: Tables, r: RegisterRequest)
    requires AcceptedTeacherPair(r)
    ensures forall s | s in r.students :: s in CommonStudentsOf(RegisterOutcome(t, Bound(r), {}).tables, [r.teacher])
  {
    TeacherPairRegistered(t, r);
  }

  /**
   * The round trip for a teacher the tables do not know yet: after the
   * teacher pair is registered, the common students of that teacher alone
   * are exactly the listed students.
   */
  lemma FreshTeacherCommonStudents(t: Tables, r: RegisterRequest)
    requires AcceptedTeacherPair(r)
    requires forall e | e in t.teaches :: e.0 != r.teacher
    ensures CommonStudentsOf(RegisterOutcome(t, Bound(r), {}).tables, [r.teacher]) == Elems(r.students)
  {
    TeacherPairRegistered(t, r);
    var u := Registered(t, r.teacher, r.students);
    forall s | s in CommonStudentsOf(u, [r.teacher]) ensures s in Elems(r.students) {
      assert (r.teacher, s) in u.teaches;
    }
  }

  /**
   * The same round trip through the endpoint: any body that CommonStudents
   * can answer with for that teacher (sorted, each student once, the common
   * students) is the listed students, sorted and without repetitions.
   */
  lemma FreshTeacherCommonStudentsBody(t: Tables, r: RegisterRequest, body: seq<string>, listed: seq<string>)
    requires AcceptedTeacherPair(r)
    requires forall e | e in t.teaches :: e.0 != r.teacher
    requires Sorted(listed) && Distinct(listed) && Elems(listed) == Elems(r.students)
    requires Sorted(body) && Distinct(body)
    requires Elems(body) == CommonStudentsOf(RegisterOutcome(t, Bound(r), {}).tables, [r.teacher])
    ensures body == listed
  {
    FreshTeacherCommonStudents(t, r);
    SortedDistinctUnique(body, listed);
  }
}
