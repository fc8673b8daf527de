/**
 * The three tables of the service, as values, and the statements the
 * controllers send to them.
 *
 * teachers(email PRIMARY KEY); students(email PRIMARY KEY, suspended
 * DEFAULT 0); teaches(teacher, student) with PRIMARY KEY(teacher, student)
 * and both columns foreign keys. Primary keys make sets and a map the
 * natural shape: no row can occur twice.
 */
module Store {
  import opened Seqs

  datatype Tables = Tables(teachers: set<string>, students: map<string, bool>, teaches: set<(string, string)>)

  /** The foreign keys of `teaches`: both ends of every edge are rows. */
  predicate Valid(t: Tables) {
    forall e | e in t.teaches :: e.0 in t.teachers && e.1 in t.students
  }

  /** The statements the controllers issue. */
  datatype Stmt =
    | InsertTeacher(email: string)                     // INSERT IGNORE INTO teachers VALUES (?)
    | InsertStudent(email: string)                     // INSERT IGNORE INTO students VALUES (?, 0)
    | InsertTeaches(teacher: string, student: string)  // INSERT IGNORE INTO teaches VALUES (?, ?)
    | SetSuspended(email: string)                      // UPDATE students SET suspended = 1 WHERE email = (?)

  /**
   * The suspended flag of `email` set, if it is a student; nothing else
   * changes.
   */
  function Suspended(t: Tables, email: string): (u: Tables)
    ensures u.teachers == t.teachers && u.teaches == t.teaches
    ensures u.students.Keys == t.students.Keys
    ensures email in t.students ==> u.students[email]
    ensures email !in t.students ==> u == t
    ensures forall x | x in t.students && x != email :: u.students[x] == t.students[x]
  {
    if email in t.students then t.(students := t.students[email := true]) else t
  }

  /**
   * One statement. INSERT IGNORE leaves an existing row as it is (a student
   * keeps its flag) and skips an edge whose ends are not both rows; an
   * UPDATE of an email that is not a student matches no row.
   */
  function Apply(t: Tables, s: Stmt): Tables {
    match s
    case InsertTeacher(e) => t.(teachers := t.teachers + {e})
    case InsertStudent(e) => if e in t.students then t else t.(students := t.students[e := false])
    case InsertTeaches(a, b) => if a in t.teachers && b in t.students then t.(teaches := t.teaches + {(a, b)}) else t
    case SetSuspended(e) => Suspended(t, e)
  }

  /** Every statement keeps the foreign keys. */
  lemma ApplyValid(t: Tables, s: Stmt)
    requires Valid(t)
    ensures Valid(Apply(t, s))
  {
    if s.SetSuspended? {
      assert Apply(t, s).students.Keys == t.students.Keys;
    }
  }

  /** `u` holds every row of `t`, and every student of `t` keeps its flag. */
  predicate Grows(t: Tables, u: Tables) {
    && t.teachers <= u.teachers
    && t.teaches <= u.teaches
    && forall e | e in t.students :: e in u.students && u.students[e] == t.students[e]
  }

  /** The statements in order, each on the tables the previous one left. */
  function ApplyAll(t: Tables, plan: seq<Stmt>): Tables
    decreases |plan|
  {
    if plan == [] then t else ApplyAll(Apply(t, plan[0]), plan[1..])
  }

  /** What a run of statements leaves: the tables, how many calls it made, and whether the last one failed. */
  datatype Outcome = Outcome(tables: Tables, issued: nat, failed: bool)

  /**
   * Issues `plan` in order; the calls are numbered from `call`. A call whose
   * number is in `faults` returns an error: it changes nothing and the run
   * stops there.
   */
  function Run(t: Tables, plan: seq<Stmt>, faults: set<nat>, call: nat): Outcome
    decreases |plan|
  {
    if plan == [] then Outcome(t, 0, false)
    else if call in faults then Outcome(t, 1, true)
    else
      var rest := Run(Apply(t, plan[0]), plan[1..], faults, call + 1);
      rest.(issued := rest.issued + 1)
  }

  /** An outcome `n` calls later: the same tables and failure, `n` more calls. */
  function Later(o: Outcome, n: nat): Outcome {
    o.(issued := o.issued + n)
  }

  /** A run whose first call succeeds: that statement, then the rest one call later. */
  lemma RunCons(t: Tables, s: Stmt, rest: seq<Stmt>, faults: set<nat>, call: nat)
    requires call !in faults
    ensures Run(t, [s] + rest, faults, call) == Later(Run(Apply(t, s), rest, faults, call + 1), 1)
  {
    assert ([s] + rest)[1..] == rest;
  }

  /** A run of two statements: the first fails, or the second fails after it, or both are applied. */
  lemma RunTwo(t: Tables, a: Stmt, b: Stmt, faults: set<nat>, call: nat)
    ensures Run(t, [a, b], faults, call) ==
      if call in faults then Outcome(t, 1, true)
      else if call + 1 in faults then Outcome(Apply(t, a), 2, true)
      else Outcome(Apply(Apply(t, a), b), 2, false)
  {
    if call !in faults {
      assert [a, b] == [a] + [b];
      RunCons(t, a, [b], faults, call);
      if call + 1 !in faults {
        assert [b] == [b] + [];
        RunCons(Apply(t, a), b, [], faults, call + 1);
      }
    }
  }

  /**
   * Running two plans one after the other: the second starts, numbered after
   * the first, only if the first did not fail.
   */
  lemma {:induction false} RunAppend(t: Tables, p: seq<Stmt>, q: seq<Stmt>, faults: set<nat>, call: nat)
    ensures var o := Run(t, p, faults, call);
      Run(t, p + q, faults, call) == if o.failed then o else Later(Run(o.tables, q, faults, call + o.issued), o.issued)
    decreases |p|
  {
    if p == [] {
      assert p + q == q;
    } else if call !in faults {
      assert (p + q)[1..] == p[1..] + q;
      RunAppend(Apply(t, p[0]), p[1..], q, faults, call + 1);
    }
  }

  /**
   * One step of a run issued piecewise: when `whole` is what remains of a
   * run after `issued` calls, with `p` next, it is the outcome of `p` if `p`
   * fails, and else what remains after `p`.
   */
  lemma RunStep(whole: Outcome, t: Tables, p: seq<Stmt>, q: seq<Stmt>, faults: set<nat>, call: nat, issued: nat)
    requires whole == Later(Run(t, p + q, faults, call + issued), issued)
    ensures var o := Run(t, p, faults, call + issued);
      && (o.failed ==> whole == Later(o, issued))
      && (!o.failed ==> whole == Later(Run(o.tables, q, faults, call + (issued + o.issued)), issued + o.issued))
  {
    RunAppend(t, p, q, faults, call + issued);
  }

  /** No call numbered from `call` to `call + n - 1` fails. */
  predicate NoFault(faults: set<nat>, call: nat, n: nat) {
    forall k | call <= k < call + n :: k !in faults
  }

  /** The first of n + 1 calls, then the other n. */
  lemma NoFaultFirst(faults: set<nat>, call: nat, n: nat)
    ensures NoFault(faults, call, n + 1) <==> call !in faults && NoFault(faults, call + 1, n)
  {
  }

  /** The number of statements a run applied: all it issued except a failed last one. */
  function Applied(o: Outcome): int {
    if o.failed then o.issued - 1 else o.issued
  }

  /**
   * A run stops at its first failing call: the calls before it all
   * succeeded, the statements before it are all applied (their rows stay),
   * and the failing one and everything after it are not; a run without a
   * failure issues the whole plan.
   */
  lemma {:induction false} RunStopsAtFirstFault(t: Tables, plan: seq<Stmt>, faults: set<nat>, call: nat)
    ensures var o := Run(t, plan, faults, call);
      && 0 <= Applied(o) <= o.issued <= |plan|
      && (o.failed ==> o.issued >= 1 && call + o.issued - 1 in faults)
      && (!o.failed ==> o.issued == |plan|)
      && NoFault(faults, call, Applied(o))
      && o.tables == ApplyAll(t, plan[..Applied(o)])
    decreases |plan|
  {
    if plan != [] && call !in faults {
      RunStopsAtFirstFault(Apply(t, plan[0]), plan[1..], faults, call + 1);
      var o := Run(Apply(t, plan[0]), plan[1..], faults, call + 1);
      assert plan[..Applied(o) + 1][1..] == plan[1..][..Applied(o)];
    }
  }

  /** Without a failing call a run applies the whole plan. */
  lemma {:induction false} RunWithoutFault(t: Tables, plan: seq<Stmt>, faults: set<nat>, call: nat)
    requires NoFault(faults, call, |plan|)
    ensures Run(t, plan, faults, call) == Outcome(ApplyAll(t, plan), |plan|, false)
    decreases |plan|
  {
    if plan != [] {
      assert call !in faults;
      RunWithoutFault(Apply(t, plan[0]), plan[1..], faults, call + 1);
    }
  }

  /** Whether no statement of `plan` is an UPDATE. */
  predicate InsertsOnly(plan: seq<Stmt>) {
    forall k | 0 <= k < |plan| :: !plan[k].SetSuspended?
  }

  /** Inserts never remove a row and never change a student's flag, whichever call fails. */
  lemma {:induction false} RunGrows(t: Tables, plan: seq<Stmt>, faults: set<nat>, call: nat)
    requires InsertsOnly(plan)
    ensures Grows(t, Run(t, plan, faults, call).tables)
    decreases |plan|
  {
    if plan != [] && call !in faults {
      assert !plan[0].SetSuspended?;
      assert InsertsOnly(plan[1..]) by {
        forall k | 0 <= k < |plan| - 1 ensures !plan[1..][k].SetSuspended? {
          assert plan[1..][k] == plan[k + 1];
        }
      }
      RunGrows(Apply(t, plan[0]), plan[1..], faults, call + 1);
    }
  }

  /** A run keeps the foreign keys, whichever call fails. */
  lemma {:induction false} RunValid(t: Tables, plan: seq<Stmt>, faults: set<nat>, call: nat)
    requires Valid(t)
    ensures Valid(Run(t, plan, faults, call).tables)
    decreases |plan|
  {
    if plan != [] && call !in faults {
      ApplyValid(t, plan[0]);
      RunValid(Apply(t, plan[0]), plan[1..], faults, call + 1);
    }
  }

  // ---------------------------------------------------------------------
  // The two plans of insertIntoDB.
  // ---------------------------------------------------------------------

  /** For each student: the student row, then the edge from `teacher`. */
  function TeacherEdges(teacher: string, students: seq<string>): seq<Stmt>
    decreases |students|
  {
    if students == [] then []
    else [InsertStudent(students[0]), InsertTeaches(teacher, students[0])] + TeacherEdges(teacher, students[1..])
  }

  /** For each teacher: the teacher row, then the edge to `student`. */
  function StudentEdges(student: string, teachers: seq<string>): seq<Stmt>
    decreases |teachers|
  {
    if teachers == [] then []
    else [InsertTeacher(teachers[0]), InsertTeaches(teachers[0], student)] + StudentEdges(student, teachers[1..])
  }

  /**
   * The statements insertIntoDB issues: action 1 registers `list` as
   * students of the teacher `target`, action 2 registers `list` as teachers
   * of the student `target`, any other action issues nothing.
   */
  function Plan(target: string, list: seq<string>, action: int): seq<Stmt> {
    if action == 1 then [InsertTeacher(target)] + TeacherEdges(target, list)
    else if action == 2 then [InsertStudent(target)] + StudentEdges(target, list)
    else []
  }

  /** The first list of statements of a student (action 1) or a teacher (action 2), and then the rest. */
  lemma TeacherEdgesCons(teacher: string, students: seq<string>, i: nat)
    requires i < |students|
    ensures TeacherEdges(teacher, students[i..])
      == [InsertStudent(students[i]), InsertTeaches(teacher, students[i])] + TeacherEdges(teacher, students[i + 1..])
  {
    assert students[i..][1..] == students[i + 1..];
  }

  lemma StudentEdgesCons(student: string, teachers: seq<string>, i: nat)
    requires i < |teachers|
    ensures StudentEdges(student, teachers[i..])
      == [InsertTeacher(teachers[i]), InsertTeaches(teachers[i], student)] + StudentEdges(student, teachers[i + 1..])
  {
    assert teachers[i..][1..] == teachers[i + 1..];
  }

  /**
   * One step of action 1 from the i-th student on, where `whole` is what
   * remains of the run after `issued` calls: the student's two statements
   * either fail, ending the run, or are applied, leaving the later students.
   */
  lemma TeacherStep(whole: Outcome, t: Tables, teacher: string, students: seq<string>, i: nat, faults: set<nat>, call: nat, issued: nat)
    requires i < |students|
    requires whole == Later(Run(t, TeacherEdges(teacher, students[i..]), faults, call + issued), issued)
    ensures var o := Run(t, [InsertStudent(students[i]), InsertTeaches(teacher, students[i])], faults, call + issued);
      && (o.failed ==> whole == Outcome(o.tables, issued + o.issued, true))
      && (!o.failed ==> whole == Later(Run(o.tables, TeacherEdges(teacher, students[i + 1..]), faults, call + (issued + 2)), issued + 2))
  {
    TeacherEdgesCons(teacher, students, i);
    RunTwo(t, InsertStudent(students[i]), InsertTeaches(teacher, students[i]), faults, call + issued);
    RunStep(whole, t, [InsertStudent(students[i]), InsertTeaches(teacher, students[i])], TeacherEdges(teacher, students[i + 1..]), faults, call, issued);
  }

  /** One step of action 2 from the i-th teacher on, as TeacherStep. */
  lemma StudentStep(whole: Outcome, t: Tables, student: string, teachers: seq<string>, i: nat, faults: set<nat>, call: nat, issued: nat)
    requires i < |teachers|
    requires whole == Later(Run(t, StudentEdges(student, teachers[i..]), faults, call + issued), issued)
    ensures var o := Run(t, [InsertTeacher(teachers[i]), InsertTeaches(teachers[i], student)], faults, call + issued);
      && (o.failed ==> whole == Outcome(o.tables, issued + o.issued, true))
      && (!o.failed ==> whole == Later(Run(o.tables, StudentEdges(student, teachers[i + 1..]), faults, call + (issued + 2)), issued + 2))
  {
    StudentEdgesCons(student, teachers, i);
    RunTwo(t, InsertTeacher(teachers[i]), InsertTeaches(teachers[i], student), faults, call + issued);
    RunStep(whole, t, [InsertTeacher(teachers[i]), InsertTeaches(teachers[i], student)], StudentEdges(student, teachers[i + 1..]), faults, call, issued);
  }

  /** The number of statements of a plan: one row, then two per listed email. */
  lemma {:induction false} PlanLength(target: string, list: seq<string>, action: int)
    ensures |Plan(target, list, action)| == if action == 1 || action == 2 then 1 + 2 * |list| else 0
  {
    TeacherEdgesLength(target, list);
    StudentEdgesLength(target, list);
  }

  lemma {:induction false} TeacherEdgesLength(teacher: string, students: seq<string>)
    ensures |TeacherEdges(teacher, students)| == 2 * |students|
    decreases |students|
  {
    if students != [] { TeacherEdgesLength(teacher, students[1..]); }
  }

  lemma {:induction false} StudentEdgesLength(student: string, teachers: seq<string>)
    ensures |StudentEdges(student, teachers)| == 2 * |teachers|
    decreases |teachers|
  {
    if teachers != [] { StudentEdgesLength(student, teachers[1..]); }
  }

  /** insertIntoDB's plans only insert. */
  lemma {:induction false} PlanInsertsOnly(target: string, list: seq<string>, action: int)
    ensures InsertsOnly(Plan(target, list, action))
    decreases |list|
  {
    if list != [] {
      PlanInsertsOnly(target, list[1..], action);
      var p := Plan(target, list, action);
      var q := Plan(target, list[1..], action);
      if action == 1 || action == 2 {
        forall k | 0 <= k < |p| ensures !p[k].SetSuspended? {
          if k >= 3 { assert p[k] == q[k - 2]; }
        }
      }
    }
  }

  // ---------------------------------------------------------------------
  // What the plans do, in closed form.
  // ---------------------------------------------------------------------

  /** Each of `emails` becomes a student, not suspended unless it already was a student. */
  function WithStudents(m: map<string, bool>, emails: set<string>): (r: map<string, bool>)
    ensures r.Keys == m.Keys + emails
    ensures forall e | e in m :: r[e] == m[e]
    ensures forall e | e in emails && e !in m :: !r[e]
  {
    map e | e in m.Keys + emails :: if e in m then m[e] else false
  }

  /** Inserting one student is WithStudents of that one email. */
  lemma WithStudent(m: map<string, bool>, e: string)
    ensures (if e in m then m else m[e := false]) == WithStudents(m, {e})
  {
  }

  lemma WithStudentsTwice(m: map<string, bool>, a: set<string>, b: set<string>)
    ensures WithStudents(WithStudents(m, a), b) == WithStudents(m, a + b)
  {
  }

  /**
   * The tables after action 1 succeeds: the teacher is a teacher, each
   * listed email a student, and each (teacher, student) an edge, in addition
   * to everything already there.
   */
  function Registered(t: Tables, teacher: string, students: seq<string>): (u: Tables)
    ensures Grows(t, u)
    ensures teacher in u.teachers
    ensures forall s | s in students :: s in u.students && (teacher, s) in u.teaches
    ensures forall s | s in students && s !in t.students :: !u.students[s]
  {
    Tables(t.teachers + {teacher}, WithStudents(t.students, Elems(students)), t.teaches + set s | s in students :: (teacher, s))
  }

  /**
   * The tables after action 2 succeeds: the student is a student, each
   * listed email a teacher, and each (teacher, student) an edge, in addition
   * to everything already there.
   */
  function Enrolled(t: Tables, student: string, teachers: seq<string>): (u: Tables)
    ensures Grows(t, u)
    ensures student in u.students && (student !in t.students ==> !u.students[student])
    ensures forall x | x in teachers :: x in u.teachers && (x, student) in u.teaches
  {
    Tables(t.teachers + Elems(teachers), WithStudents(t.students, {student}), t.teaches + set x | x in teachers :: (x, student))
  }

  lemma {:induction false} TeacherEdgesApplied(t: Tables, teacher: string, students: seq<string>)
    requires teacher in t.teachers
    ensures ApplyAll(t, TeacherEdges(teacher, students))
         == Tables(t.teachers, WithStudents(t.students, Elems(students)), t.teaches + set s | s in students :: (teacher, s))
    decreases |students|
  {
    if students != [] {
      var v, rest := students[0], students[1..];
      var plan := TeacherEdges(teacher, students);
      assert plan[1..][1..] == TeacherEdges(teacher, rest);
      var t1 := Apply(Apply(t, InsertStudent(v)), InsertTeaches(teacher, v));
      WithStudent(t.students, v);
      assert t1 == Tables(t.teachers, WithStudents(t.students, {v}), t.teaches + {(teacher, v)});
      TeacherEdgesApplied(t1, teacher, rest);
      WithStudentsTwice(t.students, {v}, Elems(rest));
      assert students == [v] + rest;
      assert Elems(students) == {v} + Elems(rest);
      assert (set s | s in students :: (teacher, s)) == {(teacher, v)} + set s | s in rest :: (teacher, s);
    }
  }

  lemma {:induction false} StudentEdgesApplied(t: Tables, student: string, teachers: seq<string>)
    requires student in t.students
    ensures ApplyAll(t, StudentEdges(student, teachers))
         == Tables(t.teachers + Elems(teachers), t.students, t.teaches + set x | x in teachers :: (x, student))
    decreases |teachers|
  {
    if teachers != [] {
      var v, rest := teachers[0], teachers[1..];
      var plan := StudentEdges(student, teachers);
      assert plan[1..][1..] == StudentEdges(student, rest);
      var t1 := Apply(Apply(t, InsertTeacher(v)), InsertTeaches(v, student));
      assert t1 == Tables(t.teachers + {v}, t.students, t.teaches + {(v, student)});
      StudentEdgesApplied(t1, student, rest);
      assert teachers == [v] + rest;
      assert Elems(teachers) == {v} + Elems(rest);
      assert (set x | x in teachers :: (x, student)) == {(v, student)} + set x | x in rest :: (x, student);
    }
  }

  /** Action 1 without a failing call leaves exactly Registered. */
  lemma TeacherPlanApplied(t: Tables, teacher: string, students: seq<string>)
    ensures ApplyAll(t, Plan(teacher, students, 1)) == Registered(t, teacher, students)
  {
    var t0 := Apply(t, InsertTeacher(teacher));
    assert Plan(teacher, students, 1)[1..] == TeacherEdges(teacher, students);
    TeacherEdgesApplied(t0, teacher, students);
  }

  /** Action 2 without a failing call leaves exactly Enrolled. */
  lemma StudentPlanApplied(t: Tables, student: string, teachers: seq<string>)
    ensures ApplyAll(t, Plan(student, teachers, 2)) == Enrolled(t, student, teachers)
  {
    var t0 := Apply(t, InsertStudent(student));
    assert Plan(student, teachers, 2)[1..] == StudentEdges(student, teachers);
    StudentEdgesApplied(t0, student, teachers);
    WithStudent(t.students, student);
  }

  /** Registering the same students to the same teacher again changes nothing. */
  lemma RegisteredIdempotent(t: Tables, teacher: string, students: seq<string>)
    ensures Registered(Registered(t, teacher, students), teacher, students) == Registered(t, teacher, students)
  {
    WithStudentsTwice(t.students, Elems(students), Elems(students));
    assert Elems(students) + Elems(students) == Elems(students);
  }

  /** Registering the same teachers to the same student again changes nothing. */
  lemma EnrolledIdempotent(t: Tables, student: string, teachers: seq<string>)
    ensures Enrolled(Enrolled(t, student, teachers), student, teachers) == Enrolled(t, student, teachers)
  {
    WithStudentsTwice(t.students, {student}, {student});
  }

  /** Registering what the tables already hold changes nothing. */
  lemma RegisteredAbsorbs(u: Tables, teacher: string, students: seq<string>)
    requires teacher in u.teachers
    requires forall s | s in students :: s in u.students && (teacher, s) in u.teaches
    ensures Registered(u, teacher, students) == u
  {
    var r := Registered(u, teacher, students);
    assert r.students.Keys == u.students.Keys;
    assert r.students == u.students;
    assert r.teaches == u.teaches;
  }

  /** Enrolling what the tables already hold changes nothing. */
  lemma EnrolledAbsorbs(u: Tables, student: string, teachers: seq<string>)
    requires student in u.students
    requires forall x | x in teachers :: x in u.teachers && (x, student) in u.teaches
    ensures Enrolled(u, student, teachers) == u
  {
    var r := Enrolled(u, student, teachers);
    assert r.students.Keys == u.students.Keys;
    assert r.students == u.students;
    assert r.teaches == u.teaches;
    assert r.teachers == u.teachers;
  }

  /** Action 1 with no failing call: Registered, after 1 + 2n statements. */
  lemma TeacherPlanRun(t: Tables, teacher: string, students: seq<string>, faults: set<nat>, call: nat)
    requires NoFault(faults, call, 1 + 2 * |students|)
    ensures Run(t, Plan(teacher, students, 1), faults, call) == Outcome(Registered(t, teacher, students), 1 + 2 * |students|, false)
  {
    PlanLength(teacher, students, 1);
    RunWithoutFault(t, Plan(teacher, students, 1), faults, call);
    TeacherPlanApplied(t, teacher, students);
  }

  /** Action 2 with no failing call: Enrolled, after 1 + 2n statements. */
  lemma StudentPlanRun(t: Tables, student: string, teachers: seq<string>, faults: set<nat>, call: nat)
    requires NoFault(faults, call, 1 + 2 * |teachers|)
    ensures Run(t, Plan(student, teachers, 2), faults, call) == Outcome(Enrolled(t, student, teachers), 1 + 2 * |teachers|, false)
  {
    PlanLength(student, teachers, 2);
    RunWithoutFault(t, Plan(student, teachers, 2), faults, call);
    StudentPlanApplied(t, student, teachers);
  }

  /** Suspending twice is suspending once. */
  lemma SuspendedIdempotent(t: Tables, email: string)
    ensures Suspended(Suspended(t, email), email) == Suspended(t, email)
  {
  }

  // ---------------------------------------------------------------------
  // What the queries return.
  // ---------------------------------------------------------------------

  /** The students of `teacher` (its edges), whatever their flag. */
  function Roster(t: Tables, teacher: string): (r: set<string>)
    ensures forall s :: s in r <==> (teacher, s) in t.teaches
  {
    var r := set e | e in t.teaches && e.0 == teacher :: e.1;
    assert forall s | (teacher, s) in t.teaches :: s in r by {
      forall s | (teacher, s) in t.teaches ensures s in r {
        var e := (teacher, s);
        assert e.1 == s;
      }
    }
    r
  }

  /**
   * The join of students and teaches: the students of `teacher` that are
   * rows of students with suspended = 0.
   */
  function UnsuspendedRoster(t: Tables, teacher: string): (r: set<string>)
    ensures forall s :: s in r <==> (teacher, s) in t.teaches && s in t.students && !t.students[s]
  {
    set s | s in Roster(t, teacher) && Unsuspended(t, s)
  }

  /** Whether `email` is a student with suspended = 0. */
  predicate Unsuspended(t: Tables, email: string) {
    email in t.students && !t.students[email]
  }

  /**
   * SELECT COUNT(*) FROM students WHERE suspended = 0 AND email = (?): the
   * email is the primary key, so the count is 1 for an unsuspended student
   * and 0 otherwise.
   */
  function CountUnsuspended(t: Tables, email: string): (r: nat)
    ensures r <= 1 && (r == 1 <==> Unsuspended(t, email))
  {
    var rows := set e | e in t.students.Keys && e == email && !t.students[e];
    assert rows == if Unsuspended(t, email) then {email} else {};
    |rows|
  }

  /** The students every teacher in `teachers` teaches: the INTERSECT of their rosters. */
  function CommonStudentsOf(t: Tables, teachers: seq<string>): (r: set<string>)
    requires teachers != []
    ensures forall s :: s in r <==> forall x | x in teachers :: (x, s) in t.teaches
    decreases |teachers|
  {
    if |teachers| == 1 then Roster(t, teachers[0])
    else
      var rest := CommonStudentsOf(t, teachers[1..]);
      assert forall x | x in teachers :: x == teachers[0] || x in teachers[1..];
      Roster(t, teachers[0]) * rest
  }

  /**
   * Who a notification from `teacher` reaches: the unsuspended students of
   * the teacher, and each mentioned email that is an unsuspended student.
   */
  function Recipients(t: Tables, teacher: string, tagged: seq<string>): (r: set<string>)
    ensures forall s :: s in r <==> Unsuspended(t, s) && ((teacher, s) in t.teaches || s in tagged)
  {
    UnsuspendedRoster(t, teacher) + Mentioned(t, tagged)
  }

  /** The mentioned emails that are unsuspended students: those whose COUNT(*) query finds one row. */
  function Mentioned(t: Tables, tagged: seq<string>): set<string> {
    set v | v in tagged && Unsuspended(t, v)
  }

  /** One more mention adds that email exactly when it is an unsuspended student. */
  lemma MentionedSnoc(t: Tables, tagged: seq<string>, v: string)
    ensures Mentioned(t, tagged + [v]) == Mentioned(t, tagged) + (if Unsuspended(t, v) then {v} else {})
  {
  }
}
