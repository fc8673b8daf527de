/**
 * The database as the controllers see it: an object holding the three tables,
 * which executes one statement at a time and answers the three queries.
 * Whether a call returns an error is decided by the caller's `fail`
 * argument: the database server is not part of this model.
 */
module Databases {
  import opened Seqs
  import opened Store
  import opened Queries

  class Database {
    var teachers: set<string>
    var students: map<string, bool>
    var teaches: set<(string, string)>

    /** The tables as a value. */
    function State(): Tables
      reads this
    {
      Tables(teachers, students, teaches)
    }

    constructor (t: Tables)
      ensures State() == t
    {
      teachers, students, teaches := t.teachers, t.students, t.teaches;
    }

    /** Executes one statement; a failing call leaves the tables as they were. */
    method Execute(s: Stmt, fail: bool) returns (ok: bool)
      modifies this
      ensures ok == !fail
      ensures State() == if fail then old(State()) else Apply(old(State()), s)
    {
      if fail {
        return false;
      }
      var u := Apply(State(), s);
      teachers, students, teaches := u.teachers, u.students, u.teaches;
      ok := true;
    }

    /**
     * The roster query of the notification endpoint: each unsuspended student
     * of `teacher` once, in an order the model leaves open.
     */
    method SelectUnsuspendedRoster(teacher: string) returns (rows: seq<string>)
      ensures Distinct(rows) && Elems(rows) == UnsuspendedRoster(State(), teacher)
    {
      rows := Enumerate(UnsuspendedRoster(State(), teacher));
    }

    /** The COUNT(*) query of the notification endpoint. */
    method SelectCount(email: string) returns (count: nat)
      ensures count == CountUnsuspended(State(), email)
    {
      count := CountUnsuspended(State(), email);
    }

    /**
     * The INTERSECT query of the common-students endpoint: each student of
     * every listed teacher once (INTERSECT removes duplicates), in an order
     * the model leaves open. The database reads the query as the one built
     * for `teacherList`; SQL text is not parsed here.
     */
    method SelectCommon(query: string, teacherList: seq<string>) returns (rows: seq<string>)
      requires teacherList != [] && query == CommonStudentsQuery(teacherList)
      ensures Distinct(rows) && Elems(rows) == CommonStudentsOf(State(), teacherList)
    {
      rows := Enumerate(CommonStudentsOf(State(), teacherList));
    }
  }

  /** The rows of a result set: each element of `s` once, in some order. */
  method Enumerate(s: set<string>) returns (rows: seq<string>)
    ensures Distinct(rows) && Elems(rows) == s
  {
    rows := [];
    var rest := s;
    while rest != {}
      invariant rest <= s && Distinct(rows)
      invariant forall x :: x in rows <==> x in s && x !in rest
      decreases |rest|
    {
      var x :| x in rest;
      DistinctSnoc(rows, x);
      rows := rows + [x];
      rest := rest - {x};
    }
  }
}
