/** GET /api/commonstudents: the students common to a list of teachers. */
module CommonStudentsController {
  import opened Seqs
  import opened Text
  import opened Sorting
  import opened Store
  import opened Queries
  import opened Messages
  import opened Http
  import opened Databases

  /** Builds the query: one SELECT per teacher, " INTERSECT " before every one but the first. */
  method BuildQuery(teachers: seq<string>) returns (query: string)
    ensures query == CommonStudentsQuery(teachers)
  {
    query := "";
    for i := 0 to |teachers|
      invariant query == Join(Fragments(teachers[..i]), IntersectSeparator)
    {
      var v := teachers[i];
      assert Fragments(teachers[..i + 1]) == Fragments(teachers[..i]) + [Fragment(v)];
      JoinSnoc(Fragments(teachers[..i]), Fragment(v), IntersectSeparator);
      if i > 0 {
        query := query + IntersectSeparator;
      }
      query := query + (FragmentHead + v + FragmentTail);
    }
    assert teachers[..|teachers|] == teachers;
  }

  /**
   * CommonStudents. Without a teacher parameter: 400 naming it. When the
   * query (call 0) fails: 502. Otherwise 200 with every student that all
   * the listed teachers teach, once each, in ascending order; suspension
   * does not matter here.
   */
  method CommonStudents(db: Database, teachers: seq<string>, faults: set<nat>) returns (response: Response)
    ensures teachers == [] ==> response == MessageResponse(StatusBadRequest, Text(MissingQueryParams(["teacher"])))
    ensures teachers != [] && 0 in faults ==> response == MessageResponse(StatusBadGateway, Text(MessageDatabaseError))
    ensures teachers != [] && 0 !in faults ==>
      && response.Json? && response.status == StatusOK && response.body.StudentsBody?
      && Sorted(response.body.students) && Distinct(response.body.students)
      && Elems(response.body.students) == CommonStudentsOf(db.State(), teachers)
  {
    if |teachers| == 0 {
      var message := MissingQueryParamsMessage(["teacher"]);
      return MessageResponse(StatusBadRequest, Text(message));
    }
    var query := BuildQuery(teachers);
    if 0 in faults {
      return MessageResponse(StatusBadGateway, Text(MessageDatabaseError));
    }
    var students := db.SelectCommon(query, teachers);
    SortKeepsElements(students);
    students := SortStrings(students);
    response := Json(StatusOK, StudentsBody(students));
  }

  /**
   * The answer does not depend on the order the database returns rows in:
   * any two sorted lists without repetitions of the common students are
   * the same list.
   */
  lemma CommonStudentsDetermined(t: Tables, teachers: seq<string>, a: seq<string>, b: seq<string>)
    requires teachers != []
    requires Sorted(a) && Distinct(a) && Elems(a) == CommonStudentsOf(t, teachers)
    requires Sorted(b) && Distinct(b) && Elems(b) == CommonStudentsOf(t, teachers)
    ensures a == b
  {
    SortedDistinctUnique(a, b);
  }

  /** One teacher: the common students are that teacher's whole roster, suspended or not. */
  lemma SingleTeacher(t: Tables, teacher: string)
    ensures CommonStudentsOf(t, [teacher]) == Roster(t, teacher)
  {
  }

  /** A teacher without edges has no common students with anyone. */
  lemma UnknownTeacher(t: Tables, teachers: seq<string>, k: nat)
    requires k < |teachers| && forall e | e in t.teaches :: e.0 != teachers[k]
    ensures CommonStudentsOf(t, teachers) == {}
  {
    var x := teachers[k];
    assert x in teachers;
    forall s ensures s !in CommonStudentsOf(t, teachers) {
      assert (x, s) !in t.teaches;
    }
  }

  /** Listing the teachers in another order, or repeating one, does not change the answer. */
  lemma CommonStudentsOfElems(t: Tables, a: seq<string>, b: seq<string>)
    requires a != [] && b != [] && Elems(a) == Elems(b)
    ensures CommonStudentsOf(t, a) == CommonStudentsOf(t, b)
  {
    forall s ensures s in CommonStudentsOf(t, a) <==> s in CommonStudentsOf(t, b) {
      assert forall x :: x in a <==> x in Elems(a);
      assert forall x :: x in b <==> x in Elems(b);
    }
  }
}
