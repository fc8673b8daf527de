/**
 * The fixtures of the end-to-end tests, as tables, and what the model says
 * the endpoints answer on them.
 */
module Scenarios {
  import opened Seqs
  import opened Sorting
  import opened Store

  /** The suspend fixture: one unsuspended student. */
  const SuspendTables := Tables({}, map["test@gmail.com" := false], {})

  /** Suspending the fixture's student sets its flag, and it stays the only student. */
  lemma SuspendScenario()
    ensures var u := Suspended(SuspendTables, "test@gmail.com");
      u.students == map["test@gmail.com" := true]
  {
  }

  /** The common-students fixture: two teachers, each with one own student and one shared. */
  const CommonTables := Tables(
    {"teacher1@gmail.com", "teacher2@gmail.com"},
    map["student1@gmail.com" := false, "student2@gmail.com" := false, "common@gmail.com" := false],
    {("teacher1@gmail.com", "student1@gmail.com"), ("teacher2@gmail.com", "student2@gmail.com"),
     ("teacher1@gmail.com", "common@gmail.com"), ("teacher2@gmail.com", "common@gmail.com")})

  /** teacher1 teaches common and student1; with teacher2 only common is shared; an unknown teacher has none. */
  lemma CommonStudentsScenario()
    ensures CommonStudentsOf(CommonTables, ["teacher1@gmail.com"]) == {"common@gmail.com", "student1@gmail.com"}
    ensures CommonStudentsOf(CommonTables, ["teacher1@gmail.com", "teacher2@gmail.com"]) == {"common@gmail.com"}
    ensures CommonStudentsOf(CommonTables, ["non@existent.email"]) == {}
  {
    var r1 := CommonStudentsOf(CommonTables, ["teacher1@gmail.com"]);
    assert "teacher1@gmail.com" != "teacher2@gmail.com" by {
      assert "teacher1@gmail.com"[7] != "teacher2@gmail.com"[7];
    }
    assert r1 == {"common@gmail.com", "student1@gmail.com"};
  }

  /**
   * The body CommonStudents sends for teacher1 (sorted, without repetitions,
   * the common students) can only be ["common@gmail.com", "student1@gmail.com"].
   */
  lemma CommonStudentsBodyScenario(rows: seq<string>)
    requires Sorted(rows) && Distinct(rows)
    requires Elems(rows) == CommonStudentsOf(CommonTables, ["teacher1@gmail.com"])
    ensures rows == ["common@gmail.com", "student1@gmail.com"]
  {
    CommonStudentsScenario();
    var expected := ["common@gmail.com", "student1@gmail.com"];
    assert LexLe(expected[0], expected[1]);
    assert Elems(expected) == {"common@gmail.com", "student1@gmail.com"};
    SortedDistinctUnique(rows, expected);
  }

  /** The notification fixture: a teacher with one unsuspended and one suspended student, and two more students. */
  const NotifyTables := Tables(
    {"teacher@gmail.com"},
    map["nottagged@gmail.com" := false, "tagged1@gmail.com" := false, "tagged2@gmail.com" := false,
        "ishouldnotappear@gmail.com" := true],
    {("teacher@gmail.com", "nottagged@gmail.com"), ("teacher@gmail.com", "ishouldnotappear@gmail.com")})

  /** Without mentions only the unsuspended student of the teacher is reached. */
  lemma NotificationScenario()
    ensures Recipients(NotifyTables, "teacher@gmail.com", []) == {"nottagged@gmail.com"}
  {
  }

  /** The mentions add the tagged students, once each. */
  lemma MentionScenario()
    ensures Recipients(NotifyTables, "teacher@gmail.com", ["tagged1@gmail.com", "tagged2@gmail.com", "tagged1@gmail.com"])
      == {"nottagged@gmail.com", "tagged1@gmail.com", "tagged2@gmail.com"}
  {
  }

  /** Three strings in ascending order, pairwise different, make a sorted list without repetitions. */
  lemma SortedThree(a: string, b: string, c: string)
    requires LexLe(a, b) && LexLe(b, c) && a != b && b != c && a != c
    ensures Sorted([a, b, c]) && Distinct([a, b, c]) && Elems([a, b, c]) == {a, b, c}
  {
    LexLeTransitive(a, b, c);
  }

  /** The three recipients, in ascending order and each once. */
  lemma RecipientListSorted()
    ensures var expected := ["nottagged@gmail.com", "tagged1@gmail.com", "tagged2@gmail.com"];
      Sorted(expected) && Distinct(expected)
      && Elems(expected) == {"nottagged@gmail.com", "tagged1@gmail.com", "tagged2@gmail.com"}
  {
    var a, b, c := "nottagged@gmail.com", "tagged1@gmail.com", "tagged2@gmail.com";
    assert LexLe(a, b);
    assert b[..6] == c[..6];
    LexLeAt(b, c, 6);
    assert a[0] != b[0] && b[6] != c[6] && a[0] != c[0];
    SortedThree(a, b, c);
  }

  /** The body for the notification with mentions can only be the three recipients in order. */
  lemma NotificationBodyScenario(rows: seq<string>)
    requires Sorted(rows) && Distinct(rows)
    requires Elems(rows) == Recipients(NotifyTables, "teacher@gmail.com", ["tagged1@gmail.com", "tagged2@gmail.com", "tagged1@gmail.com"])
    ensures rows == ["nottagged@gmail.com", "tagged1@gmail.com", "tagged2@gmail.com"]
  {
    MentionScenario();
    RecipientListSorted();
    SortedDistinctUnique(rows, ["nottagged@gmail.com", "tagged1@gmail.com", "tagged2@gmail.com"]);
  }
}
