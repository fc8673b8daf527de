/** The text of the common-students query. */
module Queries {
  import opened Text

  /** The per-teacher SELECT up to the teacher's email, with the source's line breaks and indentation. */
  const FragmentHead := "SELECT student\n\t\t\t\t  FROM teaches\n\t\t\t\t  WHERE teacher = \""
  const FragmentTail := "\""

  /** What the builder puts between two per-teacher SELECTs. */
  const IntersectSeparator := " INTERSECT "

  /** The SELECT for one teacher; the email is pasted between double quotes, unescaped. */
  function Fragment(teacher: string): string {
    FragmentHead + teacher + FragmentTail
  }

  /** One SELECT per teacher, in the order of the list. */
  function Fragments(teachers: seq<string>): seq<string> {
    seq(|teachers|, i requires 0 <= i < |teachers| => Fragment(teachers[i]))
  }

  /** The query CommonStudents sends: the per-teacher SELECTs joined by INTERSECT. */
  function CommonStudentsQuery(teachers: seq<string>): string {
    Join(Fragments(teachers), IntersectSeparator)
  }

  /**
   * The layout of the query: the SELECT of teacher k is at Offset(k), and
   * unless k is the last teacher " INTERSECT " follows it directly.
   */
  lemma QueryLayout(teachers: seq<string>, k: nat)
    requires k < |teachers|
    ensures Fragments(teachers)[k] == Fragment(teachers[k])
    ensures var q, o, f := CommonStudentsQuery(teachers), Offset(Fragments(teachers), IntersectSeparator, k), Fragments(teachers)[k];
      && o + |f| <= |q|
      && q[o..o + |f|] == f
      && (k + 1 < |teachers| ==> o + |f| + |IntersectSeparator| <= |q| && q[o + |f|..o + |f| + |IntersectSeparator|] == IntersectSeparator)
  {
    JoinElementAt(Fragments(teachers), IntersectSeparator, k);
    if k + 1 < |teachers| {
      JoinSeparatorAfter(Fragments(teachers), IntersectSeparator, k);
    }
  }

  /** The query for n teachers is n SELECTs and n - 1 separators long. */
  lemma QueryLength(teachers: seq<string>)
    requires teachers != []
    ensures |CommonStudentsQuery(teachers)| == TotalLength(Fragments(teachers)) + (|teachers| - 1) * |IntersectSeparator|
  {
    JoinLength(Fragments(teachers), IntersectSeparator);
  }

  /** The query for one teacher is that teacher's SELECT alone. */
  lemma SingleTeacherQuery(teacher: string)
    ensures CommonStudentsQuery([teacher]) == Fragment(teacher)
  {
  }
}
