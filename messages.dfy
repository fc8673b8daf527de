/** The response messages of the service. */
module Messages {
  import opened Text

  const MessageBadRequest := "The server could not understand the request due to invalid syntax or missing parameters."
  const MessageDatabaseError := "Failed to query database record. Contact the administrator for more information."
  const MessageMissingParams := "Missing one or more required parameter(s)"

  const MissingQueryParamsPrefix := "Missing one or more required query parameter(s): "
  const InvalidParamsPrefix := "One or more field(s) is of the wrong type or format: "

  /** The separator the message builders put between two names. */
  const NameSeparator := ", "

  /** The text MissingQueryParamsMessage builds: the prefix, then the names joined by ", ". */
  function MissingQueryParams(parameters: seq<string>): string {
    MissingQueryParamsPrefix + Join(parameters, NameSeparator)
  }

  /** The text InvalidParamsMessage builds: the prefix, then the names joined by ", ". */
  function InvalidParams(fields: seq<string>): string {
    InvalidParamsPrefix + Join(fields, NameSeparator)
  }

  /** What the loop has written after `i` of `n` names: a separator is pending after every name but the last. */
  function Pending(i: int, n: int, sep: string): string {
    if 0 < i < n then sep else ""
  }

  /** The concatenation behind one step of the loop, with the joined prefixes `joined` (before) and `joined'` (after) as plain strings. */
  lemma AppendConcat(prefix: string, joined: string, joined': string, v: string, sep: string, i: nat, n: nat)
    requires i < n
    requires i == 0 ==> joined == "" && joined' == v
    requires i > 0 ==> joined' == joined + sep + v
    ensures i == n - 1 ==> prefix + joined + Pending(i, n, sep) + v == prefix + joined' + Pending(i + 1, n, sep)
    ensures i < n - 1 ==> prefix + joined + Pending(i, n, sep) + v + sep == prefix + joined' + Pending(i + 1, n, sep)
  {
    if i == 0 {
      assert prefix + joined + Pending(i, n, sep) == prefix;
    }
  }

  /** One step of the loop: appending name `i`, and the separator unless it is the last, keeps the loop's invariant. */
  lemma AppendStep(prefix: string, names: seq<string>, i: nat, sep: string)
    requires i < |names|
    ensures var before := prefix + Join(names[..i], sep) + Pending(i, |names|, sep);
      var after := prefix + Join(names[..i + 1], sep) + Pending(i + 1, |names|, sep);
      && (i == |names| - 1 ==> before + names[i] == after)
      && (i < |names| - 1 ==> before + names[i] + sep == after)
  {
    var v := names[i];
    JoinSnoc(names[..i], v, sep);
    assert names[..i + 1] == names[..i] + [v];
    AppendConcat(prefix, Join(names[..i], sep), Join(names[..i + 1], sep), v, sep, i, |names|);
  }

  /**
   * The loop both builders share: each name is appended, followed by ", "
   * unless it is the last one.
   */
  method AppendNames(prefix: string, names: seq<string>) returns (output: string)
    ensures output == prefix + Join(names, NameSeparator)
  {
    output := prefix;
    for i := 0 to |names|
      invariant output == prefix + Join(names[..i], NameSeparator) + Pending(i, |names|, NameSeparator)
    {
      var v := names[i];
      AppendStep(prefix, names, i, NameSeparator);
      if i == |names| - 1 {
        output := output + v;
      } else {
        output := output + v + NameSeparator;
      }
    }
    assert names[..|names|] == names;
  }

  /** MissingQueryParamsMessage: names the missing query parameters. */
  method MissingQueryParamsMessage(parameters: seq<string>) returns (output: string)
    ensures output == MissingQueryParams(parameters)
  {
    output := AppendNames(MissingQueryParamsPrefix, parameters);
  }

  /** InvalidParamsMessage: names the fields of the wrong type or format. */
  method InvalidParamsMessage(fields: seq<string>) returns (output: string)
    ensures output == InvalidParams(fields)
  {
    output := AppendNames(InvalidParamsPrefix, fields);
  }

  /** MissingValidPairMessage: two fields that must be given together. */
  function MissingValidPairMessage(field1: string, field2: string): string {
    "Both fields " + field1 + " and " + field2 + " must be present and valid"
  }

  /** With no names the message is the bare prefix; with one it is the prefix and that name, with no separator. */
  lemma ShortLists(p: string, q: string)
    ensures MissingQueryParams([]) == MissingQueryParamsPrefix
    ensures MissingQueryParams([p]) == MissingQueryParamsPrefix + p
    ensures InvalidParams([]) == InvalidParamsPrefix
    ensures InvalidParams([q]) == InvalidParamsPrefix + q
  {
  }

  /** The message a common-students request without a teacher gets. */
  lemma MissingTeacherText()
    ensures MissingQueryParams(["teacher"]) == "Missing one or more required query parameter(s): teacher"
  {
  }

  /** The message a notification of the wrong shape gets. */
  lemma InvalidNotificationText()
    ensures InvalidParams(["notification"]) == "One or more field(s) is of the wrong type or format: notification"
  {
  }

  /** A message naming n parameters holds n - 1 separators: its length is the prefix, the names and 2(n - 1). */
  lemma MessageLength(parameters: seq<string>)
    requires parameters != []
    ensures |MissingQueryParams(parameters)| == |MissingQueryParamsPrefix| + TotalLength(parameters) + 2 * (|parameters| - 1)
    ensures |InvalidParams(parameters)| == |InvalidParamsPrefix| + TotalLength(parameters) + 2 * (|parameters| - 1)
  {
    JoinLength(parameters, NameSeparator);
  }

  /** The message for the teacher/students pair. */
  lemma TeacherStudentsPairText()
    ensures MissingValidPairMessage("teacher", "students") == "Both fields teacher and students must be present and valid"
  {
    assert "Both fields " + "teacher" == "Both fields teacher";
    assert "Both fields teacher" + " and " + "students" == "Both fields teacher and students";
    assert "Both fields teacher and students" + " must be present and valid" == "Both fields teacher and students must be present and valid";
  }

  /** The message for the student/teachers pair. */
  lemma StudentTeachersPairText()
    ensures MissingValidPairMessage("student", "teachers") == "Both fields student and teachers must be present and valid"
  {
    assert "Both fields " + "student" == "Both fields student";
    assert "Both fields student" + " and " + "teachers" == "Both fields student and teachers";
    assert "Both fields student and teachers" + " must be present and valid" == "Both fields student and teachers must be present and valid";
  }
}
