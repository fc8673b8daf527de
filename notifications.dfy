/**
 * POST /api/retrievefornotifications: the students a notification from a
 * teacher reaches.
 *
 * The emails the notification mentions (the source extracts them with the
 * email pattern's FindAllString) are an input, `tagged`: each of them is an
 * email-shaped piece of the notification's text. The database calls
 * are numbered: call 0 is the roster query, call 1 + i the COUNT(*) query
 * for tagged[i].
 */
module NotificationsController {
  import opened Seqs
  import opened Sorting
  import opened Store
  import opened Patterns
  import opened Messages
  import opened Http
  import opened Sets
  import opened Databases

  /** Every email of `tagged` has the email shape and occurs in `notification`, as FindAllString's matches do. */
  ghost predicate FoundIn(tagged: seq<string>, notification: string) {
    forall v | v in tagged :: IsEmailShaped(v) && exists i, j | 0 <= i <= j <= |notification| :: notification[i..j] == v
  }

  /** Whether `s` occurs in `text`. */
  ghost predicate OccursIn(s: string, text: string) {
    exists i, j | 0 <= i <= j <= |text| :: text[i..j] == s
  }

  /**
   * ReceiveForNotifications. A request that does not bind, which includes
   * a missing or empty field: 400 with the binder's detail. A notification of the wrong shape: 400 naming the
   * field, before any query. A failing query: 500. Otherwise 200 with the
   * recipients once each, in ascending order. The tables are only read.
   */
  method ReceiveForNotifications(db: Database, request: Bind<NotificationRequest>, tagged: seq<string>, faults: set<nat>)
    returns (response: Response)
    requires request.Bound? ==> RequiredFieldsPresent(request.value)
    requires request.Bound? ==> FoundIn(tagged, request.value.notification)
    ensures request.BindFailed? ==> response == MessageResponse(StatusBadRequest, BindError(request.detail))
    ensures request.Bound? && !NotificationShape(request.value.notification) ==>
      response == MessageResponse(StatusBadRequest, Text(InvalidParams(["notification"])))
    ensures request.Bound? && NotificationShape(request.value.notification) && !NoFault(faults, 0, |tagged| + 1) ==>
      response == MessageResponse(StatusInternalServerError, Text(MessageDatabaseError))
    ensures request.Bound? && NotificationShape(request.value.notification) && NoFault(faults, 0, |tagged| + 1) ==>
      && response.Json? && response.status == StatusOK && response.body.RecipientBody?
      && Sorted(response.body.recipient) && Distinct(response.body.recipient)
      && Elems(response.body.recipient) == Recipients(db.State(), request.value.teacher, tagged)
      && forall s | s in response.body.recipient ::
           (request.value.teacher, s) in db.State().teaches || OccursIn(s, request.value.notification)
  {
    if request.BindFailed? {
      return MessageResponse(StatusBadRequest, BindError(request.detail));
    }
    var teacher, notification := request.value.teacher, request.value.notification;
    var matched := ValidatePattern(NotificationPattern, notification);
    if !matched {
      var message := InvalidParamsMessage(["notification"]);
      return MessageResponse(StatusBadRequest, Text(message));
    }

    var failed, recipient := Resolve(db, teacher, tagged, faults);
    if failed {
      return MessageResponse(StatusInternalServerError, Text(MessageDatabaseError));
    }
    response := Json(StatusOK, RecipientBody(recipient));
  }

  /**
   * The recipients: the roster rows and the counted mentions go into a set,
   * whose members are then sorted. `failed` when one of the calls 0 to
   * |tagged| fails.
   */
  method Resolve(db: Database, teacher: string, tagged: seq<string>, faults: set<nat>)
    returns (failed: bool, recipient: seq<string>)
    ensures failed <==> !NoFault(faults, 0, |tagged| + 1)
    ensures !failed ==>
      Sorted(recipient) && Distinct(recipient) && Elems(recipient) == Recipients(db.State(), teacher, tagged)
  {
    var recipients := new Set<string>.New();
    // The roster query.
    if 0 in faults {
      assert !NoFault(faults, 0, |tagged| + 1);
      return true, [];
    }
    AddRoster(db, teacher, recipients);
    failed := AddMentions(db, tagged, faults, recipients);
    NoFaultFirst(faults, 0, |tagged|);
    if failed {
      return true, [];
    }
    ghost var gathered := recipients.Elements();
    assert gathered == Recipients(db.State(), teacher, tagged);
    var members := recipients.ToArray();
    assert Elems(members) == gathered;
    SortKeepsElements(members);
    recipient := SortStrings(members);
    assert Elems(recipient) == gathered;
  }

  /** Adds the rows of the roster query to `recipients`, one Add per row. */
  method AddRoster(db: Database, teacher: string, recipients: Set<string>)
    modifies recipients
    ensures recipients.Elements() == old(recipients.Elements()) + UnsuspendedRoster(db.State(), teacher)
  {
    var rows := db.SelectUnsuspendedRoster(teacher);
    for i := 0 to |rows|
      invariant recipients.Elements() == old(recipients.Elements()) + Elems(rows[..i])
    {
      assert Elems(rows[..i + 1]) == Elems(rows[..i]) + {rows[i]} by {
        assert rows[..i + 1] == rows[..i] + [rows[i]];
      }
      recipients.Add(rows[i]);
    }
    assert rows[..|rows|] == rows;
  }

  /**
   * One COUNT(*) query per mention, calls 1 to |tagged|; a mention that
   * counts one unsuspended student is added. Stops with `failed` at the
   * first failing call.
   */
  method AddMentions(db: Database, tagged: seq<string>, faults: set<nat>, recipients: Set<string>) returns (failed: bool)
    modifies recipients
    ensures failed <==> !NoFault(faults, 1, |tagged|)
    ensures !failed ==>
      recipients.Elements() == old(recipients.Elements()) + Mentioned(db.State(), tagged)
  {
    for i := 0 to |tagged|
      invariant NoFault(faults, 1, i)
      invariant recipients.Elements() == old(recipients.Elements()) + Mentioned(db.State(), tagged[..i])
    {
      var v := tagged[i];
      assert tagged[..i + 1] == tagged[..i] + [v];
      MentionedSnoc(db.State(), tagged[..i], v);
      if 1 + i in faults {
        assert !NoFault(faults, 1, |tagged|);
        return true;
      }
      AddIfCounted(db, v, recipients);
    }
    assert tagged[..|tagged|] == tagged;
    return false;
  }

  /** The COUNT(*) query for one mention; the email is added when the count is 1. */
  method AddIfCounted(db: Database, v: string, recipients: Set<string>)
    modifies recipients
    ensures recipients.Elements() == old(recipients.Elements()) + (if Unsuspended(db.State(), v) then {v} else {})
  {
    var count := db.SelectCount(v);
    if count == 1 {
      recipients.Add(v);
    }
  }

  /** A suspended student is never a recipient, registered or mentioned. */
  lemma SuspendedNeverRecipient(t: Tables, teacher: string, tagged: seq<string>, s: string)
    requires s in t.students && t.students[s]
    ensures s !in Recipients(t, teacher, tagged)
  {
  }

  /** An email that is not a student is never a recipient, even when mentioned. */
  lemma UnknownNeverRecipient(t: Tables, teacher: string, tagged: seq<string>, s: string)
    requires s !in t.students
    ensures s !in Recipients(t, teacher, tagged)
  {
  }

  /** Mentioning the same email again, or in another order, does not change the recipients. */
  lemma MentionOrderIrrelevant(t: Tables, teacher: string, a: seq<string>, b: seq<string>)
    requires Elems(a) == Elems(b)
    ensures Recipients(t, teacher, a) == Recipients(t, teacher, b)
  {
    assert forall x :: x in a <==> x in Elems(a);
    assert forall x :: x in b <==> x in Elems(b);
  }

  /**
   * The answer does not depend on the order the set hands back its members:
   * any two sorted lists without repetitions of the recipients are the same.
   */
  lemma RecipientsDetermined(t: Tables, teacher: string, tagged: seq<string>, a: seq<string>, b: seq<string>)
    requires Sorted(a) && Distinct(a) && Elems(a) == Recipients(t, teacher, tagged)
    requires Sorted(b) && Distinct(b) && Elems(b) == Recipients(t, teacher, tagged)
    ensures a == b
  {
    SortedDistinctUnique(a, b);
  }

  /**
   * A recipient the teacher's roster did not supply was mentioned: it is an
   * email-shaped piece of the notification, so the notification contains an
   * email.
   */
  lemma MentionedRecipientsAreEmails(t: Tables, teacher: string, notification: string, tagged: seq<string>, s: string)
    requires FoundIn(tagged, notification)
    requires s in Recipients(t, teacher, tagged) && (teacher, s) !in t.teaches
    ensures IsEmailShaped(s) && OccursIn(s, notification)
    ensures HasEmail(notification)
  {
    assert s in tagged;
    var i, j :| 0 <= i <= j <= |notification| && notification[i..j] == s;
    assert IsEmailShaped(notification[i..j]);
  }
}
