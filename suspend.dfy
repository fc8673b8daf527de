/** POST /api/suspend: suspends a student. */
module SuspendController {
  import opened Store
  import opened Messages
  import opened Http
  import opened Databases

  /**
   * Suspend. A body that does not bind: 400 with the binder's detail. The
   * UPDATE is call 0: when it fails, 500 and nothing changes; otherwise 204,
   * also when the email is not a student (the UPDATE matches no row).
   */
  method Suspend(db: Database, request: Bind<SuspendRequest>, faults: set<nat>) returns (response: Response)
    modifies db
    ensures request.BindFailed? ==>
      response == MessageResponse(StatusBadRequest, BindError(request.detail)) && db.State() == old(db.State())
    ensures request.Bound? && 0 in faults ==>
      response == MessageResponse(StatusInternalServerError, Text(MessageDatabaseError)) && db.State() == old(db.State())
    ensures request.Bound? && 0 !in faults ==>
      response == NoBody(StatusNoContent) && db.State() == Suspended(old(db.State()), request.value.student)
  {
    if request.BindFailed? {
      return MessageResponse(StatusBadRequest, BindError(request.detail));
    }
    var ok := db.Execute(SetSuspended(request.value.student), 0 in faults);
    if !ok {
      return MessageResponse(StatusInternalServerError, Text(MessageDatabaseError));
    }
    response := NoBody(StatusNoContent);
  }

  /** After a suspension the student is no longer a recipient of any notification. */
  lemma SuspendedStudentNotNotified(t: Tables, student: string, teacher: string, tagged: seq<string>)
    ensures student !in Recipients(Suspended(t, student), teacher, tagged)
  {
  }

  /** A suspension removes that student from the recipients and no one else. */
  lemma SuspensionOnlyRemovesThatStudent(t: Tables, student: string, teacher: string, tagged: seq<string>)
    ensures Recipients(Suspended(t, student), teacher, tagged) == Recipients(t, teacher, tagged) - {student}
  {
  }

  /** A suspension does not change the common students: that endpoint does not look at the flag. */
  lemma SuspensionKeepsCommonStudents(t: Tables, student: string, teachers: seq<string>)
    requires teachers != []
    ensures CommonStudentsOf(Suspended(t, student), teachers) == CommonStudentsOf(t, teachers)
  {
  }

  /** A suspension keeps the foreign keys of teaches. */
  lemma SuspendValid(t: Tables, student: string)
    requires Valid(t)
    ensures Valid(Suspended(t, student))
  {
  }
}
