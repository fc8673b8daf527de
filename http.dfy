/** The responses the endpoints write and the request bodies they bind. */
module Http {

  const StatusOK := 200
  const StatusNoContent := 204
  const StatusBadRequest := 400
  const StatusInternalServerError := 500
  const StatusBadGateway := 502

  /**
   * The value of a response's "message" field. The two email-format messages
   * are named by the register endpoint but their text is not part of this
   * model, and a binding failure's detail comes from the JSON binder.
   */
  datatype Message =
    | Text(text: string)
    | InvalidTeacherEmailFormat
    | InvalidStudentEmailFormat
    | BindError(detail: string)

  /** A JSON response body: a message, the common students, or the recipients. */
  datatype Body =
    | MessageBody(message: Message)
    | StudentsBody(students: seq<string>)
    | RecipientBody(recipient: seq<string>)

  /** A response written by a handler: JSON with a status, or a bare status. */
  datatype Response =
    | Json(status: int, body: Body)
    | NoBody(status: int)

  /** The outcome of binding a request body: the request, or a failure with its detail. */
  datatype Bind<T> =
    | Bound(value: T)
    | BindFailed(detail: string)

  /** The body of POST /api/register. */
  datatype RegisterRequest = RegisterRequest(teacher: string, teachers: seq<string>, student: string, students: seq<string>)

  /** The body of POST /api/retrievefornotifications. */
  datatype NotificationRequest = NotificationRequest(teacher: string, notification: string)

  /**
   * What the binder guarantees of a bound notification request: both
   * fields carry `binding:"required"`, so a missing or empty one is a bind
   * failure.
   */
  predicate RequiredFieldsPresent(r: NotificationRequest) {
    r.teacher != "" && r.notification != ""
  }

  /** The body of POST /api/suspend. */
  datatype SuspendRequest = SuspendRequest(student: string)

  /** A JSON response carrying a message. */
  function MessageResponse(status: int, message: Message): Response {
    Json(status, MessageBody(message))
  }
}
