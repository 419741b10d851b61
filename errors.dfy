/** The exceptions the services throw, one constructor per distinct cause, and
    the HTTP status each of them carries. */
module Errors {

  /** NestJS exception classes used by the core, and status 500, which the
      global exception filter answers to any other error (such as the
      database's unique-constraint violation). */
  datatype Status = BadRequest | NotFound | InternalServerError

  datatype Error =
    | TeacherEmailRequired
    | StudentEmailsRequired
    | TeacherEmailsRequired
    | StudentEmailRequired
    | StudentNotFound
    | ClassNotFound(classId: int)
    | SubjectNotFound(subjectId: int)
    | StudentIdNotFound(studentId: int)
    | SubjectAlreadyRegistered(classId: int, subjectId: int)
    | StudentAlreadyRegistered(classId: int, studentId: int)
    | ClassFull(classId: int, maxStudents: nat)
    | DuplicateEmail(email: string)
  {
    function Status(): Status {
      match this
      case TeacherEmailRequired | StudentEmailsRequired | TeacherEmailsRequired
        | StudentEmailRequired | SubjectAlreadyRegistered(_, _)
        | StudentAlreadyRegistered(_, _) | ClassFull(_, _) => BadRequest
      case StudentNotFound | ClassNotFound(_) | SubjectNotFound(_)
        | StudentIdNotFound(_) => NotFound
      case DuplicateEmail(_) => InternalServerError
    }
  }
}
