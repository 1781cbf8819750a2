/** The request context the middlewares share: the typed keys of the Gin context and the abort flag. */
module RequestContext {
  import opened Wrappers

  type Uuid = nat

  const NIL_UUID: Uuid := 0

  const PROMPT_ADMIN := "PROMPT_Admin"
  const PROMPT_LECTURER := "PROMPT_Lecturer"
  const COURSE_LECTURER := "Lecturer"
  const COURSE_EDITOR := "Editor"
  const COURSE_STUDENT := "Student"

  datatype TokenUser = TokenUser(
    roles: map<string, bool>,
    id: string,
    email: string,
    universityLogin: string,
    firstName: string,
    lastName: string,
    isStudentOfCourse: bool,
    isStudentOfCoursePhase: bool,
    courseParticipationId: Uuid,
    isLecturer: bool,
    isEditor: bool,
    customRolePrefix: string)
  {
    /** Go's map lookup: a missing key reads as false. */
    predicate Has(role: string) {
      role in roles && roles[role]
    }
  }

  /** What the handlers after a middleware see of the request. */
  datatype Request = Request(
    tokenUser: Option<TokenUser>,
    courseRolesResolved: bool,
    tutorScopingApplied: bool,
    tutorTeam: Option<Uuid>,
    aborted: Option<int>)
  {
    function Abort(status: int): Request {
      this.(aborted := Some(status))
    }
  }

  const FRESH := Request(None, false, false, None, None)

  class Context {
    var tokenUser: Option<TokenUser>
    var courseRolesResolved: bool
    var tutorScopingApplied: bool
    var tutorTeam: Option<Uuid>
    var aborted: Option<int>

    constructor ()
      ensures View() == FRESH
    {
      tokenUser, courseRolesResolved, tutorScopingApplied, tutorTeam, aborted := None, false, false, None, None;
    }

    function View(): Request
      reads this
    {
      Request(tokenUser, courseRolesResolved, tutorScopingApplied, tutorTeam, aborted)
    }
  }
}
