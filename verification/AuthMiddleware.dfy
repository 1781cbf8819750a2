/**
 * AuthenticationMiddleware of keycloakTokenVerifier: authorizationMiddleware with the role lookup of
 * getLecturerAndEditorRole.go and the student lookup of getIsStudent.go. Core's answers are inputs.
 */
module AuthMiddleware {
  import opened Wrappers
  import opened RequestContext

  /** The claims of a verified token; None stands for a missing or invalid one. */
  datatype Claims = Claims(
    roles: set<string>, id: string, email: string, universityLogin: string, firstName: string, lastName: string)

  datatype RoleReply =
    | RoleMapping(lecturerRole: string, editorRole: string, customRolePrefix: string)
    | RolesUnauthenticated
    | RolesFailed

  datatype StudentReply =
    | StudentFound(isStudentOfCoursePhase: bool, courseParticipationId: Uuid)
    | NotStudentOfCourse
    | StudentUnauthenticated
    | StudentFailed

  /** What a request brings along: its coursePhaseID parameter (None when it does not parse) and core's answers. */
  datatype Environment = Environment(phase: Option<Uuid>, roles: RoleReply, student: StudentReply) {
    predicate PhaseNamed() {
      phase.Some? && phase.value != NIL_UUID
    }
  }

  // ------------------------------------------------------------ role helpers

  const BUILT_IN_ROLES := [PROMPT_ADMIN, PROMPT_LECTURER, COURSE_LECTURER, COURSE_EDITOR, COURSE_STUDENT]

  predicate IsCustomRole(role: string) {
    role !in BUILT_IN_ROLES
  }

  ghost predicate HasCustomRole(allowed: set<string>) {
    exists role :: role in allowed && IsCustomRole(role)
  }

  ghost predicate NeedsRoles(allowed: set<string>) {
    COURSE_LECTURER in allowed || COURSE_EDITOR in allowed || HasCustomRole(allowed)
  }

  predicate Direct(allowed: set<string>, u: TokenUser) {
    || (PROMPT_ADMIN in allowed && u.Has(PROMPT_ADMIN))
    || (PROMPT_LECTURER in allowed && u.Has(PROMPT_LECTURER))
  }

  /** A custom role admits only under a non-empty course prefix, and a built-in role never does. */
  ghost predicate CustomGrant(allowed: set<string>, prefix: string, u: TokenUser) {
    prefix != "" && exists role :: role in allowed && IsCustomRole(role) && u.Has(prefix + role)
  }

  ghost predicate RoleGrant(allowed: set<string>, u: TokenUser) {
    || (COURSE_LECTURER in allowed && u.isLecturer)
    || (COURSE_EDITOR in allowed && u.isEditor)
    || CustomGrant(allowed, u.customRolePrefix, u)
  }

  // ------------------------------------------------- the steps, as functions

  function Authenticated(r: Request, claims: Option<Claims>): Request {
    match claims
    case None => r.Abort(401)
    case Some(k) =>
      var roles := map role | role in k.roles :: true;
      r.(tokenUser := Some(TokenUser(roles, k.id, k.email, k.universityLogin, k.firstName, k.lastName,
                                     false, false, NIL_UUID, false, false, "")))
  }

  function WithCourseRoles(u: TokenUser, m: RoleReply): TokenUser
    requires m.RoleMapping?
  {
    u.(isLecturer := u.Has(m.lecturerRole), isEditor := u.Has(m.editorRole), customRolePrefix := m.customRolePrefix)
  }

  function RolesResolved(r: Request, env: Environment): Request {
    if !env.PhaseNamed() then r.Abort(400)
    else
      match env.roles
      case RolesUnauthenticated => r.Abort(401)
      case RolesFailed => r.Abort(500)
      case RoleMapping(_, _, _) =>
        if r.tokenUser.None? then r.Abort(500)
        else r.(tokenUser := Some(WithCourseRoles(r.tokenUser.value, env.roles)), courseRolesResolved := true)
  }

  function StudentResolved(r: Request, env: Environment): Request {
    if !env.PhaseNamed() then r.Abort(400)
    else
      match env.student
      case StudentUnauthenticated => r.Abort(401)
      case StudentFailed => r.Abort(500)
      case NotStudentOfCourse =>
        if r.tokenUser.None? then r
        else r.(tokenUser := Some(r.tokenUser.value.(isStudentOfCourse := false, isStudentOfCoursePhase := false)))
      case StudentFound(ofPhase, participation) =>
        if r.tokenUser.None? then r.Abort(500)
        else r.(tokenUser := Some(r.tokenUser.value.(
          isStudentOfCourse := true, isStudentOfCoursePhase := ofPhase, courseParticipationId := participation)))
  }

  /** authorizationMiddleware: what the next handler finds, or the request aborted. */
  ghost function Authorized(r: Request, allowed: set<string>, env: Environment): Request {
    if r.tokenUser.None? then r.Abort(401)
    else if Direct(allowed, r.tokenUser.value) then r
    else if allowed <= {PROMPT_ADMIN, PROMPT_LECTURER} then r.Abort(403)
    else
      var afterRoles := if NeedsRoles(allowed) then RolesResolved(r, env) else r;
      if afterRoles.aborted.Some? then afterRoles
      else if NeedsRoles(allowed) && RoleGrant(allowed, afterRoles.tokenUser.value) then afterRoles
      else if COURSE_STUDENT !in allowed then afterRoles.Abort(403)
      else
        var afterStudent := StudentResolved(afterRoles, env);
        if afterStudent.aborted.Some? || afterStudent.tokenUser.value.isStudentOfCoursePhase then afterStudent
        else afterStudent.Abort(403)
  }

  ghost function RoleSet(roles: seq<string>): set<string> {
    set role | role in roles
  }

  // ------------------------------------------------------ the steps, as code

  method BuildAllowedRolesSet(roles: seq<string>) returns (allowed: set<string>)
    ensures allowed == RoleSet(roles)
  {
    allowed := {};
    for i := 0 to |roles|
      invariant allowed == RoleSet(roles[..i])
    {
      assert roles[..i + 1] == roles[..i] + [roles[i]];
      allowed := allowed + {roles[i]};
    }
    assert roles[..|roles|] == roles;
  }

  method ContainsCustomRoleName(allowedRoles: seq<string>) returns (found: bool)
    ensures found <==> HasCustomRole(RoleSet(allowedRoles))
  {
    for i := 0 to |allowedRoles|
      invariant forall j | 0 <= j < i :: !IsCustomRole(allowedRoles[j])
    {
      if IsCustomRole(allowedRoles[i]) {
        assert allowedRoles[i] in RoleSet(allowedRoles);
        return true;
      }
    }
    return false;
  }

  method MatchesCustomRole(prefix: string, allowedRoles: seq<string>, u: TokenUser) returns (found: bool)
    ensures found <==> CustomGrant(RoleSet(allowedRoles), prefix, u)
  {
    if prefix == "" {
      return false;
    }
    for i := 0 to |allowedRoles|
      invariant forall j | 0 <= j < i :: !(IsCustomRole(allowedRoles[j]) && u.Has(prefix + allowedRoles[j]))
    {
      if IsCustomRole(allowedRoles[i]) && u.Has(prefix + allowedRoles[i]) {
        assert allowedRoles[i] in RoleSet(allowedRoles);
        return true;
      }
    }
    return false;
  }

  method OnlyContainsAdminAndLecturer(allowed: set<string>) returns (only: bool)
    ensures only <==> allowed <= {PROMPT_ADMIN, PROMPT_LECTURER}
  {
    var rest := allowed;
    while rest != {}
      invariant rest <= allowed
      invariant allowed - rest <= {PROMPT_ADMIN, PROMPT_LECTURER}
      decreases |rest|
    {
      var role :| role in rest;
      if role != PROMPT_ADMIN && role != PROMPT_LECTURER {
        return false;
      }
      rest := rest - {role};
    }
    return true;
  }

  method GetLecturerAndEditorRole(c: Context, env: Environment)
    modifies c
    ensures c.View() == RolesResolved(old(c.View()), env)
  {
    if env.phase.None? || env.phase.value == NIL_UUID {
      c.aborted := Some(400);
      return;
    }
    match env.roles {
      case RolesUnauthenticated => c.aborted := Some(401);
      case RolesFailed => c.aborted := Some(500);
      case RoleMapping(lecturerRole, editorRole, prefix) =>
        if c.tokenUser.None? {
          c.aborted := Some(500);
          return;
        }
        var u := c.tokenUser.value;
        u := u.(isLecturer := u.Has(lecturerRole));
        u := u.(isEditor := u.Has(editorRole));
        u := u.(customRolePrefix := prefix);
        c.tokenUser := Some(u);
        c.courseRolesResolved := true;
    }
  }

  method IsStudentOfCoursePhase(c: Context, env: Environment)
    modifies c
    ensures c.View() == StudentResolved(old(c.View()), env)
  {
    if env.phase.None? || env.phase.value == NIL_UUID {
      c.aborted := Some(400);
      return;
    }
    match env.student {
      case StudentUnauthenticated => c.aborted := Some(401);
      case StudentFailed => c.aborted := Some(500);
      case NotStudentOfCourse =>
        if c.tokenUser.Some? {
          var u := c.tokenUser.value;
          c.tokenUser := Some(u.(isStudentOfCourse := false, isStudentOfCoursePhase := false));
        }
      case StudentFound(ofPhase, participation) =>
        if c.tokenUser.None? {
          c.aborted := Some(500);
          return;
        }
        var u := c.tokenUser.value;
        c.tokenUser := Some(u.(isStudentOfCourse := true, isStudentOfCoursePhase := ofPhase, courseParticipationId := participation));
    }
  }

  /** authorizationMiddleware; `next` tells whether the next handler is called. */
  method Authorize(c: Context, allowedRoles: seq<string>, env: Environment) returns (next: bool)
    requires c.aborted.None?
    modifies c
    ensures c.View() == Authorized(old(c.View()), RoleSet(allowedRoles), env)
    ensures next <==> c.aborted.None?
  {
    var allowed := BuildAllowedRolesSet(allowedRoles);
    if c.tokenUser.None? {
      c.aborted := Some(401);
      return false;
    }
    var u := c.tokenUser.value;
    if Direct(allowed, u) {
      return true;
    }
    var only := OnlyContainsAdminAndLecturer(allowed);
    if only {
      c.aborted := Some(403);
      return false;
    }
    var custom := ContainsCustomRoleName(allowedRoles);
    if COURSE_LECTURER in allowed || COURSE_EDITOR in allowed || custom {
      GetLecturerAndEditorRole(c, env);
      if c.aborted.Some? {
        return false;
      }
      u := c.tokenUser.value;
      if COURSE_LECTURER in allowed && u.isLecturer {
        return true;
      }
      if COURSE_EDITOR in allowed && u.isEditor {
        return true;
      }
      var matches := MatchesCustomRole(u.customRolePrefix, allowedRoles, u);
      if matches {
        return true;
      }
    }
    if COURSE_STUDENT in allowed {
      IsStudentOfCoursePhase(c, env);
      if c.aborted.Some? {
        return false;
      }
      if c.tokenUser.value.isStudentOfCoursePhase {
        return true;
      }
    }
    c.aborted := Some(403);
    return false;
  }

  /** AuthenticationMiddleware: the token check, then the authorization. */
  method Authenticate(c: Context, claims: Option<Claims>, allowedRoles: seq<string>, env: Environment) returns (next: bool)
    requires c.aborted.None?
    modifies c
    ensures c.View() == AfterAuthentication(old(c.View()), claims, RoleSet(allowedRoles), env)
    ensures next <==> c.aborted.None?
  {
    if claims.None? {
      c.aborted := Some(401);
      return false;
    }
    var k := claims.value;
    var roles := map role | role in k.roles :: true;
    c.tokenUser := Some(TokenUser(roles, k.id, k.email, k.universityLogin, k.firstName, k.lastName,
                                  false, false, NIL_UUID, false, false, ""));
    next := Authorize(c, allowedRoles, env);
  }

  ghost function AfterAuthentication(r: Request, claims: Option<Claims>, allowed: set<string>, env: Environment): Request {
    var authenticated := Authenticated(r, claims);
    if authenticated.aborted.Some? then authenticated else Authorized(authenticated, allowed, env)
  }

  // ---------------------------------------------------------- the policy

  /** The five roles the SDK knows; every other role a route lists is a custom one, to be read under the course's prefix. */
  predicate IsKnownRole(role: string) {
    || role == "PROMPT_Admin"
    || role == "PROMPT_Lecturer"
    || role == "Lecturer"
    || role == "Editor"
    || role == "Student"
  }

  /** The route can only be decided by asking core for the course's roles. */
  ghost predicate AsksForRoles(allowed: set<string>) {
    "Lecturer" in allowed || "Editor" in allowed || exists role :: role in allowed && !IsKnownRole(role)
  }

  /** The declarative admission policy. */
  ghost predicate Admits(allowed: set<string>, claims: Claims, env: Environment) {
    || ("PROMPT_Admin" in allowed && "PROMPT_Admin" in claims.roles)
    || ("PROMPT_Lecturer" in allowed && "PROMPT_Lecturer" in claims.roles)
    || (&& env.PhaseNamed()
        && (AsksForRoles(allowed) ==> env.roles.RoleMapping?)
        && (|| (AsksForRoles(allowed) && AdmitsByCourseRole(allowed, claims, env.roles))
            || ("Student" in allowed && env.student.StudentFound? && env.student.isStudentOfCoursePhase)))
  }

  ghost predicate AdmitsByCourseRole(allowed: set<string>, claims: Claims, m: RoleReply)
    requires m.RoleMapping?
  {
    || ("Lecturer" in allowed && m.lecturerRole in claims.roles)
    || ("Editor" in allowed && m.editorRole in claims.roles)
    || (m.customRolePrefix != "" && exists role :: role in allowed && !IsKnownRole(role) && m.customRolePrefix + role in claims.roles)
  }

  lemma KnownRoles()
    ensures forall role :: IsCustomRole(role) <==> !IsKnownRole(role)
    ensures forall allowed :: NeedsRoles(allowed) <==> AsksForRoles(allowed)
  {
    assert forall role :: IsCustomRole(role) <==> !IsKnownRole(role);
  }

  lemma ClaimedRoles(claims: Claims)
    ensures forall role :: Authenticated(FRESH, Some(claims)).tokenUser.value.Has(role) <==> role in claims.roles
  {
  }

  /** A request with a fresh context reaches the next handler exactly when the policy admits it. */
  lemma AdmissionPolicy(allowed: set<string>, claims: Claims, env: Environment)
    ensures AfterAuthentication(FRESH, Some(claims), allowed, env).aborted.None? <==> Admits(allowed, claims, env)
  {
    KnownRoles();
    ClaimedRoles(claims);
    var r := Authenticated(FRESH, Some(claims));
    var u := r.tokenUser.value;
    if !Direct(allowed, u) && !(allowed <= {PROMPT_ADMIN, PROMPT_LECTURER}) && NeedsRoles(allowed) && env.PhaseNamed() && env.roles.RoleMapping? {
      var v := WithCourseRoles(u, env.roles);
      assert forall role :: v.Has(role) <==> role in claims.roles;
      assert RoleGrant(allowed, v) <==> AdmitsByCourseRole(allowed, claims, env.roles);
    }
    if allowed <= {PROMPT_ADMIN, PROMPT_LECTURER} {
      assert forall role | role in allowed :: !IsCustomRole(role);
      assert COURSE_STUDENT !in allowed && COURSE_LECTURER !in allowed && COURSE_EDITOR !in allowed;
    }
  }

  ghost predicate ReachesHandler(allowed: set<string>, claims: Claims, env: Environment) {
    AfterAuthentication(FRESH, Some(claims), allowed, env).aborted.None?
  }

  /**
   * The status of a rejection: 403 once core has answered everything the route asks for; before that 400
   * for a request that names no phase, 401 where core rejects the token, and 500 where it fails.
   */
  ghost function Rejection(allowed: set<string>, env: Environment): int {
    if allowed <= {PROMPT_ADMIN, PROMPT_LECTURER} then 403
    else if !env.PhaseNamed() then 400
    else if NeedsRoles(allowed) && !env.roles.RoleMapping? then
      if env.roles.RolesUnauthenticated? then 401 else 500
    else if COURSE_STUDENT in allowed && env.student.StudentUnauthenticated? then 401
    else if COURSE_STUDENT in allowed && env.student.StudentFailed? then 500
    else 403
  }

  /** A rejected request carries that status, and one without a valid token 401. */
  lemma RejectionStatus(allowed: set<string>, claims: Option<Claims>, env: Environment)
    requires claims.None? || !Admits(allowed, claims.value, env)
    ensures AfterAuthentication(FRESH, claims, allowed, env).aborted ==
            Some(if claims.None? then 401 else Rejection(allowed, env))
  {
    if claims.Some? {
      KnownRoles();
      AdmissionPolicy(allowed, claims.value, env);
      ClaimedRoles(claims.value);
      if !(allowed <= {PROMPT_ADMIN, PROMPT_LECTURER}) {
        var role :| role in allowed && role != PROMPT_ADMIN && role != PROMPT_LECTURER;
        assert NeedsRoles(allowed) || COURSE_STUDENT in allowed by {
          assert IsCustomRole(role) || role in {COURSE_LECTURER, COURSE_EDITOR, COURSE_STUDENT};
        }
      }
    }
  }

  /** No prefix admits anybody to a route that lists only roles the SDK knows, and no empty prefix to any route. */
  lemma KnownRolesNeedNoPrefix(allowed: set<string>, prefix: string, u: TokenUser)
    ensures CustomGrant(allowed, prefix, u) <==>
            prefix != "" && exists role :: role in allowed && !IsKnownRole(role) && u.Has(prefix + role)
    ensures (forall role | role in allowed :: IsKnownRole(role)) ==> !CustomGrant(allowed, prefix, u)
  {
    KnownRoles();
  }

  /** A platform role admits the caller before core is asked anything. */
  predicate AdmitsDirectly(allowed: set<string>, claims: Claims) {
    || ("PROMPT_Admin" in allowed && "PROMPT_Admin" in claims.roles)
    || ("PROMPT_Lecturer" in allowed && "PROMPT_Lecturer" in claims.roles)
  }

  /** What a handler finds out about the caller: the claims as they are, and what core answered where it was asked. */
  lemma HandlerSees(allowed: set<string>, claims: Claims, env: Environment)
    requires ReachesHandler(allowed, claims, env)
    ensures
      var r := AfterAuthentication(FRESH, Some(claims), allowed, env);
      var rolesAsked := AsksForRoles(allowed) && !AdmitsDirectly(allowed, claims);
      var asStudent := !AdmitsDirectly(allowed, claims) && !(rolesAsked && AdmitsByCourseRole(allowed, claims, env.roles));
      && r.tokenUser.Some?
      && r.tokenUser.value.id == claims.id && r.tokenUser.value.email == claims.email
      && r.tokenUser.value.universityLogin == claims.universityLogin
      && r.tokenUser.value.firstName == claims.firstName && r.tokenUser.value.lastName == claims.lastName
      && (forall role :: r.tokenUser.value.Has(role) <==> role in claims.roles)
      && r.courseRolesResolved == rolesAsked
      && r.tokenUser.value.isLecturer == (rolesAsked && env.roles.lecturerRole in claims.roles)
      && r.tokenUser.value.isEditor == (rolesAsked && env.roles.editorRole in claims.roles)
      && r.tokenUser.value.customRolePrefix == (if rolesAsked then env.roles.customRolePrefix else "")
      && r.tokenUser.value.isStudentOfCourse == r.tokenUser.value.isStudentOfCoursePhase == asStudent
      && r.tokenUser.value.courseParticipationId == (if asStudent then env.student.courseParticipationId else NIL_UUID)
  {
    KnownRoles();
    ClaimedRoles(claims);
    AdmissionPolicy(allowed, claims, env);
    var u := Authenticated(FRESH, Some(claims)).tokenUser.value;
    assert Direct(allowed, u) <==> AdmitsDirectly(allowed, claims);
    if !Direct(allowed, u) && NeedsRoles(allowed) {
      var v := WithCourseRoles(u, env.roles);
      assert forall role :: v.Has(role) <==> role in claims.roles;
      assert RoleGrant(allowed, v) <==> AdmitsByCourseRole(allowed, claims, env.roles);
    }
  }

  /** More roles never lock a caller out. */
  lemma MonotoneInUserRoles(allowed: set<string>, claims: Claims, more: set<string>, env: Environment)
    requires ReachesHandler(allowed, claims, env) && claims.roles <= more
    ensures ReachesHandler(allowed, claims.(roles := more), env)
  {
    AdmissionPolicy(allowed, claims, env);
    AdmissionPolicy(allowed, claims.(roles := more), env);
  }

  /**
   * Allowing more roles keeps an admitted caller exactly when a platform role admits them directly
   * or core answers the role lookup the new roles call for.
   */
  lemma GrowingAllowedRolesKeepsIff(allowed: set<string>, more: set<string>, claims: Claims, env: Environment)
    requires ReachesHandler(allowed, claims, env) && allowed <= more
    ensures ReachesHandler(more, claims, env) <==>
            || (PROMPT_ADMIN in more && PROMPT_ADMIN in claims.roles)
            || (PROMPT_LECTURER in more && PROMPT_LECTURER in claims.roles)
            || (AsksForRoles(more) ==> env.roles.RoleMapping?)
  {
    AdmissionPolicy(allowed, claims, env);
    AdmissionPolicy(more, claims, env);
  }

  /** A route that stops admitting a student because it allows one more role and core fails to answer. */
  lemma GrowingAllowedRolesCanLockOut(claims: Claims, phase: Uuid, participation: Uuid)
    requires phase != NIL_UUID
    requires PROMPT_ADMIN !in claims.roles && PROMPT_LECTURER !in claims.roles
    ensures var env := Environment(Some(phase), RolesFailed, StudentFound(true, participation));
            && ReachesHandler({COURSE_STUDENT}, claims, env)
            && !ReachesHandler({COURSE_STUDENT, COURSE_EDITOR}, claims, env)
  {
    var env := Environment(Some(phase), RolesFailed, StudentFound(true, participation));
    assert !IsCustomRole(COURSE_STUDENT);
    AdmissionPolicy({COURSE_STUDENT}, claims, env);
    AdmissionPolicy({COURSE_STUDENT, COURSE_EDITOR}, claims, env);
  }
}
