/**
 * Tutor scoping and write authorization: TutorScopingMiddleware, AuthorizeWrite and Access,
 * and what they decide behind one AuthenticationMiddleware.
 */
module TutorAccess {
  import opened Wrappers
  import opened RequestContext
  import opened AuthMiddleware
  import opened Login
  import opened TutorTable

  /** A tutor team resolver: any function of the phase and the normalized login. */
  type Resolver = (Uuid, string) -> TutorReply

  /** NewPgxResolver over a table with the canonical shape. */
  function PgxResolver(lower: LowerCasing, table: Table): Resolver {
    (phase: Uuid, login: string) => ResolveTutorTeam(lower, table, phase, login)
  }

  // --------------------------------------------------------- read scoping

  /** TutorScopingMiddleware: what the next handler finds, or the request aborted. */
  function Scoped(lower: LowerCasing, r: Request, phase: Option<Uuid>, resolver: Resolver): Request {
    var marked := r.(tutorScopingApplied := true);
    if marked.tokenUser.None? || !marked.tokenUser.value.isEditor || marked.tokenUser.value.isLecturer then marked
    else if phase.None? || phase.value == NIL_UUID then marked.Abort(400)
    else
      match resolver(phase.value, Normalize(lower, marked.tokenUser.value.universityLogin))
      case NoRows => marked
      case NotATutor => marked.Abort(403)
      case LookupFailed => marked.Abort(500)
      case Team(team) => marked.(tutorTeam := Some(team))
  }

  method TutorScoping(lower: LowerCasing, c: Context, phase: Option<Uuid>, resolver: Resolver) returns (next: bool)
    requires c.aborted.None?
    modifies c
    ensures c.View() == Scoped(lower, old(c.View()), phase, resolver)
    ensures next <==> c.aborted.None?
  {
    c.tutorScopingApplied := true;
    if c.tokenUser.None? || !c.tokenUser.value.isEditor || c.tokenUser.value.isLecturer {
      return true;
    }
    if phase.None? || phase.value == NIL_UUID {
      c.aborted := Some(400);
      return false;
    }
    var reply := resolver(phase.value, Normalize(lower, c.tokenUser.value.universityLogin));
    if reply == NoRows {
      return true;
    }
    if reply == NotATutor {
      c.aborted := Some(403);
      return false;
    }
    if reply == LookupFailed {
      c.aborted := Some(500);
      return false;
    }
    c.tutorTeam := Some(reply.team);
    return true;
  }

  /** When exactly scoping stops a request: an editor who is no lecturer, without a phase or without a usable answer. */
  lemma ScopingStopsIff(lower: LowerCasing, r: Request, phase: Option<Uuid>, resolver: Resolver)
    requires r.aborted.None?
    ensures
      var checked := r.tokenUser.Some? && r.tokenUser.value.isEditor && !r.tokenUser.value.isLecturer;
      var named := phase.Some? && phase.value != NIL_UUID;
      var s := Scoped(lower, r, phase, resolver);
      && (s.aborted == Some(400) <==> checked && !named)
      && (s.aborted == Some(403) <==> checked && named && resolver(phase.value, Normalize(lower, r.tokenUser.value.universityLogin)) == NotATutor)
      && (s.aborted == Some(500) <==> checked && named && resolver(phase.value, Normalize(lower, r.tokenUser.value.universityLogin)) == LookupFailed)
      && (s.aborted.Some? ==> s.aborted.value in {400, 403, 500})
      && s.tutorScopingApplied && s.tokenUser == r.tokenUser
  {
    hide Normalize;
  }

  /** The read scope: a team is set exactly for an editor who is no lecturer and whose login resolves to it; else it stays as it was. */
  lemma ReadScopeIff(lower: LowerCasing, r: Request, phase: Option<Uuid>, resolver: Resolver)
    requires r.aborted.None?
    ensures
      var s := Scoped(lower, r, phase, resolver);
      var checked := r.tokenUser.Some? && r.tokenUser.value.isEditor && !r.tokenUser.value.isLecturer;
      var named := phase.Some? && phase.value != NIL_UUID;
      && (forall team: Uuid :: checked && named && resolver(phase.value, Normalize(lower, r.tokenUser.value.universityLogin)) == Team(team) ==>
            s == Request(r.tokenUser, r.courseRolesResolved, true, Some(team), None))
      && (s.tutorTeam != r.tutorTeam ==>
            && checked && named && s.tutorTeam.Some?
            && resolver(phase.value, Normalize(lower, r.tokenUser.value.universityLogin)) == Team(s.tutorTeam.value))
  {
    hide Normalize;
  }

  // ------------------------------------------------------ write authorization

  datatype WriteError = NotAuthenticated | WriteDenied | ScopingNotApplied | CourseRolesNotResolved

  datatype Access = Access(teamId: Uuid, confined: bool, granted: bool) {
    predicate Unrestricted() {
      granted && !confined
    }

    predicate ConfinedTo(team: Uuid) {
      granted && confined && teamId == team
    }

    predicate AllowsTeam(team: Uuid) {
      if !granted then false else !confined || teamId == team
    }

    /** The guard parameter of a mutating statement; None is NULL. */
    function Guard(): Option<Uuid> {
      if !granted then Some(NIL_UUID) else if !confined then None else Some(teamId)
    }
  }

  const NO_ACCESS := Access(NIL_UUID, false, false)

  datatype Decision = Decision(access: Access, error: Option<WriteError>)

  function AuthorizeWrite(r: Request): Decision {
    if r.tokenUser.None? then Decision(NO_ACCESS, Some(NotAuthenticated))
    else
      var u := r.tokenUser.value;
      if u.Has(PROMPT_ADMIN) || u.isLecturer then Decision(Access(NIL_UUID, false, true), None)
      else if u.isEditor then
        if !r.tutorScopingApplied then Decision(NO_ACCESS, Some(ScopingNotApplied))
        else
          match r.tutorTeam
          case None => Decision(NO_ACCESS, Some(WriteDenied))
          case Some(team) => Decision(Access(team, true, true), None)
      else if u.Has(PROMPT_LECTURER) && !r.courseRolesResolved then Decision(NO_ACCESS, Some(CourseRolesNotResolved))
      else Decision(NO_ACCESS, Some(WriteDenied))
  }

  /** On any request, an error comes with an access that allows no team, and only an error does. */
  lemma ErrorAllowsNoTeam(r: Request)
    ensures var d := AuthorizeWrite(r);
            && (d.error.Some? <==> forall team :: !d.access.AllowsTeam(team))
            && (d.error.Some? ==> d.access.Guard() == Some(NIL_UUID))
  {
    var d := AuthorizeWrite(r);
    if d.error.None? {
      assert d.access.AllowsTeam(d.access.teamId);
    }
  }

  /** What the access of a decision lets its holder write, and the guard that goes with it. */
  lemma AccessMeaning(r: Request)
    ensures var a := AuthorizeWrite(r).access;
            || (a.Unrestricted() && (forall team: Uuid :: a.AllowsTeam(team)) && a.Guard() == None)
            || (exists team: Uuid :: a.ConfinedTo(team) && a.Guard() == Some(team) && forall other: Uuid :: a.AllowsTeam(other) <==> other == team)
            || ((forall team: Uuid :: !a.AllowsTeam(team)) && a.Guard() == Some(NIL_UUID) && !a.Unrestricted() && forall team: Uuid :: !a.ConfinedTo(team))
  {
    var a := AuthorizeWrite(r).access;
    if a.granted && a.confined {
      assert a.ConfinedTo(a.teamId);
    }
  }

  /** The error of a request, told by who asks: nobody, an editor whose reads are not scoped, an unresolved lecturer, or somebody without a right. */
  lemma ErrorTellsWhy(r: Request)
    ensures
      var error := AuthorizeWrite(r).error;
      var admin := r.tokenUser.Some? && "PROMPT_Admin" in r.tokenUser.value.roles && r.tokenUser.value.roles["PROMPT_Admin"];
      var globalLecturer := r.tokenUser.Some? && "PROMPT_Lecturer" in r.tokenUser.value.roles && r.tokenUser.value.roles["PROMPT_Lecturer"];
      var lecturer := r.tokenUser.Some? && r.tokenUser.value.isLecturer;
      var editor := r.tokenUser.Some? && r.tokenUser.value.isEditor && !lecturer && !admin;
      && (error == Some(NotAuthenticated) <==> r.tokenUser.None?)
      && (error == Some(ScopingNotApplied) <==> editor && !r.tutorScopingApplied)
      && (error == Some(CourseRolesNotResolved) <==> globalLecturer && !admin && !lecturer && !editor && !r.courseRolesResolved)
      && (error == None <==> admin || lecturer || (editor && r.tutorScopingApplied && r.tutorTeam.Some?))
      && (AuthorizeWrite(r).access.Unrestricted() <==> admin || lecturer)
      && (forall team: Uuid :: AuthorizeWrite(r).access.ConfinedTo(team) <==> editor && r.tutorScopingApplied && r.tutorTeam == Some(team))
  {
  }

  // ----------------------------------------------------------- the pipeline

  /** One authentication middleware, then tutor scoping, on a fresh request. */
  ghost function Handled(lower: LowerCasing, allowed: set<string>, claims: Option<Claims>, env: Environment, resolver: Resolver): Request {
    var authenticated := AfterAuthentication(FRESH, claims, allowed, env);
    if authenticated.aborted.Some? then authenticated else Scoped(lower, authenticated, env.phase, resolver)
  }

  /** The handlers of a route run on a fresh context. */
  method Route(lower: LowerCasing, allowedRoles: seq<string>, claims: Option<Claims>, env: Environment, resolver: Resolver)
    returns (c: Context, reached: bool, decision: Decision)
    ensures fresh(c) && c.View() == Handled(lower, RoleSet(allowedRoles), claims, env, resolver)
    ensures reached <==> c.aborted.None?
    ensures reached ==> decision == AuthorizeWrite(c.View())
  {
    c := new Context();
    decision := Decision(NO_ACCESS, Some(NotAuthenticated));
    reached := Authenticate(c, claims, allowedRoles, env);
    if reached {
      reached := TutorScoping(lower, c, env.phase, resolver);
    }
    if reached {
      decision := AuthorizeWrite(c.View());
    }
  }

  ghost predicate IsCourseLecturer(claims: Claims, env: Environment) {
    env.roles.RoleMapping? && env.roles.lecturerRole in claims.roles
  }

  ghost predicate IsCourseEditor(claims: Claims, env: Environment) {
    env.roles.RoleMapping? && env.roles.editorRole in claims.roles
  }

  /** What the authentication middleware leaves behind when the request goes on. */
  lemma AuthenticatedUser(allowed: set<string>, claims: Claims, env: Environment)
    requires ReachesHandler(allowed, claims, env)
    ensures var r := AfterAuthentication(FRESH, Some(claims), allowed, env);
            && r.tokenUser.Some?
            && (forall role :: r.tokenUser.value.Has(role) <==> role in claims.roles)
            && r.tokenUser.value.universityLogin == claims.universityLogin
            && !r.tutorScopingApplied && r.tutorTeam.None?
            && (r.courseRolesResolved <==> NeedsRoles(allowed) && !Direct(allowed, Authenticated(FRESH, Some(claims)).tokenUser.value))
            && (r.tokenUser.value.isLecturer <==> r.courseRolesResolved && IsCourseLecturer(claims, env))
            && (r.tokenUser.value.isEditor <==> r.courseRolesResolved && IsCourseEditor(claims, env))
            && (r.courseRolesResolved ==> env.PhaseNamed() && env.roles.RoleMapping?)
  {
    ClaimedRoles(claims);
    var start := Authenticated(FRESH, Some(claims));
    var u := start.tokenUser.value;
    if !Direct(allowed, u) {
      if NeedsRoles(allowed) && env.PhaseNamed() && env.roles.RoleMapping? {
        assert RolesResolved(start, env).tokenUser.value == WithCourseRoles(u, env.roles);
      }
    }
  }

  /** A route that asks for a course role and does not admit on the global lecturer role. */
  ghost predicate ResolvesCourseRoles(allowed: set<string>) {
    NeedsRoles(allowed) && PROMPT_LECTURER !in allowed
  }

  /**
   * Exactness: on such a route a request that reaches the handler is unrestricted exactly for platform
   * admins and resolved course lecturers, confined to T exactly for the other editors whose login resolves
   * to T, and denied otherwise; no wiring error is ever seen.
   */
  lemma PipelineExactness(lower: LowerCasing, allowed: set<string>, claims: Claims, env: Environment, resolver: Resolver)
    requires ResolvesCourseRoles(allowed)
    requires Handled(lower, allowed, Some(claims), env, resolver).aborted.None?
    ensures
      var d := AuthorizeWrite(Handled(lower, allowed, Some(claims), env, resolver));
      var privileged := PROMPT_ADMIN in claims.roles || IsCourseLecturer(claims, env);
      && (d.access.Unrestricted() <==> privileged)
      && (forall team :: d.access.ConfinedTo(team) <==>
            && !privileged && IsCourseEditor(claims, env) && env.PhaseNamed()
            && resolver(env.phase.value, Normalize(lower, claims.universityLogin)) == Team(team))
      && (d.error == None || d.error == Some(WriteDenied))
      && (d.error.Some? <==> forall team :: !d.access.AllowsTeam(team))
  {
    AuthenticatedUser(allowed, claims, env);
    ErrorAllowsNoTeam(Handled(lower, allowed, Some(claims), env, resolver));
  }

  /** On any route: when exactly a handler behind both middlewares sees a wiring error. */
  lemma WiringErrorIff(lower: LowerCasing, allowed: set<string>, claims: Claims, env: Environment, resolver: Resolver)
    requires Handled(lower, allowed, Some(claims), env, resolver).aborted.None?
    ensures
      var d := AuthorizeWrite(Handled(lower, allowed, Some(claims), env, resolver));
      && d.error != Some(NotAuthenticated) && d.error != Some(ScopingNotApplied)
      && (d.error == Some(CourseRolesNotResolved) <==>
            && PROMPT_ADMIN !in claims.roles && PROMPT_LECTURER in claims.roles
            && (PROMPT_LECTURER in allowed || !NeedsRoles(allowed)))
  {
    AuthenticatedUser(allowed, claims, env);
    ClaimedRoles(claims);
  }

  /** Without the scoping middleware an editor gets the wiring error instead of a denial. */
  lemma MissingScopingIsReported(allowed: set<string>, claims: Claims, env: Environment)
    requires ResolvesCourseRoles(allowed) && ReachesHandler(allowed, claims, env)
    ensures AuthorizeWrite(AfterAuthentication(FRESH, Some(claims), allowed, env)).error == Some(ScopingNotApplied) <==>
            PROMPT_ADMIN !in claims.roles && !IsCourseLecturer(claims, env) && IsCourseEditor(claims, env)
  {
    AuthenticatedUser(allowed, claims, env);
    ClaimedRoles(claims);
  }

  /**
   * Read/write agreement behind the canonical resolver: for an editor who is neither admin nor course
   * lecturer, the team reads are scoped to is the team writes are confined to whenever the phase has
   * tutors, and the handler sees ErrWriteDenied exactly when the phase has none.
   */
  lemma ReadWriteAgreement(lower: LowerCasing, allowed: set<string>, claims: Claims, env: Environment, table: Table)
    requires ResolvesCourseRoles(allowed)
    requires PROMPT_ADMIN !in claims.roles && !IsCourseLecturer(claims, env) && IsCourseEditor(claims, env)
    requires Handled(lower, allowed, Some(claims), env, PgxResolver(lower, table)).aborted.None?
    ensures
      var r := Handled(lower, allowed, Some(claims), env, PgxResolver(lower, table));
      var d := AuthorizeWrite(r);
      && env.PhaseNamed()
      && (PhaseHasTutors(table, env.phase.value) ==>
            r.tutorTeam.Some? && d == Decision(Access(r.tutorTeam.value, true, true), None))
      && (d.error == Some(WriteDenied) <==> !PhaseHasTutors(table, env.phase.value))
      && (!PhaseHasTutors(table, env.phase.value) ==> r.tutorTeam.None?)
  {
    AuthenticatedUser(allowed, claims, env);
    ClaimedRoles(claims);
    hide Normalize;
    SelectTeamsHolds(table, env.phase.value, Some(Normalize(lower, Normalize(lower, claims.universityLogin))));
    TeamMeansTutors(lower, table, env.phase.value, Normalize(lower, claims.universityLogin));
  }

  /** Only a phase with tutors resolves a login to a team. */
  lemma TeamMeansTutors(lower: LowerCasing, table: Table, phase: Uuid, login: string)
    ensures ResolveTutorTeam(lower, table, phase, login).Team? ==> PhaseHasTutors(table, phase)
  {
    var normalized := Normalize(lower, login);
    hide Normalize;
    SelectTeamsHolds(table, phase, if normalized != "" then Some(normalized) else None);
  }
}
