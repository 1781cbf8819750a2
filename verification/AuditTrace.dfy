/**
 * The events one request hands to write: Describe, Skip, Suppress and Record during the
 * request, then the flush and the backstop of the middleware (audit/context.go, audit/middleware.go).
 */
module AuditTrace {
  import opened Wrappers
  import opened AuditEvent
  import opened RequestContext
  import AuditActor

  /** What the middleware reads of the HTTP request; `derivedAction` is the default label of the route. */
  datatype Http = Http(verb: string, route: string, params: map<string, string>, derivedAction: string) {
    function Param(name: string): string {
      if name in params then params[name] else ""
    }
  }

  /** A call made while the request runs; for Record also what the actor extractor answers at that moment. */
  datatype Call =
    | Describe(text: string)
    | Skip
    | Suppress
    | Record(event: Event, extracted: Option<Actor>)

  function OutcomeForStatus(status: int): Option<string> {
    if 200 <= status < 300 then Some(OUTCOME_SUCCESS)
    else if status == 401 || status == 403 then Some(OUTCOME_DENIED)
    else None
  }

  function OutcomeFor(status: int): string {
    match OutcomeForStatus(status)
    case Some(o) => o
    case None => OUTCOME_ERROR
  }

  predicate IsMutating(verb: string) {
    verb in {"POST", "PUT", "PATCH", "DELETE"}
  }

  function ActionLabel(actionName: string, http: Http): string {
    if actionName != "" then actionName else http.derivedAction
  }

  function WithActor(e: Event, a: Actor): Event {
    e.(actorId := a.id, actorName := a.name, actorEmail := a.email, actorRole := a.role, actorRoles := a.roles)
  }

  function FirstParam(http: Http, first: string, second: string): string {
    if http.Param(first) != "" then http.Param(first) else http.Param(second)
  }

  /** The event of the automatic backstop. */
  function BackstopEvent(http: Http, actionName: string, actor: Actor, outcome: string, status: int): Event {
    WithActor(
      Event("", "", "", [], "",
            ActionLabel(actionName, http), http.verb + " " + http.route, outcome,
            "", FirstParam(http, "uuid", "id"), "",
            FirstParam(http, "courseId", "courseID"), http.Param("coursePhaseID"), "",
            http.verb, http.route, status, None),
      actor)
  }

  // ------------------------------------------------------- what is expected

  predicate Accepts(call: Call) {
    call.Record? && (call.event.actorId != "" || call.extracted.Some?)
  }

  predicate Silences(call: Call) {
    call.Skip? || call.Suppress?
  }

  /** The label in force after some calls: that of the last Describe. */
  function LabelAfter(calls: seq<Call>): string {
    if calls == [] then ""
    else
      var last := calls[|calls| - 1];
      if last.Describe? then last.text else LabelAfter(calls[..|calls| - 1])
  }

  /** An accepted event with its blanks filled in. */
  function Prepared(call: Call, http: Http, actionName: string): Event
    requires Accepts(call)
  {
    var e := if call.event.actorId == "" then WithActor(call.event, call.extracted.value) else call.event;
    e.(httpMethod := if e.httpMethod == "" then http.verb else e.httpMethod,
       httpPath := if e.httpPath == "" then http.route else e.httpPath,
       actionKey := if e.actionKey == "" then http.verb + " " + http.route else e.actionKey,
       action := if e.action == "" then ActionLabel(actionName, http) else e.action)
  }

  function Stamped(e: Event, status: int): Event {
    e.(httpStatus := if e.httpStatus == 0 then status else e.httpStatus,
       outcome := if e.outcome == "" then OutcomeFor(status) else e.outcome)
  }

  /** The accepted events with an outcome of their own, in call order. */
  function Immediate(http: Http, source: string, calls: seq<Call>): seq<Event> {
    if calls == [] then []
    else
      var init, last := calls[..|calls| - 1], calls[|calls| - 1];
      Immediate(http, source, init) +
      if Accepts(last) && last.event.outcome != "" then [Sourced(Prepared(last, http, LabelAfter(init)), source)] else []
  }

  /** The accepted events without an outcome, in call order. */
  function Buffered(http: Http, calls: seq<Call>): seq<Event> {
    if calls == [] then []
    else
      var init, last := calls[..|calls| - 1], calls[|calls| - 1];
      Buffered(http, init) +
      if Accepts(last) && last.event.outcome == "" then [Prepared(last, http, LabelAfter(init))] else []
  }

  function StampAll(events: seq<Event>, source: string, status: int): seq<Event> {
    if events == [] then []
    else StampAll(events[..|events| - 1], source, status) + [Sourced(Stamped(events[|events| - 1], status), source)]
  }

  /** When the automatic entry is due. */
  predicate BackstopDue(http: Http, calls: seq<Call>, status: int, actor: Option<Actor>) {
    && (forall i | 0 <= i < |calls| :: !Accepts(calls[i]) && !Silences(calls[i]))
    && IsMutating(http.verb)
    && OutcomeForStatus(status).Some?
    && actor.Some?
  }

  /** Everything the request hands to write, in order. */
  function Trace(http: Http, source: string, calls: seq<Call>, status: int, actor: Option<Actor>): seq<Event> {
    Immediate(http, source, calls) + StampAll(Buffered(http, calls), source, status) +
    if BackstopDue(http, calls, status, actor)
    then [Sourced(BackstopEvent(http, LabelAfter(calls), actor.value, OutcomeForStatus(status).value, status), source)]
    else []
  }

  // ---------------------------------------------------------- the request

  /** The audit keys of one request's context, and the events given to write so far. */
  class AuditRequest {
    const http: Http
    const source: string
    var actionName: string
    var skip: bool
    var recorded: bool
    var buffer: seq<Event>
    var written: seq<Event>

    constructor (http: Http, source: string)
      ensures this.http == http && this.source == source
      ensures After([])
    {
      this.http, this.source := http, source;
      actionName, skip, recorded, buffer, written := "", false, false, [], [];
    }

    /** The keys hold what `calls` have left in them. */
    ghost predicate After(calls: seq<Call>)
      reads this
    {
      && actionName == LabelAfter(calls)
      && (skip <==> exists i | 0 <= i < |calls| :: Silences(calls[i]))
      && (recorded <==> exists i | 0 <= i < |calls| :: Accepts(calls[i]))
      && buffer == Buffered(http, calls)
      && written == Immediate(http, source, calls)
    }

    method Write(e: Event)
      modifies this`written
      ensures written == old(written) + [Sourced(e, source)]
    {
      var stamped := e;
      if stamped.sourceService == "" {
        stamped := stamped.(sourceService := source);
      }
      written := written + [stamped];
    }

    method RecordEvent(event: Event, extracted: Option<Actor>)
      modifies this
      ensures actionName == old(actionName) && skip == old(skip)
      ensures recorded == (old(recorded) || Accepts(Record(event, extracted)))
      ensures buffer == old(buffer) +
                if Accepts(Record(event, extracted)) && event.outcome == "" then [Prepared(Record(event, extracted), http, actionName)] else []
      ensures written == old(written) +
                if Accepts(Record(event, extracted)) && event.outcome != "" then [Sourced(Prepared(Record(event, extracted), http, actionName), source)] else []
    {
      var e := event;
      if e.actorId == "" {
        if extracted.None? {
          return;
        }
        var actor := extracted.value;
        e := e.(actorId := actor.id, actorName := actor.name, actorEmail := actor.email,
               actorRole := actor.role, actorRoles := actor.roles);
      }
      recorded := true;
      if e.httpMethod == "" {
        e := e.(httpMethod := http.verb);
      }
      if e.httpPath == "" {
        e := e.(httpPath := http.route);
      }
      if e.actionKey == "" {
        e := e.(actionKey := http.verb + " " + http.route);
      }
      if e.action == "" {
        e := e.(action := ActionLabel(actionName, http));
      }
      if e.outcome != "" {
        Write(e);
        return;
      }
      buffer := buffer + [e];
    }

    /** One call during the request. */
    method Perform(call: Call, ghost before: seq<Call>)
      requires After(before)
      modifies this
      ensures After(before + [call])
    {
      hide Prepared, Sourced;
      ghost var calls := before + [call];
      assert calls[..|calls| - 1] == before && calls[|calls| - 1] == call;
      assert forall i | 0 <= i < |before| :: calls[i] == before[i];
      match call {
        case Describe(text) => actionName := text;
        case Skip => skip := true;
        case Suppress => skip := true;
        case Record(event, extracted) => RecordEvent(event, extracted);
      }
    }

    method FlushRecordedEvents(status: int)
      modifies this`written
      ensures written == old(written) + StampAll(buffer, source, status)
    {
      hide StampAll, Sourced;
      StampNone(source, status);
      for i := 0 to |buffer|
        invariant written == old(written) + StampAll(buffer[..i], source, status)
      {
        var e := buffer[i];
        if e.httpStatus == 0 {
          e := e.(httpStatus := status);
        }
        if e.outcome == "" {
          e := e.(outcome := OutcomeFor(status));
        }
        assert e == Stamped(buffer[i], status);
        hide Stamped;
        Write(e);
        StampMore(buffer, i, source, status);
      }
      assert buffer[..|buffer|] == buffer;
    }
  }

  lemma StampNone(source: string, status: int)
    ensures StampAll([], source, status) == []
  {
  }

  lemma StampMore(events: seq<Event>, i: nat, source: string, status: int)
    requires i < |events|
    ensures StampAll(events[..i + 1], source, status) ==
            StampAll(events[..i], source, status) + [Sourced(Stamped(events[i], status), source)]
  {
    assert events[..i + 1][..i] == events[..i];
  }

  /** The backstop after the flush: the label and the two flags the calls have left decide it. */
  function Backstop(http: Http, source: string, actionName: string, silent: bool, status: int, actor: Option<Actor>): seq<Event> {
    if silent || OutcomeForStatus(status).None? || !IsMutating(http.verb) || actor.None? then []
    else [Sourced(BackstopEvent(http, actionName, actor.value, OutcomeForStatus(status).value, status), source)]
  }

  lemma BackstopEndsTrace(http: Http, source: string, calls: seq<Call>, status: int, actor: Option<Actor>, silent: bool)
    requires silent <==> exists i | 0 <= i < |calls| :: Silences(calls[i]) || Accepts(calls[i])
    ensures Trace(http, source, calls, status, actor) ==
            Immediate(http, source, calls) + StampAll(Buffered(http, calls), source, status)
            + Backstop(http, source, LabelAfter(calls), silent, status, actor)
  {
    hide Immediate, StampAll, Buffered, Sourced, BackstopEvent, LabelAfter, Accepts, Silences, IsMutating, OutcomeForStatus;
  }

  /** The part of the middleware that follows the flush. */
  method Finish(c: AuditRequest, status: int, actor: Option<Actor>)
    modifies c
    ensures c.written == old(c.written) + Backstop(c.http, c.source, old(c.actionName), old(c.skip || c.recorded), status, actor)
  {
    hide OutcomeForStatus, BackstopEvent, Sourced;
    if c.skip || c.recorded {
      return;
    }
    var outcome := OutcomeForStatus(status);
    if outcome.None? || !IsMutating(c.http.verb) {
      return;
    }
    if actor.None? {
      return;
    }
    c.Write(BackstopEvent(c.http, c.actionName, actor.value, outcome.value, status));
  }

  /** The middleware around one request: the calls, the flush, the backstop. */
  method Serve(http: Http, source: string, calls: seq<Call>, status: int, actor: Option<Actor>) returns (written: seq<Event>)
    ensures written == Trace(http, source, calls, status, actor)
  {
    hide Trace, Immediate, Buffered, StampAll, LabelAfter, Backstop, Accepts, Silences;
    var c := new AuditRequest(http, source);
    for i := 0 to |calls|
      invariant fresh(c) && c.http == http && c.source == source
      invariant c.After(calls[..i])
    {
      c.Perform(calls[i], calls[..i]);
      assert calls[..i + 1] == calls[..i] + [calls[i]];
    }
    assert calls[..|calls|] == calls;
    BackstopEndsTrace(http, source, calls, status, actor, c.skip || c.recorded);
    c.FlushRecordedEvents(status);
    Finish(c, status, actor);
    written := c.written;
  }

  // --------------------------------------------------------- its properties

  function AcceptedCount(calls: seq<Call>): nat {
    if calls == [] then 0
    else AcceptedCount(calls[..|calls| - 1]) + if Accepts(calls[|calls| - 1]) then 1 else 0
  }

  lemma {:induction false} CountSplit(http: Http, source: string, calls: seq<Call>)
    ensures |Immediate(http, source, calls)| + |Buffered(http, calls)| == AcceptedCount(calls)
    ensures AcceptedCount(calls) > 0 <==> exists i | 0 <= i < |calls| :: Accepts(calls[i])
  {
    if calls != [] {
      var init := calls[..|calls| - 1];
      CountSplit(http, source, init);
      assert calls == init + [calls[|calls| - 1]];
      if i :| 0 <= i < |init| && Accepts(init[i]) {
        assert Accepts(calls[i]);
      }
      hide Prepared, Sourced, Accepts;
    }
  }

  lemma {:induction false} StampLength(events: seq<Event>, source: string, status: int)
    ensures |StampAll(events, source, status)| == |events|
  {
    if events != [] {
      StampLength(events[..|events| - 1], source, status);
    }
  }

  /** No duplicates: one event for each accepted Record, and the backstop only where there is none. */
  lemma OneEventPerRecord(http: Http, source: string, calls: seq<Call>, status: int, actor: Option<Actor>)
    ensures var n := |Trace(http, source, calls, status, actor)|;
            && n == AcceptedCount(calls) + (if BackstopDue(http, calls, status, actor) then 1 else 0)
            && (BackstopDue(http, calls, status, actor) ==> n == 1)
  {
    CountSplit(http, source, calls);
    StampLength(Buffered(http, calls), source, status);
    hide Immediate, Buffered, StampAll, Sourced, BackstopEvent;
  }

  /** The extractor never answers with an empty id. */
  ghost predicate NamesActors(calls: seq<Call>, actor: Option<Actor>) {
    && (actor.Some? ==> actor.value.id != "")
    && (forall i | 0 <= i < |calls| && calls[i].Record? && calls[i].extracted.Some? :: calls[i].extracted.value.id != "")
  }

  /** Every event has an actor, an outcome and, when the service has a name, a source. */
  predicate Complete(e: Event, source: string) {
    e.actorId != "" && e.outcome != "" && (source != "" ==> e.sourceService != "")
  }

  lemma PreparedIsNamed(call: Call, http: Http, actionName: string)
    requires Accepts(call)
    requires call.extracted.Some? ==> call.extracted.value.id != ""
    ensures Prepared(call, http, actionName).actorId != ""
    ensures Prepared(call, http, actionName).outcome == call.event.outcome
  {
  }

  lemma {:induction false} ImmediateComplete(http: Http, source: string, calls: seq<Call>)
    requires NamesActors(calls, None)
    ensures forall i | 0 <= i < |Immediate(http, source, calls)| :: Complete(Immediate(http, source, calls)[i], source)
  {
    if calls != [] {
      var init, last := calls[..|calls| - 1], calls[|calls| - 1];
      ImmediateComplete(http, source, init);
      if Accepts(last) {
        PreparedIsNamed(last, http, LabelAfter(init));
      }
      hide Prepared;
    }
  }

  lemma {:induction false} BufferedNamed(http: Http, calls: seq<Call>)
    requires NamesActors(calls, None)
    ensures forall i | 0 <= i < |Buffered(http, calls)| :: Buffered(http, calls)[i].actorId != "" && Buffered(http, calls)[i].outcome == ""
  {
    if calls != [] {
      var init, last := calls[..|calls| - 1], calls[|calls| - 1];
      BufferedNamed(http, init);
      if Accepts(last) {
        PreparedIsNamed(last, http, LabelAfter(init));
      }
      hide Prepared;
    }
  }

  lemma {:induction false} StampComplete(events: seq<Event>, source: string, status: int)
    requires forall i | 0 <= i < |events| :: events[i].actorId != "" && events[i].outcome == ""
    ensures forall i | 0 <= i < |StampAll(events, source, status)| ::
              Complete(StampAll(events, source, status)[i], source) && StampAll(events, source, status)[i].outcome == OutcomeFor(status)
  {
    if events != [] {
      StampComplete(events[..|events| - 1], source, status);
    }
  }

  /** No event is written without an actor and an outcome; buffered ones carry the outcome of the final status. */
  lemma TraceIsComplete(http: Http, source: string, calls: seq<Call>, status: int, actor: Option<Actor>)
    requires NamesActors(calls, actor)
    ensures forall i | 0 <= i < |Trace(http, source, calls, status, actor)| :: Complete(Trace(http, source, calls, status, actor)[i], source)
    ensures forall i | 0 <= i < |StampAll(Buffered(http, calls), source, status)| ::
              StampAll(Buffered(http, calls), source, status)[i].outcome == OutcomeFor(status)
  {
    ImmediateComplete(http, source, calls);
    BufferedNamed(http, calls);
    StampComplete(Buffered(http, calls), source, status);
    hide Immediate, Buffered, StampAll;
  }

  /** What the default extractor finds when it is asked: the token user, and the orders its two loops visit the roles in. */
  datatype Moment = Moment(user: Option<TokenUser>, keys: seq<string>, order: seq<string>) {
    function Actor(): Option<Actor> {
      AuditActor.DefaultActor(user, keys, order)
    }
  }

  /** The calls of a request, each Record with the answer of the default extractor at its moment. */
  function WithDefaultActors(calls: seq<Call>, moments: seq<Moment>): seq<Call>
    requires |calls| == |moments|
  {
    seq(|calls|, i requires 0 <= i < |calls| =>
      if calls[i].Record? then calls[i].(extracted := moments[i].Actor()) else calls[i])
  }

  /** The default extractor needs no such assumption: whatever the context holds, no event lacks an actor. */
  lemma DefaultTraceIsComplete(http: Http, source: string, calls: seq<Call>, moments: seq<Moment>, status: int, last: Moment)
    requires |calls| == |moments|
    ensures var trace := Trace(http, source, WithDefaultActors(calls, moments), status, last.Actor());
            forall i | 0 <= i < |trace| :: Complete(trace[i], source)
  {
    TraceIsComplete(http, source, WithDefaultActors(calls, moments), status, last.Actor());
  }

  // ------------------------------------------------------- the events, field by field

  /** What an event says about its actor. */
  ghost predicate NamesActor(e: Event, actor: Actor) {
    && e.actorId == actor.id && e.actorName == actor.name && e.actorEmail == actor.email
    && e.actorRole == actor.role && e.actorRoles == actor.roles
  }

  /** The last Describe among the first `n` calls. */
  ghost predicate LastDescribe(calls: seq<Call>, n: nat, i: nat)
    requires n <= |calls|
  {
    i < n && calls[i].Describe? && forall j | i < j < n :: !calls[j].Describe?
  }

  /** The label after `n` calls: that of the last Describe, and the default one of the route without any or with an empty one. */
  ghost predicate IsLabel(action: string, calls: seq<Call>, n: nat, http: Http)
    requires n <= |calls|
  {
    && (forall i: nat | LastDescribe(calls, n, i) :: action == if calls[i].text != "" then calls[i].text else http.derivedAction)
    && ((forall i | 0 <= i < n :: !calls[i].Describe?) ==> action == http.derivedAction)
  }

  lemma {:induction false} LabelAfterIs(calls: seq<Call>, n: nat)
    requires n <= |calls|
    ensures (forall i | 0 <= i < n :: !calls[i].Describe?) ==> LabelAfter(calls[..n]) == ""
    ensures forall i: nat | LastDescribe(calls, n, i) :: LabelAfter(calls[..n]) == calls[i].text
  {
    if n > 0 {
      LabelAfterMore(calls, n);
      LabelAfterIs(calls, n - 1);
      hide LabelAfter;
      forall i: nat | LastDescribe(calls, n, i)
        ensures LabelAfter(calls[..n]) == calls[i].text
      {
        if i < n - 1 {
          assert LastDescribe(calls, n - 1, i);
        }
      }
    }
  }

  lemma LabelAfterMore(calls: seq<Call>, n: nat)
    requires 0 < n <= |calls|
    ensures LabelAfter(calls[..n]) == if calls[n - 1].Describe? then calls[n - 1].text else LabelAfter(calls[..n - 1])
  {
    assert calls[..n][..n - 1] == calls[..n - 1] && calls[..n][n - 1] == calls[n - 1];
  }

  lemma LabelIs(calls: seq<Call>, n: nat, http: Http)
    requires n <= |calls|
    ensures IsLabel(ActionLabel(LabelAfter(calls[..n]), http), calls, n, http)
  {
    LabelAfterIs(calls, n);
    hide LabelAfter, LastDescribe;
  }

  /** Nobody recorded anything in the request, and nobody asked for silence. */
  ghost predicate LeftAlone(calls: seq<Call>) {
    forall i | 0 <= i < |calls| ::
      && !calls[i].Skip? && !calls[i].Suppress?
      && (calls[i].Record? ==> calls[i].event.actorId == "" && calls[i].extracted.None?)
  }

  lemma {:induction false} LeftAloneIsEmpty(http: Http, source: string, calls: seq<Call>)
    requires LeftAlone(calls)
    ensures Immediate(http, source, calls) == [] && Buffered(http, calls) == []
  {
    if calls != [] {
      LeftAloneIsEmpty(http, source, calls[..|calls| - 1]);
      assert !Accepts(calls[|calls| - 1]);
    }
  }

  /**
   * The backstop speaks exactly for a request left alone that is a POST, PUT, PATCH or DELETE, that succeeded
   * (2xx) or was denied (401, 403), and whose actor is known; it is then the only event, and tells the
   * outcome, the actor, the request and what its route names. In every other case there is no backstop.
   */
  lemma BackstopTells(http: Http, source: string, calls: seq<Call>, status: int, actor: Option<Actor>)
    ensures
      var trace := Trace(http, source, calls, status, actor);
      var due := && LeftAlone(calls) && actor.Some? && (200 <= status < 300 || status == 401 || status == 403)
                 && (http.verb == "POST" || http.verb == "PUT" || http.verb == "PATCH" || http.verb == "DELETE");
      if due then
        && |trace| == 1
        && trace[0].outcome == (if 200 <= status < 300 then "success" else "denied")
        && NamesActor(trace[0], actor.value)
        && trace[0].httpMethod == http.verb && trace[0].httpPath == http.route && trace[0].httpStatus == status
        && trace[0].actionKey == http.verb + " " + http.route
        && IsLabel(trace[0].action, calls, |calls|, http)
        && trace[0].entityId == (if http.Param("uuid") != "" then http.Param("uuid") else http.Param("id"))
        && trace[0].courseId == (if http.Param("courseId") != "" then http.Param("courseId") else http.Param("courseID"))
        && trace[0].coursePhaseId == http.Param("coursePhaseID")
        && trace[0].sourceService == source
        && trace[0].entityType == "" && trace[0].entityName == "" && trace[0].metadata == None
      else trace == Immediate(http, source, calls) + StampAll(Buffered(http, calls), source, status)
  {
    LabelIs(calls, |calls|, http);
    assert calls[..|calls|] == calls;
    DueLiterally(http, calls, status, actor);
    hide LabelAfter, IsLabel, Immediate, Buffered, BackstopDue, Accepts, Silences;
    if LeftAlone(calls) {
      LeftAloneIsEmpty(http, source, calls);
      StampNone(source, status);
    }
    hide StampAll;
  }

  lemma DueLiterally(http: Http, calls: seq<Call>, status: int, actor: Option<Actor>)
    ensures BackstopDue(http, calls, status, actor) <==>
            && LeftAlone(calls) && actor.Some? && (200 <= status < 300 || status == 401 || status == 403)
            && (http.verb == "POST" || http.verb == "PUT" || http.verb == "PATCH" || http.verb == "DELETE")
    ensures BackstopDue(http, calls, status, actor) ==>
              OutcomeForStatus(status) == Some(if 200 <= status < 300 then "success" else "denied")
  {
    assert LeftAlone(calls) <==> forall i | 0 <= i < |calls| :: !Accepts(calls[i]) && !Silences(calls[i]);
  }

  /** What a Record call leaves in its event: its own values, with the blanks filled in from the actor and the request. */
  ghost predicate Fills(e: Event, calls: seq<Call>, i: nat, http: Http, source: string)
    requires i < |calls| && calls[i].Record?
  {
    var given := calls[i].event;
    && (given.actorId == "" ==> calls[i].extracted.Some? && NamesActor(e, calls[i].extracted.value))
    && (given.actorId != "" ==> NamesActor(e, Actor(given.actorId, given.actorName, given.actorEmail, given.actorRole, given.actorRoles)))
    && e.httpMethod == (if given.httpMethod == "" then http.verb else given.httpMethod)
    && e.httpPath == (if given.httpPath == "" then http.route else given.httpPath)
    && e.actionKey == (if given.actionKey == "" then http.verb + " " + http.route else given.actionKey)
    && (if given.action == "" then IsLabel(e.action, calls, i, http) else e.action == given.action)
    && e.sourceService == (if given.sourceService == "" then source else given.sourceService)
    && e.entityType == given.entityType && e.entityId == given.entityId && e.entityName == given.entityName
    && e.courseId == given.courseId && e.coursePhaseId == given.coursePhaseId && e.metadata == given.metadata
  }

  /** How many of the first `n` calls recorded an event with an outcome, or without one. */
  function Recorded(calls: seq<Call>, n: nat, stated: bool): nat
    requires n <= |calls|
  {
    if n == 0 then 0
    else
      Recorded(calls, n - 1, stated) + if Accepts(calls[n - 1]) && (calls[n - 1].event.outcome != "") == stated then 1 else 0
  }

  lemma ImmediateMore(http: Http, source: string, calls: seq<Call>, n: nat)
    requires 0 < n <= |calls|
    ensures Immediate(http, source, calls[..n]) == Immediate(http, source, calls[..n - 1]) +
              if Accepts(calls[n - 1]) && calls[n - 1].event.outcome != ""
              then [Sourced(Prepared(calls[n - 1], http, LabelAfter(calls[..n - 1])), source)] else []
  {
    assert calls[..n][..n - 1] == calls[..n - 1] && calls[..n][n - 1] == calls[n - 1];
    hide Prepared, Sourced, LabelAfter, Accepts;
  }

  lemma {:induction false} ImmediateCount(http: Http, source: string, calls: seq<Call>, n: nat)
    requires n <= |calls|
    ensures |Immediate(http, source, calls[..n])| == Recorded(calls, n, true)
  {
    if n > 0 {
      ImmediateMore(http, source, calls, n);
      ImmediateCount(http, source, calls, n - 1);
      hide Prepared, Sourced, LabelAfter, Accepts, Immediate;
    }
  }

  lemma {:induction false} ImmediateAt(http: Http, source: string, calls: seq<Call>, n: nat, i: nat)
    requires i < n <= |calls| && Accepts(calls[i]) && calls[i].event.outcome != ""
    ensures Recorded(calls, i, true) < |Immediate(http, source, calls[..n])|
    ensures Immediate(http, source, calls[..n])[Recorded(calls, i, true)] == Sourced(Prepared(calls[i], http, LabelAfter(calls[..i])), source)
  {
    hide Prepared, Sourced, LabelAfter, Accepts, Immediate;
    ImmediateMore(http, source, calls, n);
    if i == n - 1 {
      ImmediateCount(http, source, calls, i);
    } else {
      ImmediateAt(http, source, calls, n - 1, i);
    }
  }

  lemma BufferedMore(http: Http, calls: seq<Call>, n: nat)
    requires 0 < n <= |calls|
    ensures Buffered(http, calls[..n]) == Buffered(http, calls[..n - 1]) +
              if Accepts(calls[n - 1]) && calls[n - 1].event.outcome == ""
              then [Prepared(calls[n - 1], http, LabelAfter(calls[..n - 1]))] else []
  {
    assert calls[..n][..n - 1] == calls[..n - 1] && calls[..n][n - 1] == calls[n - 1];
    hide Prepared, LabelAfter, Accepts;
  }

  lemma {:induction false} BufferedCount(http: Http, calls: seq<Call>, n: nat)
    requires n <= |calls|
    ensures |Buffered(http, calls[..n])| == Recorded(calls, n, false)
  {
    if n > 0 {
      BufferedMore(http, calls, n);
      BufferedCount(http, calls, n - 1);
      hide Prepared, LabelAfter, Accepts, Buffered;
    }
  }

  lemma {:induction false} BufferedAt(http: Http, calls: seq<Call>, n: nat, i: nat)
    requires i < n <= |calls| && Accepts(calls[i]) && calls[i].event.outcome == ""
    ensures Recorded(calls, i, false) < |Buffered(http, calls[..n])|
    ensures Buffered(http, calls[..n])[Recorded(calls, i, false)] == Prepared(calls[i], http, LabelAfter(calls[..i]))
  {
    hide Prepared, LabelAfter, Accepts, Buffered;
    BufferedMore(http, calls, n);
    if i == n - 1 {
      BufferedCount(http, calls, i);
    } else {
      BufferedAt(http, calls, n - 1, i);
    }
  }

  lemma {:induction false} StampAllAt(events: seq<Event>, source: string, status: int)
    ensures |StampAll(events, source, status)| == |events|
    ensures forall i | 0 <= i < |events| :: StampAll(events, source, status)[i] == Sourced(Stamped(events[i], status), source)
  {
    if events != [] {
      StampAllAt(events[..|events| - 1], source, status);
      hide Stamped, Sourced;
    }
  }

  lemma PreparedFills(http: Http, source: string, calls: seq<Call>, i: nat)
    requires i < |calls| && Accepts(calls[i])
    ensures Fills(Sourced(Prepared(calls[i], http, LabelAfter(calls[..i])), source), calls, i, http, source)
  {
    LabelIs(calls, i, http);
    hide IsLabel, LabelAfter;
  }

  /**
   * An accepted Record that states its outcome is written as one event, in its turn among these, with that
   * outcome and status and its blanks filled in.
   */
  lemma StatedEventTells(http: Http, source: string, calls: seq<Call>, status: int, actor: Option<Actor>, i: nat)
    requires i < |calls| && Accepts(calls[i]) && calls[i].event.outcome != ""
    ensures var trace, at := Trace(http, source, calls, status, actor), Recorded(calls, i, true);
            && at < |trace|
            && Fills(trace[at], calls, i, http, source)
            && trace[at].outcome == calls[i].event.outcome && trace[at].httpStatus == calls[i].event.httpStatus
  {
    ImmediateAt(http, source, calls, |calls|, i);
    assert calls[..|calls|] == calls;
    PreparedFills(http, source, calls, i);
    var e := Prepared(calls[i], http, LabelAfter(calls[..i]));
    assert Sourced(e, source).outcome == calls[i].event.outcome && Sourced(e, source).httpStatus == calls[i].event.httpStatus;
    hide Prepared, Sourced, LabelAfter, Fills, Accepts, Immediate, Buffered, StampAll, BackstopDue, BackstopEvent, Recorded;
  }

  /**
   * One that leaves it open is written after all of those, in its turn, with its blanks filled in: as "success"
   * when the request ended with 2xx, as "denied" for 401 and 403, and as "error" otherwise.
   */
  lemma OpenEventTells(http: Http, source: string, calls: seq<Call>, status: int, actor: Option<Actor>, i: nat)
    requires i < |calls| && Accepts(calls[i]) && calls[i].event.outcome == ""
    ensures var trace, at := Trace(http, source, calls, status, actor), Recorded(calls, |calls|, true) + Recorded(calls, i, false);
            && at < |trace|
            && Fills(trace[at], calls, i, http, source)
            && trace[at].outcome == (if 200 <= status < 300 then "success" else if status == 401 || status == 403 then "denied" else "error")
            && trace[at].httpStatus == (if calls[i].event.httpStatus == 0 then status else calls[i].event.httpStatus)
  {
    PreparedFills(http, source, calls, i);
    StampedFills(http, source, calls, i, status);
    hide Prepared, Sourced, Stamped, LabelAfter, Fills, Accepts, Trace, Recorded;
    OpenEventIs(http, source, calls, status, actor, i);
  }

  lemma OpenEventIs(http: Http, source: string, calls: seq<Call>, status: int, actor: Option<Actor>, i: nat)
    requires i < |calls| && Accepts(calls[i]) && calls[i].event.outcome == ""
    ensures var trace, at := Trace(http, source, calls, status, actor), Recorded(calls, |calls|, true) + Recorded(calls, i, false);
            at < |trace| && trace[at] == Sourced(Stamped(Prepared(calls[i], http, LabelAfter(calls[..i])), status), source)
  {
    hide *;
    ImmediateCount(http, source, calls, |calls|);
    BufferedAt(http, calls, |calls|, i);
    assert calls[..|calls|] == calls;
    StampAllAt(Buffered(http, calls), source, status);
    MiddleOfTrace(http, source, calls, status, actor, Recorded(calls, i, false));
  }

  lemma MiddleOfTrace(http: Http, source: string, calls: seq<Call>, status: int, actor: Option<Actor>, k: nat)
    requires k < |StampAll(Buffered(http, calls), source, status)|
    ensures var trace, n := Trace(http, source, calls, status, actor), |Immediate(http, source, calls)|;
            n + k < |trace| && trace[n + k] == StampAll(Buffered(http, calls), source, status)[k]
  {
    hide Immediate, Buffered, StampAll, BackstopDue, BackstopEvent, Sourced;
  }

  lemma StampedFills(http: Http, source: string, calls: seq<Call>, i: nat, status: int)
    requires i < |calls| && Accepts(calls[i]) && calls[i].event.outcome == ""
    requires Fills(Sourced(Prepared(calls[i], http, LabelAfter(calls[..i])), source), calls, i, http, source)
    ensures var e := Sourced(Stamped(Prepared(calls[i], http, LabelAfter(calls[..i])), status), source);
            && Fills(e, calls, i, http, source)
            && e.outcome == (if 200 <= status < 300 then "success" else if status == 401 || status == 403 then "denied" else "error")
            && e.httpStatus == (if calls[i].event.httpStatus == 0 then status else calls[i].event.httpStatus)
  {
    var e := Prepared(calls[i], http, LabelAfter(calls[..i]));
    assert e.outcome == "" && e.httpStatus == calls[i].event.httpStatus;
    hide IsLabel, LabelAfter, Prepared;
  }
}
