/** The audit record and the actor it names (audit/event.go, audit/context.go). */
module AuditEvent {
  import opened Wrappers

  datatype Actor = Actor(id: string, name: string, email: string, role: string, roles: seq<string>)

  datatype Event = Event(
    actorId: string, actorName: string, actorEmail: string, actorRoles: seq<string>, actorRole: string,
    action: string, actionKey: string, outcome: string,
    entityType: string, entityId: string, entityName: string,
    courseId: string, coursePhaseId: string, sourceService: string,
    httpMethod: string, httpPath: string, httpStatus: int,
    metadata: Option<map<string, string>>)

  const OUTCOME_SUCCESS := "success"
  const OUTCOME_DENIED := "denied"
  const OUTCOME_ERROR := "error"

  /** write names the service where the event does not. */
  function Sourced(e: Event, source: string): Event {
    if e.sourceService == "" then e.(sourceService := source) else e
  }
}
