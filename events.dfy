/**
 * Audit event records as the event table stores them. One datatype covers
 * every shape the table holds: records written before the date partition
 * key existed (`preRFD24event`), records whose payload is still the JSON
 * string `Fields` (`eventWithJSONFields`), and current records with the
 * structured `FieldsMap`. Absent attributes are `None`.
 */
module AuditEvents {
  import opened Wrappers
  import opened Calendar

  /** A structured payload value. */
  datatype Json =
    | JNull
    | JBool(b: bool)
    | JNumber(n: int)
    | JString(s: string)
    | JArray(items: seq<Json>)
    | JObject(members: map<string, Json>)

  type EventFields = map<string, Json>

  const DefaultNamespace: string := "default"

  datatype Event = Event(
    SessionID: string,
    EventIndex: int,
    EventType: string,
    CreatedAt: int,
    Expires: Option<int>,
    Fields: Option<string>,
    EventNamespace: string,
    CreatedAtDate: Option<string>,
    FieldsMap: Option<EventFields>)

  /** The date partition key agrees with the creation time. */
  predicate DateConsistent(e: Event) {
    e.CreatedAtDate == Some(DateString(e.CreatedAt))
  }

  /** An event as it is written today: partition key and structured payload filled in. */
  function NewEvent(sessionID: string, index: int, eventType: string, createdAt: int,
                    namespace: string, fields: EventFields): (e: Event)
    ensures DateConsistent(e) && e.FieldsMap == Some(fields) && e.Fields.None?
    ensures e.SessionID == sessionID && e.EventIndex == index && e.EventType == eventType
    ensures e.CreatedAt == createdAt && e.EventNamespace == namespace && e.Expires.None?
  {
    Event(sessionID, index, eventType, createdAt, None, None, namespace,
          Some(DateString(createdAt)), Some(fields))
  }
}
