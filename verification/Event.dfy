/**
 * The event record of event.js: an immutable value. The JavaScript class
 * copies its two id arrays on the way in and on the way out so that no
 * caller can change an event after construction; Dafny sequences are values,
 * so that isolation holds here by construction.
 */
module Event {
  import opened Wrappers

  /** An event as stored: the eight fields event.js keeps. */
  datatype EventItem = EventItem(
    id: int,
    title: string,
    datetime: string,     // ISO-8601 text
    location: string,
    description: string,
    status: string,       // "planned" | "done", as the form's select offers them
    tagIds: seq<int>,
    participantIds: seq<int>)

  /** The constructor's argument object: the two id lists may be omitted. */
  datatype EventInit = EventInit(
    id: int,
    title: string,
    datetime: string,
    location: string,
    description: string,
    status: string,
    tagIds: Option<seq<int>>,
    participantIds: Option<seq<int>>)

  /**
   * `new EventItem(init)`: every field is taken from `init`, and an omitted
   * id list becomes the empty list.
   */
  function NewEventItem(init: EventInit): (e: EventItem)
    ensures e.id == init.id && e.title == init.title && e.datetime == init.datetime
    ensures e.location == init.location && e.description == init.description
    ensures e.status == init.status
    ensures init.tagIds.None? ==> e.tagIds == []
    ensures init.participantIds.None? ==> e.participantIds == []
    ensures init.tagIds.Some? ==> e.tagIds == init.tagIds.value
    ensures init.participantIds.Some? ==> e.participantIds == init.participantIds.value
  {
    EventItem(init.id, init.title, init.datetime, init.location, init.description, init.status,
              init.tagIds.GetOr([]), init.participantIds.GetOr([]))
  }

  /**
   * `#eventToPlain(ev)` of eventbuddy.js: the event as a plain argument object,
   * with both id lists present, from which `new EventItem` rebuilds the event.
   */
  function EventToPlain(e: EventItem): (r: EventInit)
    ensures r.tagIds.Some? && r.participantIds.Some?
    ensures NewEventItem(r) == e
  {
    EventInit(e.id, e.title, e.datetime, e.location, e.description, e.status,
              Some(e.tagIds), Some(e.participantIds))
  }

  /** The plain clone of a new event is its argument with the omitted lists filled in. */
  lemma PlainOfNew(init: EventInit)
    ensures EventToPlain(NewEventItem(init))
         == init.(tagIds := Some(init.tagIds.GetOr([])), participantIds := Some(init.participantIds.GetOr([])))
  {
  }
}
