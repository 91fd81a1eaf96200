/**
 * The other records of the dataset. Tag and Participant have the fields that
 * eventbuddy.js reads from them when it saves; an event in the engine's list
 * is an EventItem with an `invitations` map attached afterwards, which
 * event.js does not know about.
 */
module Entities {
  import opened Wrappers
  import opened Event

  datatype Tag = Tag(id: int, name: string)

  /** `avatar` is optional: records written before it existed lack it. */
  datatype Participant = Participant(id: int, name: string, email: string, avatar: Option<string>)

  /** The logged-in user, the organizer named in invitation mails. */
  datatype User = User(id: int, name: string, email: string)

  datatype InviteStatus = Accepted | Declined | Pending

  datatype Invitation = Invitation(status: InviteStatus, mail: string, sentAt: string)

  /**
   * Invitations of one event, keyed by participant id. The source keys its
   * object by `String(pid)`, which is one-to-one on ids, so the ids serve as keys.
   */
  type InvitationMap = map<int, Invitation>

  /** An entry of the engine's event list: the record plus its attached invitations. */
  datatype EventEntry = EventEntry(item: EventItem, invitations: Option<InvitationMap>)

  /** `ev.invitations ?? {}`. */
  function InvitationsOf(e: EventEntry): InvitationMap {
    e.invitations.GetOr(map[])
  }
}
