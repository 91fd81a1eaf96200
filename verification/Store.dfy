/**
 * The entity-store rules of eventbuddy.js as functions on values: what an
 * event form must hold, how its fields are normalised, how deleting a tag or a
 * participant cascades through the events, and the duplicate checks of the
 * add and edit handlers.
 */
module Store {
  import opened Wrappers
  import opened Seqs
  import opened JsText
  import opened Event
  import opened Entities
  import opened Invitations

  /** The raw values of the event form, as `FormData` yields them. */
  datatype EventForm = EventForm(
    title: string,
    datetime: string,        // "YYYY-MM-DDTHH:MM" from a datetime-local input
    location: string,
    description: string,
    status: string,
    tagIds: seq<int>,
    participantIds: seq<int>)

  /** The validity check of `#saveEventFromForm`: trimmed title, datetime and trimmed location all non-empty. */
  predicate FormIsValid(form: EventForm) {
    Trim(form.title) != "" && form.datetime != "" && Trim(form.location) != ""
  }

  /**
   * A save goes ahead exactly when the title and the location each hold a
   * character other than whitespace and a datetime is set.
   */
  lemma FormValidity(form: EventForm)
    ensures FormIsValid(form) <==> !AllWhitespace(form.title) && form.datetime != "" && !AllWhitespace(form.location)
  {
  }

  /** A 16-character "YYYY-MM-DDTHH:MM" gets seconds appended; anything else is kept. */
  function NormalizeDatetime(dt: string): (r: string)
    ensures dt <= r
    ensures |dt| == 16 ==> r == dt + ":00"
    ensures |dt| != 16 ==> r == dt
  {
    if |dt| == 16 then dt + ":00" else dt
  }

  /** Normalising twice is normalising once. */
  lemma NormalizeDatetimeIdempotent(dt: string)
    ensures NormalizeDatetime(NormalizeDatetime(dt)) == NormalizeDatetime(dt)
  {
  }

  /** The fields a saved event (and its invitation mails) gets from the form. */
  function FormMailFields(form: EventForm): (f: MailFields)
    requires FormIsValid(form)
    ensures f.title == Trim(form.title) && f.location == Trim(form.location) && f.description == Trim(form.description)
    ensures f.datetime == NormalizeDatetime(form.datetime)
    ensures f.title != "" && f.location != "" && f.datetime != ""
    ensures form.datetime <= f.datetime
  {
    MailFields(Trim(form.title), NormalizeDatetime(form.datetime), Trim(form.location), Trim(form.description))
  }

  /** The record `#saveEventFromForm` constructs for event `id` from a valid form. */
  function FormEventItem(id: int, form: EventForm): (e: EventItem)
    requires FormIsValid(form)
    ensures e.id == id && e.tagIds == form.tagIds && e.participantIds == form.participantIds
    ensures e.status == form.status
    ensures var f := FormMailFields(form);
      e.title == f.title && e.datetime == f.datetime && e.location == f.location && e.description == f.description
  {
    var f := FormMailFields(form);
    NewEventItem(EventInit(id, f.title, f.datetime, f.location, f.description, form.status,
                           Some(form.tagIds), Some(form.participantIds)))
  }

  /** The position of the first event with id `id`, or -1 (`findIndex`). */
  function EventIndex(events: seq<EventEntry>, id: int): int {
    IndexWhere(events, (e: EventEntry) => e.item.id == id)
  }

  /** The position of the first tag with id `id`, or -1. */
  function TagIndex(tags: seq<Tag>, id: int): int {
    IndexWhere(tags, (t: Tag) => t.id == id)
  }

  /** The position of the first participant with id `id`, or -1. */
  function ParticipantIndex(participants: seq<Participant>, id: int): int {
    IndexWhere(participants, (p: Participant) => p.id == id)
  }

  /** The event list without the events whose id is `id`. */
  function WithoutEvent(events: seq<EventEntry>, id: int): (r: seq<EventEntry>)
    ensures forall i :: 0 <= i < |r| ==> r[i].item.id != id && r[i] in events
    ensures forall i :: 0 <= i < |events| && events[i].item.id != id ==> events[i] in r
  {
    Keep(events, (e: EventEntry) => e.item.id != id)
  }

  /** The tag list without the tags whose id is `id`. */
  function WithoutTag(tags: seq<Tag>, id: int): (r: seq<Tag>)
    ensures forall i :: 0 <= i < |r| ==> r[i].id != id && r[i] in tags
    ensures forall i :: 0 <= i < |tags| && tags[i].id != id ==> tags[i] in r
  {
    Keep(tags, (t: Tag) => t.id != id)
  }

  /** The participant list without the participants whose id is `id`. */
  function WithoutParticipant(participants: seq<Participant>, id: int): (r: seq<Participant>)
    ensures forall i :: 0 <= i < |r| ==> r[i].id != id && r[i] in participants
    ensures forall i :: 0 <= i < |participants| && participants[i].id != id ==> participants[i] in r
  {
    Keep(participants, (p: Participant) => p.id != id)
  }

  /**
   * One event after tag `id` is deleted: rebuilt from its plain clone with `id`
   * filtered out of `tagIds`, and its invitation map re-attached.
   */
  function StripTag(e: EventEntry, id: int): (r: EventEntry)
    ensures forall t :: t in r.item.tagIds <==> t in e.item.tagIds && t != id
    ensures r.item == e.item.(tagIds := r.item.tagIds)
    ensures r.invitations == Some(InvitationsOf(e))
  {
    var clone := EventToPlain(e.item);
    var e2 := NewEventItem(clone.(tagIds := Some(Keep(clone.tagIds.GetOr([]), (t: int) => t != id))));
    EventEntry(e2, Some(InvitationsOf(e)))
  }

  /**
   * One event after participant `id` is deleted: `id` filtered out of
   * `participantIds` and its key deleted from a copy of the invitation map.
   */
  function StripParticipant(e: EventEntry, id: int): (r: EventEntry)
    ensures forall p :: p in r.item.participantIds <==> p in e.item.participantIds && p != id
    ensures r.item == e.item.(participantIds := r.item.participantIds)
    ensures r.invitations.Some?
    ensures forall k :: k in r.invitations.value <==> k in InvitationsOf(e) && k != id
    ensures forall k :: k in r.invitations.value ==> r.invitations.value[k] == InvitationsOf(e)[k]
  {
    var clone := EventToPlain(e.item);
    var e2 := NewEventItem(clone.(participantIds := Some(Keep(clone.participantIds.GetOr([]), (p: int) => p != id))));
    EventEntry(e2, Some(InvitationsOf(e) - {id}))
  }

  /**
   * `#events.map(...)` of the tag-delete handler: every event in its place,
   * without the tag, with everything else kept.
   */
  function StripTagFromEvents(events: seq<EventEntry>, id: int): (r: seq<EventEntry>)
    ensures |r| == |events|
    ensures forall i :: 0 <= i < |r| ==>
      && id !in r[i].item.tagIds
      && (forall t :: t in events[i].item.tagIds && t != id ==> t in r[i].item.tagIds)
      && (forall t :: t in r[i].item.tagIds ==> t in events[i].item.tagIds)
      && r[i].item == events[i].item.(tagIds := r[i].item.tagIds)
      && r[i].invitations == Some(InvitationsOf(events[i]))
  {
    seq(|events|, i requires 0 <= i < |events| => StripTag(events[i], id))
  }

  /**
   * `#events.map(...)` of the participant-delete handler: every event in its
   * place, without the participant and its invitation, with everything else kept.
   */
  function StripParticipantFromEvents(events: seq<EventEntry>, id: int): (r: seq<EventEntry>)
    ensures |r| == |events|
    ensures forall i :: 0 <= i < |r| ==>
      && id !in r[i].item.participantIds
      && (forall q :: q in events[i].item.participantIds && q != id ==> q in r[i].item.participantIds)
      && (forall q :: q in r[i].item.participantIds ==> q in events[i].item.participantIds)
      && r[i].item == events[i].item.(participantIds := r[i].item.participantIds)
      && r[i].invitations == Some(InvitationsOf(events[i]) - {id})
  {
    seq(|events|, i requires 0 <= i < |events| => StripParticipant(events[i], id))
  }

  /** Every tag id of every event names an existing tag. */
  ghost predicate TagRefsValid(events: seq<EventEntry>, tags: seq<Tag>) {
    forall i, t :: 0 <= i < |events| && t in events[i].item.tagIds ==>
      exists j :: 0 <= j < |tags| && tags[j].id == t
  }

  /** Every participant id of every event names an existing participant. */
  ghost predicate ParticipantRefsValid(events: seq<EventEntry>, participants: seq<Participant>) {
    forall i, p :: 0 <= i < |events| && p in events[i].item.participantIds ==>
      exists j :: 0 <= j < |participants| && participants[j].id == p
  }

  /** Every invitation key of the event is one of its participant ids. */
  ghost predicate EntryCovered(e: EventEntry) {
    forall k :: k in InvitationsOf(e) ==> k in e.item.participantIds
  }

  /** Every invitation key of every event is one of its participant ids. */
  ghost predicate InvitationKeysCovered(events: seq<EventEntry>) {
    forall i :: 0 <= i < |events| ==> EntryCovered(events[i])
  }

  /** Every id of `ids` names a tag. */
  ghost predicate TagIdsValid(ids: seq<int>, tags: seq<Tag>) {
    forall t :: t in ids ==> exists j :: 0 <= j < |tags| && tags[j].id == t
  }

  /** Every id of `ids` names a participant. */
  ghost predicate ParticipantIdsValid(ids: seq<int>, participants: seq<Participant>) {
    forall p :: p in ids ==> exists j :: 0 <= j < |participants| && participants[j].id == p
  }

  /** Events whose own ids all name existing entities keep both reference invariants. */
  lemma RefsFromEntries(events: seq<EventEntry>, tags: seq<Tag>, participants: seq<Participant>)
    requires forall i :: 0 <= i < |events| ==> TagIdsValid(events[i].item.tagIds, tags)
    requires forall i :: 0 <= i < |events| ==> ParticipantIdsValid(events[i].item.participantIds, participants)
    ensures TagRefsValid(events, tags) && ParticipantRefsValid(events, participants)
  {
  }

  /**
   * A tag list that keeps every old tag's id in its place (an append, an
   * in-place rename) keeps every tag reference valid.
   */
  lemma TagRefsKeptByIds(events: seq<EventEntry>, tags: seq<Tag>, tags2: seq<Tag>)
    requires |tags| <= |tags2| && forall j :: 0 <= j < |tags| ==> tags2[j].id == tags[j].id
    requires TagRefsValid(events, tags)
    ensures TagRefsValid(events, tags2)
  {
    forall i, t | 0 <= i < |events| && t in events[i].item.tagIds
      ensures exists j :: 0 <= j < |tags2| && tags2[j].id == t
    {
      var j :| 0 <= j < |tags| && tags[j].id == t;
      assert tags2[j].id == t;
    }
  }

  /**
   * A participant list that keeps every old participant's id in its place
   * keeps every participant reference valid.
   */
  lemma ParticipantRefsKeptByIds(events: seq<EventEntry>, participants: seq<Participant>, participants2: seq<Participant>)
    requires |participants| <= |participants2|
    requires forall j :: 0 <= j < |participants| ==> participants2[j].id == participants[j].id
    requires ParticipantRefsValid(events, participants)
    ensures ParticipantRefsValid(events, participants2)
  {
    forall i, p | 0 <= i < |events| && p in events[i].item.participantIds
      ensures exists j :: 0 <= j < |participants2| && participants2[j].id == p
    {
      var j :| 0 <= j < |participants| && participants[j].id == p;
      assert participants2[j].id == p;
    }
  }

  /** An event list drawn from a list with valid references and covered keys has them too. */
  lemma SubListKeepsInvariants(events: seq<EventEntry>, events2: seq<EventEntry>, tags: seq<Tag>,
                               participants: seq<Participant>)
    requires forall i :: 0 <= i < |events2| ==> events2[i] in events
    ensures TagRefsValid(events, tags) ==> TagRefsValid(events2, tags)
    ensures ParticipantRefsValid(events, participants) ==> ParticipantRefsValid(events2, participants)
    ensures InvitationKeysCovered(events) ==> InvitationKeysCovered(events2)
  {
    forall i | 0 <= i < |events2| ensures exists k :: 0 <= k < |events| && events[k] == events2[i] {
      assert events2[i] in events;
    }
  }

  /** Removing tags keeps tag keys (names, ids) unique. */
  lemma WithoutTagKeepsDistinct<K>(tags: seq<Tag>, id: int, key: Tag -> K)
    requires Distinct(tags, key)
    ensures Distinct(WithoutTag(tags, id), key)
  {
    KeepKeepsDistinctForAll(tags, key);
  }

  /** Removing participants keeps participant keys (emails, ids) unique. */
  lemma WithoutParticipantKeepsDistinct<K>(participants: seq<Participant>, id: int, key: Participant -> K)
    requires Distinct(participants, key)
    ensures Distinct(WithoutParticipant(participants, id), key)
  {
    KeepKeepsDistinctForAll(participants, key);
  }

  /**
   * Deleting tag `id` leaves no event referring to it, changes nothing else of
   * any event, and keeps every event's tag references valid.
   */
  lemma DeleteTagCascade(events: seq<EventEntry>, tags: seq<Tag>, participants: seq<Participant>, id: int)
    ensures var r := StripTagFromEvents(events, id);
      && |r| == |events|
      && (forall i :: 0 <= i < |r| ==> id !in r[i].item.tagIds)
      && (forall i :: 0 <= i < |r| ==>
            && r[i].item.id == events[i].item.id
            && r[i].item.participantIds == events[i].item.participantIds
            && InvitationsOf(r[i]) == InvitationsOf(events[i]))
      && (TagRefsValid(events, tags) ==> TagRefsValid(r, WithoutTag(tags, id)))
      && (ParticipantRefsValid(events, participants) ==> ParticipantRefsValid(r, participants))
      && (InvitationKeysCovered(events) ==> InvitationKeysCovered(r))
  {
    var r := StripTagFromEvents(events, id);
    if TagRefsValid(events, tags) {
      var kept := WithoutTag(tags, id);
      forall i, t | 0 <= i < |r| && t in r[i].item.tagIds
        ensures exists j :: 0 <= j < |kept| && kept[j].id == t
      {
        assert t in events[i].item.tagIds && t != id;
        var j :| 0 <= j < |tags| && tags[j].id == t;
        assert tags[j] in kept;
        var j' :| 0 <= j' < |kept| && kept[j'] == tags[j];
      }
    }
  }

  /**
   * Deleting participant `id` leaves no event listing it and no invitation
   * keyed by it, keeps every other invitation, and keeps the reference and
   * invitation-key invariants.
   */
  lemma DeleteParticipantCascade(events: seq<EventEntry>, tags: seq<Tag>, participants: seq<Participant>, id: int)
    ensures var r := StripParticipantFromEvents(events, id);
      && |r| == |events|
      && (forall i :: 0 <= i < |r| ==> id !in r[i].item.participantIds && id !in InvitationsOf(r[i]))
      && (forall i, k :: 0 <= i < |r| && k in InvitationsOf(events[i]) && k != id ==>
            k in InvitationsOf(r[i]) && InvitationsOf(r[i])[k] == InvitationsOf(events[i])[k])
      && (forall i :: 0 <= i < |r| ==>
            && r[i].item.id == events[i].item.id
            && r[i].item.tagIds == events[i].item.tagIds)
      && (TagRefsValid(events, tags) ==> TagRefsValid(r, tags))
      && (ParticipantRefsValid(events, participants) ==> ParticipantRefsValid(r, WithoutParticipant(participants, id)))
      && (InvitationKeysCovered(events) ==> InvitationKeysCovered(r))
  {
    var r := StripParticipantFromEvents(events, id);
    if ParticipantRefsValid(events, participants) {
      var kept := WithoutParticipant(participants, id);
      forall i, p | 0 <= i < |r| && p in r[i].item.participantIds
        ensures exists j :: 0 <= j < |kept| && kept[j].id == p
      {
        assert p in events[i].item.participantIds && p != id;
        var j :| 0 <= j < |participants| && participants[j].id == p;
        assert participants[j] in kept;
        var j' :| 0 <= j' < |kept| && kept[j'] == participants[j];
      }
    }
  }

  /** The id a tag is looked up by. */
  function TagId(t: Tag): int {
    t.id
  }

  /** The id a participant is looked up by. */
  function ParticipantId(p: Participant): int {
    p.id
  }

  /** The case-insensitive key a tag is unique by. */
  function TagKey(t: Tag): string {
    ToLower(t.name)
  }

  /** The case-insensitive key a participant is unique by. */
  function EmailKey(p: Participant): string {
    ToLower(p.email)
  }

  /**
   * `tags.some(x => x.id !== except && x.name.toLowerCase() === name.toLowerCase())`;
   * with `except` absent, every tag counts.
   */
  predicate TagNameTaken(tags: seq<Tag>, name: string, except: Option<int>) {
    exists i :: 0 <= i < |tags| && (except.None? || tags[i].id != except.value)
      && ToLower(tags[i].name) == ToLower(name)
  }

  /**
   * `participants.some(x => x.id !== except && x.email.toLowerCase() === email)`,
   * where `email` is already lower-cased.
   */
  predicate EmailTaken(participants: seq<Participant>, email: string, except: Option<int>) {
    exists i :: 0 <= i < |participants| && (except.None? || participants[i].id != except.value)
      && ToLower(participants[i].email) == email
  }

  /** The tag-name test ignores case: two names that lower-case alike are taken alike. */
  lemma TagNameTakenIgnoresCase(tags: seq<Tag>, a: string, b: string, except: Option<int>)
    requires ToLower(a) == ToLower(b)
    ensures TagNameTaken(tags, a, except) <==> TagNameTaken(tags, b, except)
  {
  }

  /** Every existing tag's name, in any capitalisation, is taken for the add handler. */
  lemma ExistingTagNameTaken(tags: seq<Tag>, idx: int, name: string)
    requires 0 <= idx < |tags| && ToLower(name) == TagKey(tags[idx])
    ensures TagNameTaken(tags, name, None)
  {
  }

  /**
   * With tag names unique, the edit handler never refuses a tag its own
   * name, in any capitalisation: the only tag with that name is the one
   * excluded by its id.
   */
  lemma OwnTagNameFree(tags: seq<Tag>, idx: int, name: string)
    requires Distinct(tags, TagKey)
    requires 0 <= idx < |tags| && ToLower(name) == TagKey(tags[idx])
    ensures !TagNameTaken(tags, name, Some(tags[idx].id))
  {
  }

  /** Every existing participant's lower-cased email is taken for the add handler. */
  lemma ExistingEmailTaken(participants: seq<Participant>, idx: int, email: string)
    requires 0 <= idx < |participants| && email == EmailKey(participants[idx])
    ensures EmailTaken(participants, email, None)
  {
  }

  /**
   * With emails unique, the edit handler never refuses a participant its own
   * email, in any capitalisation.
   */
  lemma OwnEmailFree(participants: seq<Participant>, idx: int, email: string)
    requires Distinct(participants, EmailKey)
    requires 0 <= idx < |participants| && ToLower(email) == EmailKey(participants[idx])
    ensures !EmailTaken(participants, ToLower(email), Some(participants[idx].id))
  {
  }

  /** A known address typed with other capitals is a duplicate. */
  lemma DuplicateEmailExample()
    ensures EmailTaken([Participant(1, "Max", "max@example.com", None)], ToLower(Trim("Max@Example.com")), None)
  {
    TrimUnpadded("Max@Example.com");
    assert ToLower("Max@Example.com") == "max@example.com";
    ExistingEmailTaken([Participant(1, "Max", "max@example.com", None)], 0, "max@example.com");
  }

  /** Appending a tag whose name the check found free keeps tag names unique. */
  lemma AddTagKeepsNamesDistinct(tags: seq<Tag>, t: Tag)
    requires Distinct(tags, TagKey)
    requires !TagNameTaken(tags, t.name, None)
    ensures Distinct(tags + [t], TagKey)
  {
    AppendKeepsDistinct(tags, t, TagKey);
  }

  /**
   * Renaming the tag at `idx` (the first with its id) to a name no tag with
   * another id has keeps tag names unique, provided tag ids are unique.
   */
  lemma EditTagKeepsNamesDistinct(tags: seq<Tag>, idx: int, t: Tag)
    requires Distinct(tags, TagKey) && Distinct(tags, TagId)
    requires 0 <= idx < |tags| && tags[idx].id == t.id
    requires !TagNameTaken(tags, t.name, Some(t.id))
    ensures Distinct(tags[idx := t], TagKey)
  {
    forall i | 0 <= i < |tags| && i != idx ensures TagKey(tags[i]) != TagKey(t) {
      assert tags[i].id != tags[idx].id;
    }
    ReplaceKeepsDistinct(tags, idx, t, TagKey);
  }

  /** Appending a participant whose lower-cased email the check found free keeps emails unique. */
  lemma AddParticipantKeepsEmailsDistinct(participants: seq<Participant>, p: Participant)
    requires Distinct(participants, EmailKey)
    requires p.email == ToLower(p.email)
    requires !EmailTaken(participants, p.email, None)
    ensures Distinct(participants + [p], EmailKey)
  {
    AppendKeepsDistinct(participants, p, EmailKey);
  }

  /**
   * Replacing the participant at `idx` (the first with its id) by one whose
   * lower-cased email no participant with another id has keeps emails unique,
   * provided participant ids are unique.
   */
  lemma EditParticipantKeepsEmailsDistinct(participants: seq<Participant>, idx: int, p: Participant)
    requires Distinct(participants, EmailKey) && Distinct(participants, ParticipantId)
    requires 0 <= idx < |participants| && participants[idx].id == p.id
    requires p.email == ToLower(p.email)
    requires !EmailTaken(participants, p.email, Some(p.id))
    ensures Distinct(participants[idx := p], EmailKey)
  {
    forall i | 0 <= i < |participants| && i != idx ensures EmailKey(participants[i]) != EmailKey(p) {
      assert participants[i].id != participants[idx].id;
    }
    ReplaceKeepsDistinct(participants, idx, p, EmailKey);
  }

  /**
   * Replacing the participant at `idx` by one with the same id and an email
   * no other participant has keeps emails and ids unique and every
   * participant reference valid.
   */
  lemma EditParticipantKeepsInvariants(events: seq<EventEntry>, participants: seq<Participant>, idx: int, p: Participant)
    requires 0 <= idx < |participants| && participants[idx].id == p.id
    requires p.email == ToLower(p.email)
    requires !EmailTaken(participants, p.email, Some(p.id))
    ensures Distinct(participants, EmailKey) && Distinct(participants, ParticipantId) ==>
      Distinct(participants[idx := p], EmailKey) && Distinct(participants[idx := p], ParticipantId)
    ensures ParticipantRefsValid(events, participants) ==> ParticipantRefsValid(events, participants[idx := p])
  {
    if Distinct(participants, EmailKey) && Distinct(participants, ParticipantId) {
      EditParticipantKeepsEmailsDistinct(participants, idx, p);
      ReplaceKeepsDistinct(participants, idx, p, ParticipantId);
    }
    if ParticipantRefsValid(events, participants) {
      ParticipantRefsKeptByIds(events, participants, participants[idx := p]);
    }
  }
}
