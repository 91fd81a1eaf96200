/**
 * The `EventBuddy` object of eventbuddy.js with its DOM parts replaced by
 * parameters: form values, the answers of `confirm` and `prompt`, the filter
 * values on the page, fresh ids and timestamps, the random draws and the date
 * formatter. Each handler updates the fields as the source does; where the
 * source then re-renders the event list, the selection rule is applied.
 */
module EventBuddyApp {
  import opened Wrappers
  import opened Seqs
  import opened JsText
  import opened Event
  import opened Entities
  import opened Invitations
  import opened Store
  import opened Filters
  import opened Persistence

  /** How an add or edit handler ended: applied, returned silently, or refused with an alert. */
  datatype Outcome = Applied | Skipped | DuplicateRejected

  /** The id the saved event carries: the edited event's own, or the fresh one. */
  function SavedEventId(ev: Option<EventEntry>, newId: int): int {
    if ev.Some? then ev.value.item.id else newId
  }

  /** Where the saved event lands: the first event with the edited event's id, or the head. */
  function SavedIndex(before: seq<EventEntry>, ev: Option<EventEntry>): int {
    if ev.Some? then EventIndex(before, ev.value.item.id) else 0
  }

  /**
   * The event list after saving `entry`: prepended when it is new (`unshift`),
   * otherwise written over the first event with the edited event's id. With no
   * such event, the source writes to index -1, which adds no element.
   */
  function Placed(before: seq<EventEntry>, ev: Option<EventEntry>, entry: EventEntry): seq<EventEntry> {
    if ev.None? then [entry] + before
    else
      var idx := EventIndex(before, ev.value.item.id);
      if idx < 0 then before else before[idx := entry]
  }

  /** A new event goes in front of the others; an edit replaces one event and no other. */
  lemma PlacedShape(before: seq<EventEntry>, ev: Option<EventEntry>, entry: EventEntry)
    ensures var after := Placed(before, ev, entry);
      && (ev.None? ==> |after| == |before| + 1 && after[0] == entry && after[1..] == before)
      && (ev.Some? ==>
        && |after| == |before|
        && (forall i :: 0 <= i < |before| ==> after[i] == if i == SavedIndex(before, ev) then entry else before[i]))
  {
  }

  /** The participant ids the saved event had before: none for a new event. */
  function PreviousIds(ev: Option<EventEntry>): seq<int> {
    if ev.Some? then ev.value.item.participantIds else []
  }

  /** The invitation map the save starts from: a copy of the edited event's, or empty. */
  function PreviousInvitations(ev: Option<EventEntry>): InvitationMap {
    if ev.Some? then InvitationsOf(ev.value) else map[]
  }

  /**
   * `entry` is the event saved from `form`: the form's fields under the saved
   * id, and an invitation map reconciled from the previous participants and
   * invitations.
   */
  ghost predicate IsSavedEntry(entry: EventEntry, ev: Option<EventEntry>, newId: int, form: EventForm,
                               participants: seq<Participant>, format: string -> string,
                               organizer: Option<User>, sentAt: string, draws: nat -> real)
    requires FormIsValid(form)
  {
    && entry.item == FormEventItem(SavedEventId(ev, newId), form)
    && entry.invitations.Some?
    && IsReconciliation(entry.invitations.value, PreviousIds(ev), form.participantIds, PreviousInvitations(ev),
                        participants, FormMailFields(form), format, organizer, sentAt, draws)
  }

  /**
   * `after` is `before` after a successful save: the form is valid, and the
   * saved entry sits where `Placed` puts it.
   */
  ghost predicate SavedInto(after: seq<EventEntry>, before: seq<EventEntry>, ev: Option<EventEntry>, newId: int,
                            form: EventForm, participants: seq<Participant>, format: string -> string,
                            organizer: Option<User>, sentAt: string, draws: nat -> real)
  {
    var idx := SavedIndex(before, ev);
    && FormIsValid(form)
    && 0 <= idx < |after|
    && after == Placed(before, ev, after[idx])
    && IsSavedEntry(after[idx], ev, newId, form, participants, format, organizer, sentAt, draws)
  }

  /** A saved entry keeps its invitation keys among its participant ids when the edited event did. */
  lemma SavedEntryCovered(entry: EventEntry, ev: Option<EventEntry>, newId: int, form: EventForm,
                          participants: seq<Participant>, format: string -> string,
                          organizer: Option<User>, sentAt: string, draws: nat -> real)
    requires FormIsValid(form)
    requires IsSavedEntry(entry, ev, newId, form, participants, format, organizer, sentAt, draws)
    requires ev.Some? ==> EntryCovered(ev.value)
    ensures EntryCovered(entry)
  {
    ReconciliationKeysCovered(entry.invitations.value, PreviousIds(ev), form.participantIds,
                              PreviousInvitations(ev), participants, FormMailFields(form), format, organizer,
                              sentAt, draws);
  }

  /** Placing an entry with covered keys into a list with covered keys keeps the list covered. */
  lemma PlacedKeepsCovered(before: seq<EventEntry>, ev: Option<EventEntry>, entry: EventEntry)
    requires InvitationKeysCovered(before) && EntryCovered(entry)
    ensures InvitationKeysCovered(Placed(before, ev, entry))
  {
    var after := Placed(before, ev, entry);
    forall i | 0 <= i < |after| ensures EntryCovered(after[i]) {
      if ev.None? && i > 0 {
        assert after[i] == before[i - 1];
      }
    }
  }

  /**
   * Placing an entry whose ids name existing tags and participants into a
   * list with valid references keeps the references valid.
   */
  lemma PlacedKeepsRefs(before: seq<EventEntry>, ev: Option<EventEntry>, entry: EventEntry, tags: seq<Tag>,
                        participants: seq<Participant>)
    ensures TagRefsValid(before, tags) && TagIdsValid(entry.item.tagIds, tags) ==>
      TagRefsValid(Placed(before, ev, entry), tags)
    ensures ParticipantRefsValid(before, participants) && ParticipantIdsValid(entry.item.participantIds, participants) ==>
      ParticipantRefsValid(Placed(before, ev, entry), participants)
  {
    var after := Placed(before, ev, entry);
    forall i | 0 <= i < |after| ensures after[i] == entry || exists k :: 0 <= k < |before| && before[k] == after[i] {
      if ev.None? && i > 0 {
        assert after[i] == before[i - 1];
      }
    }
  }

  /** The entry `#saveEventFromForm` builds: the form's event with the reconciled invitations attached. */
  method BuildSavedEntry(ev: Option<EventEntry>, newId: int, form: EventForm,
                                participants: seq<Participant>, format: string -> string,
                                organizer: Option<User>, sentAt: string, draws: nat -> real)
    returns (entry: EventEntry)
    requires FormIsValid(form)
    ensures IsSavedEntry(entry, ev, newId, form, participants, format, organizer, sentAt, draws)
    ensures entry.item.id == SavedEventId(ev, newId)
    ensures entry.item.tagIds == form.tagIds && entry.item.participantIds == form.participantIds
    ensures (ev.Some? ==> EntryCovered(ev.value)) ==> EntryCovered(entry)
  {
    var inv := ReconcileInvitations(PreviousIds(ev), form.participantIds, PreviousInvitations(ev), participants,
                                    FormMailFields(form), format, organizer, sentAt, draws);
    entry := EventEntry(FormEventItem(SavedEventId(ev, newId), form), Some(inv));
    if ev.Some? ==> EntryCovered(ev.value) {
      SavedEntryCovered(entry, ev, newId, form, participants, format, organizer, sentAt, draws);
    }
  }

  /** An event of a list whose invitation keys are covered has its own keys covered. */
  lemma CoveredMember(events: seq<EventEntry>, e: EventEntry)
    requires InvitationKeysCovered(events) && e in events
    ensures EntryCovered(e)
  {
    var k :| 0 <= k < |events| && events[k] == e;
  }

  /**
   * Deleting tag `id` keeps the three reference invariants, and keeps tag
   * names and tag ids unique.
   */
  lemma TagDeletionKeepsInvariants(events: seq<EventEntry>, tags: seq<Tag>, participants: seq<Participant>, id: int)
    ensures TagRefsValid(events, tags) ==> TagRefsValid(StripTagFromEvents(events, id), WithoutTag(tags, id))
    ensures ParticipantRefsValid(events, participants) ==> ParticipantRefsValid(StripTagFromEvents(events, id), participants)
    ensures InvitationKeysCovered(events) ==> InvitationKeysCovered(StripTagFromEvents(events, id))
    ensures Distinct(tags, TagKey) ==> Distinct(WithoutTag(tags, id), TagKey)
    ensures Distinct(tags, TagId) ==> Distinct(WithoutTag(tags, id), TagId)
  {
    DeleteTagCascade(events, tags, participants, id);
    if Distinct(tags, TagKey) {
      WithoutTagKeepsDistinct(tags, id, TagKey);
    }
    if Distinct(tags, TagId) {
      WithoutTagKeepsDistinct(tags, id, TagId);
    }
  }

  /**
   * Deleting participant `id` keeps the three reference invariants, and keeps
   * emails and participant ids unique.
   */
  lemma ParticipantDeletionKeepsInvariants(events: seq<EventEntry>, tags: seq<Tag>, participants: seq<Participant>, id: int)
    ensures TagRefsValid(events, tags) ==> TagRefsValid(StripParticipantFromEvents(events, id), tags)
    ensures ParticipantRefsValid(events, participants) ==>
      ParticipantRefsValid(StripParticipantFromEvents(events, id), WithoutParticipant(participants, id))
    ensures InvitationKeysCovered(events) ==> InvitationKeysCovered(StripParticipantFromEvents(events, id))
    ensures Distinct(participants, EmailKey) ==> Distinct(WithoutParticipant(participants, id), EmailKey)
    ensures Distinct(participants, ParticipantId) ==> Distinct(WithoutParticipant(participants, id), ParticipantId)
  {
    DeleteParticipantCascade(events, tags, participants, id);
    if Distinct(participants, EmailKey) {
      WithoutParticipantKeepsDistinct(participants, id, EmailKey);
    }
    if Distinct(participants, ParticipantId) {
      WithoutParticipantKeepsDistinct(participants, id, ParticipantId);
    }
  }

  class EventBuddy {
    var events: seq<EventEntry>
    var tags: seq<Tag>
    var participants: seq<Participant>
    var selectedEventId: Option<int>
    var currentUser: Option<User>

    constructor ()
      ensures events == [] && tags == [] && participants == []
      ensures selectedEventId == None && currentUser == None
    {
      events, tags, participants := [], [], [];
      selectedEventId, currentUser := None, None;
    }

    /** What `#saveAll` writes for the current state. */
    function Snapshot(): (r: DataRecord)
      reads this
      ensures Complete(r)
      ensures LoadData(r) == Dataset(tags, participants, events) <==>
                Normalized(Dataset(tags, participants, events))
    {
      var d := Dataset(tags, participants, events);
      SaveAllIsComplete(d);
      LoadAfterSaveIff(d);
      SaveAll(d)
    }

    /** The event the edit button opens the form with: the first with the selected id, if any. */
    function EventToEdit(): (r: Option<EventEntry>)
      reads this
      ensures r.Some? <==> selectedEventId.Some? && exists i :: 0 <= i < |events| && events[i].item.id == selectedEventId.value
      ensures r.Some? ==> r.value.item.id == selectedEventId.value
      ensures r.Some? ==>
        exists i :: 0 <= i < |events| && events[i] == r.value && forall j :: 0 <= j < i ==> events[j].item.id != r.value.item.id
    {
      if selectedEventId.None? then None
      else
        var i := EventIndex(events, selectedEventId.value);
        if i < 0 then None else Some(events[i])
    }

    /**
     * `#loadAll`: the stored user (if any) becomes the current user; the stored
     * data record is loaded, or the demo data is seeded when there is none.
     */
    method LoadAll(storedUser: Option<User>, stored: Option<DataRecord>, format: string -> string, now: string)
      modifies this
      ensures currentUser == storedUser && selectedEventId == old(selectedEventId)
      ensures stored.Some? ==> Dataset(tags, participants, events) == LoadData(stored.value)
      ensures stored.None? ==> Dataset(tags, participants, events) == SeedData(format, storedUser, now)
    {
      currentUser := storedUser;
      if stored.Some? {
        var d := LoadData(stored.value);
        tags, participants, events := d.tags, d.participants, d.events;
      } else {
        var d := SeedData(format, storedUser, now);
        tags, participants, events := d.tags, d.participants, d.events;
      }
    }

    /** `#selectEvent(id)`: a click on a list item. */
    method SelectEvent(id: int)
      modifies this`selectedEventId
      ensures selectedEventId == Some(id)
    {
      selectedEventId := Some(id);
    }

    /**
     * The state change of `#renderEventList`: the selection is cleared when no
     * event of the filtered list has the selected id. The filter-change
     * handlers run exactly this.
     */
    method RenderEventList(filter: FilterValues)
      modifies this`selectedEventId
      ensures selectedEventId ==
        if old(selectedEventId).Some? && !Listed(events, old(selectedEventId).value, filter) then None
        else old(selectedEventId)
    {
      var filtered := ApplyFilters(events, filter);
      if selectedEventId.Some? {
        var id := selectedEventId.value;
        var stillVisible := IndexWhere(filtered, (e: EventEntry) => e.item.id == id) >= 0;
        if !stillVisible {
          selectedEventId := None;
        }
      }
    }

    /**
     * `#saveEventFromForm(form, ev)`: `ev` is absent for a new event and the
     * event being edited otherwise. An invalid form changes nothing. Otherwise
     * the saved entry is placed into the list and selected, and the re-render
     * keeps the selection only if the entry passes `filter`.
     */
    method SaveEvent(form: EventForm, ev: Option<EventEntry>, newId: int, sentAt: string,
                     draws: nat -> real, format: string -> string, filter: FilterValues)
      returns (saved: bool)
      requires ev.Some? ==> ev.value in events
      modifies this
      ensures saved == FormIsValid(form)
      ensures tags == old(tags) && participants == old(participants) && currentUser == old(currentUser)
      ensures !saved ==> events == old(events) && selectedEventId == old(selectedEventId)
      ensures saved ==> SavedInto(events, old(events), ev, newId, form, participants, format, currentUser, sentAt, draws)
      ensures saved ==>
        selectedEventId == if Listed(events, SavedEventId(ev, newId), filter) then Some(SavedEventId(ev, newId)) else None
      ensures old(InvitationKeysCovered(events)) ==> InvitationKeysCovered(events)
      ensures old(TagRefsValid(events, tags)) && TagIdsValid(form.tagIds, tags) ==> TagRefsValid(events, tags)
      ensures old(ParticipantRefsValid(events, participants)) && ParticipantIdsValid(form.participantIds, participants) ==>
        ParticipantRefsValid(events, participants)
    {
      saved := StoreEvent(form, ev, newId, sentAt, draws, format);
      if saved {
        RenderEventList(filter);
      }
    }

    /** `#saveEventFromForm` up to the re-render. */
    method StoreEvent(form: EventForm, ev: Option<EventEntry>, newId: int, sentAt: string,
                      draws: nat -> real, format: string -> string)
      returns (saved: bool)
      requires ev.Some? ==> ev.value in events
      modifies this`events, this`selectedEventId
      ensures saved == FormIsValid(form)
      ensures !saved ==> events == old(events) && selectedEventId == old(selectedEventId)
      ensures saved ==> SavedInto(events, old(events), ev, newId, form, participants, format, currentUser, sentAt, draws)
      ensures saved ==> selectedEventId == Some(SavedEventId(ev, newId))
      ensures old(InvitationKeysCovered(events)) ==> InvitationKeysCovered(events)
      ensures old(TagRefsValid(events, tags)) && TagIdsValid(form.tagIds, tags) ==> TagRefsValid(events, tags)
      ensures old(ParticipantRefsValid(events, participants)) && ParticipantIdsValid(form.participantIds, participants) ==>
        ParticipantRefsValid(events, participants)
    {
      if !FormIsValid(form) {
        return false;
      }
      if ev.Some? && InvitationKeysCovered(events) {
        CoveredMember(events, ev.value);
      }
      var entry := BuildSavedEntry(ev, newId, form, participants, format, currentUser, sentAt, draws);
      PlaceEvent(ev, entry);
      saved := true;
    }

    /** The update-or-create branch of `#saveEventFromForm`: `entry` is placed and selected. */
    method PlaceEvent(ev: Option<EventEntry>, entry: EventEntry)
      requires ev.Some? ==> ev.value in events && entry.item.id == ev.value.item.id
      modifies this`events, this`selectedEventId
      ensures 0 <= SavedIndex(old(events), ev) < |events|
      ensures events == Placed(old(events), ev, entry) && events[SavedIndex(old(events), ev)] == entry
      ensures selectedEventId == Some(entry.item.id)
      ensures old(InvitationKeysCovered(events)) && EntryCovered(entry) ==> InvitationKeysCovered(events)
      ensures old(TagRefsValid(events, tags)) && TagIdsValid(entry.item.tagIds, tags) ==> TagRefsValid(events, tags)
      ensures old(ParticipantRefsValid(events, participants)) && ParticipantIdsValid(entry.item.participantIds, participants) ==>
        ParticipantRefsValid(events, participants)
    {
      PlacedKeepsRefs(events, ev, entry, tags, participants);
      if InvitationKeysCovered(events) && EntryCovered(entry) {
        PlacedKeepsCovered(events, ev, entry);
      }
      if ev.Some? {
        var idx := EventIndex(events, ev.value.item.id);
        assert idx >= 0 by {
          var k :| 0 <= k < |events| && events[k] == ev.value;
        }
        events := events[idx := entry];
        selectedEventId := Some(ev.value.item.id);
      } else {
        events := [entry] + events;
        selectedEventId := Some(entry.item.id);
      }
    }

    /**
     * The delete button: with an event selected and the deletion confirmed,
     * every event with the selected id is removed and the selection cleared.
     */
    method DeleteSelectedEvent(confirmed: bool, filter: FilterValues)
      modifies this
      ensures tags == old(tags) && participants == old(participants) && currentUser == old(currentUser)
      ensures old(selectedEventId).None? || !confirmed ==>
        events == old(events) && selectedEventId == old(selectedEventId)
      ensures old(selectedEventId).Some? && confirmed ==>
        events == WithoutEvent(old(events), old(selectedEventId).value) && selectedEventId == None
      ensures old(InvitationKeysCovered(events)) ==> InvitationKeysCovered(events)
      ensures old(TagRefsValid(events, tags)) ==> TagRefsValid(events, tags)
      ensures old(ParticipantRefsValid(events, participants)) ==> ParticipantRefsValid(events, participants)
    {
      if selectedEventId.None? || !confirmed {
        return;
      }
      ghost var before := events;
      events := WithoutEvent(events, selectedEventId.value);
      selectedEventId := None;
      RenderEventList(filter);
      SubListKeepsInvariants(before, events, tags, participants);
    }

    /**
     * The tag dialog's add button: the trimmed name is added with id `newId`
     * unless it is blank (silently ignored) or some tag already has it, case
     * insensitively (an alert).
     */
    method AddTag(input: string, newId: int) returns (outcome: Outcome)
      modifies this`tags
      ensures outcome == Skipped <==> Trim(input) == []
      ensures outcome == DuplicateRejected <==> Trim(input) != [] && TagNameTaken(old(tags), Trim(input), None)
      ensures outcome == Applied ==> tags == old(tags) + [Tag(newId, Trim(input))]
      ensures outcome != Applied ==> tags == old(tags)
      ensures old(Distinct(tags, TagKey)) ==> Distinct(tags, TagKey)
      ensures old(TagRefsValid(events, tags)) ==> TagRefsValid(events, tags)
    {
      var name := Trim(input);
      if name == [] {
        return Skipped;
      }
      if TagNameTaken(tags, name, None) {
        return DuplicateRejected;
      }
      if Distinct(tags, TagKey) {
        AddTagKeepsNamesDistinct(tags, Tag(newId, name));
      }
      if TagRefsValid(events, tags) {
        TagRefsKeptByIds(events, tags, tags + [Tag(newId, name)]);
      }
      tags := tags + [Tag(newId, name)];
      outcome := Applied;
    }

    /**
     * The tag dialog's edit button for tag `id`; `answer` is what the prompt
     * returned (absent when cancelled). An unknown id, a cancelled or blank
     * answer changes nothing; a name another tag has is refused; otherwise the
     * first tag with the id is renamed in place.
     */
    method EditTag(id: int, answer: Option<string>) returns (outcome: Outcome)
      modifies this`tags
      ensures outcome == Applied <==>
        TagIndex(old(tags), id) >= 0 && answer.Some? && Trim(answer.value) != []
        && !TagNameTaken(old(tags), Trim(answer.value), Some(id))
      ensures outcome == DuplicateRejected <==>
        TagIndex(old(tags), id) >= 0 && answer.Some? && Trim(answer.value) != []
        && TagNameTaken(old(tags), Trim(answer.value), Some(id))
      ensures outcome == Applied ==> tags == old(tags)[TagIndex(old(tags), id) := Tag(id, Trim(answer.value))]
      ensures outcome != Applied ==> tags == old(tags)
      ensures old(Distinct(tags, TagKey) && Distinct(tags, TagId)) ==> Distinct(tags, TagKey) && Distinct(tags, TagId)
      ensures old(TagRefsValid(events, tags)) ==> TagRefsValid(events, tags)
    {
      var idx := TagIndex(tags, id);
      if idx < 0 || answer.None? {
        return Skipped;
      }
      var nameTrim := Trim(answer.value);
      if nameTrim == [] {
        return Skipped;
      }
      if TagNameTaken(tags, nameTrim, Some(id)) {
        return DuplicateRejected;
      }
      var t := Tag(id, nameTrim);
      if Distinct(tags, TagKey) && Distinct(tags, TagId) {
        EditTagKeepsNamesDistinct(tags, idx, t);
        ReplaceKeepsDistinct(tags, idx, t, TagId);
      }
      if TagRefsValid(events, tags) {
        TagRefsKeptByIds(events, tags, tags[idx := t]);
      }
      tags := tags[idx := t];
      outcome := Applied;
    }

    /**
     * The tag dialog's delete button for tag `id`: once confirmed, the tag is
     * removed, stripped from every event (invitations kept), and the list
     * re-rendered. The tag and participant selects are rebuilt just before
     * that render and fall back to "all", so only the status and the query of
     * `filter` still apply.
     */
    method DeleteTag(id: int, confirmed: bool, filter: FilterValues)
      modifies this
      ensures participants == old(participants) && currentUser == old(currentUser)
      ensures !confirmed ==> tags == old(tags) && events == old(events) && selectedEventId == old(selectedEventId)
      ensures confirmed ==>
        && tags == WithoutTag(old(tags), id)
        && events == StripTagFromEvents(old(events), id)
        && selectedEventId ==
             if old(selectedEventId).Some? && !Listed(events, old(selectedEventId).value, filter.(tag := None, participant := None))
             then None
             else old(selectedEventId)
      ensures old(TagRefsValid(events, tags)) ==> TagRefsValid(events, tags)
      ensures old(ParticipantRefsValid(events, participants)) ==> ParticipantRefsValid(events, participants)
      ensures old(InvitationKeysCovered(events)) ==> InvitationKeysCovered(events)
      ensures old(Distinct(tags, TagKey)) ==> Distinct(tags, TagKey)
      ensures old(Distinct(tags, TagId)) ==> Distinct(tags, TagId)
    {
      if !confirmed {
        return;
      }
      ghost var tags0, events0 := tags, events;
      tags, events := WithoutTag(tags, id), StripTagFromEvents(events, id);
      RenderEventList(filter.(tag := None, participant := None));
      TagDeletionKeepsInvariants(events0, tags0, participants, id);
    }

    /**
     * The participant dialog's add button: name, email and avatar are
     * trimmed, the email lower-cased; a blank name or email is ignored, an
     * email some participant has is refused, otherwise the participant is
     * appended with id `newId`.
     */
    method AddParticipant(nameIn: string, emailIn: string, avatarIn: string, newId: int) returns (outcome: Outcome)
      modifies this`participants
      ensures outcome == Skipped <==> Trim(nameIn) == [] || Trim(emailIn) == []
      ensures outcome == DuplicateRejected <==>
        Trim(nameIn) != [] && Trim(emailIn) != [] && EmailTaken(old(participants), ToLower(Trim(emailIn)), None)
      ensures outcome == Applied ==>
        participants == old(participants) + [Participant(newId, Trim(nameIn), ToLower(Trim(emailIn)), Some(Trim(avatarIn)))]
      ensures outcome != Applied ==> participants == old(participants)
      ensures old(Distinct(participants, EmailKey)) ==> Distinct(participants, EmailKey)
      ensures old(ParticipantRefsValid(events, participants)) ==> ParticipantRefsValid(events, participants)
    {
      var name := Trim(nameIn);
      var email := ToLower(Trim(emailIn));
      var avatar := Trim(avatarIn);
      if name == [] || email == [] {
        return Skipped;
      }
      if EmailTaken(participants, email, None) {
        return DuplicateRejected;
      }
      var p := Participant(newId, name, email, Some(avatar));
      if Distinct(participants, EmailKey) {
        ToLowerIdempotent(Trim(emailIn));
        AddParticipantKeepsEmailsDistinct(participants, p);
      }
      if ParticipantRefsValid(events, participants) {
        ParticipantRefsKeptByIds(events, participants, participants + [p]);
      }
      participants := participants + [p];
      outcome := Applied;
    }

    /**
     * The participant dialog's edit button for participant `id`, given the
     * three prompt answers (absent when cancelled). Nothing happens for an
     * unknown id or a cancelled prompt; an email another participant has is
     * refused; otherwise the first participant with the id is replaced. Blank
     * names and emails are accepted here.
     */
    method EditParticipant(id: int, nameAnswer: Option<string>, emailAnswer: Option<string>,
                           avatarAnswer: Option<string>)
      returns (outcome: Outcome)
      modifies this`participants
      ensures outcome == Skipped <==>
        ParticipantIndex(old(participants), id) < 0 || nameAnswer.None? || emailAnswer.None? || avatarAnswer.None?
      ensures outcome == DuplicateRejected <==>
        outcome != Skipped && EmailTaken(old(participants), ToLower(Trim(emailAnswer.value)), Some(id))
      ensures outcome == Applied ==>
        participants == old(participants)[ParticipantIndex(old(participants), id) :=
          Participant(id, Trim(nameAnswer.value), ToLower(Trim(emailAnswer.value)), Some(Trim(avatarAnswer.value)))]
      ensures outcome != Applied ==> participants == old(participants)
      ensures old(Distinct(participants, EmailKey) && Distinct(participants, ParticipantId)) ==>
        Distinct(participants, EmailKey) && Distinct(participants, ParticipantId)
      ensures old(ParticipantRefsValid(events, participants)) ==> ParticipantRefsValid(events, participants)
    {
      var idx := ParticipantIndex(participants, id);
      if idx < 0 || nameAnswer.None? || emailAnswer.None? || avatarAnswer.None? {
        return Skipped;
      }
      var emailLower := ToLower(Trim(emailAnswer.value));
      if EmailTaken(participants, emailLower, Some(id)) {
        return DuplicateRejected;
      }
      var p := Participant(id, Trim(nameAnswer.value), emailLower, Some(Trim(avatarAnswer.value)));
      ToLowerIdempotent(Trim(emailAnswer.value));
      EditParticipantKeepsInvariants(events, participants, idx, p);
      participants := participants[idx := p];
      outcome := Applied;
    }

    /**
     * The participant dialog's delete button for participant `id`: once
     * confirmed, the participant is removed, dropped from every event together
     * with its invitation, and the list re-rendered.
     */
    method DeleteParticipant(id: int, confirmed: bool, filter: FilterValues)
      modifies this
      ensures tags == old(tags) && currentUser == old(currentUser)
      ensures !confirmed ==>
        participants == old(participants) && events == old(events) && selectedEventId == old(selectedEventId)
      ensures confirmed ==>
        && participants == WithoutParticipant(old(participants), id)
        && events == StripParticipantFromEvents(old(events), id)
        && selectedEventId ==
             if old(selectedEventId).Some? && !Listed(events, old(selectedEventId).value, filter) then None
             else old(selectedEventId)
      ensures old(TagRefsValid(events, tags)) ==> TagRefsValid(events, tags)
      ensures old(ParticipantRefsValid(events, participants)) ==> ParticipantRefsValid(events, participants)
      ensures old(InvitationKeysCovered(events)) ==> InvitationKeysCovered(events)
      ensures old(Distinct(participants, EmailKey)) ==> Distinct(participants, EmailKey)
      ensures old(Distinct(participants, ParticipantId)) ==> Distinct(participants, ParticipantId)
    {
      if !confirmed {
        return;
      }
      ghost var participants0, events0 := participants, events;
      participants, events := WithoutParticipant(participants, id), StripParticipantFromEvents(events, id);
      RenderEventList(filter);
      ParticipantDeletionKeepsInvariants(events0, tags, participants0, id);
    }
  }
}
