/**
 * The record projection of `#saveAll` and `#loadAll`: which fields are written
 * for each tag, participant and event, and which defaults fill the fields an
 * older record lacks. JSON text and the key-value store are not modelled; a
 * DataRecord is the parsed object, with absent keys as None.
 */
module Persistence {
  import opened Wrappers
  import opened Event
  import opened Entities
  import opened Invitations
  import opened Store
  import opened Seqs

  /** A stored event: the eight fields plus `invitations`, each possibly absent in old data. */
  datatype EventRecord = EventRecord(
    id: int,
    title: string,
    datetime: string,
    location: string,
    description: string,
    status: string,
    tagIds: Option<seq<int>>,
    participantIds: Option<seq<int>>,
    invitations: Option<InvitationMap>)

  /** The object stored under the data key. */
  datatype DataRecord = DataRecord(
    tags: Option<seq<Tag>>,
    participants: Option<seq<Participant>>,
    events: Option<seq<EventRecord>>)

  /** The engine's three collections. */
  datatype Dataset = Dataset(tags: seq<Tag>, participants: seq<Participant>, events: seq<EventEntry>)

  /** A participant as saved: `avatar ?? ""`. */
  function ParticipantToRecord(p: Participant): (r: Participant)
    ensures r.id == p.id && r.name == p.name && r.email == p.email
    ensures r.avatar == Some(if p.avatar.Some? then p.avatar.value else "")
  {
    p.(avatar := Some(p.avatar.GetOr("")))
  }

  /** An event as saved: its eight fields, and `invitations ?? {}`. */
  function EventToRecord(e: EventEntry): (r: EventRecord)
    ensures r.id == e.item.id && r.title == e.item.title && r.datetime == e.item.datetime
    ensures r.location == e.item.location && r.description == e.item.description && r.status == e.item.status
    ensures r.tagIds == Some(e.item.tagIds) && r.participantIds == Some(e.item.participantIds)
    ensures r.invitations == Some(if e.invitations.Some? then e.invitations.value else map[])
  {
    EventRecord(e.item.id, e.item.title, e.item.datetime, e.item.location, e.item.description,
                e.item.status, Some(e.item.tagIds), Some(e.item.participantIds), Some(InvitationsOf(e)))
  }

  /** `#saveAll`: the object written under the data key. */
  function SaveAll(d: Dataset): (r: DataRecord)
    ensures r.tags == Some(d.tags)
    ensures r.participants.Some? && |r.participants.value| == |d.participants|
    ensures forall i :: 0 <= i < |d.participants| ==> r.participants.value[i] == ParticipantToRecord(d.participants[i])
    ensures r.events.Some? && |r.events.value| == |d.events|
    ensures forall i :: 0 <= i < |d.events| ==> r.events.value[i] == EventToRecord(d.events[i])
  {
    DataRecord(
      Some(d.tags),
      Some(seq(|d.participants|, i requires 0 <= i < |d.participants| => ParticipantToRecord(d.participants[i]))),
      Some(seq(|d.events|, i requires 0 <= i < |d.events| => EventToRecord(d.events[i]))))
  }

  /** An event as loaded: `new EventItem(e)` with `e.invitations ?? {}` attached. */
  function EventFromRecord(r: EventRecord): (e: EventEntry)
    ensures e.item.id == r.id && e.item.title == r.title && e.item.datetime == r.datetime
    ensures e.item.location == r.location && e.item.description == r.description && e.item.status == r.status
    ensures e.item.tagIds == if r.tagIds.Some? then r.tagIds.value else []
    ensures e.item.participantIds == if r.participantIds.Some? then r.participantIds.value else []
    ensures e.invitations == Some(if r.invitations.Some? then r.invitations.value else map[])
  {
    var init := EventInit(r.id, r.title, r.datetime, r.location, r.description, r.status,
                          r.tagIds, r.participantIds);
    EventEntry(NewEventItem(init), Some(r.invitations.GetOr(map[])))
  }

  /** `#loadAll` when a data record exists: absent collections load as empty. */
  function LoadData(r: DataRecord): (d: Dataset)
    ensures d.tags == if r.tags.Some? then r.tags.value else []
    ensures d.participants == if r.participants.Some? then r.participants.value else []
    ensures r.events.None? ==> d.events == []
    ensures r.events.Some? ==> |d.events| == |r.events.value|
    ensures r.events.Some? ==> forall i :: 0 <= i < |d.events| ==> d.events[i] == EventFromRecord(r.events.value[i])
    ensures forall i :: 0 <= i < |d.events| ==> d.events[i].invitations.Some?
  {
    var events := r.events.GetOr([]);
    Dataset(r.tags.GetOr([]), r.participants.GetOr([]),
            seq(|events|, i requires 0 <= i < |events| => EventFromRecord(events[i])))
  }

  /** Every participant has an avatar and every event an attached invitation map. */
  ghost predicate Normalized(d: Dataset) {
    && (forall i :: 0 <= i < |d.participants| ==> d.participants[i].avatar.Some?)
    && (forall i :: 0 <= i < |d.events| ==> d.events[i].invitations.Some?)
  }

  /** A record with every collection and every optional field present. */
  ghost predicate Complete(r: DataRecord) {
    && r.tags.Some? && r.participants.Some? && r.events.Some?
    && (forall i :: 0 <= i < |r.participants.value| ==> r.participants.value[i].avatar.Some?)
    && (forall i :: 0 <= i < |r.events.value| ==>
          var e := r.events.value[i];
          e.tagIds.Some? && e.participantIds.Some? && e.invitations.Some?)
  }

  /** Saving writes every field: the record has no absent key. */
  lemma SaveAllIsComplete(d: Dataset)
    ensures Complete(SaveAll(d))
  {
  }

  /** Loading what was saved gives back a normalized dataset unchanged. */
  lemma LoadAfterSave(d: Dataset)
    requires Normalized(d)
    ensures LoadData(SaveAll(d)) == d
  {
    var l := LoadData(SaveAll(d));
    assert l.participants == d.participants;
    forall i | 0 <= i < |d.events| ensures l.events[i] == d.events[i] {
      assert l.events[i] == EventFromRecord(EventToRecord(d.events[i]));
    }
  }

  /** Saving what was loaded from a complete record writes that record back. */
  lemma SaveAfterLoad(r: DataRecord)
    requires Complete(r)
    ensures SaveAll(LoadData(r)) == r
  {
    var s := SaveAll(LoadData(r));
    var ps, es := r.participants.value, r.events.value;
    forall i | 0 <= i < |ps| ensures s.participants.value[i] == ps[i] {
      assert ps[i].avatar.Some?;
    }
    assert s.participants.value == ps;
    forall i | 0 <= i < |es| ensures s.events.value[i] == es[i] {
      var e := es[i];
      assert e.tagIds.Some? && e.participantIds.Some? && e.invitations.Some?;
      assert EventToRecord(EventFromRecord(e)) == e;
    }
    assert s.events.value == es;
  }

  /**
   * Save then load is the identity exactly on normalized datasets: a
   * participant without an avatar or an event without an invitation map comes
   * back with an empty one.
   */
  lemma LoadAfterSaveIff(d: Dataset)
    ensures LoadData(SaveAll(d)) == d <==> Normalized(d)
  {
    var l := LoadData(SaveAll(d));
    if Normalized(d) {
      LoadAfterSave(d);
    } else {
      assert Normalized(l) by {
        forall i | 0 <= i < |l.participants| ensures l.participants[i].avatar.Some? {
          assert l.participants[i] == ParticipantToRecord(d.participants[i]);
        }
      }
    }
  }

  /** Save, load, save: the second save writes exactly what the first wrote. */
  lemma SaveLoadSaveStable(d: Dataset)
    ensures SaveAll(LoadData(SaveAll(d))) == SaveAll(d)
  {
    SaveAllIsComplete(d);
    SaveAfterLoad(SaveAll(d));
  }

  /** A seeded invitation of participant `p` to the event `e`. */
  function SeedInvitation(status: InviteStatus, p: Participant, e: EventItem, format: string -> string,
                          organizer: Option<User>, now: string): Invitation {
    Invitation(status, BuildInviteMail(p, MailFields(e.title, e.datetime, e.location, e.description), format, organizer), now)
  }

  /** In a tag list numbered 1, 2, 3, ... every id between 1 and its length names a tag. */
  lemma NumberedTagIds(ids: seq<int>, tags: seq<Tag>)
    requires forall j :: 0 <= j < |tags| ==> tags[j].id == j + 1
    requires forall t :: t in ids ==> 1 <= t <= |tags|
    ensures TagIdsValid(ids, tags)
  {
    forall t | t in ids ensures exists j :: 0 <= j < |tags| && tags[j].id == t {
      assert tags[t - 1].id == t;
    }
  }

  /** In a participant list numbered 1, 2, 3, ... every id between 1 and its length names a participant. */
  lemma NumberedParticipantIds(ids: seq<int>, participants: seq<Participant>)
    requires forall j :: 0 <= j < |participants| ==> participants[j].id == j + 1
    requires forall p :: p in ids ==> 1 <= p <= |participants|
    ensures ParticipantIdsValid(ids, participants)
  {
    forall p | p in ids ensures exists j :: 0 <= j < |participants| && participants[j].id == p {
      assert participants[p - 1].id == p;
    }
  }

  /** The seeded tags. */
  function SeedTags(): seq<Tag> {
    [Tag(1, "Verein"), Tag(2, "Workshop"), Tag(3, "Party"), Tag(4, "Konzert")]
  }

  /** The seeded participants. */
  function SeedParticipants(): seq<Participant> {
    [Participant(1, "Max Mustermann", "max@example.com", Some("MM")),
     Participant(2, "Anna Beispiel", "anna@example.com", Some("AB")),
     Participant(3, "Lena Berger", "lena@example.com", Some("LB"))]
  }

  /** Seeded event 101, inviting participants 1 and 2. */
  function SeedEvent101(format: string -> string, organizer: Option<User>, now: string): (r: EventEntry)
    ensures forall k :: k in InvitationsOf(r) <==> k in r.item.participantIds
    ensures TagIdsValid(r.item.tagIds, SeedTags()) && ParticipantIdsValid(r.item.participantIds, SeedParticipants())
  {
    var ps := SeedParticipants();
    var e := EventItem(101, "Vereinsabend Februar", "2026-02-22T19:00:00", "Vereinshaus",
      "Monatliches Treffen inkl. Planung für Frühjahr.", "planned", [1], [1, 2]);
    NumberedTagIds(e.tagIds, SeedTags());
    NumberedParticipantIds(e.participantIds, ps);
    EventEntry(e, Some(map[1 := SeedInvitation(Accepted, ps[0], e, format, organizer, now),
                           2 := SeedInvitation(Pending, ps[1], e, format, organizer, now)]))
  }

  /** Seeded event 102, inviting participants 2 and 3. */
  function SeedEvent102(format: string -> string, organizer: Option<User>, now: string): (r: EventEntry)
    ensures forall k :: k in InvitationsOf(r) <==> k in r.item.participantIds
    ensures TagIdsValid(r.item.tagIds, SeedTags()) && ParticipantIdsValid(r.item.participantIds, SeedParticipants())
  {
    var ps := SeedParticipants();
    var e := EventItem(102, "Figma Workshop", "2026-03-01T14:00:00", "FH Hagenberg",
      "UI Komponenten & Prototyping – Hands-on.", "planned", [2], [2, 3]);
    NumberedTagIds(e.tagIds, SeedTags());
    NumberedParticipantIds(e.participantIds, ps);
    EventEntry(e, Some(map[2 := SeedInvitation(Declined, ps[1], e, format, organizer, now),
                           3 := SeedInvitation(Accepted, ps[2], e, format, organizer, now)]))
  }

  /** Seeded event 103, inviting all three participants. */
  function SeedEvent103(format: string -> string, organizer: Option<User>, now: string): (r: EventEntry)
    ensures forall k :: k in InvitationsOf(r) <==> k in r.item.participantIds
    ensures TagIdsValid(r.item.tagIds, SeedTags()) && ParticipantIdsValid(r.item.participantIds, SeedParticipants())
  {
    var ps := SeedParticipants();
    var e := EventItem(103, "After-Exam Party", "2026-01-20T22:00:00", "Linz",
      "Feiern nach der Prüfung 🎉", "done", [3], [1, 2, 3]);
    NumberedTagIds(e.tagIds, SeedTags());
    NumberedParticipantIds(e.participantIds, ps);
    EventEntry(e, Some(map[1 := SeedInvitation(Pending, ps[0], e, format, organizer, now),
                           2 := SeedInvitation(Accepted, ps[1], e, format, organizer, now),
                           3 := SeedInvitation(Declined, ps[2], e, format, organizer, now)]))
  }

  /**
   * The seeded tags have different names and ids, and the seeded participants
   * different emails and ids, so the seed starts the uniqueness invariants.
   */
  lemma SeedKeysDistinct()
    ensures Distinct(SeedTags(), TagKey) && Distinct(SeedTags(), TagId)
    ensures Distinct(SeedParticipants(), EmailKey) && Distinct(SeedParticipants(), ParticipantId)
  {
    var ts, ps := SeedTags(), SeedParticipants();
    assert TagKey(ts[0])[0] == 'v' && TagKey(ts[1])[0] == 'w' && TagKey(ts[2])[0] == 'p' && TagKey(ts[3])[0] == 'k';
    assert EmailKey(ps[0])[0] == 'm' && EmailKey(ps[1])[0] == 'a' && EmailKey(ps[2])[0] == 'l';
  }

  /**
   * `#seedDummyData`: four tags, three participants and three events whose
   * invitations are keyed by exactly their participants. `now` stands for the
   * clock reads of `new Date().toISOString()`.
   */
  function SeedData(format: string -> string, organizer: Option<User>, now: string): (d: Dataset)
    ensures |d.tags| == 4 && |d.participants| == 3 && |d.events| == 3
    ensures TagRefsValid(d.events, d.tags) && ParticipantRefsValid(d.events, d.participants)
    ensures forall i, k :: 0 <= i < |d.events| ==> (k in InvitationsOf(d.events[i]) <==> k in d.events[i].item.participantIds)
    ensures Distinct(d.tags, TagKey) && Distinct(d.tags, TagId)
    ensures Distinct(d.participants, EmailKey) && Distinct(d.participants, ParticipantId)
  {
    SeedKeysDistinct();
    var d := Dataset(SeedTags(), SeedParticipants(),
                     [SeedEvent101(format, organizer, now), SeedEvent102(format, organizer, now),
                      SeedEvent103(format, organizer, now)]);
    RefsFromEntries(d.events, d.tags, d.participants);
    d
  }

  /**
   * Changing the participants of an event from [1, 2] to [1, 3] removes the
   * invitation of 2, keeps that of 1 as it was, and gives 3 a new one with a
   * mail addressed to the participant with id 3.
   */
  lemma ReplaceParticipantExample(participants: seq<Participant>, p3: Participant, format: string -> string,
                                  organizer: Option<User>, oldInv: InvitationMap, inv: InvitationMap,
                                  f: MailFields, sentAt: string, draws: nat -> real)
    requires 1 in oldInv
    requires FindParticipant(participants, 3) == Some(p3)
    requires IsReconciliation(inv, [1, 2], [1, 3], oldInv, participants, f, format, organizer, sentAt, draws)
    ensures 2 !in inv
    ensures 1 in inv && inv[1] == oldInv[1]
    ensures 3 in inv && inv[3].mail == BuildInviteMail(p3, f, format, organizer)
  {
    assert 3 in [1, 3] && 3 !in [1, 2];
  }

  /** The seeded participant with id 3 is the third one, Lena Berger. */
  lemma SeedParticipantThree()
    ensures FindParticipant(SeedParticipants(), 3) == Some(SeedParticipants()[2])
    ensures SeedParticipants()[2].name == "Lena Berger"
  {
    var ps := SeedParticipants();
    assert ps[2].id == 3;
  }

  /**
   * Changing the participants of seeded event 101 from [1, 2] to [1, 3]
   * removes the invitation of 2, keeps that of 1 as it was, and gives 3 a new
   * one with a mail addressed to Lena Berger.
   */
  lemma SeedEventUpdateExample(format: string -> string, organizer: Option<User>, now: string,
                               inv: InvitationMap, f: MailFields, sentAt: string, draws: nat -> real)
    requires var e := SeedEvent101(format, organizer, now);
      IsReconciliation(inv, e.item.participantIds, [1, 3], InvitationsOf(e),
                       SeedParticipants(), f, format, organizer, sentAt, draws)
    ensures 2 !in inv
    ensures 1 in inv && inv[1] == InvitationsOf(SeedEvent101(format, organizer, now))[1]
    ensures 3 in inv && inv[3].mail == BuildInviteMail(SeedParticipants()[2], f, format, organizer)
    ensures SeedParticipants()[2].name == "Lena Berger"
  {
    var e := SeedEvent101(format, organizer, now);
    assert e.item.participantIds == [1, 2];
    SeedParticipantThree();
    ReplaceParticipantExample(SeedParticipants(), SeedParticipants()[2], format, organizer, InvitationsOf(e), inv,
                              f, sentAt, draws);
  }
}
