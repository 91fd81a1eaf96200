/**
 * The invitation engine of eventbuddy.js: when an event is saved, every newly
 * added participant gets an invitation (a drawn status, a rendered mail and a
 * timestamp), every removed participant loses theirs, and every other entry
 * is kept as it was.
 */
module Invitations {
  import opened Wrappers
  import opened Seqs
  import opened Entities

  /**
   * `#randomInviteStatus` given the value `r` of `Math.random()`:
   * below 0.34 accepted, below 0.67 declined, otherwise pending.
   */
  function RandomInviteStatus(r: real): (s: InviteStatus)
    ensures s == Accepted <==> r < 0.34
    ensures s == Declined <==> 0.34 <= r < 0.67
    ensures s == Pending <==> 0.67 <= r
  {
    if r < 0.34 then Accepted else if r < 0.67 then Declined else Pending
  }

  /** Each of the three statuses is drawn for some value in [0, 1). */
  lemma EveryStatusCanBeDrawn(s: InviteStatus)
    ensures exists r: real :: 0.0 <= r < 1.0 && RandomInviteStatus(r) == s
  {
    match s
    case Accepted => assert RandomInviteStatus(0.0) == Accepted;
    case Declined => assert RandomInviteStatus(0.5) == Declined;
    case Pending => assert RandomInviteStatus(0.9) == Pending;
  }

  /** The status only moves from accepted to declined to pending as the draw grows. */
  lemma RandomInviteStatusMonotone(r1: real, r2: real)
    requires r1 <= r2
    ensures RandomInviteStatus(r1) == Declined ==> RandomInviteStatus(r2) != Accepted
    ensures RandomInviteStatus(r1) == Pending ==> RandomInviteStatus(r2) == Pending
  {
  }

  /** The event fields a mail is rendered from (`evData`). */
  datatype MailFields = MailFields(title: string, datetime: string, location: string, description: string)

  /** The organizer's signature: "Name <email>" of the current user, or "Organizer". */
  function OrganizerLine(organizer: Option<User>): string {
    match organizer
    case Some(u) => u.name + " <" + u.email + ">"
    case None => "Organizer"
  }

  /** The mail's opening line. */
  function Greeting(p: Participant): string {
    "Hallo " + p.name + ",\n\n"
  }

  /** The invitation proper: event title, formatted date and time, location. */
  function EventLines(f: MailFields, format: string -> string): string {
    "du wurdest zu folgendem Event eingeladen:\n\n"
    + "Event: " + f.title + "\n"
    + "Datum & Uhrzeit: " + format(f.datetime) + "\n"
    + "Ort: " + f.location + "\n"
  }

  /** Everything up to and including the location line. */
  function MailHead(p: Participant, f: MailFields, format: string -> string): string {
    Greeting(p) + EventLines(f, format)
  }

  /** The optional description line: present only for a non-empty description. */
  function DescriptionLine(description: string): string {
    if description != "" then "Beschreibung: " + description + "\n" else ""
  }

  /** The request to answer, after an empty line. */
  function RequestLine(): string {
    "\n" + "Bitte gib Bescheid, ob du teilnehmen kannst.\n\n"
  }

  /** The mail between greeting and sign-off. */
  function MailBody(f: MailFields, format: string -> string): string {
    EventLines(f, format) + DescriptionLine(f.description) + RequestLine()
  }

  /** The mail's sign-off. */
  function Closing(organizer: Option<User>): string {
    "Liebe Grüße\n" + OrganizerLine(organizer) + "\n"
  }

  /** A string framed by `a` and `c` starts with `a` and ends with `c`. */
  lemma Framed(a: string, m: string, c: string)
    ensures a <= a + m + c
    ensures var s := a + m + c; |c| <= |s| && s[|s| - |c|..] == c
  {
    var s := a + m + c;
    assert s == a + (m + c);
    assert s == (a + m) + c;
  }

  /** In a string built as `a + (b + c + d) + e`, what follows `a + b` is `c + (d + e)`. */
  lemma Regrouped(a: string, b: string, c: string, d: string, e: string)
    ensures a + b <= a + (b + c + d) + e
    ensures var s := a + (b + c + d) + e; |a + b| <= |s| && s[|a + b|..] == c + (d + e)
  {
    var s := a + (b + c + d) + e;
    assert s == (a + b) + (c + (d + e));
  }

  /**
   * `#buildInviteMail(participant, evData)`, the template's lines in order:
   * it opens with a greeting that names the participant and closes with the
   * organizer's signature ("Organizer" when nobody is logged in). `format`
   * stands for `#formatDateTime`, a locale-dependent library call.
   */
  function BuildInviteMail(p: Participant, f: MailFields, format: string -> string, organizer: Option<User>): string {
    Greeting(p) + MailBody(f, format) + Closing(organizer)
  }

  /**
   * The invitation mail opens with the greeting that names the participant
   * and ends with the organizer's sign-off.
   */
  lemma InviteMailFrame(p: Participant, f: MailFields, format: string -> string, organizer: Option<User>)
    ensures var mail := BuildInviteMail(p, f, format, organizer);
      && Greeting(p) <= mail
      && |Closing(organizer)| <= |mail| && mail[|mail| - |Closing(organizer)|..] == Closing(organizer)
  {
    Framed(Greeting(p), MailBody(f, format), Closing(organizer));
  }

  /** After the greeting and the event lines come the description line, the request and the sign-off. */
  lemma MailAfterHead(p: Participant, f: MailFields, format: string -> string, organizer: Option<User>)
    ensures var mail := BuildInviteMail(p, f, format, organizer);
      var head := MailHead(p, f, format);
      && head <= mail
      && mail[|head|..] == DescriptionLine(f.description) + (RequestLine() + Closing(organizer))
  {
    var g, ev, desc, req, c := Greeting(p), EventLines(f, format), DescriptionLine(f.description), RequestLine(), Closing(organizer);
    Regrouped(g, ev, desc, req, c);
  }

  /** A text made of a description line and what follows starts with "Beschreibung: " exactly for a description. */
  lemma DescriptionLineLeads(description: string, rest: string)
    requires rest != [] && rest[0] == '\n'
    ensures "Beschreibung: " <= DescriptionLine(description) + rest <==> description != ""
    ensures description != "" ==> "Beschreibung: " + description + "\n" <= DescriptionLine(description) + rest
  {
    if description == "" {
      assert (DescriptionLine(description) + rest)[0] == '\n';
      assert "Beschreibung: "[0] == 'B';
    }
  }

  /**
   * Right after the location line comes a "Beschreibung: " line exactly when
   * the description is non-empty, and that line carries the description.
   */
  lemma InviteMailDescriptionLine(p: Participant, f: MailFields, format: string -> string, organizer: Option<User>)
    ensures var mail := BuildInviteMail(p, f, format, organizer);
      var head := MailHead(p, f, format);
      && head <= mail
      && ("Beschreibung: " <= mail[|head|..] <==> f.description != "")
      && (f.description != "" ==> "Beschreibung: " + f.description + "\n" <= mail[|head|..])
  {
    MailAfterHead(p, f, format, organizer);
    var rest := RequestLine() + Closing(organizer);
    assert RequestLine()[0] == '\n';
    DescriptionLineLeads(f.description, rest);
  }

  /** `#diffAdded(oldIds, newIds)`: the new ids that were not there before, in order. */
  function DiffAdded(oldIds: seq<int>, newIds: seq<int>): (r: seq<int>)
    ensures forall x :: x in r <==> x in newIds && x !in oldIds
  {
    Keep(newIds, (x: int) => x !in oldIds)
  }

  /** `#diffRemoved(oldIds, newIds)`: the old ids that are gone, in order. */
  function DiffRemoved(oldIds: seq<int>, newIds: seq<int>): (r: seq<int>)
    ensures forall x :: x in r <==> x in oldIds && x !in newIds
  {
    Keep(oldIds, (x: int) => x !in newIds)
  }

  /** `participants.find(x => x.id === id)`: the first participant with that id. */
  function FindParticipant(participants: seq<Participant>, id: int): (r: Option<Participant>)
    ensures r.Some? <==> exists i :: 0 <= i < |participants| && participants[i].id == id
    ensures r.Some? ==> r.value.id == id
    ensures r.Some? ==>
      exists i :: 0 <= i < |participants| && participants[i] == r.value && forall j :: 0 <= j < i ==> participants[j].id != id
  {
    var i := IndexWhere(participants, (p: Participant) => p.id == id);
    if i < 0 then None else Some(participants[i])
  }

  /** `participants.find(x => x.id === id)` finds someone. */
  predicate IsKnown(participants: seq<Participant>, id: int) {
    FindParticipant(participants, id).Some?
  }

  /** `x` is an invitation freshly issued to `p` by a save at `sentAt`. */
  ghost predicate IsNewInvitation(
    x: Invitation, p: Participant, f: MailFields, format: string -> string,
    organizer: Option<User>, sentAt: string, draws: nat -> real)
  {
    && x.mail == BuildInviteMail(p, f, format, organizer)
    && x.sentAt == sentAt
    && exists j: nat :: x.status == RandomInviteStatus(draws(j))
  }

  /**
   * `inv` is what saving an event makes of the invitation map `oldInv` when its
   * participant list goes from `oldIds` to `newIds`:
   *  - its keys are the old keys whose ids were not removed, plus the added ids
   *    that name an existing participant (other added ids are skipped);
   *  - an entry not (re)created for an added participant is the old entry;
   *  - the entry of an added, existing participant carries the mail rendered
   *    for that participant, the save's timestamp, and the status drawn from
   *    one of the values of the random stream `draws`.
   */
  ghost predicate IsReconciliation(
    inv: InvitationMap, oldIds: seq<int>, newIds: seq<int>, oldInv: InvitationMap,
    participants: seq<Participant>, f: MailFields, format: string -> string,
    organizer: Option<User>, sentAt: string, draws: nat -> real)
  {
    && (forall k :: k in inv <==>
          (k in oldInv && !(k in oldIds && k !in newIds))
          || (k in newIds && k !in oldIds && IsKnown(participants, k)))
    && (forall k :: k in inv && !(k in newIds && k !in oldIds && IsKnown(participants, k))
          ==> k in oldInv && inv[k] == oldInv[k])
    && (forall k :: k in newIds && k !in oldIds && IsKnown(participants, k) ==>
          && k in inv
          && IsNewInvitation(inv[k], FindParticipant(participants, k).value, f, format, organizer, sentAt, draws))
  }

  /**
   * The first loop of `#saveEventFromForm`: for every id of `added` that names
   * a participant, draw the next status and insert a fresh invitation under
   * that id; skip the others. `draws(n)` is the value of the n-th call of
   * `Math.random()`.
   */
  method IssueInvitations(
    added: seq<int>, oldInv: InvitationMap, participants: seq<Participant>, f: MailFields,
    format: string -> string, organizer: Option<User>, sentAt: string, draws: nat -> real)
    returns (inv: InvitationMap)
    ensures forall k :: k in inv <==> k in oldInv || (k in added && IsKnown(participants, k))
    ensures forall k :: k in inv && !(k in added && IsKnown(participants, k)) ==> inv[k] == oldInv[k]
    ensures forall k :: k in added && IsKnown(participants, k) ==>
      k in inv && IsNewInvitation(inv[k], FindParticipant(participants, k).value, f, format, organizer, sentAt, draws)
  {
    inv := oldInv;
    var used: nat := 0;
    var i := 0;
    while i < |added|
      invariant 0 <= i <= |added|
      invariant forall k :: k in inv <==> k in oldInv || (k in added[..i] && IsKnown(participants, k))
      invariant forall k :: k in inv && !(k in added[..i] && IsKnown(participants, k)) ==> inv[k] == oldInv[k]
      invariant forall k :: k in added[..i] && IsKnown(participants, k) ==>
        k in inv && IsNewInvitation(inv[k], FindParticipant(participants, k).value, f, format, organizer, sentAt, draws)
    {
      var pid := added[i];
      var p := FindParticipant(participants, pid);
      ghost var before := inv;
      if p.Some? {
        var status := RandomInviteStatus(draws(used));
        var mail := BuildInviteMail(p.value, f, format, organizer);
        inv := inv[pid := Invitation(status, mail, sentAt)];
        assert IsNewInvitation(inv[pid], p.value, f, format, organizer, sentAt, draws);
        used := used + 1;
      }
      assert added[..i + 1] == added[..i] + [pid];
      forall k | k in added[..i + 1] && IsKnown(participants, k)
        ensures k in inv
        ensures IsNewInvitation(inv[k], FindParticipant(participants, k).value, f, format, organizer, sentAt, draws)
      {
        if k != pid {
          assert k in added[..i];
          assert inv[k] == before[k];
        }
      }
      i := i + 1;
    }
    assert added[..i] == added;
  }

  /** The second loop of `#saveEventFromForm`: delete the key of every id of `removed`. */
  method DropInvitations(inv0: InvitationMap, removed: seq<int>) returns (inv: InvitationMap)
    ensures forall k :: k in inv <==> k in inv0 && k !in removed
    ensures forall k :: k in inv ==> inv[k] == inv0[k]
  {
    inv := inv0;
    var i := 0;
    while i < |removed|
      invariant 0 <= i <= |removed|
      invariant forall k :: k in inv <==> k in inv0 && k !in removed[..i]
      invariant forall k :: k in inv ==> inv[k] == inv0[k]
    {
      inv := inv - {removed[i]};
      assert removed[..i + 1] == removed[..i] + [removed[i]];
      i := i + 1;
    }
    assert removed[..i] == removed;
  }

  /**
   * The invitation map `#saveEventFromForm` attaches to the saved event: the
   * old map with fresh invitations for the added ids, then without the keys of
   * the removed ids.
   */
  method ReconcileInvitations(
    oldIds: seq<int>, newIds: seq<int>, oldInv: InvitationMap,
    participants: seq<Participant>, f: MailFields, format: string -> string,
    organizer: Option<User>, sentAt: string, draws: nat -> real)
    returns (inv: InvitationMap)
    ensures IsReconciliation(inv, oldIds, newIds, oldInv, participants, f, format, organizer, sentAt, draws)
    ensures (forall k :: k in oldInv ==> k in oldIds) ==> forall k :: k in inv ==> k in newIds
  {
    var added := DiffAdded(oldIds, newIds);
    var issued := IssueInvitations(added, oldInv, participants, f, format, organizer, sentAt, draws);
    var removed := DiffRemoved(oldIds, newIds);
    inv := DropInvitations(issued, removed);
  }

  /**
   * When the old keys were exactly the old participant ids and every new id
   * names an existing participant, the keys afterwards are exactly the new
   * participant ids.
   */
  lemma ReconciliationKeysMatchParticipants(
    inv: InvitationMap, oldIds: seq<int>, newIds: seq<int>, oldInv: InvitationMap,
    participants: seq<Participant>, f: MailFields, format: string -> string,
    organizer: Option<User>, sentAt: string, draws: nat -> real)
    requires IsReconciliation(inv, oldIds, newIds, oldInv, participants, f, format, organizer, sentAt, draws)
    requires forall k :: k in oldInv <==> k in oldIds
    requires forall k :: k in newIds ==> IsKnown(participants, k)
    ensures forall k :: k in inv <==> k in newIds
  {
  }

  /** When the old keys were among the old participant ids, the new keys are among the new ones. */
  lemma ReconciliationKeysCovered(
    inv: InvitationMap, oldIds: seq<int>, newIds: seq<int>, oldInv: InvitationMap,
    participants: seq<Participant>, f: MailFields, format: string -> string,
    organizer: Option<User>, sentAt: string, draws: nat -> real)
    requires IsReconciliation(inv, oldIds, newIds, oldInv, participants, f, format, organizer, sentAt, draws)
    requires forall k :: k in oldInv ==> k in oldIds
    ensures forall k :: k in inv ==> k in newIds
  {
  }

  /**
   * An added id that names no participant gets no invitation, so the keys then
   * fall short of the participant list.
   */
  lemma UnknownAddedIdGetsNoInvitation(
    inv: InvitationMap, oldIds: seq<int>, newIds: seq<int>, oldInv: InvitationMap,
    participants: seq<Participant>, f: MailFields, format: string -> string,
    organizer: Option<User>, sentAt: string, draws: nat -> real, k: int)
    requires IsReconciliation(inv, oldIds, newIds, oldInv, participants, f, format, organizer, sentAt, draws)
    requires k in newIds && k !in oldIds && k !in oldInv
    requires forall p :: p in participants ==> p.id != k
    ensures k !in inv
  {
  }
}
