# EventBuddy engine in Dafny

EventBuddy is a small browser application for planning club events. It keeps
three collections: events, tags and participants. An event is an immutable
`EventItem` record (event.js). The engine attaches a map of invitations to it,
keyed by participant id. Each invitation holds a status, a rendered mail and a
timestamp.

The `EventBuddy` object (eventbuddy.js) does the following:

- It validates and saves the event form. When it does, it reconciles the
  invitations of the saved event: participants who were added are invited, and
  participants who were removed lose their invitation.
- It adds, renames and deletes tags and participants. It refuses duplicate tag
  names and duplicate emails, case-insensitively. A deletion cascades through
  the events.
- It filters the event list and clears a selection that the filters hide.
- It saves and loads everything as one data record, or seeds demo data when
  there is no record.

The model has these modules:

| module | file | contents |
|---|---|---|
| `Wrappers` | Wrappers.dfy | `Option` |
| `Seqs` | Seqs.dfy | `Array.prototype.filter` as `Keep`, `findIndex` as `IndexWhere`, key uniqueness |
| `JsText` | JsText.dfy | `trim`, `toLowerCase`, `includes` |
| `Event` | Event.dfy | `EventItem` and `#eventToPlain` |
| `Entities` | Entities.dfy | tags, participants, users and invitations |
| `Invitations` | Invitations.dfy | random status, invite mail, id diffs, the reconciliation loops |
| `Store` | Store.dfy | form rules, deletion cascades, duplicate checks, reference invariants |
| `Filters` | Filters.dfy | `#applyFilters` and the selection rule of `#renderEventList` |
| `Persistence` | Persistence.dfy | the `#saveAll`/`#loadAll` record, its round trips, the demo seed |
| `EventBuddyApp` | EventBuddy.dfy | the `EventBuddy` class |

The `EventBuddy` class has the source's five fields. Its methods mirror the
handlers: each assigns the fields as the source does. Every handler that
re-renders the list runs `RenderEventList`.

The invariants the handlers keep are these:

- every tag id and every participant id of an event names an existing entity;
- every invitation key of an event is one of its participant ids;
- tag names are unique, case-insensitively;
- participant emails are unique, lower-cased.

Tag and participant ids are unique too, as far as the handlers are concerned:
the deletions keep them unique, and the edits use them to keep names and emails
unique. A save keeps the reference invariants when the form's ids name existing
tags and participants. The form offers only those as checkboxes
(eventbuddy.js:246-273).

Worth knowing about the code:

- A save skips an added participant id that names nobody. So the invitation
  keys are only guaranteed to lie among the participant ids; they need not
  equal them. `ReconciliationKeysMatchParticipants` gives equality under the
  conditions that make it hold. `UnknownAddedIdGetsNoInvitation` shows the gap.
- `#seedDummyData` creates four tags (Verein, Workshop, Party, Konzert), three
  participants and three events.
- Duplicates and unknown ids end in an alert or a silent return. They are not
  errors. `Outcome` records which of the two happened.
- Editing a participant does not refuse a blank name or email, unlike adding one.

## Model

| member | source | states |
|---|---|---|
| Seqs.Keep | eventbuddy.js:932-940 | `filter` keeps exactly the passing elements of its input, and never lengthens it |
| Seqs.KeepSome | eventbuddy.js:737-738 | some element of the filtered list has a property iff some passing element of the input has it |
| Seqs.KeepCount | eventbuddy.js:178 | a passing element keeps all its occurrences; a failing one keeps none, so the filtered list is a sub-multiset of the input |
| Seqs.KeepKeepsDistinct | eventbuddy.js:453 | filtering a list with unique keys keeps them unique |
| Seqs.IndexWhere | eventbuddy.js:492 | `findIndex` returns -1 iff nothing matches; otherwise it returns the first matching position |
| Seqs.AppendKeepsDistinct | eventbuddy.js:439 | pushing an element whose key is new keeps keys unique |
| Seqs.ReplaceKeepsDistinct | eventbuddy.js:493 | overwriting a position with an element whose key no other position has keeps keys unique |
| JsText.TrimStartSuffix | eventbuddy.js:299 | what is left after the leading whitespace is a suffix of the input |
| JsText.TrimEndPrefix | eventbuddy.js:299 | what is left before the trailing whitespace is a prefix of the input |
| JsText.TrimStartDropsWhitespace | eventbuddy.js:299 | every leading character `trim` drops is whitespace |
| JsText.TrimEndDropsWhitespace | eventbuddy.js:299 | every trailing character `trim` drops is whitespace |
| JsText.LeadingWhitespace | eventbuddy.js:299 | the dropped prefix is all whitespace |
| JsText.TrailingWhitespace | eventbuddy.js:299 | the dropped suffix is all whitespace |
| JsText.MiddleSlice | eventbuddy.js:299 | cutting whitespace from the front and then from the back leaves a slice of the input with only whitespace around it |
| JsText.TrimBothEndsEmpty | eventbuddy.js:308 | trimming both ends leaves nothing iff the input is all whitespace |
| JsText.Trim | eventbuddy.js:299-308 | `trim` yields a string with no whitespace at either end; it is empty iff the input is all whitespace |
| JsText.TrimIsMiddle | eventbuddy.js:299-303 | `trim` keeps a slice of the input and cuts off only whitespace before and after it |
| JsText.TrimUnpadded | eventbuddy.js:299-303 | `trim` returns a string with no whitespace at either end unchanged |
| JsText.ToLower | eventbuddy.js:434 | `toLowerCase` keeps the length |
| JsText.ToLowerIdempotent | eventbuddy.js:559 | an email that was lower-cased once is stored lower-cased |
| JsText.IncludesAt | eventbuddy.js:770 | `includes` holds iff the needle starts at some position of the text |
| Event.NewEventItem | event.js:11-20 | the constructor copies every field; an omitted id list becomes `[]` |
| Event.EventToPlain | eventbuddy.js:974-985 | the plain clone has both id lists, and `new EventItem` rebuilds the event from it |
| Event.PlainOfNew | eventbuddy.js:974-985 | the plain clone of a new event is its argument with the omitted lists filled in |
| Invitations.RandomInviteStatus | eventbuddy.js:908-914 | accepted iff the draw is below 0.34, declined iff it lies in [0.34, 0.67), pending otherwise |
| Invitations.EveryStatusCanBeDrawn | eventbuddy.js:908-914 | each of accepted, declined and pending is returned for some draw in [0, 1) |
| Invitations.RandomInviteStatusMonotone | eventbuddy.js:908-914 | a larger draw never moves the status back |
| Invitations.InviteMailFrame | eventbuddy.js:916-930 | the mail opens with "Hallo <name>," and ends with "Liebe Grüße" and the organizer as "name <email>", or "Organizer" with nobody logged in |
| Invitations.MailAfterHead | eventbuddy.js:921-928 | after the greeting and the event, date and place lines come the description line, the request and the sign-off, in that order |
| Invitations.InviteMailDescriptionLine | eventbuddy.js:925-926 | a "Beschreibung: " line follows the location line iff the description is non-empty, and it carries the description |
| Invitations.DiffAdded | eventbuddy.js:932-935 | the result holds exactly the new ids that were not old |
| Invitations.DiffRemoved | eventbuddy.js:937-940 | the result holds exactly the old ids that are not new |
| Invitations.FindParticipant | eventbuddy.js:320-321 | finds a participant iff one has the id; the one found has that id and no earlier participant has it |
| Invitations.IssueInvitations | eventbuddy.js:319-332 | every added id that names a participant gets a fresh invitation (its mail, the save's timestamp, a drawn status); unknown ids are skipped; other keys are untouched |
| Invitations.DropInvitations | eventbuddy.js:335-338 | the keys are the old keys minus the removed ids; the remaining entries are unchanged |
| Invitations.ReconcileInvitations | eventbuddy.js:313-338 | the new map is the reconciliation: kept old entries, fresh entries for added known ids, no entries for removed ids; old keys among the old ids put the new keys among the new ids |
| Invitations.ReconciliationKeysMatchParticipants | eventbuddy.js:313-338 | if the old keys equal the old ids and every new id is known, the new keys equal the new ids |
| Invitations.ReconciliationKeysCovered | eventbuddy.js:313-338 | if the old keys lie among the old ids, the new keys lie among the new ids |
| Invitations.UnknownAddedIdGetsNoInvitation | eventbuddy.js:320-321 | an added id naming no participant gets no invitation |
| Store.FormValidity | eventbuddy.js:308 | a save goes ahead iff title and location each hold a character other than whitespace and a datetime is set |
| Store.NormalizeDatetime | eventbuddy.js:310 | a 16-character value gets ":00" appended; any other value is kept |
| Store.NormalizeDatetimeIdempotent | eventbuddy.js:310 | normalising twice equals normalising once |
| Store.FormMailFields | eventbuddy.js:299-310 | title, location and description are the trimmed inputs, the datetime the normalised one; title, location and datetime are non-empty |
| Store.FormEventItem | eventbuddy.js:340-369 | the saved record has the given id, the form's status, tag ids and participant ids, and the trimmed and normalised text fields |
| Store.WithoutEvent | eventbuddy.js:178 | exactly the events with another id remain |
| Store.WithoutTag | eventbuddy.js:453 | exactly the tags with another id remain |
| Store.WithoutParticipant | eventbuddy.js:581 | exactly the participants with another id remain |
| Store.StripTag | eventbuddy.js:456-462 | the tag leaves `tagIds`, every other field is kept, and the invitations are re-attached |
| Store.StripParticipant | eventbuddy.js:584-594 | the participant leaves `participantIds` and its key leaves a copy of the invitations; the rest is kept |
| Store.StripTagFromEvents | eventbuddy.js:456-462 | every event stays in its place; its tag ids are exactly the old ones minus the deleted tag (none added), every other field and its invitations kept |
| Store.StripParticipantFromEvents | eventbuddy.js:584-594 | every event stays in its place; its participant ids are exactly the old ones minus the deleted participant (none added), its invitations lose that key, everything else kept |
| Store.RefsFromEntries | eventbuddy.js:246-273 | events whose own ids all name existing tags and participants satisfy both reference invariants |
| Store.TagRefsKeptByIds | eventbuddy.js:439 | a tag list that keeps every old tag's id in place (an append, a rename) keeps every tag reference valid |
| Store.ParticipantRefsKeptByIds | eventbuddy.js:569 | a participant list that keeps every old participant's id in place keeps every participant reference valid |
| Store.SubListKeepsInvariants | eventbuddy.js:178 | a list drawn from a list with valid references and covered keys has them too |
| Store.WithoutTagKeepsDistinct | eventbuddy.js:453 | removing tags keeps unique names and ids unique |
| Store.WithoutParticipantKeepsDistinct | eventbuddy.js:581 | removing participants keeps unique emails and ids unique |
| Store.DeleteTagCascade | eventbuddy.js:446-462 | no event refers to the deleted tag; ids, participants and invitations are unchanged; all three reference invariants hold after |
| Store.DeleteParticipantCascade | eventbuddy.js:575-594 | no event lists the participant or keeps its invitation; other invitations are kept; all three reference invariants hold after |
| Store.TagNameTakenIgnoresCase | eventbuddy.js:434 | two names that lower-case alike are refused alike, by the add test here and the edit test at line 487 |
| Store.ExistingTagNameTaken | eventbuddy.js:434 | the name of any existing tag, in any capitalisation, is refused when adding |
| Store.OwnTagNameFree | eventbuddy.js:487 | with unique names, editing a tag never refuses its own name in any capitalisation, because the test skips the tag's own id |
| Store.ExistingEmailTaken | eventbuddy.js:564 | the lower-cased email of any existing participant is refused when adding |
| Store.OwnEmailFree | eventbuddy.js:623 | with unique emails, editing a participant never refuses its own email in any capitalisation, because the test skips the participant's own id |
| Store.DuplicateEmailExample | eventbuddy.js:559-564 | "Max@Example.com", trimmed and lower-cased, is refused when "max@example.com" is already registered |
| Store.AddTagKeepsNamesDistinct | eventbuddy.js:433-439 | adding a tag whose name no tag has (ignoring case) keeps names unique |
| Store.EditTagKeepsNamesDistinct | eventbuddy.js:487-493 | renaming to a name no other tag has keeps names unique |
| Store.AddParticipantKeepsEmailsDistinct | eventbuddy.js:564-569 | adding a participant with an unused lower-cased email keeps emails unique |
| Store.EditParticipantKeepsEmailsDistinct | eventbuddy.js:623-634 | replacing a participant by one whose email no other participant has keeps emails unique |
| Store.EditParticipantKeepsInvariants | eventbuddy.js:623-634 | that replacement also keeps participant ids unique and every participant reference valid |
| Filters.Matches | eventbuddy.js:755-774 | a passing event has the selected status, tag and participant; with the selects on "all" and a blank query every event passes |
| Filters.TextTestIsIncludes | eventbuddy.js:753-771 | the search test is `includes` of the lower-cased trimmed query in the lower-cased haystack, a blank query included |
| Filters.ApplyFilters | eventbuddy.js:749-775 | the result is exactly the events passing the status, tag, participant and text tests |
| Filters.ApplyFiltersAppend | eventbuddy.js:755 | filtering keeps the list's order |
| Filters.ApplyFiltersIdempotent | eventbuddy.js:749-775 | filtering the filtered list changes nothing |
| Filters.ApplyFiltersNeutral | eventbuddy.js:749-775 | with every select on "all" and a blank query, the whole list is returned in order |
| Filters.VisibleSelection | eventbuddy.js:737-746 | the selection is kept iff a rendered event has its id; otherwise it is cleared |
| Filters.RenderedSelection | eventbuddy.js:699-746 | the selection survives rendering iff some event with its id passes the filters |
| Persistence.ParticipantToRecord | eventbuddy.js:60-65 | a saved participant keeps id, name and email, and has `avatar ?? ""` |
| Persistence.EventToRecord | eventbuddy.js:66-76 | a saved event keeps all eight fields, has both id lists, and `invitations ?? {}` |
| Persistence.SaveAll | eventbuddy.js:58-81 | the record holds all tags, and at each position the saved form of the participant and of the event there |
| Persistence.EventFromRecord | eventbuddy.js:44-50 | a loaded event keeps every field; missing lists load as `[]`; missing invitations as `{}` |
| Persistence.LoadData | eventbuddy.js:38-50 | missing collections load as empty; the events are the records loaded one by one, in order, each with an invitation map |
| Persistence.SaveAllIsComplete | eventbuddy.js:58-81 | the record lacks no key |
| Persistence.LoadAfterSave | eventbuddy.js:32-81 | loading what was saved gives a normalized dataset back |
| Persistence.SaveAfterLoad | eventbuddy.js:32-81 | saving what was loaded from a complete record writes that record |
| Persistence.LoadAfterSaveIff | eventbuddy.js:32-81 | save-then-load is the identity exactly on normalized datasets |
| Persistence.SaveLoadSaveStable | eventbuddy.js:32-81 | a second save writes what the first wrote |
| Persistence.NumberedTagIds | eventbuddy.js:991-996 | in a tag list numbered 1, 2, 3, ... every id up to its length names a tag |
| Persistence.NumberedParticipantIds | eventbuddy.js:998-1002 | the same for the seeded participants |
| Persistence.SeedEvent101 | eventbuddy.js:1005-1018 | seeded event 101 has an invitation for each of its participants and no other, and names existing tags and participants |
| Persistence.SeedEvent102 | eventbuddy.js:1020-1033 | the same for event 102 |
| Persistence.SeedEvent103 | eventbuddy.js:1035-1049 | the same for event 103 |
| Persistence.SeedData | eventbuddy.js:990-1052 | 4 tags, 3 participants, 3 events; every reference is valid; each event's invitation keys are exactly its participants; tag names and ids, and participant emails and ids, are unique |
| Persistence.SeedKeysDistinct | eventbuddy.js:991-1002 | the seeded tags have different names and ids, the seeded participants different emails and ids |
| Persistence.ReplaceParticipantExample | eventbuddy.js:313-338 | changing an event's participants from [1,2] to [1,3] drops the invitation of 2, keeps that of 1 and gives 3 a mail addressed to participant 3 |
| Persistence.SeedParticipantThree | eventbuddy.js:998-1002 | the seeded participant with id 3 is the third one, Lena Berger |
| Persistence.SeedEventUpdateExample | eventbuddy.js:313-338 | changing seeded event 101's participants from [1,2] to [1,3] drops 2, keeps 1 as it was and invites Lena Berger |
| EventBuddyApp.PlacedShape | eventbuddy.js:340-374 | a new event is prepended; an edited one overwrites the first event with its id; nothing else moves |
| EventBuddyApp.BuildSavedEntry | eventbuddy.js:313-369 | the entry is the form's event under the saved id, with the reconciled invitations |
| EventBuddyApp.SavedEntryCovered | eventbuddy.js:313-369 | the saved entry's invitation keys lie among its participant ids when the edited event's did |
| EventBuddyApp.PlacedKeepsCovered | eventbuddy.js:340-374 | placing a covered entry keeps every event's keys among its participants |
| EventBuddyApp.PlacedKeepsRefs | eventbuddy.js:340-374 | placing an entry whose ids name existing tags and participants keeps the references valid |
| EventBuddyApp.TagDeletionKeepsInvariants | eventbuddy.js:446-462 | tag deletion keeps the three reference invariants and unique tag names and ids |
| EventBuddyApp.ParticipantDeletionKeepsInvariants | eventbuddy.js:575-594 | participant deletion keeps the three reference invariants and unique emails and participant ids |
| EventBuddyApp.EventBuddy.constructor | eventbuddy.js:6-12 | all collections empty, no selection, no user |
| EventBuddyApp.EventBuddy.Snapshot | eventbuddy.js:58-81 | the saved record is complete; loading it restores the state iff the state is normalized |
| EventBuddyApp.EventBuddy.EventToEdit | eventbuddy.js:166-170 | the edit button opens an event iff one is selected and exists; it is the first event with the selected id |
| EventBuddyApp.EventBuddy.LoadAll | eventbuddy.js:32-56 | the stored user becomes current; the stored record is loaded, or the seed when there is none |
| EventBuddyApp.EventBuddy.SelectEvent | eventbuddy.js:654-655 | the clicked id becomes the selection |
| EventBuddyApp.EventBuddy.RenderEventList | eventbuddy.js:737-746 | the selection is cleared iff no event with its id passes the filters |
| EventBuddyApp.EventBuddy.SaveEvent | eventbuddy.js:296-380 | an invalid form changes nothing; otherwise the entry is placed and reconciled, and stays selected iff it passes the filters; invitation keys stay covered; references stay valid when the form's ids name existing entities |
| EventBuddyApp.EventBuddy.StoreEvent | eventbuddy.js:296-374 | saves iff the form is valid; the saved entry is placed and selected; the same invariants as `SaveEvent` |
| EventBuddyApp.EventBuddy.PlaceEvent | eventbuddy.js:340-374 | the list becomes `Placed(...)` with the entry at the saved index, and the saved id is selected |
| EventBuddyApp.EventBuddy.DeleteSelectedEvent | eventbuddy.js:173-187 | needs a selection and a confirmation; then removes every event with the selected id and clears the selection; the three reference invariants are kept |
| EventBuddyApp.EventBuddy.AddTag | eventbuddy.js:429-444 | skips a blank name; refuses a name taken ignoring case; otherwise appends the trimmed name; names stay unique and references valid |
| EventBuddyApp.EventBuddy.EditTag | eventbuddy.js:475-502 | skips an unknown id, a cancel or a blank name; refuses a name another tag has; otherwise renames in place; names and ids stay unique, references valid |
| EventBuddyApp.EventBuddy.DeleteTag | eventbuddy.js:446-472 | once confirmed, removes the tag and strips it from every event; the re-render sees the tag and participant selects on "all"; the invariants are kept |
| EventBuddyApp.EventBuddy.AddParticipant | eventbuddy.js:557-573 | skips a blank name or email; refuses a taken email; otherwise appends the trimmed participant with its email lower-cased; emails stay unique, references valid |
| EventBuddyApp.EventBuddy.EditParticipant | eventbuddy.js:607-644 | skips an unknown id or any cancelled prompt; refuses an email another participant has; otherwise replaces in place; emails and ids stay unique, references valid |
| EventBuddyApp.EventBuddy.DeleteParticipant | eventbuddy.js:575-605 | once confirmed, removes the participant from the list, every event and every invitation map, re-rendering with the filters as they were; the invariants are kept |

## Left out

- The DOM, dialogs, rendering of details and lists (`#fillDetail`, `#renderFilters`, `#fillSelect`) and HTML escaping (`#esc`) are presentation. They change no engine state.
- JSON and `localStorage` are left out. `#saveAll` is modelled as the record it would write, and `#loadAll` takes the stored record (or its absence) as a parameter.
- Login, logout and `#ensureAuth` are left out; the current user is a field set by `LoadAll`.
- `#formatDateTime` (a locale-dependent `toLocaleString`) is the parameter `format`. `#toDatetimeLocal` only fills the form, so it is left out.
- Clocks are parameters: `Date.now()` ids are `newId` and `new Date().toISOString()` is `sentAt`/`now`. One save uses one `sentAt` for all its invitations; the source reads the clock once per invitation.
- `Math.random()` is the stream `draws`.
- Invitations.IssueInvitations: states that each fresh status is drawn from some value of `draws`, not that it is the next unused one; the source consumes the values in order.
- Invitations.ReconcileInvitations: the same weakening, inherited from `IssueInvitations`.
- Id uniqueness is not established by the add handlers, whose ids come from the clock (`newId`). The deletions keep it, and the edit handlers promise unique names and emails only when it holds.
- JsText.ToLower: lower-cases the ASCII capitals only; the source's `toLowerCase` also maps other alphabets. String length is counted in code points, not UTF-16 units; this matters only for `NormalizeDatetime`'s 16-character test on non-ASCII input.
- Tag and Participant come from tag.js and participant.js, which are not part of this model. They are represented by the fields the engine reads.
- EventBuddyApp.EventBuddy.SaveEvent: requires the edited event to be in the list, as the edit dialog only opens for a listed event. The source's write to index -1 in the other case is modelled in `Placed` but not reached.
- The `ev.participantIds ?? []` fallbacks are not separate cases: `EventItem` always yields arrays.
