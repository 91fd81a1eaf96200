/**
 * `#applyFilters` and the selection rule of `#renderEventList`. The four
 * values the source reads from the page (status select, tag select,
 * participant select, search box) are the fields of a FilterValues.
 */
module Filters {
  import opened Wrappers
  import opened Seqs
  import opened JsText
  import opened Entities

  /**
   * `status` is the status select's value ("all", "planned", "done"); `tag` and
   * `participant` are the selected ids, absent for "all"; `query` is the raw
   * search text.
   */
  datatype FilterValues = FilterValues(status: string, tag: Option<int>, participant: Option<int>, query: string)

  predicate StatusTest(e: EventEntry, f: FilterValues) {
    f.status == "all" || e.item.status == f.status
  }

  predicate TagTest(e: EventEntry, f: FilterValues) {
    f.tag.None? || f.tag.value in e.item.tagIds
  }

  predicate ParticipantTest(e: EventEntry, f: FilterValues) {
    f.participant.None? || f.participant.value in e.item.participantIds
  }

  /** The text the search looks in: title, location and description, space-joined. */
  function Haystack(e: EventEntry): string {
    e.item.title + " " + e.item.location + " " + e.item.description
  }

  /** A blank query matches everything; otherwise its lower-cased trim must occur in the lower-cased haystack. */
  predicate TextTest(e: EventEntry, f: FilterValues) {
    var q := ToLower(Trim(f.query));
    q == "" || Includes(ToLower(Haystack(e)), q)
  }

  /**
   * The predicate `events.filter` is called with: an event passes only with
   * the selected status, tag and participant, and every event passes when
   * the selects are on "all" and the query is blank.
   */
  predicate Matches(e: EventEntry, f: FilterValues): (ok: bool)
    ensures ok ==> f.status == "all" || e.item.status == f.status
    ensures ok ==> f.tag.None? || f.tag.value in e.item.tagIds
    ensures ok ==> f.participant.None? || f.participant.value in e.item.participantIds
    ensures f.status == "all" && f.tag.None? && f.participant.None? && Trim(f.query) == "" ==> ok
  {
    StatusTest(e, f) && TagTest(e, f) && ParticipantTest(e, f) && TextTest(e, f)
  }

  /**
   * The search test agrees with `includes`: skipping a blank query gives the
   * same answer as searching the haystack for the empty string.
   */
  lemma TextTestIsIncludes(e: EventEntry, f: FilterValues)
    ensures TextTest(e, f) <==> Includes(ToLower(Haystack(e)), ToLower(Trim(f.query)))
  {
  }

  /** `#applyFilters(events)`: the events passing all four tests, in their order. */
  function ApplyFilters(events: seq<EventEntry>, f: FilterValues): (r: seq<EventEntry>)
    ensures |r| <= |events|
    ensures forall i :: 0 <= i < |r| ==>
      r[i] in events && StatusTest(r[i], f) && TagTest(r[i], f) && ParticipantTest(r[i], f) && TextTest(r[i], f)
    ensures forall i :: 0 <= i < |events| && Matches(events[i], f) ==> events[i] in r
  {
    Keep(events, (e: EventEntry) => Matches(e, f))
  }

  /** Filtering is stable: the result for a concatenation is the concatenation of the results. */
  lemma ApplyFiltersAppend(a: seq<EventEntry>, b: seq<EventEntry>, f: FilterValues)
    ensures ApplyFilters(a + b, f) == ApplyFilters(a, f) + ApplyFilters(b, f)
  {
    KeepAppend(a, b, (e: EventEntry) => Matches(e, f));
  }

  /** Applying the same filter again changes nothing. */
  lemma ApplyFiltersIdempotent(events: seq<EventEntry>, f: FilterValues)
    ensures ApplyFilters(ApplyFilters(events, f), f) == ApplyFilters(events, f)
  {
    KeepIdempotent(events, (e: EventEntry) => Matches(e, f));
  }

  /**
   * With status, tag and participant on "all" and a query that is blank after
   * trimming, the whole list comes back in its order.
   */
  lemma ApplyFiltersNeutral(events: seq<EventEntry>, f: FilterValues)
    requires f.status == "all" && f.tag.None? && f.participant.None?
    requires Trim(f.query) == ""
    ensures ApplyFilters(events, f) == events
  {
    KeepAllPass(events, (e: EventEntry) => Matches(e, f));
  }

  /** Whether the list rendered for `f` shows an event with id `id`. */
  ghost predicate Listed(events: seq<EventEntry>, id: int, f: FilterValues) {
    exists i :: 0 <= i < |events| && events[i].item.id == id && Matches(events[i], f)
  }

  /**
   * The selection after rendering `filtered`: kept when some listed event has
   * the selected id, cleared otherwise.
   */
  function VisibleSelection(selected: Option<int>, filtered: seq<EventEntry>): (r: Option<int>)
    ensures r.Some? ==> r == selected
    ensures r == selected <==> selected.None? || exists i :: 0 <= i < |filtered| && filtered[i].item.id == selected.value
  {
    if selected.Some? && IndexWhere(filtered, (e: EventEntry) => e.item.id == selected.value) < 0 then None
    else selected
  }

  /**
   * The selection rule of `#renderEventList` in terms of the events: the
   * selection survives exactly when some event with its id passes the filters.
   */
  lemma RenderedSelection(selected: Option<int>, events: seq<EventEntry>, f: FilterValues)
    ensures VisibleSelection(selected, ApplyFilters(events, f)) ==
      if selected.Some? && !Listed(events, selected.value, f) then None else selected
  {
    if selected.Some? {
      KeepSome(events, (e: EventEntry) => Matches(e, f), (e: EventEntry) => e.item.id == selected.value);
    }
  }
}
