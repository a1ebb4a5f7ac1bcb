/** The incident store and the list view's pipeline of src/App.tsx: the
    severity, tag and search predicates combined with AND, the stable sort on
    the reported-at time, the de-duplicated tag registry, and the append-only
    `addIncident`. */
module App {
  import opened Optional
  import opened Seqs
  import opened Text

  /** One reported incident. `reportedAt` is the reported-at time in
      milliseconds since the epoch; `tags` may be absent. */
  datatype Incident = Incident(
    id: int,
    title: string,
    description: string,
    severity: string,
    reportedAt: int,
    tags: Option<seq<string>>)

  /** The tags of an incident, an absent list read as empty (`incident.tags || []`). */
  function TagsOf(i: Incident): seq<string> {
    i.tags.GetOr([])
  }

  // ---------------------------------------------------------------------------
  // The store
  // ---------------------------------------------------------------------------

  /** `addIncident`: the new incident goes at the end of the store. */
  function AddIncident(incidents: seq<Incident>, incident: Incident): (r: seq<Incident>)
    ensures |r| == |incidents| + 1
    ensures r[..|incidents|] == incidents && r[|incidents|] == incident
  {
    incidents + [incident]
  }

  // ---------------------------------------------------------------------------
  // Filtering
  // ---------------------------------------------------------------------------

  /** The severity-filter option that disables the severity check. */
  const ALL_SEVERITIES: string := "All"

  /** The two sort options; the comparator only tests for the first. */
  const NEWEST_FIRST: string := "Newest First"
  const OLDEST_FIRST: string := "Oldest First"

  /** The list view's filter controls, as the strings the controls hold. */
  datatype FilterState = FilterState(
    severity: string,
    tags: seq<string>,
    query: string,
    order: string)

  predicate SeverityMatches(filter: string, i: Incident) {
    filter == ALL_SEVERITIES || i.severity == filter
  }

  /** `tagFilter.every(tag => incident.tags?.includes(tag) ?? false)`, guarded
      by the empty-filter test. */
  predicate TagsMatch(filter: seq<string>, i: Incident) {
    |filter| == 0 ||
    forall k :: 0 <= k < |filter| ==>
      match i.tags
      case Some(ts) => filter[k] in ts
      case None => false
  }

  predicate SearchMatches(query: string, i: Incident) {
    query == "" ||
    Contains(ToLower(i.title), ToLower(query)) ||
    Contains(ToLower(i.description), ToLower(query))
  }

  predicate Matches(f: FilterState, i: Incident) {
    SeverityMatches(f.severity, i) && TagsMatch(f.tags, i) && SearchMatches(f.query, i)
  }

  /** `filteredIncidents`. */
  function FilterIncidents(incidents: seq<Incident>, f: FilterState): (r: seq<Incident>)
    ensures IsSubseq(r, incidents)
    ensures forall i {:trigger i in r} :: i in r <==> i in incidents && Matches(f, i)
    ensures forall i :: multiset(r)[i] == if Matches(f, i) then multiset(incidents)[i] else 0
  {
    var keep := (i: Incident) => Matches(f, i);
    FilterIsSubseq(incidents, keep);
    FilterMultiset(incidents, keep);
    Filter(incidents, keep)
  }

  /** The combined filter is the three filters applied one after another. */
  lemma FilterIsConjunction(incidents: seq<Incident>, f: FilterState)
    ensures FilterIncidents(incidents, f) ==
      Filter(Filter(Filter(incidents, i => SeverityMatches(f.severity, i)),
                    i => TagsMatch(f.tags, i)),
             i => SearchMatches(f.query, i))
  {
    var sev := (i: Incident) => SeverityMatches(f.severity, i);
    var tag := (i: Incident) => TagsMatch(f.tags, i);
    var search := (i: Incident) => SearchMatches(f.query, i);
    var sevTag := (i: Incident) => SeverityMatches(f.severity, i) && TagsMatch(f.tags, i);
    FilterFilter(incidents, sev, tag, sevTag);
    FilterFilter(incidents, sevTag, search, i => Matches(f, i));
  }

  /** With "All" every incident passes the severity check; any other filter
      keeps exactly the incidents of that severity. */
  lemma SeverityFilterSemantics(incidents: seq<Incident>, f: FilterState)
    ensures f.severity == ALL_SEVERITIES ==>
      FilterIncidents(incidents, f) == Filter(incidents, i => TagsMatch(f.tags, i) && SearchMatches(f.query, i))
    ensures f.severity != ALL_SEVERITIES ==>
      forall i :: i in FilterIncidents(incidents, f) ==> i.severity == f.severity
  {
    if f.severity == ALL_SEVERITIES {
      FilterExt(incidents, i => Matches(f, i), i => TagsMatch(f.tags, i) && SearchMatches(f.query, i));
    }
  }

  /** The tag filter has AND semantics: an incident passes exactly when it
      carries every selected tag, so an untagged incident fails any non-empty
      filter and the empty filter passes everything. */
  lemma TagsMatchIff(filter: seq<string>, i: Incident)
    ensures TagsMatch(filter, i) <==> forall t :: t in filter ==> t in TagsOf(i)
  {
    match i.tags
    case Some(ts) =>
      if TagsMatch(filter, i) {
        forall t | t in filter ensures t in ts {
          var k :| 0 <= k < |filter| && filter[k] == t;
        }
      } else {
        var k :| 0 <= k < |filter| && filter[k] !in ts;
        assert filter[k] in filter;
      }
    case None =>
      if |filter| > 0 {
        assert filter[0] in filter;
      }
  }

  /** Selecting one more tag can only narrow the result. */
  lemma MoreTagsNarrow(incidents: seq<Incident>, f: FilterState, tag: string)
    ensures IsSubseq(FilterIncidents(incidents, f.(tags := f.tags + [tag])), FilterIncidents(incidents, f))
  {
    var g := f.(tags := f.tags + [tag]);
    forall i | i in incidents && Matches(g, i) ensures Matches(f, i) {
      TagsMatchIff(g.tags, i);
      TagsMatchIff(f.tags, i);
    }
    FilterStronger(incidents, i => Matches(g, i), i => Matches(f, i));
  }

  /** Case folding one character twice is folding it once. */
  lemma LowerCharIdempotent(c: char)
    ensures LowerChar(LowerChar(c)) == LowerChar(c)
  {
  }

  /** The search ignores the case of the query, and its empty-query guard
      agrees with plain substring search, since every string contains "". */
  lemma SearchSemantics(query: string, i: Incident)
    ensures SearchMatches(query, i) == SearchMatches(ToLower(query), i)
    ensures SearchMatches(query, i) <==>
      Contains(ToLower(i.title), ToLower(query)) || Contains(ToLower(i.description), ToLower(query))
  {
    assert ToLower(ToLower(query)) == ToLower(query) by {
      forall k | 0 <= k < |query| ensures ToLower(ToLower(query))[k] == ToLower(query)[k] {
        LowerCharIdempotent(query[k]);
      }
    }
    ContainsEmpty(ToLower(i.title));
  }

  /** Adding an incident adds it to the filtered list exactly when it matches. */
  lemma AddIncidentFiltered(incidents: seq<Incident>, incident: Incident, f: FilterState)
    ensures FilterIncidents(AddIncident(incidents, incident), f) ==
      FilterIncidents(incidents, f) + (if Matches(f, incident) then [incident] else [])
  {
    FilterAppend(incidents, [incident], i => Matches(f, i));
  }

  // ---------------------------------------------------------------------------
  // Sorting
  // ---------------------------------------------------------------------------

  /** The sort key: ascending key order is the requested time order. */
  function SortKey(order: string): Incident -> int {
    if order == NEWEST_FIRST then (i: Incident) => -i.reportedAt else (i: Incident) => i.reportedAt
  }

  /** `sortedIncidents`: the comparator `dateB - dateA` for "Newest First" and
      `dateA - dateB` otherwise, under JavaScript's stable sort. */
  function SortIncidents(incidents: seq<Incident>, order: string): (r: seq<Incident>)
    ensures multiset(r) == multiset(incidents)
    ensures order == NEWEST_FIRST ==>
      forall a, b :: 0 <= a < b < |r| ==> r[a].reportedAt >= r[b].reportedAt
    ensures order != NEWEST_FIRST ==>
      forall a, b :: 0 <= a < b < |r| ==> r[a].reportedAt <= r[b].reportedAt
  {
    var r := SortBy(incidents, SortKey(order));
    assert forall a, b :: 0 <= a < b < |r| ==> SortKey(order)(r[a]) <= SortKey(order)(r[b]);
    r
  }

  /** The incidents reported at time `t`, in list order. */
  function AtTime(incidents: seq<Incident>, t: int): seq<Incident> {
    WithKey(incidents, ReportedAt, t)
  }

  function ReportedAt(i: Incident): int {
    i.reportedAt
  }

  /** Selecting the incidents at time `t` is selecting those of one sort key. */
  lemma AtTimeIsWithKey(incidents: seq<Incident>, order: string, t: int)
    ensures AtTime(incidents, t) == WithKey(incidents, SortKey(order), if order == NEWEST_FIRST then -t else t)
  {
    WithKeyExt(incidents, ReportedAt, t, SortKey(order), if order == NEWEST_FIRST then -t else t);
  }

  /** Ties keep their input order: the incidents sharing a reported-at time
      appear in the sorted list in the order they had before. */
  lemma SortIncidentsStable(incidents: seq<Incident>, order: string, t: int)
    ensures AtTime(SortIncidents(incidents, order), t) == AtTime(incidents, t)
  {
    var key := SortKey(order);
    var k := if order == NEWEST_FIRST then -t else t;
    SortByStable(incidents, key, k);
    AtTimeIsWithKey(SortBy(incidents, key), order, t);
    AtTimeIsWithKey(incidents, order, t);
  }

  /** No two positions of the list carry the same reported-at time. */
  predicate DistinctTimes(incidents: seq<Incident>) {
    forall a, b :: 0 <= a < b < |incidents| ==> incidents[a].reportedAt != incidents[b].reportedAt
  }

  /** A list sorted under one order, with distinct times, strictly increases in
      that order's key. */
  lemma SortedStrictly(incidents: seq<Incident>, order: string)
    requires DistinctTimes(incidents)
    ensures StrictlySortedBy(SortIncidents(incidents, order), SortKey(order))
  {
    var key := SortKey(order);
    assert KeysDistinct(incidents, key);
    var r := SortIncidents(incidents, order);
    KeysDistinctPermutation(incidents, r, key);
  }

  /** Reversing a list strictly increasing in time makes it strictly
      increasing in the newest-first key. */
  lemma ReverseOldestIsNewest(o: seq<Incident>)
    requires StrictlySortedBy(o, SortKey(OLDEST_FIRST))
    ensures StrictlySortedBy(Reverse(o), SortKey(NEWEST_FIRST))
  {
    var ro := Reverse(o);
    forall a, b | 0 <= a < b < |ro| ensures SortKey(NEWEST_FIRST)(ro[a]) < SortKey(NEWEST_FIRST)(ro[b]) {
      assert ro[a] == o[|o| - 1 - a] && ro[b] == o[|o| - 1 - b];
      assert SortKey(OLDEST_FIRST)(o[|o| - 1 - b]) < SortKey(OLDEST_FIRST)(o[|o| - 1 - a]);
    }
  }

  /** With distinct times, "Newest First" is exactly "Oldest First" reversed. */
  lemma SortOrdersAreReverses(incidents: seq<Incident>)
    requires DistinctTimes(incidents)
    ensures SortIncidents(incidents, NEWEST_FIRST) == Reverse(SortIncidents(incidents, OLDEST_FIRST))
  {
    var n, o := SortIncidents(incidents, NEWEST_FIRST), SortIncidents(incidents, OLDEST_FIRST);
    SortedStrictly(incidents, NEWEST_FIRST);
    SortedStrictly(incidents, OLDEST_FIRST);
    ReverseOldestIsNewest(o);
    StrictlySortedUnique(n, Reverse(o), SortKey(NEWEST_FIRST));
  }

  /** The list the view shows: the filtered incidents in the chosen order. */
  function VisibleIncidents(incidents: seq<Incident>, f: FilterState): (r: seq<Incident>)
    ensures forall i {:trigger i in r} :: i in r <==> i in incidents && Matches(f, i)
    ensures multiset(r) == multiset(FilterIncidents(incidents, f))
    ensures f.order == NEWEST_FIRST ==>
      forall a, b :: 0 <= a < b < |r| ==> r[a].reportedAt >= r[b].reportedAt
    ensures f.order != NEWEST_FIRST ==>
      forall a, b :: 0 <= a < b < |r| ==> r[a].reportedAt <= r[b].reportedAt
  {
    var r := SortIncidents(FilterIncidents(incidents, f), f.order);
    assert forall i :: i in r <==> i in multiset(r);
    r
  }

  // ---------------------------------------------------------------------------
  // The tag registry
  // ---------------------------------------------------------------------------

  /** `incidents.flatMap(incident => incident.tags || [])`. */
  function FlatTags(incidents: seq<Incident>): (r: seq<string>)
    ensures forall t :: t in r <==> exists k :: 0 <= k < |incidents| && t in TagsOf(incidents[k])
  {
    if |incidents| == 0 then []
    else
      var rest := FlatTags(incidents[1..]);
      assert forall k :: 0 < k < |incidents| ==> incidents[k] == incidents[1..][k - 1];
      TagsOf(incidents[0]) + rest
  }

  lemma {:induction false} FlatTagsAppend(a: seq<Incident>, b: seq<Incident>)
    ensures FlatTags(a + b) == FlatTags(a) + FlatTags(b)
    decreases |a|
  {
    if |a| == 0 {
      assert a + b == b;
    } else {
      assert (a + b)[1..] == a[1..] + b;
      FlatTagsAppend(a[1..], b);
    }
  }

  /** `allTags`: the distinct tags in use, in the order first seen. */
  function AllTags(incidents: seq<Incident>): (r: seq<string>)
    ensures NoDuplicates(r)
    ensures forall t :: t in r <==> t in FlatTags(incidents)
    ensures forall t :: t in r <==> exists k :: 0 <= k < |incidents| && t in TagsOf(incidents[k])
    ensures forall a, b :: 0 <= a < b < |r| ==>
      IndexOf(FlatTags(incidents), r[a]) < IndexOf(FlatTags(incidents), r[b])
  {
    DedupFirstSeen(FlatTags(incidents));
    Dedup(FlatTags(incidents))
  }

  /** Adding an incident keeps the registry's existing entries in place and
      registers every tag of the new incident. */
  lemma AddIncidentRegistry(incidents: seq<Incident>, incident: Incident)
    ensures var before, after := AllTags(incidents), AllTags(AddIncident(incidents, incident));
      |before| <= |after| && after[..|before|] == before &&
      forall t :: t in after <==> t in before || t in TagsOf(incident)
  {
    FlatTagsAppend(incidents, [incident]);
    assert [incident][1..] == [];
    assert FlatTags([incident]) == TagsOf(incident);
    assert FlatTags(AddIncident(incidents, incident)) == FlatTags(incidents) + TagsOf(incident);
    DedupAppend(FlatTags(incidents), TagsOf(incident));
  }
}
