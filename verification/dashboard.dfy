/** The dashboard's statistics of src/Dashboard.tsx: counts per severity, the
    30-day count, the most recent reported-at time, and the top-5 tag
    distribution. */
module Dashboard {
  import opened Optional
  import opened Seqs
  import opened App

  // ---------------------------------------------------------------------------
  // Counts
  // ---------------------------------------------------------------------------

  /** The severity test `i => i.severity === level`. */
  function HasSeverity(level: string): Incident -> bool {
    (i: Incident) => i.severity == level
  }

  /** `incidents.filter(i => i.severity === level).length`. */
  function SeverityCount(incidents: seq<Incident>, level: string): (r: nat)
    ensures r <= |incidents|
    ensures r == 0 <==> forall i :: i in incidents ==> i.severity != level
  {
    var matching := Filter(incidents, HasSeverity(level));
    FilterKeepsNone(incidents, HasSeverity(level));
    if forall i :: i in incidents ==> i.severity != level then
      |matching|
    else
      var j :| j in incidents && j.severity == level;
      assert j in matching;
      |matching|
  }

  /** The count of a level over a list split in two is the sum of the parts'
      counts. */
  lemma SeverityCountAppend(a: seq<Incident>, b: seq<Incident>, level: string)
    ensures SeverityCount(a + b, level) == SeverityCount(a, level) + SeverityCount(b, level)
  {
    FilterAppend(a, b, HasSeverity(level));
  }

  /** One incident counts once for its own severity and not at all for any
      other; with `SeverityCountAppend` this fixes the count of every list. */
  lemma SeverityCountSingle(i: Incident, level: string)
    ensures SeverityCount([i], level) == if i.severity == level then 1 else 0
  {
    assert [i][1..] == [];
  }

  /** Severity is a free string: the three named levels. */
  predicate KnownSeverity(i: Incident) {
    i.severity == "Low" || i.severity == "Medium" || i.severity == "High"
  }

  /** The three severity counts never exceed the total, and they add up to it
      when every incident carries one of the three named levels. */
  lemma SeverityCountsPartition(incidents: seq<Incident>)
    ensures SeverityCount(incidents, "Low") + SeverityCount(incidents, "Medium")
      + SeverityCount(incidents, "High") <= |incidents|
    ensures (forall i :: i in incidents ==> KnownSeverity(i)) ==>
      SeverityCount(incidents, "Low") + SeverityCount(incidents, "Medium")
        + SeverityCount(incidents, "High") == |incidents|
  {
    var lowMedium := (i: Incident) => i.severity == "Low" || i.severity == "Medium";
    FilterDisjointUnion(incidents, HasSeverity("Low"), HasSeverity("Medium"), lowMedium);
    FilterDisjointUnion(incidents, lowMedium, HasSeverity("High"), KnownSeverity);
    if forall i :: i in incidents ==> KnownSeverity(i) {
      FilterKeepsAll(incidents, KnownSeverity);
    }
  }

  /** Milliseconds in a day. */
  const DAY_MS: int := 24 * 60 * 60 * 1000

  /** The start of the 30-day window ending at `now`. */
  function ThirtyDaysBefore(now: int): int {
    now - 30 * DAY_MS
  }

  /** The window test `incidentDate >= thirtyDaysAgo`. */
  function InWindow(now: int): Incident -> bool {
    (i: Incident) => i.reportedAt >= ThirtyDaysBefore(now)
  }

  /** `last30Days`: incidents reported at or after the window's start. */
  function Last30Days(incidents: seq<Incident>, now: int): (r: nat)
    ensures r <= |incidents|
    ensures r == |incidents| <==> forall i :: i in incidents ==> i.reportedAt >= ThirtyDaysBefore(now)
  {
    var recent := Filter(incidents, InWindow(now));
    FilterKeepsAll(incidents, InWindow(now));
    if forall i :: i in incidents ==> i.reportedAt >= ThirtyDaysBefore(now) then
      |recent|
    else
      var j :| j in incidents && j.reportedAt < ThirtyDaysBefore(now);
      FilterShorter(incidents, InWindow(now), j);
      |recent|
  }

  /** The 30-day count of a list split in two is the sum of the parts' counts. */
  lemma Last30DaysAppend(a: seq<Incident>, b: seq<Incident>, now: int)
    ensures Last30Days(a + b, now) == Last30Days(a, now) + Last30Days(b, now)
  {
    FilterAppend(a, b, InWindow(now));
  }

  /** One incident counts once when reported at or after the window's start,
      and not at all otherwise; with `Last30DaysAppend` this fixes the count
      of every list. */
  lemma Last30DaysSingle(i: Incident, now: int)
    ensures Last30Days([i], now) == if i.reportedAt >= ThirtyDaysBefore(now) then 1 else 0
  {
    assert [i][1..] == [];
  }

  /** `Math.max` over the reported-at times. */
  function MaxReportedAt(incidents: seq<Incident>): (r: int)
    requires |incidents| > 0
    ensures forall k :: 0 <= k < |incidents| ==> incidents[k].reportedAt <= r
    ensures exists k :: 0 <= k < |incidents| && incidents[k].reportedAt == r
  {
    if |incidents| == 1 then incidents[0].reportedAt
    else
      var m := MaxReportedAt(incidents[1..]);
      assert forall k :: 1 <= k < |incidents| ==> incidents[k] == incidents[1..][k - 1];
      if incidents[0].reportedAt >= m then incidents[0].reportedAt else m
  }

  /** `mostRecentDate`: absent for an empty list, otherwise the latest time. */
  function MostRecent(incidents: seq<Incident>): (r: Option<int>)
    ensures r.None? <==> |incidents| == 0
    ensures r.Some? ==> forall i :: i in incidents ==> i.reportedAt <= r.value
    ensures r.Some? ==> exists i :: i in incidents && i.reportedAt == r.value
  {
    if |incidents| > 0 then Some(MaxReportedAt(incidents)) else None
  }

  /** The stats cards' numbers. */
  datatype Summary = Summary(
    total: nat,
    high: nat,
    medium: nat,
    low: nat,
    last30Days: nat,
    mostRecent: Option<int>)

  function Summarize(incidents: seq<Incident>, now: int): (r: Summary)
    ensures r.total == |incidents|
    ensures r.high == SeverityCount(incidents, "High")
    ensures r.medium == SeverityCount(incidents, "Medium")
    ensures r.low == SeverityCount(incidents, "Low")
    ensures r.last30Days == Last30Days(incidents, now)
    ensures r.mostRecent == MostRecent(incidents)
    ensures r.low + r.medium + r.high <= r.total
    ensures (forall i :: i in incidents ==> KnownSeverity(i)) ==> r.low + r.medium + r.high == r.total
    ensures r.last30Days <= r.total
    ensures r.mostRecent.None? <==> r.total == 0
  {
    SeverityCountsPartition(incidents);
    Summary(
      |incidents|,
      SeverityCount(incidents, "High"),
      SeverityCount(incidents, "Medium"),
      SeverityCount(incidents, "Low"),
      Last30Days(incidents, now),
      MostRecent(incidents))
  }

  // ---------------------------------------------------------------------------
  // Tag distribution
  // ---------------------------------------------------------------------------

  /** How often `tag` occurs across the incidents' tag lists. */
  function Occurrences(incidents: seq<Incident>, tag: string): nat {
    if |incidents| == 0 then 0
    else multiset(TagsOf(incidents[0]))[tag] + Occurrences(incidents[1..], tag)
  }

  lemma {:induction false} OccurrencesFlat(incidents: seq<Incident>, tag: string)
    ensures Occurrences(incidents, tag) == multiset(FlatTags(incidents))[tag]
    decreases |incidents|
  {
    if |incidents| > 0 {
      OccurrencesFlat(incidents[1..], tag);
    }
  }

  /** A count read from the tally, 0 when the tag has none (`tagCounts[tag] || 0`). */
  function Get(m: map<string, nat>, tag: string): nat {
    if tag in m then m[tag] else 0
  }

  /** The inner `forEach`: one increment per tag of the list. */
  function TallyTags(m: map<string, nat>, tags: seq<string>): (r: map<string, nat>)
    ensures forall t :: Get(r, t) == Get(m, t) + multiset(tags)[t]
    ensures forall t :: t in r <==> t in m || t in tags
    decreases |tags|
  {
    if |tags| == 0 then m
    else
      assert tags == [tags[0]] + tags[1..];
      TallyTags(m[tags[0] := Get(m, tags[0]) + 1], tags[1..])
  }

  /** The outer `forEach`: every incident's tags, incidents in list order. */
  function TallyIncidents(m: map<string, nat>, incidents: seq<Incident>): (r: map<string, nat>)
    ensures forall t :: Get(r, t) == Get(m, t) + Occurrences(incidents, t)
    ensures forall t :: t in r <==> t in m || t in FlatTags(incidents)
    decreases |incidents|
  {
    if |incidents| == 0 then m
    else TallyIncidents(TallyTags(m, TagsOf(incidents[0])), incidents[1..])
  }

  /** `tagCounts` after both loops. */
  function TagCounts(incidents: seq<Incident>): (r: map<string, nat>)
    ensures forall t :: t in r <==> t in FlatTags(incidents)
    ensures forall t :: t in r ==> r[t] == Occurrences(incidents, t)
  {
    TallyIncidents(map[], incidents)
  }

  /** One `{ name, value }` entry of the distribution. */
  datatype TagCount = TagCount(name: string, count: nat)

  /** The sort key of `(a, b) => b.value - a.value`: larger counts first. */
  function ByCountDescending(e: TagCount): int {
    -(e.count as int)
  }

  /** `Object.entries(tagCounts)` as `{ name, value }` records, one per name. */
  function Entries(names: seq<string>, counts: map<string, nat>): (r: seq<TagCount>)
    requires forall t :: t in names ==> t in counts
    ensures |r| == |names|
    ensures forall k :: 0 <= k < |r| ==> r[k] == TagCount(names[k], counts[names[k]])
  {
    if |names| == 0 then [] else [TagCount(names[0], counts[names[0]])] + Entries(names[1..], counts)
  }

  /** The tag entries before sorting, keys in first-seen order. */
  function TagEntries(incidents: seq<Incident>): seq<TagCount> {
    Entries(Dedup(FlatTags(incidents)), TagCounts(incidents))
  }

  /** An entry is listed exactly when its name is and its count is the tally's. */
  lemma EntriesMembers(names: seq<string>, counts: map<string, nat>)
    requires forall t :: t in names ==> t in counts
    ensures forall e :: e in Entries(names, counts) <==> e.name in names && e.count == counts[e.name]
  {
    var r := Entries(names, counts);
    forall e: TagCount | e.name in names && e.count == counts[e.name] ensures e in r {
      var k :| 0 <= k < |names| && names[k] == e.name;
      assert r[k] == e;
    }
  }

  /** Distinct names give distinct entries. */
  lemma EntriesDistinct(names: seq<string>, counts: map<string, nat>)
    requires forall t :: t in names ==> t in counts
    requires NoDuplicates(names)
    ensures NoDuplicates(Entries(names, counts))
  {
    var r := Entries(names, counts);
    forall a, b | 0 <= a < b < |r| ensures r[a] != r[b] {
      assert r[a].name == names[a] && r[b].name == names[b];
    }
  }

  /** The entries list each tag in use once, with its number of occurrences. */
  lemma TagEntriesFacts(incidents: seq<Incident>)
    ensures var r := TagEntries(incidents);
      && |r| == |Dedup(FlatTags(incidents))|
      && (forall e :: e in r <==> e.name in FlatTags(incidents) && e.count == Occurrences(incidents, e.name))
      && NoDuplicates(r)
  {
    var names := Dedup(FlatTags(incidents));
    var counts := TagCounts(incidents);
    EntriesMembers(names, counts);
    EntriesDistinct(names, counts);
  }

  /** The entries sorted by descending count, before the cut to five. */
  function SortedTagEntries(incidents: seq<Incident>): seq<TagCount> {
    SortBy(TagEntries(incidents), ByCountDescending)
  }

  /** The sorted entries are the entries, each tag in use once with its count. */
  lemma SortedTagEntriesMembers(incidents: seq<Incident>)
    ensures var r := SortedTagEntries(incidents);
      && |r| == |Dedup(FlatTags(incidents))|
      && (forall e :: e in r <==> e.name in FlatTags(incidents) && e.count == Occurrences(incidents, e.name))
      && (forall a, b :: 0 <= a < b < |r| ==> r[a].name != r[b].name)
  {
    var entries := TagEntries(incidents);
    var r := SortedTagEntries(incidents);
    TagEntriesFacts(incidents);
    PermutationMembers(entries, r);
    NoDuplicatesPermutation(entries, r);
    DistinctNames(incidents, r);
  }

  /** The sorted entries' counts never increase. */
  lemma SortedTagEntriesDescending(incidents: seq<Incident>)
    ensures var r := SortedTagEntries(incidents);
      forall a, b :: 0 <= a < b < |r| ==> r[a].count >= r[b].count
  {
    var r := SortedTagEntries(incidents);
    forall a, b | 0 <= a < b < |r| ensures r[a].count >= r[b].count {
      assert ByCountDescending(r[a]) <= ByCountDescending(r[b]);
    }
  }

  /** Entries whose count is determined by their name repeat no name unless
      they repeat an entry. */
  lemma DistinctNames(incidents: seq<Incident>, r: seq<TagCount>)
    requires NoDuplicates(r)
    requires forall e :: e in r ==> e.count == Occurrences(incidents, e.name)
    ensures forall a, b :: 0 <= a < b < |r| ==> r[a].name != r[b].name
  {
    forall a, b | 0 <= a < b < |r| ensures r[a].name != r[b].name {
      assert r[a] in r && r[b] in r;
      assert r[a] != r[b];
    }
  }

  /** `tagDistribution`: the entries sorted by descending count (a stable
      sort), cut to the first five. */
  function TagDistribution(incidents: seq<Incident>): (r: seq<TagCount>)
    ensures |r| <= 5
    ensures |r| == if |Dedup(FlatTags(incidents))| < 5 then |Dedup(FlatTags(incidents))| else 5
    ensures forall a, b :: 0 <= a < b < |r| ==> r[a].count >= r[b].count
    ensures forall e :: e in r ==> e.name in FlatTags(incidents) && e.count == Occurrences(incidents, e.name)
    ensures forall a, b :: 0 <= a < b < |r| ==> r[a].name != r[b].name
  {
    var sorted := SortedTagEntries(incidents);
    SortedTagEntriesMembers(incidents);
    SortedTagEntriesDescending(incidents);
    var n := if |sorted| < 5 then |sorted| else 5;
    CutKeepsOrder(sorted, n);
    sorted[..n]
  }

  /** The distribution is a prefix of the sorted entries. */
  lemma TagDistributionPrefix(incidents: seq<Incident>)
    ensures var r := TagDistribution(incidents);
      |r| <= |SortedTagEntries(incidents)| && r == SortedTagEntries(incidents)[..|r|]
  {
  }

  /** A prefix of a list of descending counts with distinct names is one too,
      and holds only entries of the list. */
  lemma CutKeepsOrder(s: seq<TagCount>, n: nat)
    requires n <= |s|
    requires forall a, b :: 0 <= a < b < |s| ==> s[a].count >= s[b].count
    requires forall a, b :: 0 <= a < b < |s| ==> s[a].name != s[b].name
    ensures forall a, b :: 0 <= a < b < n ==> s[..n][a].count >= s[..n][b].count
    ensures forall a, b :: 0 <= a < b < n ==> s[..n][a].name != s[..n][b].name
    ensures forall e :: e in s[..n] ==> e in s
  {
  }

  /** In a list of descending counts, an entry whose name is missing from a
      prefix counts no more than any entry of that prefix. */
  lemma PrefixHoldsTop(sorted: seq<TagCount>, n: nat, mine: TagCount)
    requires n <= |sorted| && mine in sorted
    requires forall a, b :: 0 <= a < b < |sorted| ==> sorted[a].count >= sorted[b].count
    requires forall e :: e in sorted[..n] ==> e.name != mine.name
    ensures forall e :: e in sorted[..n] ==> mine.count <= e.count
  {
    var j :| 0 <= j < |sorted| && sorted[j] == mine;
    forall a | 0 <= a < n ensures sorted[a].name != mine.name {
      assert sorted[a] == sorted[..n][a];
    }
    forall e | e in sorted[..n] ensures mine.count <= e.count {
      var a :| 0 <= a < n && sorted[..n][a] == e;
      assert sorted[a] == e && a < j;
    }
  }

  /** The cut keeps the five most frequent tags: a tag in use that did not
      make the list occurs no more often than any tag that did. */
  lemma TagDistributionIsTop(incidents: seq<Incident>, tag: string)
    requires tag in FlatTags(incidents)
    requires forall e :: e in TagDistribution(incidents) ==> e.name != tag
    ensures forall e :: e in TagDistribution(incidents) ==> Occurrences(incidents, tag) <= e.count
  {
    TagDistributionPrefix(incidents);
    SortedTagEntriesMembers(incidents);
    SortedTagEntriesDescending(incidents);
    PrefixHoldsTop(SortedTagEntries(incidents), |TagDistribution(incidents)|, TagCount(tag, Occurrences(incidents, tag)));
  }

  /** The dashboard's "most common incident type" is the head of the list: no
      tag occurs more often than it. */
  lemma TagDistributionHeadIsMostCommon(incidents: seq<Incident>, tag: string)
    requires |TagDistribution(incidents)| > 0
    ensures Occurrences(incidents, tag) <= TagDistribution(incidents)[0].count
  {
    var r := TagDistribution(incidents);
    if tag !in FlatTags(incidents) {
      UnusedTagNeverOccurs(incidents, tag);
    } else if exists e :: e in r && e.name == tag {
      var e :| e in r && e.name == tag;
      HeadCountsMost(r, e);
    } else {
      TagDistributionIsTop(incidents, tag);
      assert r[0] in r;
    }
  }

  /** A tag no incident carries occurs nowhere. */
  lemma UnusedTagNeverOccurs(incidents: seq<Incident>, tag: string)
    requires tag !in FlatTags(incidents)
    ensures Occurrences(incidents, tag) == 0
  {
    OccurrencesFlat(incidents, tag);
  }

  /** In a list of descending counts, the head counts at least as much as any entry. */
  lemma HeadCountsMost(r: seq<TagCount>, e: TagCount)
    requires e in r
    requires forall a, b :: 0 <= a < b < |r| ==> r[a].count >= r[b].count
    ensures e.count <= r[0].count
  {
    var a :| 0 <= a < |r| && r[a] == e;
    assert a == 0 || r[0].count >= r[a].count;
  }
}
