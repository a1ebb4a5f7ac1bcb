/** The tag tally of src/Dashboard.tsx as it behaves on the plain object `{}`
    it writes into. Such an object inherits the members of `Object.prototype`.
    A tag that names one of them therefore reads that member where
    `Dashboard.TagCounts` reads "no count yet". This module models those
    readings, the sort that follows them, and how the result relates to the
    distribution of `Dashboard`. */
module ObjectTally {
  import opened Optional
  import opened Seqs
  import opened App
  import opened Dashboard

  // ---------------------------------------------------------------------------
  // The object the tally writes into
  // ---------------------------------------------------------------------------

  /** The names an object inherits from its prototype: an accessor whose
      setter ignores strings, so that a tag of that name is never stored, and
      methods, which are functions. */
  datatype Prototype = Prototype(accessor: string, methods: set<string>)

  /** `Object.prototype`, the prototype of `{}`. */
  const OBJECT_PROTOTYPE: Prototype := Prototype("__proto__", {
    "constructor", "hasOwnProperty", "isPrototypeOf", "propertyIsEnumerable",
    "toLocaleString", "toString", "valueOf",
    "__defineGetter__", "__defineSetter__", "__lookupGetter__", "__lookupSetter__"})

  /** Every name a fresh object with prototype `proto` already answers to. */
  predicate Inherited(proto: Prototype, t: string) {
    t == proto.accessor || t in proto.methods
  }

  /** A value the tally stores. An inherited function passes `|| 0` unchanged,
      and `+ 1` turns it into a string: its source text followed by "1". Every
      later `+ 1` appends to that string. `Str` stands for any such string;
      none of them reads as a number. */
  datatype Value = Num(n: nat) | Str

  /** The number stored for `t`, 0 when there is none. */
  function NumOf(m: map<string, Value>, t: string): nat {
    if t in m && m[t].Num? then m[t].n else 0
  }

  /** The tallies the code can reach from an empty object: the accessor is
      never an own key, and a key holds text exactly when it names an
      inherited method. */
  predicate Shaped(proto: Prototype, m: map<string, Value>) {
    forall t :: t in m ==> t != proto.accessor && (m[t] == Str <==> t in proto.methods)
  }

  /** `tagCounts[tag] = (tagCounts[tag] || 0) + 1` on an object whose
      prototype is `proto`. */
  function Increment(proto: Prototype, m: map<string, Value>, tag: string): (r: map<string, Value>)
    ensures forall t :: t in r <==> t in m || (t == tag && tag != proto.accessor)
    ensures forall t :: t in m && t != tag ==> r[t] == m[t]
    ensures Shaped(proto, m) ==> Shaped(proto, r)
    ensures Shaped(proto, m) && tag in r && tag !in proto.methods ==> r[tag] == Num(NumOf(m, tag) + 1)
  {
    if tag == proto.accessor then m
    else if tag in m then m[tag := if m[tag].Num? then Num(m[tag].n + 1) else Str]
    else if tag in proto.methods then m[tag := Str]
    else m[tag := Num(1)]
  }

  /** The inner `forEach` as written. */
  function TallyTagsAsWritten(proto: Prototype, m: map<string, Value>, tags: seq<string>): (r: map<string, Value>)
    ensures forall t :: t in r <==> t in m || (t in tags && t != proto.accessor)
    ensures Shaped(proto, m) ==> Shaped(proto, r)
    ensures Shaped(proto, m) ==>
      forall t :: t in r && t !in proto.methods ==> r[t] == Num(NumOf(m, t) + multiset(tags)[t])
    decreases |tags|
  {
    if |tags| == 0 then m
    else
      assert tags == [tags[0]] + tags[1..];
      TallyTagsAsWritten(proto, Increment(proto, m, tags[0]), tags[1..])
  }

  /** The outer `forEach` as written. */
  function TallyIncidentsAsWritten(proto: Prototype, m: map<string, Value>, incidents: seq<Incident>): (r: map<string, Value>)
    ensures forall t :: t in r <==> t in m || (t in FlatTags(incidents) && t != proto.accessor)
    ensures Shaped(proto, m) ==> Shaped(proto, r)
    ensures Shaped(proto, m) ==>
      forall t :: t in r && t !in proto.methods ==> r[t] == Num(NumOf(m, t) + Occurrences(incidents, t))
    decreases |incidents|
  {
    if |incidents| == 0 then m
    else TallyIncidentsAsWritten(proto, TallyTagsAsWritten(proto, m, TagsOf(incidents[0])), incidents[1..])
  }

  /** `tagCounts` after both loops, as written. Every tag in use except the
      accessor is a key. Each holds its number of occurrences, except an
      inherited method's name, which holds text. */
  function TagCountsAsWritten(proto: Prototype, incidents: seq<Incident>): (r: map<string, Value>)
    ensures forall t :: t in r <==> t in FlatTags(incidents) && t != proto.accessor
    ensures forall t :: t in r && t in proto.methods ==> r[t] == Str
    ensures forall t :: t in r && t !in proto.methods ==> r[t] == Num(Occurrences(incidents, t))
  {
    TallyIncidentsAsWritten(proto, map[], incidents)
  }

  // ---------------------------------------------------------------------------
  // Entries and the sort as written
  // ---------------------------------------------------------------------------

  /** One `{ name, value }` entry as the code builds it. */
  datatype Entry = Entry(name: string, value: Value)

  /** The test for a tag that `Object.entries` lists once it was tallied. */
  function Storable(proto: Prototype): string -> bool {
    (t: string) => t != proto.accessor
  }

  /** The own keys of the tally, each once, in the order they were first
      tallied. `Object.entries` lists integer-like keys ahead of the others,
      which this order does not model. */
  function StoredNames(proto: Prototype, incidents: seq<Incident>): (r: seq<string>)
    ensures forall t {:trigger t in r} :: t in r <==> t in FlatTags(incidents) && t != proto.accessor
    ensures NoDuplicates(r)
  {
    FilterNoDuplicates(Dedup(FlatTags(incidents)), Storable(proto));
    Filter(Dedup(FlatTags(incidents)), Storable(proto))
  }

  /** `Object.entries(tagCounts).map(...)` on the tally as written. */
  function EntriesAsWritten(names: seq<string>, tally: map<string, Value>): (r: seq<Entry>)
    requires forall t :: t in names ==> t in tally
    ensures |r| == |names|
    ensures forall k :: 0 <= k < |r| ==> r[k] == Entry(names[k], tally[names[k]])
  {
    if |names| == 0 then [] else [Entry(names[0], tally[names[0]])] + EntriesAsWritten(names[1..], tally)
  }

  /** `(a, b) => b.value - a.value`. A string operand makes the difference
      NaN, and the sort reads a NaN result as 0. */
  function Compare(a: Entry, b: Entry): int {
    if a.value.Num? && b.value.Num? then b.value.n as int - a.value.n as int else 0
  }

  /** Stable insertion of `x` in front of the later entries `s`: `x` stays
      ahead of every entry the comparator does not move it behind. */
  function InsertByCompare(x: Entry, s: seq<Entry>): (r: seq<Entry>)
    ensures |r| == |s| + 1
    ensures multiset(r) == multiset([x] + s)
    ensures forall y {:trigger y in r} :: y in r <==> y == x || y in s
  {
    if |s| == 0 || Compare(x, s[0]) <= 0 then [x] + s
    else
      assert s == [s[0]] + s[1..];
      [s[0]] + InsertByCompare(x, s[1..])
  }

  /** A stable sort by the comparator as written. */
  function SortByCompare(s: seq<Entry>): (r: seq<Entry>)
    ensures |r| == |s|
    ensures multiset(r) == multiset(s)
    ensures forall y {:trigger y in r} :: y in r <==> y in s
  {
    if |s| == 0 then []
    else
      assert s == [s[0]] + s[1..];
      InsertByCompare(s[0], SortByCompare(s[1..]))
  }

  /** The entries of the tally as written, one per own key in the order of
      `StoredNames`, each with the value stored for it. */
  function TallyEntries(proto: Prototype, incidents: seq<Incident>): (r: seq<Entry>)
    ensures |r| == |StoredNames(proto, incidents)|
    ensures forall k :: 0 <= k < |r| ==> r[k].name == StoredNames(proto, incidents)[k]
    ensures forall a, b :: 0 <= a < b < |r| ==> r[a].name != r[b].name
    ensures forall e :: e in r ==> e.name in FlatTags(incidents) && e.name != proto.accessor
    ensures forall e :: e in r ==> e.value == StoredValue(proto, incidents, e.name)
  {
    var tally := TagCountsAsWritten(proto, incidents);
    var names := StoredNames(proto, incidents);
    var r := EntriesAsWritten(names, tally);
    forall e | e in r ensures e.name in names && e.value == StoredValue(proto, incidents, e.name) {
      var k :| 0 <= k < |r| && r[k] == e;
      assert names[k] in names;
    }
    r
  }

  /** The value the tally as written holds for a stored tag: text for an
      inherited method's name, the number of occurrences for any other. */
  function StoredValue(proto: Prototype, incidents: seq<Incident>, t: string): Value {
    if t in proto.methods then Str else Num(Occurrences(incidents, t))
  }

  /** `tagDistribution` as written: the entries of the tally on an object
      with prototype `proto`, sorted by the comparator as written, cut to the
      first five. */
  function DistributionAsWritten(proto: Prototype, incidents: seq<Incident>): (r: seq<Entry>)
    ensures |r| == if |StoredNames(proto, incidents)| < 5 then |StoredNames(proto, incidents)| else 5
    ensures forall e :: e in r ==> e.name in FlatTags(incidents) && e.name != proto.accessor
    ensures forall e :: e in r ==> e.value == StoredValue(proto, incidents, e.name)
    ensures forall a, b :: 0 <= a < b < |r| ==> r[a].name != r[b].name
  {
    var entries := TallyEntries(proto, incidents);
    var sorted := SortByCompare(entries);
    SortedEntriesFacts(proto, incidents, entries, sorted);
    var n := if |sorted| < 5 then |sorted| else 5;
    CutEntriesFacts(proto, incidents, sorted, n);
    sorted[..n]
  }

  /** Every entry names a stored tag and carries the value stored for it. */
  ghost predicate StoredEntries(proto: Prototype, incidents: seq<Incident>, s: seq<Entry>) {
    forall e :: e in s ==>
      && e.name in FlatTags(incidents) && e.name != proto.accessor
      && e.value == StoredValue(proto, incidents, e.name)
  }

  /** Sorting keeps each entry's facts and keeps the names distinct: the
      entries themselves stay distinct, and the value of each is fixed by its
      name. */
  lemma SortedEntriesFacts(proto: Prototype, incidents: seq<Incident>, entries: seq<Entry>, sorted: seq<Entry>)
    requires forall a, b :: 0 <= a < b < |entries| ==> entries[a].name != entries[b].name
    requires StoredEntries(proto, incidents, entries)
    requires multiset(sorted) == multiset(entries)
    ensures StoredEntries(proto, incidents, sorted)
    ensures forall a, b :: 0 <= a < b < |sorted| ==> sorted[a].name != sorted[b].name
  {
    assert NoDuplicates(entries) by {
      forall a, b | 0 <= a < b < |entries| ensures entries[a] != entries[b] {
        assert entries[a].name != entries[b].name;
      }
    }
    NoDuplicatesPermutation(entries, sorted);
    PermutationMembers(entries, sorted);
    forall a, b | 0 <= a < b < |sorted| ensures sorted[a].name != sorted[b].name {
      assert sorted[a] in entries && sorted[b] in entries;
      assert sorted[a] != sorted[b];
    }
  }

  /** The first `n` entries keep the facts of the whole list. */
  lemma CutEntriesFacts(proto: Prototype, incidents: seq<Incident>, sorted: seq<Entry>, n: nat)
    requires n <= |sorted|
    requires StoredEntries(proto, incidents, sorted)
    requires forall a, b :: 0 <= a < b < |sorted| ==> sorted[a].name != sorted[b].name
    ensures StoredEntries(proto, incidents, sorted[..n])
    ensures forall a, b :: 0 <= a < b < n ==> sorted[..n][a].name != sorted[..n][b].name
  {
    assert forall e :: e in sorted[..n] ==> e in sorted;
  }

  // ---------------------------------------------------------------------------
  // Agreement with the distribution of Dashboard
  // ---------------------------------------------------------------------------

  /** A numeric tally as the code stores it. */
  function Lift(m: map<string, nat>): (r: map<string, Value>)
    ensures forall t :: t in r <==> t in m
    ensures forall t :: t in m ==> r[t] == Num(m[t])
  {
    map t | t in m :: Num(m[t])
  }

  /** An entry of Dashboard's distribution as the code stores it. */
  function LiftEntry(e: TagCount): Entry {
    Entry(e.name, Num(e.count))
  }

  /** Every entry lifted, in order. */
  function LiftAll(s: seq<TagCount>): (r: seq<Entry>)
    ensures |r| == |s|
    ensures forall k :: 0 <= k < |s| ==> r[k] == LiftEntry(s[k])
  {
    if |s| == 0 then [] else [LiftEntry(s[0])] + LiftAll(s[1..])
  }

  /** Lifting a list with a head lifts the head and then the rest. */
  lemma LiftAllCons(a: TagCount, t: seq<TagCount>)
    ensures LiftAll([a] + t) == [LiftEntry(a)] + LiftAll(t)
  {
    assert ([a] + t)[1..] == t;
  }

  /** On tags that name nothing inherited, the tally as written is Dashboard's
      tally. */
  lemma TagCountsAgree(proto: Prototype, incidents: seq<Incident>)
    requires forall t :: t in FlatTags(incidents) ==> !Inherited(proto, t)
    ensures TagCountsAsWritten(proto, incidents) == Lift(TagCounts(incidents))
  {
    var r := TagCountsAsWritten(proto, incidents);
    var counts := TagCounts(incidents);
    forall t ensures t in r <==> t in counts {
      if t in FlatTags(incidents) {
        assert !Inherited(proto, t);
      }
    }
    forall t | t in counts ensures r[t] == Num(counts[t]) {
      assert t in FlatTags(incidents) && !Inherited(proto, t);
    }
    LiftUnique(r, counts);
  }

  /** A stored tally with the keys of a numeric tally and its numbers is its
      lift. */
  lemma LiftUnique(r: map<string, Value>, counts: map<string, nat>)
    requires forall t :: t in r <==> t in counts
    requires forall t :: t in counts ==> r[t] == Num(counts[t])
    ensures r == Lift(counts)
  {
    var l := Lift(counts);
    assert forall t :: t in r <==> t in l;
    assert forall t :: t in r ==> r[t] == l[t];
  }

  /** Inserting a lifted entry with the comparator as written is lifting an
      insertion by descending count. */
  lemma {:induction false} InsertByCompareLift(x: TagCount, s: seq<TagCount>)
    ensures InsertByCompare(LiftEntry(x), LiftAll(s)) == LiftAll(InsertBy(x, s, ByCountDescending))
    decreases |s|
  {
    var lifted := LiftAll(s);
    if |s| == 0 {
      LiftAllCons(x, s);
    } else {
      CompareLift(x, s[0]);
      assert lifted[0] == LiftEntry(s[0]);
      if ByCountDescending(x) <= ByCountDescending(s[0]) {
        assert InsertBy(x, s, ByCountDescending) == [x] + s;
        assert InsertByCompare(LiftEntry(x), lifted) == [LiftEntry(x)] + lifted;
        LiftAllCons(x, s);
      } else {
        var tail := InsertBy(x, s[1..], ByCountDescending);
        assert InsertBy(x, s, ByCountDescending) == [s[0]] + tail;
        assert InsertByCompare(LiftEntry(x), lifted) == [lifted[0]] + InsertByCompare(LiftEntry(x), lifted[1..]);
        assert lifted[1..] == LiftAll(s[1..]);
        InsertByCompareLift(x, s[1..]);
        LiftAllCons(s[0], tail);
      }
    }
  }

  /** The comparator as written, on lifted entries, orders them as the
      descending-count key does. */
  lemma CompareLift(x: TagCount, y: TagCount)
    ensures Compare(LiftEntry(x), LiftEntry(y)) <= 0 <==> ByCountDescending(x) <= ByCountDescending(y)
  {
  }

  /** Sorting lifted entries with the comparator as written is lifting the
      sort by descending count. */
  lemma {:induction false} SortByCompareLift(s: seq<TagCount>)
    ensures SortByCompare(LiftAll(s)) == LiftAll(SortBy(s, ByCountDescending))
    decreases |s|
  {
    if |s| > 0 {
      SortByCompareLift(s[1..]);
      assert LiftAll(s)[1..] == LiftAll(s[1..]);
      InsertByCompareLift(s[0], SortBy(s[1..], ByCountDescending));
    }
  }

  /** The entries of a lifted tally are the lifted entries. */
  lemma EntriesLift(names: seq<string>, counts: map<string, nat>)
    requires forall t :: t in names ==> t in counts
    ensures EntriesAsWritten(names, Lift(counts)) == LiftAll(Entries(names, counts))
  {
  }

  /** Lifting commutes with taking a prefix. */
  lemma LiftAllPrefix(s: seq<TagCount>, n: nat)
    requires n <= |s|
    ensures LiftAll(s)[..n] == LiftAll(s[..n])
  {
  }

  /** When no tag in use names a member of the prototype, the tally's entries
      are Dashboard's entries, lifted. */
  lemma TallyEntriesAgree(proto: Prototype, incidents: seq<Incident>)
    requires forall t :: t in FlatTags(incidents) ==> !Inherited(proto, t)
    ensures TallyEntries(proto, incidents) == LiftAll(TagEntries(incidents))
  {
    var names := Dedup(FlatTags(incidents));
    TagCountsAgree(proto, incidents);
    FilterKeepsAll(names, Storable(proto));
    EntriesLift(names, TagCounts(incidents));
  }

  /** When no tag in use names a member of the prototype, the code's
      distribution is Dashboard's, entry for entry. */
  lemma DistributionAgrees(proto: Prototype, incidents: seq<Incident>)
    requires forall t :: t in FlatTags(incidents) ==> !Inherited(proto, t)
    ensures DistributionAsWritten(proto, incidents) == LiftAll(TagDistribution(incidents))
  {
    TallyEntriesAgree(proto, incidents);
    SortByCompareLift(TagEntries(incidents));
    var sorted := SortedTagEntries(incidents);
    var n := if |sorted| < 5 then |sorted| else 5;
    TagDistributionPrefix(incidents);
    LiftAllPrefix(sorted, n);
  }

  // ---------------------------------------------------------------------------
  // Where the code and Dashboard part ways
  // ---------------------------------------------------------------------------

  /** An incident with only tags; the other fields play no part here. */
  function Tagged(id: int, tags: seq<string>): Incident {
    Incident(id, "", "", "Low", 0, Some(tags))
  }

  /** One "toString" tag ahead of two "Bias" tags. */
  function ToStringSample(): seq<Incident> {
    [Tagged(1, ["toString"]), Tagged(2, ["Bias"]), Tagged(3, ["Bias"])]
  }

  /** The sample's tags, flattened. */
  lemma ToStringSampleFlat()
    ensures FlatTags(ToStringSample()) == ["toString", "Bias", "Bias"]
  {
    var incidents := ToStringSample();
    assert incidents[1..] == [Tagged(2, ["Bias"]), Tagged(3, ["Bias"])];
    assert incidents[1..][1..] == [Tagged(3, ["Bias"])];
  }

  /** The sample's tags in first-seen order, and how often each occurs. */
  lemma ToStringSampleTags()
    ensures Dedup(FlatTags(ToStringSample())) == ["toString", "Bias"]
    ensures Occurrences(ToStringSample(), "toString") == 1
    ensures Occurrences(ToStringSample(), "Bias") == 2
  {
    ToStringSampleFirstSeen();
    ToStringSampleOccurrences();
  }

  lemma ToStringSampleFirstSeen()
    ensures Dedup(FlatTags(ToStringSample())) == ["toString", "Bias"]
  {
    ToStringSampleFlat();
    var flat: seq<string> := ["toString", "Bias", "Bias"];
    assert flat[..2] == ["toString", "Bias"] && flat[..2][..1] == ["toString"];
    assert Dedup(flat[..2][..1]) == ["toString"];
    assert Dedup(flat[..2]) == ["toString", "Bias"];
  }

  lemma ToStringSampleOccurrences()
    ensures Occurrences(ToStringSample(), "toString") == 1
    ensures Occurrences(ToStringSample(), "Bias") == 2
  {
    ToStringSampleFlat();
    OccurrencesFlat(ToStringSample(), "toString");
    OccurrencesFlat(ToStringSample(), "Bias");
    var flat: seq<string> := ["toString", "Bias", "Bias"];
    assert multiset(flat) == multiset{"toString", "Bias", "Bias"};
  }

  /** "toString" is an inherited method and "Bias" names nothing inherited. */
  lemma SampleNamesInherited()
    ensures "toString" in OBJECT_PROTOTYPE.methods && "toString" != OBJECT_PROTOTYPE.accessor
    ensures !Inherited(OBJECT_PROTOTYPE, "Bias")
  {
  }

  /** The own keys of the sample's tally. Neither is integer-like, so this is
      also the order `Object.entries` lists them in. */
  lemma ToStringSampleStored()
    ensures StoredNames(OBJECT_PROTOTYPE, ToStringSample()) == ["toString", "Bias"]
  {
    ToStringSampleTags();
    SampleNamesInherited();
    FilterKeepsAll(["toString", "Bias"], Storable(OBJECT_PROTOTYPE));
  }

  /** The values the sample's tally stores. */
  lemma ToStringSampleTally()
    ensures var tally := TagCountsAsWritten(OBJECT_PROTOTYPE, ToStringSample());
      "toString" in tally && tally["toString"] == Str && "Bias" in tally && tally["Bias"] == Num(2)
  {
    ToStringSampleTags();
    SampleNamesInherited();
  }

  /** The tally's entries on the sample: text for "toString", then "Bias"
      with its two occurrences. */
  lemma ToStringSampleEntries()
    ensures TallyEntries(OBJECT_PROTOTYPE, ToStringSample()) == [Entry("toString", Str), Entry("Bias", Num(2))]
  {
    var tally := TagCountsAsWritten(OBJECT_PROTOTYPE, ToStringSample());
    ToStringSampleStored();
    ToStringSampleTally();
    TwoEntries("toString", "Bias", tally);
  }

  /** The entries of two stored names. */
  lemma TwoEntries(a: string, b: string, tally: map<string, Value>)
    requires a in tally && b in tally
    ensures EntriesAsWritten([a, b], tally) == [Entry(a, tally[a]), Entry(b, tally[b])]
  {
    var r := EntriesAsWritten([a, b], tally);
    assert r[0] == Entry(a, tally[a]) && r[1] == Entry(b, tally[b]);
  }

  /** On the sample the code stores text for "toString", the comparator
      answers NaN against it, and the stable sort leaves "toString" first:
      the insight names it the most common tag although "Bias" occurs twice
      and "toString" once. Dashboard's distribution puts "Bias" first. */
  lemma PrototypeNameLeads()
    ensures DistributionAsWritten(OBJECT_PROTOTYPE, ToStringSample())
      == [Entry("toString", Str), Entry("Bias", Num(2))]
    ensures Occurrences(ToStringSample(), "toString") < Occurrences(ToStringSample(), "Bias")
    ensures TagDistribution(ToStringSample())[0] == TagCount("Bias", 2)
  {
    ToStringSampleTags();
    ToStringSampleDistribution();
    BiasLeads();
  }

  /** The code's distribution of the sample. */
  lemma ToStringSampleDistribution()
    ensures DistributionAsWritten(OBJECT_PROTOTYPE, ToStringSample())
      == [Entry("toString", Str), Entry("Bias", Num(2))]
  {
    ToStringSampleEntries();
    StrStaysFirst(Entry("toString", Str), Entry("Bias", Num(2)));
    ShortDistribution(OBJECT_PROTOTYPE, ToStringSample());
  }

  /** With five entries or fewer nothing is cut: the distribution is the
      sorted entries. */
  lemma ShortDistribution(proto: Prototype, incidents: seq<Incident>)
    requires |TallyEntries(proto, incidents)| <= 5
    ensures DistributionAsWritten(proto, incidents) == SortByCompare(TallyEntries(proto, incidents))
  {
    var sorted := SortByCompare(TallyEntries(proto, incidents));
    assert sorted[..|sorted|] == sorted;
  }

  /** An entry holding text compares as equal to anything, so the stable
      sort leaves it ahead of the entry after it. */
  lemma StrStaysFirst(a: Entry, b: Entry)
    requires a.value == Str
    ensures SortByCompare([a, b]) == [a, b]
  {
    assert [a, b][1..] == [b] && [b][1..] == [];
    assert SortByCompare([b]) == InsertByCompare(b, []) == [b];
    assert SortByCompare([a, b]) == InsertByCompare(a, [b]);
    assert Compare(a, b) == 0;
  }

  /** Dashboard's distribution of the sample starts with "Bias". */
  lemma BiasLeads()
    ensures |TagDistribution(ToStringSample())| == 2
    ensures TagDistribution(ToStringSample())[0] == TagCount("Bias", 2)
  {
    var incidents := ToStringSample();
    ToStringSampleTags();
    var r := TagDistribution(incidents);
    TagDistributionHeadIsMostCommon(incidents, "Bias");
    assert r[0] in r;
  }

  /** A lone "__proto__" tag. */
  function ProtoSample(): seq<Incident> {
    [Tagged(1, ["__proto__"])]
  }

  /** The sample's one tag is the accessor and occurs once. */
  lemma ProtoSampleTags()
    ensures FlatTags(ProtoSample()) == [OBJECT_PROTOTYPE.accessor]
    ensures Dedup(FlatTags(ProtoSample())) == ["__proto__"]
    ensures Occurrences(ProtoSample(), "__proto__") == 1
  {
    assert ProtoSample()[1..] == [];
    assert Dedup(["__proto__"]) == ["__proto__"] by {
      assert ["__proto__"][..0] == [];
    }
  }

  /** The setter ignores the string, so the code stores nothing. */
  lemma ProtoSampleAsWritten()
    ensures DistributionAsWritten(OBJECT_PROTOTYPE, ProtoSample()) == []
  {
    ProtoSampleTags();
    assert TallyEntries(OBJECT_PROTOTYPE, ProtoSample()) == [];
    ShortDistribution(OBJECT_PROTOTYPE, ProtoSample());
    assert SortByCompare([]) == [];
  }

  /** Dashboard's distribution lists the tag once. */
  lemma ProtoSampleCorrected()
    ensures TagDistribution(ProtoSample()) == [TagCount("__proto__", 1)]
  {
    ProtoSampleTags();
    var r := TagDistribution(ProtoSample());
    assert |r| == 1 && r[0] in r;
  }

  /** A lone "__proto__" tag: the code's distribution is empty, while
      Dashboard's lists the tag once. */
  lemma ProtoTagDropped()
    ensures DistributionAsWritten(OBJECT_PROTOTYPE, ProtoSample()) == []
    ensures TagDistribution(ProtoSample()) == [TagCount("__proto__", 1)]
  {
    ProtoSampleAsWritten();
    ProtoSampleCorrected();
  }
}
