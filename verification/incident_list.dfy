/** The list view's own logic in src/IncidentList.tsx: which incidents are
    expanded, and the badge colour of each severity. */
module IncidentList {
  import opened Seqs

  /** The test `itemId !== id`. */
  function OtherThan(id: int): int -> bool {
    (x: int) => x != id
  }

  /** `toggleExpand`: an expanded id collapses (every copy leaves the list), a
      collapsed one is appended. */
  function ToggleExpand(expanded: seq<int>, id: int): (r: seq<int>)
    ensures id in r <==> id !in expanded
    ensures forall x :: x != id ==> (x in r <==> x in expanded)
    ensures NoDuplicates(expanded) ==> NoDuplicates(r)
    ensures id !in expanded ==>
      |r| == |expanded| + 1 && r[..|expanded|] == expanded && r[|expanded|] == id
    ensures id in expanded ==> IsSubseq(r, expanded)
  {
    if id in expanded then
      FilterIsSubseq(expanded, OtherThan(id));
      FilterNoDuplicates(expanded, OtherThan(id));
      Filter(expanded, OtherThan(id))
    else
      var r := expanded + [id];
      assert forall k :: 0 <= k < |expanded| ==> r[k] == expanded[k];
      r
  }

  /** Toggling twice restores the set of expanded ids, and the list itself
      when the id was collapsed to begin with. */
  lemma ToggleTwice(expanded: seq<int>, id: int)
    ensures forall x :: x in ToggleExpand(ToggleExpand(expanded, id), id) <==> x in expanded
    ensures id !in expanded ==> ToggleExpand(ToggleExpand(expanded, id), id) == expanded
  {
    if id !in expanded {
      FilterAppend(expanded, [id], OtherThan(id));
      FilterKeepsAll(expanded, OtherThan(id));
      assert Filter([id], OtherThan(id)) == [];
    }
  }

  const LOW_COLOR: string := "bg-green-100 text-green-800 dark:bg-green-900 dark:text-green-300"
  const MEDIUM_COLOR: string := "bg-yellow-100 text-yellow-800 dark:bg-yellow-900 dark:text-yellow-300"
  const HIGH_COLOR: string := "bg-red-100 text-red-800 dark:bg-red-900 dark:text-red-300"
  const DEFAULT_COLOR: string := "bg-gray-100 text-gray-800 dark:bg-gray-700 dark:text-gray-300"

  /** `getSeverityColor`: the badge classes of a severity. */
  function SeverityColor(severity: string): (r: string)
    ensures r == DEFAULT_COLOR <==> severity != "Low" && severity != "Medium" && severity != "High"
    ensures r in [LOW_COLOR, MEDIUM_COLOR, HIGH_COLOR, DEFAULT_COLOR]
  {
    if severity == "Low" then LOW_COLOR
    else if severity == "Medium" then MEDIUM_COLOR
    else if severity == "High" then HIGH_COLOR
    else DEFAULT_COLOR
  }

  /** The three levels get three different badges, so the colour tells the
      level apart. */
  lemma SeverityColorDistinguishes(a: string, b: string)
    requires SeverityColor(a) == SeverityColor(b)
    requires SeverityColor(a) != DEFAULT_COLOR
    ensures a == b
  {
  }
}
