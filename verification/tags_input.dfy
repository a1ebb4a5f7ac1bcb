/** The tag picker of src/TagsInput.tsx: adding and removing selected tags,
    and the dropdown's suggestions. */
module TagsInput {
  import opened Seqs
  import opened Text

  /** The selected tags (owned by the form), the text typed so far, and
      whether the dropdown is open. */
  datatype TagsInputState = TagsInputState(selected: seq<string>, input: string, dropdownOpen: bool)

  /** `addTag`: a tag that is blank or already selected is ignored; any other
      is appended as given, untrimmed. Either way the input clears and the
      dropdown closes. */
  function AddTag(st: TagsInputState, tag: string): (r: TagsInputState)
    ensures r.input == "" && !r.dropdownOpen
    ensures IsBlank(tag) || tag in st.selected ==> r.selected == st.selected
    ensures !IsBlank(tag) && tag !in st.selected ==> r.selected == st.selected + [tag]
    ensures forall t :: t in r.selected <==> t in st.selected || (t == tag && !IsBlank(tag))
    ensures NoDuplicates(st.selected) ==> NoDuplicates(r.selected)
  {
    TrimEmptyIffBlank(tag);
    var selected := if Trim(tag) != "" && tag !in st.selected then st.selected + [tag] else st.selected;
    TagsInputState(selected, "", false)
  }

  /** The test `tag !== tagToRemove`. */
  function Differs(tag: string): string -> bool {
    (t: string) => t != tag
  }

  /** `removeTag`: every copy of `tag` leaves the selection, the rest keep their
      order, and the typed text and dropdown are untouched. */
  function RemoveTag(st: TagsInputState, tag: string): (r: TagsInputState)
    ensures r.input == st.input && r.dropdownOpen == st.dropdownOpen
    ensures IsSubseq(r.selected, st.selected)
    ensures forall t :: t in r.selected <==> t in st.selected && t != tag
    ensures tag !in st.selected ==> r == st
  {
    FilterIsSubseq(st.selected, Differs(tag));
    FilterKeepsAll(st.selected, Differs(tag));
    st.(selected := Filter(st.selected, Differs(tag)))
  }

  /** Adding a new tag and then removing it restores the selection. */
  lemma AddThenRemove(st: TagsInputState, tag: string)
    requires tag !in st.selected
    ensures RemoveTag(AddTag(st, tag), tag).selected == st.selected
  {
    var added := AddTag(st, tag).selected;
    FilterKeepsAll(st.selected, Differs(tag));
    if !IsBlank(tag) {
      FilterAppend(st.selected, [tag], Differs(tag));
      assert Filter([tag], Differs(tag)) == [];
    }
  }

  /** Adding the same tag twice selects it once. */
  lemma AddTagIdempotent(st: TagsInputState, tag: string)
    ensures AddTag(AddTag(st, tag), tag).selected == AddTag(st, tag).selected
  {
  }

  /** The suggestion test: not yet selected, and containing the typed text
      without regard to case. */
  function Suggestible(selected: seq<string>, input: string): string -> bool {
    (t: string) => t !in selected && Contains(ToLower(t), ToLower(input))
  }

  /** `filteredTags`: the available tags, in their order, that are not selected
      and contain the typed text without regard to case. */
  function FilteredTags(available: seq<string>, st: TagsInputState): (r: seq<string>)
    ensures IsSubseq(r, available)
    ensures forall t :: t in r <==>
      t in available && t !in st.selected && Contains(ToLower(t), ToLower(st.input))
    ensures NoDuplicates(available) ==> NoDuplicates(r)
  {
    FilterIsSubseq(available, Suggestible(st.selected, st.input));
    FilterNoDuplicates(available, Suggestible(st.selected, st.input));
    Filter(available, Suggestible(st.selected, st.input))
  }

  /** With nothing typed, every unselected available tag is suggested; with
      nothing selected as well, all of them are. */
  lemma FilteredTagsEmptyInput(available: seq<string>, st: TagsInputState)
    requires st.input == ""
    ensures forall t :: t in FilteredTags(available, st) <==> t in available && t !in st.selected
    ensures st.selected == [] ==> FilteredTags(available, st) == available
  {
    forall t | t in available
      ensures Contains(ToLower(t), ToLower(st.input))
    {
      ContainsEmpty(ToLower(t));
    }
    if st.selected == [] {
      FilterKeepsAll(available, Suggestible(st.selected, st.input));
    }
  }

  /** A selected tag is never suggested; removing it makes it suggestible
      again whenever it is available and matches the typed text. */
  lemma RemoveTagResuggests(available: seq<string>, st: TagsInputState, tag: string)
    requires tag in available && Contains(ToLower(tag), ToLower(st.input))
    ensures tag in st.selected ==> tag !in FilteredTags(available, st)
    ensures tag in FilteredTags(available, RemoveTag(st, tag))
  {
  }
}
