/** The submit handler of src/IncidentForm.tsx: validation in a fixed order,
    the trimmed new incident, and the reset of the form. */
module IncidentForm {
  import opened Optional
  import opened Text
  import opened App

  const TITLE_MISSING: string := "Please enter a title"
  const DESCRIPTION_MISSING: string := "Please enter a description"
  const DEFAULT_SEVERITY: string := "Low"

  /** The form's state: its four fields and the error banner, "" when no
      banner shows. */
  datatype Form = Form(
    title: string,
    description: string,
    severity: string,
    tags: seq<string>,
    error: string)

  /** The form as first shown and as reset after a successful submission. */
  const EMPTY_FORM: Form := Form("", "", DEFAULT_SEVERITY, [], "")

  /** The form and the incident store after a submission. */
  datatype Submission = Submission(form: Form, incidents: seq<Incident>)

  /** `handleSubmit`. `id` and `now` stand for the clock readings `Date.now()`
      and `new Date()`. */
  function Submit(form: Form, incidents: seq<Incident>, id: int, now: int): (r: Submission)
    ensures IsBlank(form.title) ==>
      r == Submission(form.(error := TITLE_MISSING), incidents)
    ensures !IsBlank(form.title) && IsBlank(form.description) ==>
      r == Submission(form.(error := DESCRIPTION_MISSING), incidents)
    ensures !IsBlank(form.title) && !IsBlank(form.description) ==>
      r.form == EMPTY_FORM
      && |r.incidents| == |incidents| + 1
      && r.incidents[..|incidents|] == incidents
      && var n := r.incidents[|incidents|];
        n.id == id && n.reportedAt == now
        && n.title == Trim(form.title) && n.title != []
        && n.description == Trim(form.description) && n.description != []
        && n.severity == form.severity
        && TagsOf(n) == form.tags
        && (n.tags == None <==> form.tags == [])
  {
    TrimEmptyIffBlank(form.title);
    TrimEmptyIffBlank(form.description);
    if Trim(form.title) == "" then
      Submission(form.(error := TITLE_MISSING), incidents)
    else if Trim(form.description) == "" then
      Submission(form.(error := DESCRIPTION_MISSING), incidents)
    else
      var incident := Incident(id, Trim(form.title), Trim(form.description), form.severity, now,
        if |form.tags| > 0 then Some(form.tags) else None);
      Submission(EMPTY_FORM, AddIncident(incidents, incident))
  }

  /** A submission either adds exactly one incident or shows an error and keeps
      every field; it adds one exactly when title and description both hold
      more than whitespace. */
  lemma SubmitAcceptsIffNotBlank(form: Form, incidents: seq<Incident>, id: int, now: int)
    ensures var r := Submit(form, incidents, id, now);
      (|r.incidents| == |incidents| + 1 <==> !IsBlank(form.title) && !IsBlank(form.description))
      && (r.incidents == incidents <==> IsBlank(form.title) || IsBlank(form.description))
      && (r.form.error == "" <==> !IsBlank(form.title) && !IsBlank(form.description))
  {
  }

  /** An incident as the form creates it: title and description not empty and
      without whitespace at either end (so `Trim` leaves them unchanged, by
      `TrimFixedPoint`), and a tag list, when present, not empty. */
  predicate WellFormed(i: Incident) {
    i.title != [] && IsTrimmed(i.title)
    && i.description != [] && IsTrimmed(i.description)
    && (i.tags.Some? ==> |i.tags.value| > 0)
  }

  /** Submissions keep a store of well-formed incidents well-formed. */
  lemma SubmitKeepsWellFormed(form: Form, incidents: seq<Incident>, id: int, now: int)
    requires forall k :: 0 <= k < |incidents| ==> WellFormed(incidents[k])
    ensures var r := Submit(form, incidents, id, now).incidents;
      forall k :: 0 <= k < |r| ==> WellFormed(r[k])
  {
    var r := Submit(form, incidents, id, now).incidents;
    if |r| > |incidents| {
      SubmittedWellFormed(form, incidents, id, now);
      forall k | 0 <= k < |r| ensures WellFormed(r[k]) {
        if k < |incidents| {
          assert r[k] == r[..|incidents|][k];
        }
      }
    }
  }

  /** The incident a successful submission adds is well-formed. */
  lemma SubmittedWellFormed(form: Form, incidents: seq<Incident>, id: int, now: int)
    requires !IsBlank(form.title) && !IsBlank(form.description)
    ensures WellFormed(Submit(form, incidents, id, now).incidents[|incidents|])
  {
    TrimSlice(form.title);
    TrimSlice(form.description);
  }

  /** After a successful submission the reset form is blank, so submitting it
      again adds nothing and shows the title error. */
  lemma SubmitAgainAfterSuccess(form: Form, incidents: seq<Incident>, id: int, now: int, id2: int, now2: int)
    requires !IsBlank(form.title) && !IsBlank(form.description)
    ensures var r := Submit(form, incidents, id, now);
      var r2 := Submit(r.form, r.incidents, id2, now2);
      r2.incidents == r.incidents && r2.form.error == TITLE_MISSING
  {
    var r := Submit(form, incidents, id, now);
    assert IsBlank(r.form.title);
  }
}
