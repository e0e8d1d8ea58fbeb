/**
 * The breaking-news editor's local rules: the slug computed from the title, the payload
 * built on submit, the form reset after a save, and the two list toggles.
 */
module BreakingNewsManager {
  import opened Wrappers
  import opened JsString
  import opened Content

  /** The editor's form state; `status` holds whatever an edited row had, `archived` included. */
  datatype BreakingForm = BreakingForm(
    title: string,
    summary: string,
    content: string,
    isBreaking: bool,
    status: Status)

  /** The form when the editor opens, and the form after every successful save. */
  const InitialForm := BreakingForm("", "", "", true, Published)

  /** The row sent to the `articles` table on insert or update. */
  datatype BreakingData = BreakingData(
    title: string,
    summary: string,
    content: string,
    isBreaking: bool,
    status: Status,
    slug: string,
    publishedAt: Option<string>)

  /** An `articles` row as the list reads it; summary and content may be null. */
  datatype BreakingRow = BreakingRow(
    title: string,
    summary: Option<string>,
    content: Option<string>,
    isBreaking: bool,
    status: Status)

  /** The update `togglePublishStatus` sends. */
  datatype PublishUpdate = PublishUpdate(status: Status, publishedAt: Option<string>)

  /** `replace(/(^-|-$)/g, '')`: one leading and one trailing '-' removed. */
  function StripEdgeDashes(s: string): string {
    var front := if |s| > 0 && s[0] == '-' then s[1..] else s;
    if |front| > 0 && front[|front| - 1] == '-' then front[..|front| - 1] else front
  }

  /** The slug of a title: lowercase, each run of non-alphanumerics to one '-', edge dashes removed. */
  function BreakingSlug(title: string): string {
    StripEdgeDashes(ReplaceRuns(ToLowerCase(title), NotLowerAlnum, false))
  }

  /** `handleSubmit`: the payload, its slug always recomputed from the title. */
  function DeriveBreaking(form: BreakingForm, now: string): BreakingData {
    BreakingData(
      form.title, form.summary, form.content, form.isBreaking, form.status,
      BreakingSlug(form.title), PublishedAt(form.status, now))
  }

  /** The form after a submit: reset when the save went through, left as it was when it failed. */
  function AfterSubmit(form: BreakingForm, saved: bool): BreakingForm {
    if saved then InitialForm else form
  }

  /** `handleEdit`: the form filled in from a stored row, nulls read as empty text. */
  function EditForm(row: BreakingRow): BreakingForm {
    BreakingForm(row.title, NullToEmpty(row.summary), NullToEmpty(row.content), row.isBreaking, row.status)
  }

  /** The row the database holds once `data` has been written. */
  function Stored(data: BreakingData): BreakingRow {
    BreakingRow(data.title, Some(data.summary), Some(data.content), data.isBreaking, data.status)
  }

  /** `toggleBreakingStatus`: the new `is_breaking`. */
  function ToggleBreaking(current: bool): bool {
    !current
  }

  /** `togglePublishStatus`: published becomes draft, anything else becomes published. */
  function TogglePublish(current: Status, now: string): PublishUpdate {
    var newStatus := if current == Published then Draft else Published;
    PublishUpdate(newStatus, PublishedAt(newStatus, now))
  }

  // ---------------------------------------------------------------------------
  // The slug

  /** The collapsed title before the edge step: slug characters, and no '--'. */
  lemma CollapsedShape(title: string)
    ensures var r := ReplaceRuns(ToLowerCase(title), NotLowerAlnum, false);
      IsSlugText(r) && NoDoubleDash(r)
  {
    var r := ReplaceRuns(ToLowerCase(title), NotLowerAlnum, false);
    ReplaceRunsShape(ToLowerCase(title), NotLowerAlnum, false);
    assert forall i :: 0 <= i < |r| ==> IsSlugChar(r[i]);
  }

  /** Stripping the edges of dash-separated slug text leaves slug text with no '--' and no edge '-'. */
  lemma StripEdgeDashesShape(s: string)
    requires IsSlugText(s) && NoDoubleDash(s)
    ensures var r := StripEdgeDashes(s);
      && IsSlugText(r) && NoDoubleDash(r)
      && (|r| > 0 ==> r[0] != '-' && r[|r| - 1] != '-')
  {
    var front := if |s| > 0 && s[0] == '-' then s[1..] else s;
    assert IsSlugText(front) && NoDoubleDash(front);
    assert |front| > 0 ==> front[0] != '-';
  }

  /** Stripping the edges removes nothing but '-'. */
  lemma StripEdgeDashesKeeps(s: string)
    ensures forall c :: c in s && c != '-' ==> c in StripEdgeDashes(s)
  {
    var front := if |s| > 0 && s[0] == '-' then s[1..] else s;
    assert forall c :: c in s && c != '-' ==> c in front;
    if |front| > 0 && front[|front| - 1] == '-' {
      assert front == front[..|front| - 1] + ['-'];
    }
  }

  /** The slug consists of `a-z`, `0-9` and '-', never holds '--', and neither starts nor ends with '-'. */
  lemma BreakingSlugShape(title: string)
    ensures var r := BreakingSlug(title);
      && IsSlugText(r) && NoDoubleDash(r)
      && (|r| > 0 ==> r[0] != '-' && r[|r| - 1] != '-')
  {
    CollapsedShape(title);
    StripEdgeDashesShape(ReplaceRuns(ToLowerCase(title), NotLowerAlnum, false));
  }

  /** A title with an ASCII letter or digit has a non-empty slug; any other title has the empty slug. */
  lemma BreakingSlugEmpty(title: string)
    ensures BreakingSlug(title) == "" <==> forall i :: 0 <= i < |title| ==> !IsLowerAlnum(LowerChar(title[i]))
  {
    var lowered := ToLowerCase(title);
    var r := ReplaceRuns(lowered, NotLowerAlnum, false);
    if forall i :: 0 <= i < |title| ==> !IsLowerAlnum(LowerChar(title[i])) {
      ReplaceRunsAllInClass(lowered, NotLowerAlnum, false);
    } else {
      var i :| 0 <= i < |title| && IsLowerAlnum(LowerChar(title[i]));
      assert lowered[i] in lowered;
      ReplaceRunsKeeps(lowered, NotLowerAlnum, false);
      StripEdgeDashesKeeps(r);
      assert lowered[i] in BreakingSlug(title);
    }
  }

  /** A lowercase letter or digit is in the slug exactly when it is in the lowercased title. */
  lemma BreakingSlugKeepsAlnum(title: string)
    ensures forall c :: IsLowerAlnum(c) ==> (c in BreakingSlug(title) <==> c in ToLowerCase(title))
  {
    var lowered := ToLowerCase(title);
    var r := ReplaceRuns(lowered, NotLowerAlnum, false);
    ReplaceRunsChars(lowered, NotLowerAlnum, false);
    ReplaceRunsKeeps(lowered, NotLowerAlnum, false);
    StripEdgeDashesKeeps(r);
    var front := if |r| > 0 && r[0] == '-' then r[1..] else r;
    assert forall c :: c in front ==> c in r;
    assert forall c :: c in StripEdgeDashes(r) ==> c in front;
  }

  /** Stripping the edge dashes keeps the words. */
  lemma StripEdgeDashesWords(s: string)
    ensures Words(StripEdgeDashes(s), []) == Words(s, [])
  {
    var front := if |s| > 0 && s[0] == '-' then s[1..] else s;
    if |front| > 0 && front[|front| - 1] == '-' {
      assert front == front[..|front| - 1] + "-";
      WordsDropDash(front[..|front| - 1], []);
    }
  }

  /** The slug holds the words of the lowercased title, in order and each as it was. */
  lemma BreakingSlugWords(title: string)
    ensures Words(BreakingSlug(title), []) == Words(ToLowerCase(title), [])
  {
    var r := ReplaceRuns(ToLowerCase(title), NotLowerAlnum, false);
    ReplaceRunsWords(ToLowerCase(title), NotLowerAlnum, false, []);
    StripEdgeDashesWords(r);
  }

  /** The slug is exactly the words of the lowercased title joined by single '-'. */
  lemma BreakingSlugJoinsWords(title: string)
    ensures BreakingSlug(title) == JoinDashes(Words(ToLowerCase(title), []))
  {
    var r := BreakingSlug(title);
    BreakingSlugShape(title);
    BreakingSlugWords(title);
    JoinedWords(r, []);
    assert [] + r == r;
  }

  /** Slugging a slug returns it unchanged. */
  lemma BreakingSlugIdempotent(title: string)
    ensures BreakingSlug(BreakingSlug(title)) == BreakingSlug(title)
  {
    var s := BreakingSlug(title);
    BreakingSlugShape(title);
    ToLowerCaseIdentity(s);
    assert ClassOnlyDash(s, NotLowerAlnum) && NoAdjacentClass(s, NotLowerAlnum);
    ReplaceRunsIdentity(s, NotLowerAlnum, false);
  }

  /** Unlike the article slug, edge dashes go, and a run of punctuation and spaces is one '-'. */
  lemma BreakingSlugExample()
    ensures BreakingSlug(" A, b!") == "a-b"
  {
    assert ToLowerCase(" A, b!") == " a, b!";
    assert ReplaceRuns(" a, b!", NotLowerAlnum, false) == "-a-b-";
  }

  // ---------------------------------------------------------------------------
  // The payload and the form

  /** The payload's slug is the title's, its publication time is set exactly when it is published, and the rest is the form's. */
  lemma DeriveBreakingFields(form: BreakingForm, now: string)
    ensures var d := DeriveBreaking(form, now);
      && d.slug == BreakingSlug(form.title)
      && (d.publishedAt.Some? <==> d.status == Published)
      && (d.publishedAt.Some? ==> d.publishedAt.value == now)
      && d.title == form.title && d.summary == form.summary && d.content == form.content
      && d.isBreaking == form.isBreaking && d.status == form.status
  {
  }

  /** Every successful submit leaves the form as it was when the editor opened. */
  lemma AfterSubmitResets(form: BreakingForm, saved: bool)
    ensures saved ==> AfterSubmit(form, saved).title == ""
    ensures saved ==> AfterSubmit(form, saved).summary == "" && AfterSubmit(form, saved).content == ""
    ensures saved ==> AfterSubmit(form, saved).isBreaking && AfterSubmit(form, saved).status == Published
    ensures !saved ==> AfterSubmit(form, saved) == form
  {
  }

  /** Saving a form and opening the stored row for editing gives back the same form. */
  lemma SaveThenEdit(form: BreakingForm, now: string)
    ensures EditForm(Stored(DeriveBreaking(form, now))) == form
  {
  }

  // ---------------------------------------------------------------------------
  // The toggles

  /** The breaking toggle negates the flag, so toggling twice restores it. */
  lemma ToggleBreakingInvolution(current: bool)
    ensures ToggleBreaking(current) != current
    ensures ToggleBreaking(ToggleBreaking(current)) == current
  {
  }

  /**
   * The publish toggle maps published to draft and draft or archived to published, sets the
   * publication time exactly when the new status is published, and two toggles restore every
   * status but archived, which comes back as published.
   */
  lemma TogglePublishRule(current: Status, now: string, later: string)
    ensures var u := TogglePublish(current, now);
      && (current == Published <==> u.status == Draft)
      && (current != Published <==> u.status == Published)
      && (u.publishedAt.Some? <==> u.status == Published)
      && (u.publishedAt.Some? ==> u.publishedAt.value == now)
      && (TogglePublish(u.status, later).status == current <==> current != Archived)
  {
  }
}
