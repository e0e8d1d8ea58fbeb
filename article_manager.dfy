/**
 * The article editor's local rules: the title slugifier, the payload built from the
 * form on submit, and the form filled in from a stored article for editing.
 */
module ArticleManager {
  import opened Wrappers
  import opened JsString
  import opened Content

  /** The editor's form state. */
  datatype ArticleForm = ArticleForm(
    title: string,
    slug: string,
    summary: string,
    content: string,
    featuredImageUrl: string,
    status: Status,
    isBreaking: bool,
    isFeatured: bool,
    categoryId: string,
    stateId: string,
    metaTitle: string,
    metaDescription: string,
    metaKeywords: string)

  /** The form when the editor opens and after every successful save. */
  const InitialForm := ArticleForm("", "", "", "", "", Draft, false, false, "", "", "", "", "")

  /** The row sent to the `articles` table on insert or update. */
  datatype ArticleData = ArticleData(
    title: string,
    slug: string,
    summary: string,
    content: string,
    featuredImageUrl: string,
    status: Status,
    isBreaking: bool,
    isFeatured: bool,
    categoryId: Option<string>,
    stateId: Option<string>,
    metaTitle: string,
    metaDescription: string,
    metaKeywords: string,
    authorId: string,
    publishedAt: Option<string>)

  /** An `articles` row as read back from the database; the optional columns may be null. */
  datatype ArticleRow = ArticleRow(
    title: string,
    slug: string,
    summary: Option<string>,
    content: string,
    featuredImageUrl: Option<string>,
    status: Status,
    isBreaking: bool,
    isFeatured: bool,
    categoryId: Option<string>,
    stateId: Option<string>,
    metaTitle: Option<string>,
    metaDescription: Option<string>,
    metaKeywords: Option<string>)

  /** The signed-in user, as far as the editor uses it. */
  datatype User = User(id: string)

  datatype SubmitError = NotAuthenticated

  /** `replace(/[^a-z0-9 -]/g, '')`: drops every character but `a-z`, `0-9`, space and `-`. */
  function KeepSlugChars(s: string): string
    decreases |s|
  {
    if s == [] then []
    else if IsLowerAlnum(s[0]) || s[0] == ' ' || s[0] == '-' then [s[0]] + KeepSlugChars(s[1..])
    else KeepSlugChars(s[1..])
  }

  /** `generateSlug`: lowercase, drop, spaces to dashes, collapse dashes, trim. */
  function GenerateSlug(title: string): string {
    var lowered := ToLowerCase(title);
    var kept := KeepSlugChars(lowered);
    var dashed := ReplaceRuns(kept, Whitespace, false);
    var collapsed := ReplaceRuns(dashed, Dash, false);
    Trim(collapsed)
  }

  /** `handleSubmit`: the payload, or the error thrown when nobody is signed in. */
  function DeriveArticle(form: ArticleForm, user: Option<User>, now: string): Result<ArticleData, SubmitError> {
    match user
    case None => Err(NotAuthenticated)
    case Some(u) =>
      Ok(ArticleData(
        form.title,
        if form.slug != "" then form.slug else GenerateSlug(form.title),
        form.summary,
        form.content,
        form.featuredImageUrl,
        form.status,
        form.isBreaking,
        form.isFeatured,
        EmptyToNull(form.categoryId),
        EmptyToNull(form.stateId),
        form.metaTitle,
        form.metaDescription,
        form.metaKeywords,
        u.id,
        PublishedAt(form.status, now)))
  }

  /** `handleEdit`: the form filled in from a stored row, nulls read as empty text. */
  function EditForm(row: ArticleRow): ArticleForm {
    ArticleForm(
      row.title,
      row.slug,
      NullToEmpty(row.summary),
      row.content,
      NullToEmpty(row.featuredImageUrl),
      row.status,
      row.isBreaking,
      row.isFeatured,
      NullToEmpty(row.categoryId),
      NullToEmpty(row.stateId),
      NullToEmpty(row.metaTitle),
      NullToEmpty(row.metaDescription),
      NullToEmpty(row.metaKeywords))
  }

  /** The row the database holds once `data` has been written. */
  function Stored(data: ArticleData): ArticleRow {
    ArticleRow(
      data.title, data.slug, Some(data.summary), data.content, Some(data.featuredImageUrl),
      data.status, data.isBreaking, data.isFeatured, data.categoryId, data.stateId,
      Some(data.metaTitle), Some(data.metaDescription), Some(data.metaKeywords))
  }

  /** The form after a submit: reset when the save went through, left as it was when it failed. */
  function AfterSubmit(form: ArticleForm, saved: bool): ArticleForm {
    if saved then InitialForm else form
  }

  // ---------------------------------------------------------------------------
  // The slugifier

  /** The text after the drop step holds only `a-z`, `0-9`, space and `-`, and keeps every such character. */
  lemma {:induction false} KeepSlugCharsExact(s: string)
    ensures forall c :: c in KeepSlugChars(s) <==> c in s && (IsLowerAlnum(c) || c == ' ' || c == '-')
    decreases |s|
  {
    if s != [] {
      KeepSlugCharsExact(s[1..]);
      assert forall c :: c in s <==> c == s[0] || c in s[1..];
    }
  }

  /** Text already made of slug characters survives the drop step unchanged. */
  lemma {:induction false} KeepSlugCharsIdentity(s: string)
    requires IsSlugText(s)
    ensures KeepSlugChars(s) == s
    decreases |s|
  {
    if s != [] {
      KeepSlugCharsIdentity(s[1..]);
      assert s == [s[0]] + s[1..];
    }
  }

  /**
   * The slug before `trim` already consists of `a-z`, `0-9` and '-' with no '--',
   * and so `trim` does not change it.
   */
  lemma ArticleSlugSteps(title: string)
    ensures var collapsed := ReplaceRuns(ReplaceRuns(KeepSlugChars(ToLowerCase(title)), Whitespace, false), Dash, false);
      && (forall c :: c in collapsed ==> IsSlugChar(c))
      && NoDoubleDash(collapsed)
      && GenerateSlug(title) == collapsed
  {
    var kept := KeepSlugChars(ToLowerCase(title));
    var dashed := ReplaceRuns(kept, Whitespace, false);
    var collapsed := ReplaceRuns(dashed, Dash, false);
    KeepSlugCharsExact(ToLowerCase(title));
    ReplaceRunsChars(kept, Whitespace, false);
    ReplaceRunsChars(dashed, Dash, false);
    ReplaceRunsShape(dashed, Dash, false);
    assert forall c :: c in collapsed ==> IsSlugChar(c);
    assert forall i :: 0 <= i < |collapsed| ==> IsSlugChar(collapsed[i]);
    TrimIdentity(collapsed);
  }

  /** A generated slug contains only `a-z`, `0-9` and '-'. */
  lemma ArticleSlugAlphabet(title: string)
    ensures IsSlugText(GenerateSlug(title))
  {
    ArticleSlugSteps(title);
    var r := GenerateSlug(title);
    assert forall i :: 0 <= i < |r| ==> r[i] in r;
  }

  /** A generated slug never holds two '-' in a row. */
  lemma ArticleSlugNoDoubleDash(title: string)
    ensures NoDoubleDash(GenerateSlug(title))
  {
    ArticleSlugSteps(title);
  }

  /** A lowercase letter or digit is in the slug exactly when it is in the lowercased title. */
  lemma ArticleSlugKeepsAlnum(title: string)
    ensures forall c :: IsLowerAlnum(c) ==> (c in GenerateSlug(title) <==> c in ToLowerCase(title))
  {
    var kept := KeepSlugChars(ToLowerCase(title));
    var dashed := ReplaceRuns(kept, Whitespace, false);
    ArticleSlugSteps(title);
    KeepSlugCharsExact(ToLowerCase(title));
    ReplaceRunsChars(kept, Whitespace, false);
    ReplaceRunsKeeps(kept, Whitespace, false);
    ReplaceRunsChars(dashed, Dash, false);
    ReplaceRunsKeeps(dashed, Dash, false);
  }

  /**
   * The slug holds the words of the title after lowercasing and the drop step, in
   * order and each as it was: spaces and dashes only separate them.
   */
  lemma ArticleSlugWords(title: string)
    ensures Words(GenerateSlug(title), []) == Words(KeepSlugChars(ToLowerCase(title)), [])
  {
    var kept := KeepSlugChars(ToLowerCase(title));
    var dashed := ReplaceRuns(kept, Whitespace, false);
    ArticleSlugSteps(title);
    ReplaceRunsWords(kept, Whitespace, false, []);
    ReplaceRunsWords(dashed, Dash, false, []);
  }

  /** Slugging a slug returns it unchanged. */
  lemma ArticleSlugIdempotent(title: string)
    ensures GenerateSlug(GenerateSlug(title)) == GenerateSlug(title)
  {
    var s := GenerateSlug(title);
    ArticleSlugAlphabet(title);
    ArticleSlugNoDoubleDash(title);
    ToLowerCaseIdentity(s);
    KeepSlugCharsIdentity(s);
    ReplaceRunsIdentity(s, Whitespace, false);
    ReplaceRunsIdentity(s, Dash, false);
    TrimIdentity(s);
  }

  /** Edge dashes are kept: a title that starts or ends with a space gives a slug that starts or ends with '-'. */
  lemma ArticleSlugKeepsEdgeDashes()
    ensures GenerateSlug(" A ") == "-a-"
  {
    assert ToLowerCase(" A ") == " a ";
    assert KeepSlugChars(" a ") == " a ";
    assert ReplaceRuns(" a ", Whitespace, false) == "-a-";
    assert ReplaceRuns("-a-", Dash, false) == "-a-";
    TrimIdentity("-a-");
  }

  /** Punctuation is dropped and a double space becomes a single '-'. */
  lemma ArticleSlugExample()
    ensures GenerateSlug("A!  B") == "a-b"
  {
    ExampleLowered();
    ExampleKept();
    ExampleDashed();
    ReplaceRunsIdentity("a-b", Dash, false);
    TrimIdentity("a-b");
  }

  /** Helper: the lowercasing step of the example. */
  lemma ExampleLowered()
    ensures ToLowerCase("A!  B") == "a!  b"
  {
  }

  /** Helper: the drop step of the example. */
  lemma ExampleKept()
    ensures KeepSlugChars("a!  b") == "a  b"
  {
    assert KeepSlugChars("b") == "b";
    assert KeepSlugChars("  b") == "  b";
  }

  /** Helper: the space step of the example. */
  lemma ExampleDashed()
    ensures ReplaceRuns("a  b", Whitespace, false) == "a-b"
  {
    assert ReplaceRuns(" b", Whitespace, true) == "b";
  }

  // ---------------------------------------------------------------------------
  // The payload

  /** Submitting fails exactly when no user is signed in. */
  lemma SubmitNeedsUser(form: ArticleForm, user: Option<User>, now: string)
    ensures DeriveArticle(form, user, now).Err? <==> user.None?
  {
  }

  /**
   * The saved slug is the typed one when there is one, and otherwise a slug of the title;
   * the publication time is set exactly for published articles; empty foreign keys become
   * null; the author is the signed-in user; every other field is the form's.
   */
  lemma DeriveArticleFields(form: ArticleForm, u: User, now: string)
    ensures var d := DeriveArticle(form, Some(u), now).value;
      && (form.slug != "" ==> d.slug == form.slug)
      && (form.slug == "" ==> d.slug == GenerateSlug(form.title) && IsSlugText(d.slug) && NoDoubleDash(d.slug))
      && (d.publishedAt.Some? <==> form.status == Published)
      && (d.publishedAt.Some? ==> d.publishedAt.value == now)
      && (d.categoryId.None? <==> form.categoryId == "")
      && (d.categoryId.Some? ==> d.categoryId.value == form.categoryId)
      && (d.stateId.None? <==> form.stateId == "")
      && (d.stateId.Some? ==> d.stateId.value == form.stateId)
      && d.authorId == u.id
      && d.title == form.title && d.summary == form.summary && d.content == form.content
      && d.featuredImageUrl == form.featuredImageUrl && d.status == form.status
      && d.isBreaking == form.isBreaking && d.isFeatured == form.isFeatured
      && d.metaTitle == form.metaTitle && d.metaDescription == form.metaDescription
      && d.metaKeywords == form.metaKeywords
  {
    ArticleSlugAlphabet(form.title);
    ArticleSlugNoDoubleDash(form.title);
  }

  /** Saving a form and opening the stored article for editing gives back the form, with the slug that was saved. */
  lemma SaveThenEdit(form: ArticleForm, u: User, now: string)
    ensures var d := DeriveArticle(form, Some(u), now).value;
      EditForm(Stored(d)) == form.(slug := d.slug)
  {
    EmptyToNullRoundTrip(form.categoryId, None);
    EmptyToNullRoundTrip(form.stateId, None);
  }

  /**
   * Opening a stored article and saving it again without changes keeps its title, slug, text,
   * status and flags; a key survives unless it was stored as empty text; null text columns are
   * written back as empty text.
   */
  lemma EditThenSave(row: ArticleRow, u: User, now: string)
    ensures var d := DeriveArticle(EditForm(row), Some(u), now).value;
      && d.title == row.title && d.content == row.content && d.status == row.status
      && d.isBreaking == row.isBreaking && d.isFeatured == row.isFeatured
      && (row.slug != "" ==> d.slug == row.slug)
      && (d.categoryId == row.categoryId <==> row.categoryId != Some(""))
      && (d.stateId == row.stateId <==> row.stateId != Some(""))
      && (row.summary.None? ==> d.summary == "")
      && (row.summary.Some? ==> d.summary == row.summary.value)
  {
    EmptyToNullRoundTrip("", row.categoryId);
    EmptyToNullRoundTrip("", row.stateId);
  }

  /**
   * A successful save empties every text field and resets the status to draft and both
   * flags to off; a failed one keeps the form. Saving the emptied form again would store
   * a draft with an empty slug and no publication time.
   */
  lemma AfterSubmitResets(form: ArticleForm, saved: bool, u: User, now: string)
    ensures var f := AfterSubmit(form, saved);
      && (saved ==>
           && f.title == "" && f.slug == "" && f.summary == "" && f.content == ""
           && f.featuredImageUrl == "" && f.categoryId == "" && f.stateId == ""
           && f.metaTitle == "" && f.metaDescription == "" && f.metaKeywords == ""
           && f.status == Draft && !f.isBreaking && !f.isFeatured
           && DeriveArticle(f, Some(u), now).value.slug == ""
           && DeriveArticle(f, Some(u), now).value.publishedAt.None?)
      && (!saved ==> f == form)
  {
    if saved {
      assert GenerateSlug("") == "";
    }
  }
}
