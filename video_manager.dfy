/**
 * The video editor's local rules: the YouTube id extractor (the regular expression
 * `(?:youtube\.com\/watch\?v=|youtu\.be\/)([^&\n?#]+)`), the thumbnail built from the id,
 * and the payload built from the form on submit.
 */
module VideoManager {
  import opened Wrappers
  import opened Content

  const WatchPrefix := "youtube.com/watch?v="
  const ShortPrefix := "youtu.be/"
  const ThumbnailHost := "https://img.youtube.com/vi/"
  const ThumbnailFile := "/maxresdefault.jpg"

  /** The characters an id may hold: anything but `&`, newline, `?` and `#`. */
  predicate IsIdChar(c: char) {
    c != '&' && c != '\n' && c != '?' && c != '#'
  }

  predicate IsVideoId(id: string) {
    |id| > 0 && forall i :: 0 <= i < |id| ==> IsIdChar(id[i])
  }

  /** `prefix` occurs in `url` at position `p`. */
  predicate OccursAt(url: string, p: nat, prefix: string) {
    p + |prefix| <= |url| && url[p..p + |prefix|] == prefix
  }

  /** The longest run of id characters starting at position `p` (the greedy `[^&\n?#]+`). */
  function IdRun(url: string, p: nat): (r: string)
    requires p <= |url|
    ensures p + |r| <= |url| && r == url[p..p + |r|]
    ensures forall i :: 0 <= i < |r| ==> IsIdChar(r[i])
    ensures p + |r| < |url| ==> !IsIdChar(url[p + |r|])
    decreases |url| - p
  {
    if p < |url| && IsIdChar(url[p]) then [url[p]] + IdRun(url, p + 1) else ""
  }

  /** One alternative of the pattern tried at position `p`: the prefix, then at least one id character. */
  function AltAt(url: string, p: nat, prefix: string): Option<string> {
    var start := p + |prefix|;
    if OccursAt(url, p, prefix) && start < |url| && IsIdChar(url[start]) then Some(IdRun(url, start)) else None
  }

  /** The pattern tried at position `p`: the `watch?v=` alternative first, then the `youtu.be/` one. */
  function MatchAt(url: string, p: nat): Option<string> {
    match AltAt(url, p, WatchPrefix)
    case Some(id) => Some(id)
    case None => AltAt(url, p, ShortPrefix)
  }

  /** The leftmost match at or after position `p`, as `String.prototype.match` finds it. */
  function Search(url: string, p: nat): (r: Option<string>)
    requires p <= |url|
    ensures r.None? <==> forall q :: p <= q <= |url| ==> MatchAt(url, q).None?
    ensures r.Some? ==>
      exists q :: p <= q <= |url| && MatchAt(url, q) == r && forall q' :: p <= q' < q ==> MatchAt(url, q').None?
    decreases |url| - p
  {
    var here := MatchAt(url, p);
    if here.Some? then here
    else if p == |url| then None
    else Search(url, p + 1)
  }

  /** `extractVideoId`: the captured id, or null. */
  function ExtractVideoId(url: string, videoType: string): Option<string> {
    if videoType == "youtube" then Search(url, 0) else None
  }

  /** `generateThumbnail`: the high-resolution still of the video, or the empty text. */
  function GenerateThumbnail(url: string, videoType: string): string {
    if videoType == "youtube" then
      match ExtractVideoId(url, videoType)
      case Some(id) => ThumbnailHost + id + ThumbnailFile
      case None => ""
    else ""
  }

  /** The editor's form state. */
  datatype VideoForm = VideoForm(
    title: string,
    description: string,
    videoUrl: string,
    videoType: string,
    thumbnailUrl: string,
    categoryId: string,
    stateId: string)

  /** The form when the editor opens and after every successful save. */
  const InitialForm := VideoForm("", "", "", "youtube", "", "", "")

  /** The row sent to the `videos` table on insert or update. */
  datatype VideoData = VideoData(
    title: string,
    description: string,
    videoUrl: string,
    videoType: string,
    thumbnailUrl: string,
    categoryId: Option<string>,
    stateId: Option<string>)

  /** `handleSubmit`: the payload. */
  function DeriveVideo(form: VideoForm): VideoData {
    VideoData(
      form.title, form.description, form.videoUrl, form.videoType,
      if form.thumbnailUrl != "" then form.thumbnailUrl else GenerateThumbnail(form.videoUrl, form.videoType),
      EmptyToNull(form.categoryId), EmptyToNull(form.stateId))
  }

  /** A row of the `videos` table, with its nullable columns. */
  datatype VideoRow = VideoRow(
    title: string,
    description: Option<string>,
    videoUrl: string,
    videoType: string,
    thumbnailUrl: Option<string>,
    categoryId: Option<string>,
    stateId: Option<string>)

  /** `handleEdit`: the form filled in from a stored row, nulls read as empty text. */
  function EditForm(row: VideoRow): VideoForm {
    VideoForm(
      row.title, NullToEmpty(row.description), row.videoUrl, row.videoType,
      NullToEmpty(row.thumbnailUrl), NullToEmpty(row.categoryId), NullToEmpty(row.stateId))
  }

  /** The row the database holds once `data` has been written. */
  function Stored(data: VideoData): VideoRow {
    VideoRow(
      data.title, Some(data.description), data.videoUrl, data.videoType,
      Some(data.thumbnailUrl), data.categoryId, data.stateId)
  }

  /** The form after a submit: reset when the save went through, left as it was when it failed. */
  function AfterSubmit(form: VideoForm, saved: bool): VideoForm {
    if saved then InitialForm else form
  }

  // ---------------------------------------------------------------------------
  // Properties

  /** Only YouTube videos have an id. */
  lemma ExtractNeedsYoutube(url: string, videoType: string)
    ensures videoType != "youtube" ==> ExtractVideoId(url, videoType).None?
    ensures videoType != "youtube" ==> GenerateThumbnail(url, videoType) == ""
  {
  }

  /** An extracted id is non-empty and holds none of `&`, `?`, `#` and newline. */
  lemma ExtractedIdIsId(url: string, videoType: string)
    ensures ExtractVideoId(url, videoType).Some? ==> IsVideoId(ExtractVideoId(url, videoType).value)
  {
    var r := ExtractVideoId(url, videoType);
    if r.Some? {
      var q :| 0 <= q <= |url| && MatchAt(url, q) == r;
    }
  }

  /**
   * There is no id exactly when no position of the URL holds `youtube.com/watch?v=` or
   * `youtu.be/` followed by an id character.
   */
  lemma ExtractNoneIff(url: string)
    ensures ExtractVideoId(url, "youtube").None? <==>
      forall p :: 0 <= p <= |url| ==>
        !(OccursAt(url, p, WatchPrefix) && p + |WatchPrefix| < |url| && IsIdChar(url[p + |WatchPrefix|]))
        && !(OccursAt(url, p, ShortPrefix) && p + |ShortPrefix| < |url| && IsIdChar(url[p + |ShortPrefix|]))
  {
    forall p | 0 <= p <= |url|
      ensures MatchAt(url, p).None? <==>
        !(OccursAt(url, p, WatchPrefix) && p + |WatchPrefix| < |url| && IsIdChar(url[p + |WatchPrefix|]))
        && !(OccursAt(url, p, ShortPrefix) && p + |ShortPrefix| < |url| && IsIdChar(url[p + |ShortPrefix|]))
    {
    }
  }

  /** Where `id` stands in the URL, followed by its end or by a character outside ids, the run found there is `id`. */
  lemma {:induction false} IdRunAfter(url: string, start: nat, id: string)
    requires IsVideoId(id) && start + |id| <= |url| && url[start..start + |id|] == id
    requires start + |id| < |url| ==> !IsIdChar(url[start + |id|])
    ensures IdRun(url, start) == id
    decreases |id|
  {
    assert url[start] == id[0];
    if |id| > 1 {
      assert url[start + 1..start + |id|] == id[1..];
      IdRunAfter(url, start + 1, id[1..]);
    }
  }

  /** Helper: a prefix starting with 'y' does not occur where the URL has another character. */
  lemma PrefixNotAt(url: string, q: nat, prefix: string)
    requires q < |url| && url[q] != 'y' && |prefix| > 0 && prefix[0] == 'y'
    ensures !OccursAt(url, q, prefix)
  {
    if q + |prefix| <= |url| {
      assert url[q..q + |prefix|][0] == url[q];
    }
  }

  /** No position before `k` can start either prefix when none of the first `k` characters is a 'y'. */
  lemma NoMatchBefore(url: string, k: nat)
    requires k <= |url|
    requires forall i :: 0 <= i < k ==> url[i] != 'y'
    ensures forall q :: 0 <= q < k ==> MatchAt(url, q).None?
  {
    forall q | 0 <= q < k
      ensures MatchAt(url, q).None?
    {
      PrefixNotAt(url, q, WatchPrefix);
      PrefixNotAt(url, q, ShortPrefix);
    }
  }

  /**
   * Where `prefix` stands at position `k`, with no 'y' before it, followed by `id` and then
   * by the end of the URL or a character outside ids, the search finds `id`.
   */
  lemma FindsIdAt(url: string, k: nat, prefix: string, id: string)
    requires prefix == WatchPrefix || prefix == ShortPrefix
    requires IsVideoId(id)
    requires k + |prefix| + |id| <= |url|
    requires url[k..k + |prefix|] == prefix && url[k + |prefix|..k + |prefix| + |id|] == id
    requires k + |prefix| + |id| < |url| ==> !IsIdChar(url[k + |prefix| + |id|])
    requires forall i :: 0 <= i < k ==> url[i] != 'y'
    requires prefix == ShortPrefix ==> !OccursAt(url, k, WatchPrefix)
    ensures Search(url, 0) == Some(id)
  {
    MatchAtPrefix(url, k, prefix, id);
    FirstMatchAt(url, k, id);
  }

  /** Where `prefix` stands at position `k` followed by `id`, the pattern matches `id` there. */
  lemma MatchAtPrefix(url: string, k: nat, prefix: string, id: string)
    requires prefix == WatchPrefix || prefix == ShortPrefix
    requires IsVideoId(id)
    requires k + |prefix| + |id| <= |url|
    requires url[k..k + |prefix|] == prefix && url[k + |prefix|..k + |prefix| + |id|] == id
    requires k + |prefix| + |id| < |url| ==> !IsIdChar(url[k + |prefix| + |id|])
    requires prefix == ShortPrefix ==> !OccursAt(url, k, WatchPrefix)
    ensures MatchAt(url, k) == Some(id)
  {
    var start := k + |prefix|;
    IdRunAfter(url, start, id);
    assert url[start] == id[0];
    assert AltAt(url, k, prefix) == Some(id);
  }

  /** With no 'y' before position `k`, a match at `k` is the one the search finds. */
  lemma FirstMatchAt(url: string, k: nat, id: string)
    requires k <= |url| && MatchAt(url, k) == Some(id)
    requires forall i :: 0 <= i < k ==> url[i] != 'y'
    ensures Search(url, 0) == Some(id)
  {
    NoMatchBefore(url, k);
    SearchFindsFirst(url, 0, k);
  }

  /** Where the parts of `head + prefix + id + tail` stand. */
  lemma LinkParts(head: string, prefix: string, id: string, tail: string)
    ensures |head| + |prefix| + |id| <= |head + prefix + id + tail|
    ensures (head + prefix + id + tail)[|head|..|head| + |prefix|] == prefix
    ensures (head + prefix + id + tail)[|head| + |prefix|..|head| + |prefix| + |id|] == id
    ensures tail != [] ==> (head + prefix + id + tail)[|head| + |prefix| + |id|] == tail[0]
    ensures forall i :: 0 <= i < |head| ==> (head + prefix + id + tail)[i] == head[i]
  {
    var url := head + prefix + id + tail;
    assert url == head + prefix + (id + tail);
    assert url[..|head| + |prefix|] == head + prefix;
    assert url[|head| + |prefix|..] == id + tail;
  }

  /** Building a short link from an id and extracting gives the id back. */
  lemma ShortLinkRoundTrip(id: string)
    requires IsVideoId(id)
    ensures ExtractVideoId("https://youtu.be/" + id, "youtube") == Some(id)
  {
    var head := "https://";
    var url := head + ShortPrefix + id + "";
    assert url == "https://youtu.be/" + id;
    LinkParts(head, ShortPrefix, id, "");
    ShortNotWatch(url, |head|);
    FindsIdAt(url, |head|, ShortPrefix, id);
  }

  /** The watch prefix does not occur where the short prefix does. */
  lemma ShortNotWatch(url: string, k: nat)
    requires k + |ShortPrefix| <= |url| && url[k..k + |ShortPrefix|] == ShortPrefix
    ensures !OccursAt(url, k, WatchPrefix)
  {
    assert url[k..k + |ShortPrefix|][5] == url[k + 5];
    if k + |WatchPrefix| <= |url| {
      assert url[k..k + |WatchPrefix|][5] == url[k + 5];
    }
  }

  /** Building a watch link from an id, with more parameters after `&`, and extracting gives the id back. */
  lemma WatchLinkRoundTrip(id: string, rest: string)
    requires IsVideoId(id)
    ensures ExtractVideoId("https://www.youtube.com/watch?v=" + id + "&" + rest, "youtube") == Some(id)
  {
    var head := "https://www.";
    var url := head + WatchPrefix + id + ("&" + rest);
    assert "https://www.youtube.com/watch?v=" + id + "&" + rest == url;
    LinkParts(head, WatchPrefix, id, "&" + rest);
    FindsIdAt(url, |head|, WatchPrefix, id);
  }

  /** The search returns the match at `k` when no earlier position from `p` on matches. */
  lemma {:induction false} SearchFindsFirst(url: string, p: nat, k: nat)
    requires p <= k <= |url|
    requires MatchAt(url, k).Some?
    requires forall q :: p <= q < k ==> MatchAt(url, q).None?
    ensures Search(url, p) == MatchAt(url, k)
    decreases k - p
  {
    if p < k {
      SearchFindsFirst(url, p + 1, k);
    }
  }

  /** The generated thumbnail is the still of the extracted id, and empty when there is none. */
  lemma ThumbnailOfId(url: string, videoType: string)
    ensures ExtractVideoId(url, videoType).Some? ==>
      GenerateThumbnail(url, videoType) == ThumbnailHost + ExtractVideoId(url, videoType).value + ThumbnailFile
    ensures ExtractVideoId(url, videoType).None? <==> GenerateThumbnail(url, videoType) == ""
  {
  }

  /** The thumbnail of a short link names the link's id. */
  lemma ShortLinkThumbnail(id: string)
    requires IsVideoId(id)
    ensures GenerateThumbnail("https://youtu.be/" + id, "youtube") == "https://img.youtube.com/vi/" + id + "/maxresdefault.jpg"
  {
    ShortLinkRoundTrip(id);
  }

  /**
   * A typed thumbnail is kept and only an empty one is replaced by the generated still;
   * empty foreign keys become null; the other fields are the form's.
   */
  lemma DeriveVideoFields(form: VideoForm)
    ensures var d := DeriveVideo(form);
      && (form.thumbnailUrl != "" ==> d.thumbnailUrl == form.thumbnailUrl)
      && (form.thumbnailUrl == "" ==> d.thumbnailUrl == GenerateThumbnail(form.videoUrl, form.videoType))
      && (d.categoryId.None? <==> form.categoryId == "")
      && (d.categoryId.Some? ==> d.categoryId.value == form.categoryId)
      && (d.stateId.None? <==> form.stateId == "")
      && (d.stateId.Some? ==> d.stateId.value == form.stateId)
      && d.title == form.title && d.description == form.description
      && d.videoUrl == form.videoUrl && d.videoType == form.videoType
  {
  }

  /**
   * A successful save empties every text field and selects YouTube again, so the emptied
   * form has no video id and generates no thumbnail; a failed one keeps the form.
   */
  lemma AfterSubmitResets(form: VideoForm, saved: bool)
    ensures var f := AfterSubmit(form, saved);
      && (saved ==>
           && f.title == "" && f.description == "" && f.videoUrl == "" && f.videoType == "youtube"
           && f.thumbnailUrl == "" && f.categoryId == "" && f.stateId == ""
           && ExtractVideoId(f.videoUrl, f.videoType).None?
           && DeriveVideo(f).thumbnailUrl == "")
      && (!saved ==> f == form)
  {
  }

  /**
   * Saving a form and opening the stored video for editing gives back the form, with the
   * thumbnail that was saved: the typed one, or the generated one when none was typed.
   */
  lemma SaveThenEdit(form: VideoForm)
    ensures EditForm(Stored(DeriveVideo(form))) == form.(thumbnailUrl := DeriveVideo(form).thumbnailUrl)
    ensures form.thumbnailUrl != "" ==> EditForm(Stored(DeriveVideo(form))) == form
  {
    EmptyToNullRoundTrip(form.categoryId, None);
    EmptyToNullRoundTrip(form.stateId, None);
  }
}
