# Local rules of the crimson-pulse-news admin and display screens

The repository is a news site whose admin screens forward create, read, update and delete
calls to a hosted database. Inside those screens are a few small rules that run in the
browser before anything is sent or shown. This project models them in Dafny and proves
their properties:

- **Article editor** (`ArticleManager`). The title slugifier `generateSlug`, the payload
  `handleSubmit` builds, and the form `handleEdit` fills in from a stored article.
- **Breaking-news editor** (`BreakingNewsManager`). The second slugifier, the payload, the
  form reset after a save, and the breaking and publish toggles.
- **Video editor** (`VideoManager`). The YouTube id extractor, modelled as a leftmost regex
  search. Also the thumbnail address built from the id, the payload, and the form
  `handleEdit` fills in.
- **Analytics dashboard** (`AnalyticsDashboard`). The 7-bucket day-of-week histogram, the
  per-article counting loop with its sort and top-5 cut, and zero for missing counts.
- **Language context** (`LanguageContext`). The two translation tables, the `en`/`hi`
  switch as a class with a `ToggleLanguage` method, and the lookup that falls back to the key.
- **Breaking-news ticker** (`BreakingNewsTicker`). The rotating index, as a class with
  `Tick` and `SetNews` methods, and the one headline it highlights.

Three modules are shared:

- `Wrappers` holds `Option` (the source's `null`) and `Result` (its thrown errors).
- `JsString` holds the JavaScript string operations the slugs use: `toLowerCase`, the global
  replacement of a run of one character class by one `-`, and `trim`.
- `Content` holds the `article_status` enum, the publication-time rule, and the two
  empty-text/null conversions.

The database, the clock and the timer are inputs:

- The signed-in user is an `Option<User>`.
- Query results are sequences of rows.
- "Now" is a string parameter.
- A day of the week is a `DayIndex` from 0 to 6.
- A tick of the interval timer is a call to `Ticker.Tick`.

The "## Model" table cites each member's lines once. Some rules occur in several places:

- The publication-time rule is also at `src/components/admin/BreakingNewsManager.tsx:58` and `:174`.
- The empty-to-null rule is also at `src/components/admin/VideoManager.tsx:89-90`.
- The form reset is also at `src/components/admin/BreakingNewsManager.tsx:18-24`.

## Model

| member | source | states |
|---|---|---|
| `Content.PublishedAt` | src/components/admin/ArticleManager.tsx:96 | the publication time is set exactly when the status is published, and is then the current time |
| `Content.EmptyToNull` | src/components/admin/ArticleManager.tsx:97-98 | no contract of its own (`key \|\| null`); stated by `Content.EmptyToNullRoundTrip` |
| `Content.NullToEmpty` | src/components/admin/ArticleManager.tsx:158-167 | no contract of its own (`value \|\| ''`); stated by `Content.EmptyToNullRoundTrip` |
| `Content.EmptyToNullRoundTrip` | src/components/admin/ArticleManager.tsx:97-98 | only an empty key becomes null; a saved key read back into the form (`\|\| ''`) is the typed text; a stored key survives a read and a save unless it held the empty text |
| `JsString.LowerChar` | src/components/admin/ArticleManager.tsx:78 | lowercasing turns A-Z into a-z, leaves no capital, and a character is a lowercase letter or digit afterwards exactly when it was an ASCII letter or digit before |
| `JsString.ToLowerCase` | src/components/admin/ArticleManager.tsx:78 | no contract of its own; stated by `JsString.ToLowerCaseHasNoCapitals` and `JsString.ToLowerCaseIdentity` |
| `JsString.ToLowerCaseHasNoCapitals` | src/components/admin/ArticleManager.tsx:78 | lowercased text keeps its length and has no capitals; its letters and digits are exactly the ASCII letters and digits of the input |
| `JsString.ToLowerCaseIdentity` | src/components/admin/BreakingNewsManager.tsx:57 | lowercasing text without capitals changes nothing |
| `JsString.ReplaceRuns` | src/components/admin/ArticleManager.tsx:80-81 | no contract of its own; stated by the `JsString.ReplaceRuns…` rows below |
| `JsString.ReplaceRunsChars` | src/components/admin/ArticleManager.tsx:80-81 | every output character of a run replacement is the inserted '-' or an input character outside the replaced class |
| `JsString.ReplaceRunsKeeps` | src/components/admin/BreakingNewsManager.tsx:57 | every input character outside the replaced class occurs in the output |
| `JsString.ReplaceRunsShape` | src/components/admin/ArticleManager.tsx:81 | when '-' is in the class, the output's only class character is '-', no two class characters are adjacent, and after a run the output does not start with one |
| `JsString.ReplaceRunsIdentity` | src/components/admin/ArticleManager.tsx:80-81 | text whose class characters are isolated '-'s is its own replacement |
| `JsString.ReplaceRunsAllInClass` | src/components/admin/BreakingNewsManager.tsx:57 | text made only of class characters becomes "-", or "" if empty or already inside a run |
| `JsString.Trim` | src/components/admin/ArticleManager.tsx:82 | no contract of its own; stated by `JsString.TrimIdentity` |
| `JsString.TrimIdentity` | src/components/admin/ArticleManager.tsx:82 | `trim` does not change text without whitespace |
| `JsString.ReplaceRunsWords` | src/components/admin/BreakingNewsManager.tsx:57 | replacing runs of a class without letters or digits keeps the words (maximal a-z0-9 runs) in order and each unchanged |
| `JsString.WordsDropDash` | src/components/admin/BreakingNewsManager.tsx:57 | a trailing '-' separates no words: dropping it keeps the words |
| `JsString.JoinedWords` | src/components/admin/BreakingNewsManager.tsx:57 | slug text without '--' and without an edge '-' is exactly its words joined by single '-' |
| `ArticleManager.GenerateSlug` | src/components/admin/ArticleManager.tsx:76-83 | no contract of its own; stated by `ArticleManager.ArticleSlugSteps` to `ArticleManager.ArticleSlugExample` |
| `ArticleManager.KeepSlugChars` | src/components/admin/ArticleManager.tsx:79 | no contract of its own; stated by `ArticleManager.KeepSlugCharsExact` and `ArticleManager.KeepSlugCharsIdentity` |
| `ArticleManager.KeepSlugCharsExact` | src/components/admin/ArticleManager.tsx:79 | the deletion step keeps exactly the characters a-z, 0-9, space and '-' |
| `ArticleManager.KeepSlugCharsIdentity` | src/components/admin/ArticleManager.tsx:79 | slug text passes the deletion step unchanged |
| `ArticleManager.ArticleSlugSteps` | src/components/admin/ArticleManager.tsx:76-83 | before `trim`, the slug is already slug text without '--', so the final `trim` does nothing |
| `ArticleManager.ArticleSlugAlphabet` | src/components/admin/ArticleManager.tsx:78-80 | a generated slug has only a-z, 0-9 and '-' |
| `ArticleManager.ArticleSlugNoDoubleDash` | src/components/admin/ArticleManager.tsx:81 | a generated slug never has two '-' in a row |
| `ArticleManager.ArticleSlugKeepsAlnum` | src/components/admin/ArticleManager.tsx:78-81 | a lowercase letter or digit occurs in the slug exactly when it occurs in the lowercased title (set membership only; `ArticleManager.ArticleSlugWords` states order and multiplicity) |
| `ArticleManager.ArticleSlugWords` | src/components/admin/ArticleManager.tsx:78-82 | the slug's words (maximal a-z0-9 runs) are, in order and each unchanged, those of the lowercased title after the drop step: spaces and dashes only separate them |
| `ArticleManager.ArticleSlugIdempotent` | src/components/admin/ArticleManager.tsx:76-83 | slugging a generated slug returns it unchanged |
| `ArticleManager.ArticleSlugKeepsEdgeDashes` | src/components/admin/ArticleManager.tsx:79-82 | edge dashes survive: " A " becomes "-a-" |
| `ArticleManager.ArticleSlugExample` | src/components/admin/ArticleManager.tsx:76-83 | punctuation is deleted and a double space becomes one '-': "A!  B" becomes "a-b" |
| `ArticleManager.DeriveArticle` | src/components/admin/ArticleManager.tsx:85-99 | no contract of its own; stated by `ArticleManager.SubmitNeedsUser` and `ArticleManager.DeriveArticleFields` |
| `ArticleManager.EditForm` | src/components/admin/ArticleManager.tsx:153-169 | no contract of its own; stated by `ArticleManager.SaveThenEdit` and `ArticleManager.EditThenSave` |
| `ArticleManager.AfterSubmit` | src/components/admin/ArticleManager.tsx:126-142 | no contract of its own; stated by `ArticleManager.AfterSubmitResets` |
| `ArticleManager.SubmitNeedsUser` | src/components/admin/ArticleManager.tsx:89-90 | a submit fails exactly when no user is signed in |
| `ArticleManager.DeriveArticleFields` | src/components/admin/ArticleManager.tsx:92-99 | the payload's slug is the typed slug if non-empty, else a slug of the title (slug text, no '--'); `published_at` is set iff the status is published; an empty category or state key is null and any other is kept; the author is the user; all other fields are the form's |
| `ArticleManager.SaveThenEdit` | src/components/admin/ArticleManager.tsx:153-169 | saving a form and then editing the stored article gives back the form, with the saved slug |
| `ArticleManager.AfterSubmitResets` | src/components/admin/ArticleManager.tsx:126-142 | after a successful save every text field is empty, the status is draft and both flags are off, so saving it again would give an empty slug and no publication time; after a failed one the form is unchanged |
| `ArticleManager.EditThenSave` | src/components/admin/ArticleManager.tsx:153-169 | editing and resaving a stored article keeps title, content, status, flags and a non-empty slug; a key survives iff it was not stored as empty text; a null summary is written back empty |
| `BreakingNewsManager.BreakingSlug` | src/components/admin/BreakingNewsManager.tsx:57 | no contract of its own; stated by `BreakingNewsManager.BreakingSlugShape` to `BreakingNewsManager.BreakingSlugExample` |
| `BreakingNewsManager.StripEdgeDashes` | src/components/admin/BreakingNewsManager.tsx:57 | no contract of its own; stated by `BreakingNewsManager.StripEdgeDashesShape`, `…Keeps` and `…Words` |
| `BreakingNewsManager.CollapsedShape` | src/components/admin/BreakingNewsManager.tsx:57 | after lowercasing and replacing non-alphanumeric runs, the title is slug text without '--' |
| `BreakingNewsManager.StripEdgeDashesShape` | src/components/admin/BreakingNewsManager.tsx:57 | stripping the edges of such text leaves slug text without '--' and without a '-' at either end |
| `BreakingNewsManager.StripEdgeDashesKeeps` | src/components/admin/BreakingNewsManager.tsx:57 | stripping the edges removes only '-' characters |
| `BreakingNewsManager.StripEdgeDashesWords` | src/components/admin/BreakingNewsManager.tsx:57 | stripping the edge dashes keeps the words |
| `BreakingNewsManager.BreakingSlugShape` | src/components/admin/BreakingNewsManager.tsx:57 | the slug has only a-z, 0-9 and '-', never '--', and neither starts nor ends with '-' |
| `BreakingNewsManager.BreakingSlugEmpty` | src/components/admin/BreakingNewsManager.tsx:57 | the slug is empty exactly when the title has no ASCII letter or digit |
| `BreakingNewsManager.BreakingSlugKeepsAlnum` | src/components/admin/BreakingNewsManager.tsx:57 | a lowercase letter or digit occurs in the slug exactly when it occurs in the lowercased title (set membership only; `BreakingNewsManager.BreakingSlugJoinsWords` states the whole slug) |
| `BreakingNewsManager.BreakingSlugWords` | src/components/admin/BreakingNewsManager.tsx:57 | the slug's words are, in order and each unchanged, the words of the lowercased title |
| `BreakingNewsManager.BreakingSlugJoinsWords` | src/components/admin/BreakingNewsManager.tsx:57 | the slug is exactly the words of the lowercased title joined by single '-': each run of other characters becomes one '-', and the edge ones go |
| `BreakingNewsManager.BreakingSlugIdempotent` | src/components/admin/BreakingNewsManager.tsx:57 | slugging a slug returns it unchanged |
| `BreakingNewsManager.BreakingSlugExample` | src/components/admin/BreakingNewsManager.tsx:57 | edge dashes go and a run of punctuation and spaces is one '-': " A, b!" becomes "a-b" |
| `BreakingNewsManager.DeriveBreaking` | src/components/admin/BreakingNewsManager.tsx:51-59 | no contract of its own; stated by `BreakingNewsManager.DeriveBreakingFields` |
| `BreakingNewsManager.EditForm` | src/components/admin/BreakingNewsManager.tsx:105-115 | no contract of its own; stated by `BreakingNewsManager.SaveThenEdit` |
| `BreakingNewsManager.AfterSubmit` | src/components/admin/BreakingNewsManager.tsx:86-94 | no contract of its own; stated by `BreakingNewsManager.AfterSubmitResets` |
| `BreakingNewsManager.DeriveBreakingFields` | src/components/admin/BreakingNewsManager.tsx:55-59 | the payload's slug is always recomputed from the title; `published_at` is set iff the status is published; other fields are the form's |
| `BreakingNewsManager.AfterSubmitResets` | src/components/admin/BreakingNewsManager.tsx:86-94 | after a successful save the text fields are empty, the item is breaking and the status published; after a failed one the form is unchanged |
| `BreakingNewsManager.SaveThenEdit` | src/components/admin/BreakingNewsManager.tsx:105-115 | saving a form and then editing the stored row gives back the same form |
| `BreakingNewsManager.ToggleBreaking` | src/components/admin/BreakingNewsManager.tsx:143-148 | no contract of its own; stated by `BreakingNewsManager.ToggleBreakingInvolution` |
| `BreakingNewsManager.TogglePublish` | src/components/admin/BreakingNewsManager.tsx:167-176 | no contract of its own; stated by `BreakingNewsManager.TogglePublishRule` |
| `BreakingNewsManager.ToggleBreakingInvolution` | src/components/admin/BreakingNewsManager.tsx:143-148 | the breaking toggle always changes the flag, and two toggles restore it |
| `BreakingNewsManager.TogglePublishRule` | src/components/admin/BreakingNewsManager.tsx:167-176 | published becomes draft and any other status becomes published; `published_at` is set iff the new status is published; two toggles restore every status except archived |
| `VideoManager.ExtractVideoId` | src/components/admin/VideoManager.tsx:66-72 | no contract of its own; stated by `VideoManager.ExtractNeedsYoutube` to `VideoManager.WatchLinkRoundTrip` |
| `VideoManager.AltAt` | src/components/admin/VideoManager.tsx:68 | no contract of its own (one alternative of the pattern at one position); stated by `VideoManager.MatchAtPrefix` |
| `VideoManager.MatchAt` | src/components/admin/VideoManager.tsx:68 | no contract of its own (the alternation at one position); stated by `VideoManager.MatchAtPrefix` and `VideoManager.ShortNotWatch` |
| `VideoManager.IdRun` | src/components/admin/VideoManager.tsx:68 | the captured run is a slice of the URL at the given position, has only id characters, and is followed by the end or a non-id character (greedy) |
| `VideoManager.Search` | src/components/admin/VideoManager.tsx:68-69 | there is no match exactly when the pattern matches at no position; otherwise the result is the match at the leftmost position that matches |
| `VideoManager.ExtractNeedsYoutube` | src/components/admin/VideoManager.tsx:66-71 | a type other than 'youtube' gives no id and an empty thumbnail |
| `VideoManager.ExtractedIdIsId` | src/components/admin/VideoManager.tsx:68-69 | an extracted id is non-empty and has none of `&`, `?`, `#` or newline |
| `VideoManager.ExtractNoneIff` | src/components/admin/VideoManager.tsx:68-69 | there is no id exactly when no position has `youtube.com/watch?v=` or `youtu.be/` followed by an id character |
| `VideoManager.IdRunAfter` | src/components/admin/VideoManager.tsx:68 | an id ended by the URL's end or by a non-id character is captured whole |
| `VideoManager.NoMatchBefore` | src/components/admin/VideoManager.tsx:68 | no position before the first 'y' matches |
| `VideoManager.SearchFindsFirst` | src/components/admin/VideoManager.tsx:68-69 | the search returns the first position that matches |
| `VideoManager.MatchAtPrefix` | src/components/admin/VideoManager.tsx:68 | where a prefix of the pattern stands, followed by an id that the URL's end or a non-id character closes, the pattern matches that id there |
| `VideoManager.FirstMatchAt` | src/components/admin/VideoManager.tsx:68-69 | a match after a stretch with no 'y' is the one the search returns |
| `VideoManager.FindsIdAt` | src/components/admin/VideoManager.tsx:68-69 | a prefix with no 'y' before it, followed by an id and then by the end or a non-id character, makes the search return that id |
| `VideoManager.ShortNotWatch` | src/components/admin/VideoManager.tsx:68 | where `youtu.be/` stands, `youtube.com/watch?v=` does not, so the second alternative is tried |
| `VideoManager.ShortLinkRoundTrip` | src/components/admin/VideoManager.tsx:68-69 | extracting from "https://youtu.be/" + id gives back id |
| `VideoManager.WatchLinkRoundTrip` | src/components/admin/VideoManager.tsx:68-69 | extracting from "https://www.youtube.com/watch?v=" + id + "&" + rest gives back id |
| `VideoManager.GenerateThumbnail` | src/components/admin/VideoManager.tsx:74-80 | no contract of its own; stated by `VideoManager.ThumbnailOfId` and `VideoManager.ShortLinkThumbnail` |
| `VideoManager.ThumbnailOfId` | src/components/admin/VideoManager.tsx:74-80 | the thumbnail is "https://img.youtube.com/vi/" + id + "/maxresdefault.jpg" when there is an id, and empty exactly when there is none |
| `VideoManager.ShortLinkThumbnail` | src/components/admin/VideoManager.tsx:74-80 | the thumbnail of a short link names that link's id |
| `VideoManager.DeriveVideo` | src/components/admin/VideoManager.tsx:85-91 | no contract of its own; stated by `VideoManager.DeriveVideoFields` |
| `VideoManager.EditForm` | src/components/admin/VideoManager.tsx:139-151 | no contract of its own; stated by `VideoManager.SaveThenEdit` |
| `VideoManager.AfterSubmit` | src/components/admin/VideoManager.tsx:118-128 | no contract of its own; stated by `VideoManager.AfterSubmitResets` |
| `VideoManager.AfterSubmitResets` | src/components/admin/VideoManager.tsx:118-128 | after a successful save every text field is empty and the type is YouTube again, so the form has no id and generates no thumbnail; after a failed one the form is unchanged |
| `VideoManager.SaveThenEdit` | src/components/admin/VideoManager.tsx:139-151 | saving a form and then editing the stored video gives back the form with the saved thumbnail, and exactly the form when a thumbnail was typed |
| `VideoManager.DeriveVideoFields` | src/components/admin/VideoManager.tsx:86-91 | a non-empty typed thumbnail is kept and only an empty one is replaced by the generated one; empty keys become null; other fields are the form's |
| `AnalyticsDashboard.CountDaysAddUp` | src/components/admin/AnalyticsDashboard.tsx:83-87 | the seven day counts add up to the number of views |
| `AnalyticsDashboard.ProcessWeeklyData` | src/components/admin/AnalyticsDashboard.tsx:79-90 | exactly seven buckets labelled Sun to Sat in order; bucket d counts the views on day d; the buckets sum to the number of views |
| `AnalyticsDashboard.Counted` | src/components/admin/AnalyticsDashboard.tsx:96 | no contract of its own (the truthiness test of the id and the title); stated by `AnalyticsDashboard.CountSkip` and `AnalyticsDashboard.CountViews` |
| `AnalyticsDashboard.FirstTitleIsFirst` | src/components/admin/AnalyticsDashboard.tsx:97-103 | an article has a recorded title iff it has a view, and the title is that of its earliest counted row |
| `AnalyticsDashboard.FirstIndex` | src/components/admin/AnalyticsDashboard.tsx:97-103 | the position of an article's first counted row is within the rows exactly when the article has a view |
| `AnalyticsDashboard.FirstIndexIsFirst` | src/components/admin/AnalyticsDashboard.tsx:97-103 | that position holds a counted row of the article, and no earlier row counts for it |
| `AnalyticsDashboard.CountStep` | src/components/admin/AnalyticsDashboard.tsx:95-106 | one more row adds one view to its article only if it is counted, sets the title only if none was set, and fixes the first position only if none was fixed |
| `AnalyticsDashboard.CountSkip` | src/components/admin/AnalyticsDashboard.tsx:96 | a row without an article id or a title changes nothing in the counting state |
| `AnalyticsDashboard.CountAgain` | src/components/admin/AnalyticsDashboard.tsx:97-98 | a further row of an article already counted adds one to its views and keeps its title and the key order |
| `AnalyticsDashboard.CountFirst` | src/components/admin/AnalyticsDashboard.tsx:99-103 | the first row of an article adds its entry with one view and the row's title, as the last key in the order |
| `AnalyticsDashboard.CountViews` | src/components/admin/AnalyticsDashboard.tsx:92-106 | the counting map has an entry exactly for the articles with a counted row; each entry has the article's view count and first title; the key order lists each article once, in order of first counted row |
| `AnalyticsDashboard.InsertByViews` | src/components/admin/AnalyticsDashboard.tsx:109 | insertion adds exactly the one element |
| `AnalyticsDashboard.SortByViews` | src/components/admin/AnalyticsDashboard.tsx:109 | the sort only permutes |
| `AnalyticsDashboard.InsertByViewsSorted` | src/components/admin/AnalyticsDashboard.tsx:109 | inserting into a list sorted by non-increasing views keeps it sorted |
| `AnalyticsDashboard.SortByViewsSorted` | src/components/admin/AnalyticsDashboard.tsx:109 | the sort orders by non-increasing views |
| `AnalyticsDashboard.DistinctOnce` | src/components/admin/AnalyticsDashboard.tsx:108 | no element occurs twice in a duplicate-free list |
| `AnalyticsDashboard.DistinctPermutation` | src/components/admin/AnalyticsDashboard.tsx:108-109 | a permutation of a duplicate-free list is duplicate-free, so sorting keeps one entry per article |
| `AnalyticsDashboard.Entries` | src/components/admin/AnalyticsDashboard.tsx:108 | one entry per kept id, in the order of the ids, each the counted entry of its article |
| `AnalyticsDashboard.PrefixOf` | src/components/admin/AnalyticsDashboard.tsx:110 | the first five of the sorted list are duplicate-free, sorted, and all counted |
| `AnalyticsDashboard.TopEntries` | src/components/admin/AnalyticsDashboard.tsx:108-110 | each kept entry holds its article's views and first title, in non-increasing order of views |
| `AnalyticsDashboard.TopKBound` | src/components/admin/AnalyticsDashboard.tsx:108-110 | an article with views that is missing from the first five of the sorted list means the list is full, and the article has no more views than the fifth entry |
| `AnalyticsDashboard.TopFacts` | src/components/admin/AnalyticsDashboard.tsx:108-110 | the sort and the cut to five keep at most five entries, one per article, sorted, with the counted views and titles, and leave out only articles with no more views than the last of a full list |
| `AnalyticsDashboard.ProcessTopArticles` | src/components/admin/AnalyticsDashboard.tsx:92-111 | at most five entries, one per article, in non-increasing order of views; each entry's views are its article's counted rows and its title is the first such row's; an article left out of the list means the list is full and the article has no more views than the last entry |
| `AnalyticsDashboard.CountOrZero` | src/components/admin/AnalyticsDashboard.tsx:66-67 | no contract of its own (`count \|\| 0`); stated by `AnalyticsDashboard.SummarizeAnalytics` |
| `AnalyticsDashboard.SummarizeAnalytics` | src/components/admin/AnalyticsDashboard.tsx:65-71 | a missing total or today count is shown as 0; missing row lists give seven buckets with zero views each and an empty top list; views by category are always empty |
| `LanguageContext.LanguageProvider.constructor` | src/contexts/LanguageContext.tsx:72 | the provider starts in English |
| `LanguageContext.LanguageProvider.ToggleLanguage` | src/contexts/LanguageContext.tsx:74-76 | the language becomes the other one |
| `LanguageContext.Toggled` | src/contexts/LanguageContext.tsx:74-76 | no contract of its own; stated by `LanguageContext.ToggledInvolution` |
| `LanguageContext.ToggledInvolution` | src/contexts/LanguageContext.tsx:74-76 | toggling always changes the language, and toggling twice is the identity |
| `LanguageContext.ToggleTwice` | src/contexts/LanguageContext.tsx:74-80 | two toggles of a provider restore its language and every lookup |
| `LanguageContext.TablesAgreeOnKeys` | src/contexts/LanguageContext.tsx:12-55 | the en and hi tables have the same keys, and no entry is empty |
| `LanguageContext.EntriesDifferFromKeys` | src/contexts/LanguageContext.tsx:12-55 | no entry of either table equals its key |
| `LanguageContext.Translate` | src/contexts/LanguageContext.tsx:78-80 | no contract of its own; stated by `LanguageContext.TranslateLookup` and `LanguageContext.TranslatableInBoth` |
| `LanguageContext.LanguageProvider.T` | src/contexts/LanguageContext.tsx:78-80 | no contract of its own (the lookup in the provider's language); stated by `LanguageContext.ToggleTwice` |
| `LanguageContext.TranslateLookup` | src/contexts/LanguageContext.tsx:78-80 | a key in the table returns its entry; any other key returns itself |
| `LanguageContext.TranslatableInBoth` | src/contexts/LanguageContext.tsx:78-80 | a key translates (to something other than itself) in English iff it does in Hindi, iff it is a table key |
| `BreakingNewsTicker.Ticker.constructor` | src/components/news/BreakingNewsTicker.tsx:11 | the index starts at 0 |
| `BreakingNewsTicker.Ticker.Tick` | src/components/news/BreakingNewsTicker.tsx:14-18 | a tick sets the index to (index + 1) mod n and lands in range; with an empty list nothing changes; the length stays |
| `BreakingNewsTicker.Ticker.SetNews` | src/components/news/BreakingNewsTicker.tsx:13-21 | a new list changes the length but not the index |
| `BreakingNewsTicker.NextIndex` | src/components/news/BreakingNewsTicker.tsx:14-17 | no contract of its own; stated by `BreakingNewsTicker.NextIndexInRange` and `BreakingNewsTicker.WrapsToFirst` |
| `BreakingNewsTicker.NextIndexInRange` | src/components/news/BreakingNewsTicker.tsx:17 | with headlines, one tick brings any index, even one too large, into range |
| `BreakingNewsTicker.NoNewsNoChange` | src/components/news/BreakingNewsTicker.tsx:14 | with no headlines, any number of ticks leaves the index alone |
| `BreakingNewsTicker.AfterTicksAdd` | src/components/news/BreakingNewsTicker.tsx:17 | a + b ticks are a ticks followed by b ticks |
| `BreakingNewsTicker.AfterTicksAdvance` | src/components/news/BreakingNewsTicker.tsx:17 | before the end of the list, k ticks move the index on by k |
| `BreakingNewsTicker.WrapsToFirst` | src/components/news/BreakingNewsTicker.tsx:17 | from an index in range, the tick after the last headline goes back to 0 |
| `BreakingNewsTicker.AfterTicksInRange` | src/components/news/BreakingNewsTicker.tsx:17 | an index in range stays in range for any number of ticks |
| `BreakingNewsTicker.FullCycle` | src/components/news/BreakingNewsTicker.tsx:17 | n ticks return an index in range to where it started |
| `BreakingNewsTicker.Ticker.IsHighlighted` | src/components/news/BreakingNewsTicker.tsx:40 | a headline of the list is highlighted in the ticker's state exactly as the highlight flags for its index and length say |
| `BreakingNewsTicker.Highlights` | src/components/news/BreakingNewsTicker.tsx:35-41 | no contract of its own; stated by `BreakingNewsTicker.HighlightsOne` |
| `BreakingNewsTicker.HighlightsOne` | src/components/news/BreakingNewsTicker.tsx:40 | there is one highlight flag per headline; when the index is in range, exactly the headline at the index is highlighted |
| `BreakingNewsTicker.ShrinkKeepsIndex` | src/components/news/BreakingNewsTicker.tsx:13-21 | the index is not reset when the list shrinks: at index 2, going from three headlines to two highlights none until the next tick, which goes to 1 |

## Left out

- Database and authentication calls. Query results, the signed-in user and the success of a
  save are inputs. The fetch, insert, update and delete round trips, `handleDelete`, and the
  error toasts are not modelled. `Stored` stands for the database storing a payload as given.
- UI: toasts, `confirm`, `console` logging, navigation and JSX rendering. The only rendering
  rule modelled is the ticker highlight. Of the editors' React state updates, the model
  covers only the forms: the `handleEdit` fill-ins of the three editors (`EditForm`) and their
  resets after a successful save (`AfterSubmit`). The `setShowForm`, `setEditingArticle`
  and `setEditingVideo` calls are not modelled.
- The clock and time zones. "Now" is a parameter. `processWeeklyData` takes day indices
  instead of timestamps; the source would throw on an invalid date, where `getDay()` gives NaN.
- The interval timer. A tick is an explicit `Tick` call, and `SetNews` stands for the effect
  re-running when the list length changes.
- Unicode `toLowerCase`. `LowerChar` maps only A-Z. Other characters that JavaScript would
  lowercase into a-z, such as the Kelvin sign, are left as they are.
- AnalyticsDashboard.SortByViews: ties are ordered in a fixed, stable way, but no contract
  states that order. The source promises only non-increasing views.
- AnalyticsDashboard.ProcessTopArticles: returns a ghost `ids` list naming each entry's
  article. The source's entries carry only title and views.
- The entry order of `Object.values` for integer-like keys. The model assumes that article
  ids are not integer-like, for example UUIDs; no source file in this model fixes their
  type. `Object.values` then returns entries in first-insertion order, which
  `CountViews` states. No contract of `ProcessTopArticles` depends on that order, because
  the order of ties is unspecified.
- Inherited properties of plain objects. In `t`, a key such as `constructor` would find a
  member inherited by the table object. In `processTopArticles`, an article id such as
  `constructor` would find an inherited member of `articleCounts`
  (`src/components/admin/AnalyticsDashboard.tsx:97`). The model treats both as plain maps.
- AnalyticsDashboard.SummarizeAnalytics: for the top list, it states only the bound, the
  order, and the empty result when rows are missing. `ProcessTopArticles` states the contents.
- `LiveStreamManager`, the role checks in `Admin.tsx` and `Auth.tsx`, the counters of
  `AdminDashboard`, newsletter duplicate detection, `Index.tsx`, and the display-only news
  components. They are outside the core this project models.
