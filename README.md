# PrepaClassics progress and catalogue core, in Dafny

This project models the small rules at the heart of the PrepaClassics site,
a catalogue of maths exercise sheets whose visitors tick off the
sub-exercises ("bubbles") of each sheet:

- **ExerciseList** (`app/components/ExerciseList.tsx`). It filters the
  catalogue by one of seven category buttons. It also keeps a per-bubble
  status map (`todo`, `done`, `review`): a toggle moves a bubble along the
  cycle todo → done → review → todo, writes the new value at once, and
  writes the old value back when the upsert throws.
- **Tracker** (`app/components/Tracker.tsx`). It keeps the set of done
  bubbles of one sheet. A toggle flips one index at once, then either
  schedules a revert (nobody signed in) or sends a delete or an upsert,
  undoing the flip when that write fails. It also clamps the number of
  bubbles shown to at least one.
- **ClientPage** (`app/components/ClientPage.tsx`). It builds the map from
  sheet id to number of done bubbles and applies the immediate update. It
  derives the global, per-chapter and per-chapter-and-level totals, using
  the accent- and case-insensitive `sup`/`spe` level rule.
- **CountPdfExos** (`scripts/count_pdf_exos.py`). It estimates the number of
  exercises in a PDF's text: the largest "Exercice N", otherwise a word
  count, halved when "Correction" appears. It updates a row only when its
  stored count differs.
- **Scraper** (`scripts/scraper.py`). It derives a listing page's niveau,
  kind of chapter and chapter name from its URL. It keeps the links ending
  in `.pdf` and emits one record per such link, in page order.

Two further modules support the others:

- **Common**: `Option` and sequence helpers.
- **Text**: the string operations of Python and JavaScript the sources use.
  These are substring tests, case mapping, accent folding, `strip`,
  `split('/')[-1]`, `replace` and `capitalize`.

**Catalogue** holds the records the pages share.

Code that works by updating state takes an imperative form:

- `ExerciseList.ExerciseListView`, `Tracker.TrackerView` and
  `ClientPage.ProgressSummary` are classes whose methods update their fields.
- The `forEach` loops are methods with loop invariants. Each is proved equal
  to a specification function, and that function's properties are proved as
  lemmas.

The database, the authentication service, the HTTP client and the PDF reader
are not modelled. Each call's outcome is a parameter instead: the rows a
query returned, whether a write threw or failed, and the links or text a
download produced.

## Model

| member | source | states |
|---|---|---|
| Catalogue.ChapterKey | app/components/ClientPage.tsx:88 | a sheet's chapter bucket is never empty; it is the sheet's chapter when that is set, and 'Autre' otherwise |
| ExerciseList.Selects | app/components/ExerciseList.tsx:68-81 | no selection or an empty one accepts every sheet; a non-empty label that accepts a sheet is one of the seven categories; a combined label accepts only Sup or Spé sheets |
| ExerciseList.FilterExercises | app/components/ExerciseList.tsx:67-82 | a sheet is shown exactly when it is in the catalogue and the selected category accepts it; nothing is added |
| ExerciseList.FilterIsSubsequence | app/components/ExerciseList.tsx:67-82 | the shown sheets are an order-preserving subsequence of the catalogue |
| ExerciseList.NoSelectionShowsAll | app/components/ExerciseList.tsx:68 | with no category selected (or the empty label), the whole catalogue is shown, unchanged and in order |
| ExerciseList.FilterIdempotent | app/components/ExerciseList.tsx:67-82 | filtering the shown sheets again with the same label changes nothing |
| ExerciseList.OrauxShowsOralSheets | app/components/ExerciseList.tsx:69-71 | "Oraux" shows exactly the catalogue's sheets whose niveau is "Oral" |
| ExerciseList.CombinedLabelShows | app/components/ExerciseList.tsx:73-80 | each of the six combined labels accepts a sheet exactly when both its chapter and its niveau match; the Probas labels accept "Probas" and "Probabilités" |
| ExerciseList.UnknownLabelShowsNothing | app/components/ExerciseList.tsx:81 | a non-empty label outside the seven shows no sheet at all |
| ExerciseList.AtMostOneCategory | app/components/ExerciseList.tsx:69-81 | no sheet is shown under two different category buttons |
| ExerciseList.SingleSheetScenario | app/components/ExerciseList.tsx:67-82 | an Algèbre Sup sheet is shown under "Algèbre Sup" and not under "Oraux" |
| ExerciseList.NextStatus | app/components/ExerciseList.tsx:87 | the next status always differs from the current one; todo goes to done and done goes to review |
| ExerciseList.StatusCycle | app/components/ExerciseList.tsx:87 | three steps of the cycle give back the starting status, and the cycle passes through all three statuses |
| ExerciseList.Toggled | app/components/ExerciseList.tsx:85-88 | the toggled bubble (a missing entry read as todo) moves to its next status; every other bubble keeps its status |
| ExerciseList.ThreeTogglesRestore | app/components/ExerciseList.tsx:86-88 | three toggles of one bubble restore its status and leave every other bubble's status as it was |
| ExerciseList.LoadedProgressIsLastRow | app/components/ExerciseList.tsx:41-44 | after the load, a bubble has an entry exactly when a row is about it, and its status is that of the last such row (null read as todo) |
| ExerciseList.BuildProgressMap | app/components/ExerciseList.tsx:41-44 | the loop builds exactly the map the row-by-row writes define |
| ExerciseList.ExerciseListView.constructor | app/components/ExerciseList.tsx:10-14 | the page starts with no selection and an empty progress map |
| ExerciseList.ExerciseListView.Shown | app/components/ExerciseList.tsx:67-82 | the rendered sheets are a subsequence of the catalogue |
| ExerciseList.ExerciseListView.SelectCategory | app/components/ExerciseList.tsx:107-117 | a category button or the reset button sets the selection and leaves the progress map alone |
| ExerciseList.ExerciseListView.LoadProgress | app/components/ExerciseList.tsx:21-46 | with a client, a signed-in email and a non-empty catalogue, the map becomes the one the rows define (no data read as no rows); otherwise it is unchanged |
| ExerciseList.ExerciseListView.ToggleBubble | app/components/ExerciseList.tsx:84-96 | the bubble's next status is written at once and nothing else moves; with a client, the upsert carries the new status and the old status is kept for a rollback; without a client nothing is sent |
| ExerciseList.ExerciseListView.SettleToggle | app/components/ExerciseList.tsx:97-100 | when the upsert throws, the bubble gets back the status read before the toggle; otherwise the map is unchanged |
| ExerciseList.ToggleAndSettle | app/components/ExerciseList.tsx:84-101 | a whole toggle leaves the bubble at its next status, or at its old status when the upsert threw; no other bubble moves |
| Tracker.Flipped | app/components/Tracker.tsx:45-49 | the optimistic step flips the membership of the index and of no other index |
| Tracker.WithMembership | app/components/Tracker.tsx:54-58 | the revert and the rollback set the membership of the index to a given value and leave every other index alone |
| Tracker.RevertAfterFlip | app/components/Tracker.tsx:82-86 | restoring the old membership after a flip gives back the original set |
| Tracker.DoneIndicesExactly | app/components/Tracker.tsx:29-32 | after the load, an index is done exactly when some row gives it the status done (null read as todo) |
| Tracker.BuildDoneSet | app/components/Tracker.tsx:29-32 | the loop collects exactly the done indices of the rows |
| Tracker.WriteFor | app/components/Tracker.tsx:64-79 | an index that was done is deleted; one that was not is upserted as done; both name the sheet and the index |
| Tracker.BubbleCount | app/components/Tracker.tsx:91 | at least one bubble is shown; a total of one or more is shown as is; an absent, non-finite or smaller total gives one |
| Tracker.TrackerView.constructor | app/components/Tracker.tsx:11-14 | the tracker starts with no user and no done index |
| Tracker.TrackerView.Load | app/components/Tracker.tsx:16-35 | with a client the user is remembered; with a user, a sheet id and a successful query, the set becomes the rows' done indices; otherwise it is unchanged |
| Tracker.TrackerView.ToggleExercise | app/components/Tracker.tsx:41-89 | no client or no sheet id: nothing happens; no user: the index is flipped and a revert is scheduled; signed in: the delete or upsert is sent, and the flip stays unless the write failed, in which case the set is as before |
| Tracker.TrackerView.RevertLater | app/components/Tracker.tsx:53-59 | the deferred step gives the index back the membership it had |
| Tracker.AnonymousToggle | app/components/Tracker.tsx:51-61 | without a signed-in user, a toggle followed by its deferred step leaves the set as it was, and nothing is written |
| ClientPage.BuildDoneCounts | app/components/ClientPage.tsx:32-37 | each sheet id maps to its number of rows with status done; ids without such a row have no entry; no count is negative |
| ClientPage.ImmediateCount | app/components/ClientPage.tsx:65-77 | done adds exactly one to the sheet's count; any other status takes one off when the count is positive and changes nothing otherwise; other sheets keep their counts; counts stay non-negative |
| ClientPage.TransitionCount | app/components/ClientPage.tsx:65-77 | the corrected update changes only the toggled sheet's count and keeps counts non-negative |
| ClientPage.ImmediateCycleLosesOne | app/components/ClientPage.tsx:65-77 | as written, a bubble going done, review, todo takes one off its sheet's positive count, though the bubble is back where it started |
| ClientPage.ImmediateCycleExample | app/components/ClientPage.tsx:65-77 | a sheet with one done bubble, whose other bubble goes around the cycle, ends with count 0 |
| ClientPage.TransitionTracksDoneBubbles | app/components/ClientPage.tsx:65-77 | with the previous status known, if the count equals the sheet's number of done bubbles before a toggle, it still does after it |
| ClientPage.TransitionCycleRestores | app/components/ClientPage.tsx:65-77 | with the previous status known, a full toggle cycle leaves the count as it was |
| ClientPage.Totals | app/components/ClientPage.tsx:79-83 | total bubbles (missing counts read as 0) are never negative, nor is total done when no sheet's count is |
| ClientPage.DoneWithinBubbles | app/components/ClientPage.tsx:80-81 | when no sheet has more done bubbles than bubbles, total done does not exceed total bubbles |
| ClientPage.UncountedSheetExceedsBubbles | app/components/ClientPage.tsx:79-83 | a sheet with no exercise count and at least one done bubble makes total done exceed total bubbles |
| ClientPage.ChapterDoneWithinBubbles | app/components/ClientPage.tsx:85-94 | when no sheet has more done bubbles than bubbles, no chapter's done total exceeds its bubble total |
| ClientPage.OfChapterMembers | app/components/ClientPage.tsx:87-88 | a chapter's sheets are exactly the catalogue's sheets in that chapter bucket ('Autre' for a missing chapter) |
| ClientPage.ChapterTotals | app/components/ClientPage.tsx:85-94 | there is an entry exactly for each chapter bucket that has a sheet, holding the bubble and done sums of that bucket's sheets |
| ClientPage.ChaptersSumToTotals | app/components/ClientPage.tsx:85-92 | over any list naming each chapter bucket once, the chapter sums add up to the global totals |
| ClientPage.ChapterTotalsAddUp | app/components/ClientPage.tsx:79-94 | the per-chapter entries, bubbles and done alike, add up to the global totals |
| ClientPage.NormalizeNiveauBuckets | app/components/ClientPage.tsx:98-104 | Sup exactly when the folded niveau starts with "sup", Spé exactly when it starts with "spe"; an empty niveau is in neither |
| ClientPage.NormalizeNiveauIgnoresFolding | app/components/ClientPage.tsx:98-104 | folding accents and case first does not change the bucket |
| ClientPage.NormalizeSup | app/components/ClientPage.tsx:98-104 | "Sup" is in the Sup bucket |
| ClientPage.NormalizeSpe | app/components/ClientPage.tsx:98-104 | "Spé" is in the Spé bucket once its accent is folded |
| ClientPage.NormalizeOral | app/components/ClientPage.tsx:98-104 | "Oral" is in neither bucket |
| ClientPage.NormalizeIgnoresDiacritic | app/components/ClientPage.tsx:98-104 | a diacritic in front of a non-empty niveau does not change its bucket |
| ClientPage.NormalizeGraveSup | app/components/ClientPage.tsx:98-104 | a grave accent followed by "Sup" is in the Sup bucket, since the accent is removed before the prefix test |
| ClientPage.ChapterLevelTotals | app/components/ClientPage.tsx:97-116 | there is an entry exactly for each chapter bucket that has a sheet, holding the sums of its Sup sheets and of its Spé sheets |
| ClientPage.LevelsSplitChapter | app/components/ClientPage.tsx:106-114 | a chapter's Sup, Spé and other-level sums add up to the chapter's sums |
| ClientPage.LevelsWithinChapter | app/components/ClientPage.tsx:108-113 | Sup plus Spé never exceed the chapter's sums, bubbles and done alike |
| ClientPage.ProgressSummary.constructor | app/components/ClientPage.tsx:13-16 | the page starts with no user and an empty count map |
| ClientPage.ProgressSummary.LoadProgress | app/components/ClientPage.tsx:18-41 | with a client the user is remembered; with a user and a non-empty catalogue, the map counts the done rows (no data read as no rows); otherwise it is unchanged |
| ClientPage.ProgressSummary.RefreshProgress | app/components/ClientPage.tsx:43-62 | the same reload, leaving the remembered user alone |
| ClientPage.ProgressSummary.ApplyImmediate | app/components/ClientPage.tsx:65-77 | the map becomes the as-written immediate update of the old map; counts stay non-negative |
| ClientPage.ProgressSummary.ApplyTransition | app/components/ClientPage.tsx:65-77 | the map becomes the corrected update of the old map; counts stay non-negative |
| CountPdfExos.ParseDecimal | scripts/count_pdf_exos.py:80-84 | a group parses exactly when it is a non-empty string of digits; otherwise the group is skipped |
| CountPdfExos.ParseToDecimal | scripts/count_pdf_exos.py:81 | parsing the decimal spelling of a number gives the number back |
| CountPdfExos.LeadingZeroIgnored | scripts/count_pdf_exos.py:81 | a leading zero does not change the value parsed |
| CountPdfExos.ParsedNumbersExactly | scripts/count_pdf_exos.py:78-84 | a number is collected exactly when some matched group parses to it |
| CountPdfExos.MaxOf | scripts/count_pdf_exos.py:86-87 | the maximum is one of the numbers and no number exceeds it |
| CountPdfExos.Estimate | scripts/count_pdf_exos.py:72-99 | empty text gives 0; with numbers found, the largest of them; otherwise 0 for no "exercice" word, max(1, words div 2) with "Correction", and the word count without it; never negative |
| CountPdfExos.NumberedSheetExample | scripts/count_pdf_exos.py:78-87 | a text numbering its exercises 2, 7, 3 counts 7 |
| CountPdfExos.CountExercisesInText | scripts/count_pdf_exos.py:72-99 | the loop over the matches and the branches after it compute the estimate |
| CountPdfExos.Decision | scripts/count_pdf_exos.py:113-146 | a row gets an update exactly when it has a URL, its PDF was read, and its stored count differs from the new estimate; the update carries the row's id and the estimate |
| CountPdfExos.ProcessAllExercises | scripts/count_pdf_exos.py:102-146 | the loop issues exactly the planned updates, in row order |
| CountPdfExos.UpdatesExactly | scripts/count_pdf_exos.py:113-146 | an update is issued exactly when some row's decision is that update |
| CountPdfExos.RerunWritesNothing | scripts/count_pdf_exos.py:138-146 | with distinct ids, a second run over the updated table with the same PDFs writes nothing |
| Scraper.Niveau | scripts/scraper.py:46-54 | "Sup" exactly when the URL names exercices-sup; "Spé" exactly when it names exercices-spé or exercices-spe but not exercices-sup; "Oral" exactly when it names only exercices-oraux; "Autre" otherwise |
| Scraper.Categorie | scripts/scraper.py:57-64 | "Algèbre" exactly for algèbre or algebre; "Analyse" for analyse without those; "Proba" for proba without any of them; "Autre" otherwise |
| Scraper.Classify | scripts/scraper.py:46-72 | the niveau is one of Sup, Spé, Oral, Autre and the kind one of Algèbre, Analyse, Proba, Autre; Sup exactly when the decoded lower-case URL names exercices-sup; an oral page's chapter is "Oraux" |
| Scraper.ChapterName | scripts/scraper.py:67-72 | the oral page's chapter is "Oraux"; for any other page, when the slash-stripped path is a non-empty slash-free segment or ends in "/" and that segment, the chapter is that segment decoded and capitalised; an empty path gives the capitalised decoding of the empty string |
| Scraper.ChapterOfFolder | scripts/scraper.py:70-72 | for a folder URL ending in `/seg/`, the chapter is `seg`, decoded and capitalised |
| Scraper.SupFolderIsSup | scripts/scraper.py:47-48 | a URL naming exercices-sup is Sup, whatever else it names |
| Scraper.OralFolderIsOral | scripts/scraper.py:51-52 | a URL naming exercices-oraux and neither level folder is Oral |
| Scraper.AlgebraSpellings | scripts/scraper.py:57-58 | the accented and plain spellings of algèbre give the same kind |
| Scraper.PdfExtensionAnyCase | scripts/scraper.py:79 | a link ending in ".pdf" or ".PDF" qualifies |
| Scraper.IsPdfHref | scripts/scraper.py:79 | a missing href never qualifies; a present one qualifies exactly when it has at least four characters and its last four, lower-cased, are ".pdf" |
| Scraper.RecordOf | scripts/scraper.py:80-90 | the record is never premium, its URL is the href joined to the page URL, it carries the page's niveau, chapter and kind, and its title is the cleaned link text |
| Scraper.CleanTitle | scripts/scraper.py:78-81 | a title is never longer than the link text and contains no dash and no underscore; taking the link text stripped of surrounding whitespace and of every ".pdf", the title has its length, each dash or underscore becomes a space, the first other character is upper-cased and the rest lower-cased |
| Scraper.CleanTitleOfTrimmedText | scripts/scraper.py:78-81 | for a link text without surrounding whitespace and without ".pdf", the title has the same length, dashes and underscores become spaces, the first character is upper-cased and the others lower-cased |
| Scraper.CleanTitleDropsPdfExtension | scripts/scraper.py:78-81 | such a name and the same name followed by ".pdf" give the same title |
| Scraper.CleanTitleOfSameWindow | scripts/scraper.py:78-81 | two link texts that are equal once stripped and rid of ".pdf" give the same title |
| Scraper.CleanTitleOfPlainText | scripts/scraper.py:78-81 | a link text without surrounding whitespace, ".pdf", dashes or underscores is only capitalised |
| Scraper.CleanTitleExample | scripts/scraper.py:78-81 | the link text " x-y.pdf" followed by a newline gives the title "X y" |
| Scraper.ScrapeExercises | scripts/scraper.py:35-92 | a failed request gives no record; otherwise the page is classified once from its URL and every `.pdf` link gives one record carrying that classification, in page order |
| Scraper.CollectRecords | scripts/scraper.py:74-91 | the loop over the page's links appends exactly the records of the `.pdf` links, in page order |
| Scraper.RecordsFollowPdfLinks | scripts/scraper.py:76-91 | there are as many records as `.pdf` links, and the k-th record is built from the k-th such link |
| Scraper.PdfLinksExactly | scripts/scraper.py:79 | a link is kept exactly when it is on the page and its href ends in ".pdf", in any case |
| Scraper.PdfLinksAppend | scripts/scraper.py:76-79 | keeping the `.pdf` links of two runs of links one after the other keeps their order |
| Scraper.RecordsSharePage | scripts/scraper.py:83-90 | every record is free, carries the page's niveau, chapter and kind, and has a title without dashes or underscores |
| Text.Fold | app/components/ClientPage.tsx:100 | the result is never longer than the input, contains no diacritic, and every character is already folded |
| Text.FoldAppend | app/components/ClientPage.tsx:100 | folding a concatenation folds each part |
| Text.FoldWithoutDiacritics | app/components/ClientPage.tsx:100 | a string with no diacritic keeps its length and each character is folded in place |
| Text.FoldIdempotent | app/components/ClientPage.tsx:100 | folding accents and case twice is folding once |
| Text.CapitalizeOfLower | scripts/scraper.py:72 | capitalising a lower-cased string is capitalising the string |
| Text.LastSegmentOfDirectory | scripts/scraper.py:71-72 | stripping the slashes of `p/seg/` and keeping what follows the last slash gives `seg` |
| Text.RemoveAllAbsent | scripts/scraper.py:81 | removing ".pdf" from a text without it leaves the text unchanged |
| Text.ReplaceChar | scripts/scraper.py:81 | same length; every occurrence of the replaced character becomes the replacement and every other character is kept |
| Text.RemoveAllTrailing | scripts/scraper.py:81 | removing a pattern whose first character does not recur in it from `u` followed by the pattern gives `u`, when `u` does not contain it |
| Text.PdfNameWindow | scripts/scraper.py:78-81 | stripping a name followed by ".pdf" and removing ".pdf" gives the name back, when it has no surrounding whitespace and no ".pdf" |
| Text.RemoveAllShortens | scripts/scraper.py:81 | removing a pattern that occurs takes out at least its length |
| Text.ReplaceAbsent | scripts/scraper.py:81 | replacing a character that does not occur leaves the text unchanged |
| Text.StripKeepsWindow | scripts/scraper.py:71-78 | `strip` keeps a contiguous window of the input and everything it removes, on either side, is a stripped character |
| Text.StripUntrimmed | scripts/scraper.py:71-78 | a string that starts and ends with a kept character is left unchanged |
| Text.LastSegmentIs | scripts/scraper.py:71-72 | a string that is a slash-free segment, or ends in "/" and that segment, has that segment as its last part |

## Left out

- Supabase is not modelled: authentication, selects, upserts, deletes and updates. Each call is a parameter: the rows returned (None when `data` is null), or whether the write threw (ExerciseList) or failed (Tracker).
- The 300 ms timer of the anonymous revert in Tracker.tsx is not modelled. The revert is an explicit second step, `Tracker.TrackerView.RevertLater`.
- Interleavings are not modelled: overlapping toggles, a late rollback overwriting a newer toggle, several tabs. `ExerciseList.ToggleAndSettle` assumes each toggle is awaited before the next.
- The `mounted` flag of Tracker.tsx's load effect is not modelled: a load that finishes after the component is gone does nothing there.
- ExerciseList.ExerciseListView.SettleToggle: an upsert that *returns* an error without throwing is not rolled back, as in the source. Only a throw is a failure here.
- The user lookup in ExerciseList.tsx (lines 26-32) is not modelled: the premium flag only affects rendering.
- Catalogue.BubbleKey: the string key `"exerciseId:index"` is the pair of integers it spells, since the template is injective on integer pairs.
- Floating-point numbers are not modelled:
  - the percentages that ClientPage.tsx renders;
  - a fractional or `NaN` sheet count (counts are natural numbers or absent);
  - a fractional `totalExos` in Tracker.tsx (Tracker.BubbleCount takes an integer, or None for a non-finite value).
- JavaScript numbers are unbounded integers here; counts never come near 2^53.
- Text.FoldChar, Text.LowerChar and Text.UpperChar map the ASCII and Latin-1 letters and Ÿ (U+0178) only:
  - accents are folded and case is mapped on those letters, Ÿ and ÿ mapping to each other;
  - other letters are left as they are;
  - `ß` and `µ`, whose Python case mappings change length or script, are left as they are.
- Scraper.ScrapeExercises does not restate Python's `unquote` or `urljoin`; both are function parameters.
- The HTML parsing is not modelled: the page is given as its `<a>` elements in document order.
- CountPdfExos.Estimate takes the regular-expression matches as input: the digit groups of "Exercice N", the number of "exercice(s)" words, and whether "Correction" occurs.
- The PDF download and text extraction (count_pdf_exos.py:50-69) are the `fetch` parameter of CountPdfExos.ProcessAllExercises.
- Text.Fold removes `^`, `` ` ``, `¨`, `¯`, `´`, `·`, `¸` and the characters U+02B0–U+02FF, U+0300–U+034E, U+0350–U+0357 and U+035D–U+0362, as the `\p{Diacritic}` class does. Other characters of that class, and the NFD decompositions of letters outside Latin-1, are not modelled.
- ClientPage.DoneWithinBubbles holds only per sheet as stated. Across the catalogue it does not hold as written: a sheet whose `exercise_count` is null adds 0 bubbles but still adds its done rows. One such sheet with one done row gives totalDone 1 and totalBubbles 0 (ClientPage.UncountedSheetExceedsBubbles).
- CountPdfExos.ParseDecimal parses digit groups of any length. Python 3.11 and later raise in `int` for a group longer than 4300 digits, which count_pdf_exos.py:83 catches and skips.
- CountPdfExos.ParseDecimal accepts ASCII digits only. Python's `\d` and `int` also accept other Unicode decimal digits; such a group is skipped here as if `int` had raised.
- CountPdfExos.ProcessAllExercises returns the updates it would issue. Whether an update succeeded is only logged by the script, so it is not modelled. The `new_count is None` branch (line 135) cannot be taken and is omitted.
- The configuration checks, the logging and the `print` calls of both scripts are not modelled, nor is `main` in scraper.py, which upserts each page's records.
- Scraper.ChapterName: the `chapter_label` fallback (scraper.py:72) is never taken, because `split` always returns at least one part. It is omitted.
- The Stripe routes (`pages/api/`), NavBar.tsx, AuthModal.tsx, DebugSession.tsx, app/page.tsx and app/supabase.js are not part of this model: they are rendering, client construction or wrappers over payment libraries.

## Findings

The comment at app/components/ClientPage.tsx:71 says the count is decremented when a bubble leaves `done`, so three toggles of one bubble should give the sheet's count back. The code does not do that: `onProgressChangeImmediate` decrements on every status other than `done`, so leaving `review` for `todo` decrements a second time. This is latent, because ExerciseList.tsx never calls the callback that ClientPage.tsx passes it. The model follows the code.

| source | as written | input that shows it | evidently intended | confidence | as-written member | corrected member |
|---|---|---|---|---|---|---|
| app/components/ClientPage.tsx:65-77 | every status other than `done` takes one off the sheet's count | a sheet with count 1; one bubble moves todo → done → review → todo; the count goes 2, 1, 0 although one bubble is still done | take one off only when the bubble leaves `done`, which needs the previous status | medium, not executed | ClientPage.ImmediateCycleLosesOne | ClientPage.TransitionTracksDoneBubbles |
