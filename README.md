# VideoBite core, modelled in Dafny

VideoBite summarises YouTube videos. An Express server takes a video URL and checks it.
It fetches the video's metadata and runs a Python summariser as a child process. For a
signed-in caller it stores the result in MongoDB. Users register and log in with an
e-mail address and a password and receive a JSON Web Token. The token then gates their
summary list and the get and delete routes. A React client renders the summary card.

This project models the deterministic core of that system:

- the two URL recognisers of the server (`extractVideoId`, `isValidYoutubeUrl`) and the
  different one of the Python summariser (`extract_video_id`). Each is a hand-written
  matcher that follows the regex engine's backtracking order;
- the heuristic summariser `generate_summary` and the single-video record of its `main`;
- the transcript pipeline: `clean_text`, `detect_language`, `extract_paragraphs`,
  `extract_important_terms`, `process`, the term slice of
  `format_transcript_for_openai`, and the `get_transcript.py` script;
- the server's request decisions as a small state machine. It runs over in-memory stores
  of users and summaries (classes holding maps). It covers the schemas' validation, the
  token middleware, the error middleware and the route tables, which decide what sits
  behind `authenticate`;
- the client card's rules: the `importantTerms` normalisation, the transcript ellipsis
  and the watch link.

Metadata fetch, the summariser run, password hashing, token signing and verification,
the transcript API and the e-mail check of the validator library are oracles. They are
passed in as function parameters or input values.

One module per source file:

| module | file |
|---|---|
| `YoutubeHelper` | `youtube_helper.dfy` |
| `VideoSummaryPy` | `video_summary_py.dfy` |
| `DataPipeline` | `data_pipeline.dfy` |
| `GetTranscript` | `get_transcript.dfy` |
| `SummarizationService` | `summarization_service.dfy` |
| `VideoController` | `video_controller.dfy` |
| `VideoSummaryModel` | `video_summary_model.dfy` |
| `VideoRoutes` | `video_routes.dfy` |
| `AuthController` | `auth_controller.dfy` |
| `UserModel` | `user_model.dfy` |
| `AuthRoutes` | `auth_routes.dfy` |
| `Auth` | `auth_middleware.dfy` |
| `ErrorHandler` | `error_handler.dfy` |
| `ClientVideoSummary` | `client_video_summary.dfy` |

Shared pieces live in their own modules:

- `Wrappers`: `Option` and `Result`.
- `Http`: field errors and route tables.
- `Text`: Python and JavaScript string primitives.
- `Seqs`: distinctness.
- `ObjectIds`: document ids and their string form.

Where the code and the documented intent differ, the model follows the code:

- The card lists an object's terms in the order JavaScript's `Object.keys` gives. Keys
  that are array indices come first, in ascending numeric order. Other keys follow in
  insertion order. So the order is not always plain insertion order
  (`ClientVideoSummary.IndexKeyMovesFirst`, for any two keys).
- The server's `extractVideoId` loses a `youtu.be/` or `embed/` id that begins with
  `v`. The optional `v?` after the marker takes that first character, and only ten are
  left (`YoutubeHelper.ShortLinkId`).
- `findOne({ email })` goes through the schema's `trim` and `lowercase` setters, so
  the stored form of the address is what gets looked up.

One place departs from the code. The signed-in branch of
`VideoController.SummaryStore.CreateSummary` saves through the corrected schema of the
Findings row below, so it stores the record. The code as written answers 400 there,
which `VideoSummaryModel.EmptyTranscriptRejected` and
`VideoController.SignedInCreateFailsAsWritten` show.

## Model

| member | source | states |
|---|---|---|
| YoutubeHelper.MatchVideoUrl | server/src/utils/youtubeHelper.ts:16-17 | a match spans a run of characters other than `#`, `&`, `?`, ending at a stop character or the end of the text |
| YoutubeHelper.MatchVideoUrlSpec | server/src/utils/youtubeHelper.ts:16 | no match iff no marker occurs on the first line; otherwise the capture follows the last marker on that line (greedy `^.*`); the `.` of `youtu.be` takes one UTF-16 code unit, so not a character beyond U+FFFF |
| YoutubeHelper.ExtractVideoId | server/src/utils/youtubeHelper.ts:15-19 | null, or the whole capture when its JavaScript `length` (UTF-16 code units) is 11; such a capture has at most 11 characters, none of them `#`, `&` or `?` |
| YoutubeHelper.WatchLinkId | server/src/utils/youtubeHelper.ts:15-19 | `https://www.youtube.com/watch?v=` + id gives the id back |
| YoutubeHelper.ShortLinkId | server/src/utils/youtubeHelper.ts:16-18 | `https://youtu.be/` + id gives the id back, except null when the id starts with `v` |
| YoutubeHelper.EmbedLinkId | server/src/utils/youtubeHelper.ts:15-19 | an embed link gives its id back when the id does not start with `v` |
| YoutubeHelper.LaterMarkerWins | server/src/utils/youtubeHelper.ts:16 | a `v/` later in the query string overrides the earlier `watch?v=` |
| YoutubeHelper.ExtractAt | server/src/utils/youtubeHelper.ts:16-18 | on a single-line text, the 11 id characters after the last marker are the result |
| YoutubeHelper.ValidFromParts | server/src/utils/youtubeHelper.ts:99-102 | an optional `http(s)://`, one of the three hosts, `/` and a non-empty single-line rest pass |
| YoutubeHelper.ValidHasParts | server/src/utils/youtubeHelper.ts:99-102 | every URL that passes has exactly that shape (the converse) |
| YoutubeHelper.RejectsEmptyAndPlainText | server/src/utils/youtubeHelper.ts:100 | example: `""` and `not-a-url` are refused |
| YoutubeHelper.RejectsBareYoutubeCom | server/src/utils/youtubeHelper.ts:100 | `youtube.com` without `www.` is refused, for every scheme the pattern allows and every rest |
| YoutubeHelper.RejectsOtherSubdomain | server/src/utils/youtubeHelper.ts:100 | a host with a single-label subdomain other than `www` (no `.`, no `/`) in front of `.youtube.com` is refused, for every allowed scheme and every rest |
| YoutubeHelper.RejectsEmptyPath | server/src/utils/youtubeHelper.ts:100 | each of the three hosts followed by `/` alone is refused, under each allowed scheme: `.+` needs a character |
| YoutubeHelper.GeneratedLinksAreValid | server/src/utils/youtubeHelper.ts:99-102 | watch, short and embed links built from an id pass the check |
| YoutubeHelper.IsValidYoutubeUrl | server/src/utils/youtubeHelper.ts:99-102 | `regExp.test(url)`; its properties are stated by the lemmas above |
| YoutubeHelper.IdCharsUtf16 | server/src/utils/youtubeHelper.ts:18 | id characters are one UTF-16 unit each, so eleven of them have `length` 11 |
| YoutubeHelper.GetVideoDetails | server/src/utils/youtubeHelper.ts:22-48 | the first item's fields; no items or a failed request gives an error starting `Video detayları alınamadı: ` |
| VideoSummaryPy.MatchAt | server/src/python/video_summary.py:22 | a match at a position starts with `y` and is followed by eleven id characters |
| VideoSummaryPy.Search | server/src/python/video_summary.py:23 | the leftmost position at which the pattern matches, and none before it; None iff no position matches |
| VideoSummaryPy.SearchFinds | server/src/python/video_summary.py:23 | a match with no match before it is the one the search returns |
| VideoSummaryPy.ExtractVideoId | server/src/python/video_summary.py:20-24 | None, or the 11 `[A-Za-z0-9_-]` characters of group 1 at the leftmost match |
| VideoSummaryPy.ShortLinkId | server/src/python/video_summary.py:22-24 | a short link gives its id whatever follows it |
| VideoSummaryPy.WatchLinkId | server/src/python/video_summary.py:22-24 | the watch link gives its id through the `[?&]v=` alternative |
| VideoSummaryPy.EmbedLinkId | server/src/python/video_summary.py:22-24 | the embed link gives its id, even one starting with `v` |
| VideoSummaryPy.RecognisersDisagreeOnLeadingV | server/src/python/video_summary.py:22-24 | on a short link whose id starts with `v`, the server's recogniser gives null and the script's gives the id |
| VideoSummaryPy.RecognisersAgreeOnWatchLink | server/src/python/video_summary.py:22-24 | on the watch link both recognisers give the id |
| VideoSummaryPy.SentencesArePrefix | server/src/python/video_summary.py:166-167 | the first n `.`-pieces rejoined are a prefix of the text, then `.` |
| VideoSummaryPy.SentencesOfShortText | server/src/python/video_summary.py:175-176 | with fewer than n pieces, the whole text followed by `.` |
| VideoSummaryPy.SummaryText | server/src/python/video_summary.py:165-180 | the `summary` field; stated by the two lemmas below |
| VideoSummaryPy.SummaryWithoutTranscript | server/src/python/video_summary.py:165-172 | no transcript: three description sentences, or the fixed sentence under 50 characters |
| VideoSummaryPy.SummaryWithTranscript | server/src/python/video_summary.py:174-180 | a transcript: five sentences, with a fixed sentence appended under 100 characters |
| VideoSummaryPy.CrashesMeaning | server/src/python/video_summary.py:197-199 | `range` gets step 0 exactly for a non-empty transcript with fewer than four `.` |
| VideoSummaryPy.FallbackDistinct | server/src/python/video_summary.py:211-217 | the five fallback points are pairwise different for any channel |
| VideoSummaryPy.Pad | server/src/python/video_summary.py:218-225 | padding keeps the points already there and brings the list to five |
| VideoSummaryPy.PadAddsMissing | server/src/python/video_summary.py:218-225 | padding appends exactly the first missing fallback points, in order |
| VideoSummaryPy.KeyPoints | server/src/python/video_summary.py:183-228 | the `keyPoints` field; stated by the lemma below |
| VideoSummaryPy.KeyPointsShape | server/src/python/video_summary.py:183-228 | exactly five key points: the first five candidates, or all of them and then missing fallbacks |
| VideoSummaryPy.TitleTermsFacts | server/src/python/video_summary.py:237-242 | the title loop keeps the keys before it and only appends title words longer than five characters, never a duplicate key; once three keys are reached it adds at most one |
| VideoSummaryPy.TagTermsFacts | server/src/python/video_summary.py:245-250 | the tag loop only appends tags, never a duplicate key, and stops at five keys |
| VideoSummaryPy.ImportantTerms | server/src/python/video_summary.py:231-250 | the `importantTerms` keys in insertion order; stated by the three lemmas below |
| VideoSummaryPy.ImportantTermsSize | server/src/python/video_summary.py:231-250 | the channel is the first key; one to five keys |
| VideoSummaryPy.ImportantTermsDistinct | server/src/python/video_summary.py:239-247 | keys are pairwise distinct after lower-casing |
| VideoSummaryPy.ImportantTermsOrigin | server/src/python/video_summary.py:237-250 | every later key is a long title word or one of the first three tags; from the fourth key on, only tags |
| VideoSummaryPy.Excerpt | server/src/python/video_summary.py:256 | the whole text up to 500 characters, else its first 500 characters and `...` |
| VideoSummaryPy.CollectCandidates | server/src/python/video_summary.py:183-208 | the append loops give the candidate list, or the `range` error exactly when the transcript is too short |
| VideoSummaryPy.CollectTagPoints | server/src/python/video_summary.py:186-188 | one sentence for each of the first three tags |
| VideoSummaryPy.CollectParagraphPoints | server/src/python/video_summary.py:191-194 | the stripped first two `\n\n`-paragraphs longer than 30 characters |
| VideoSummaryPy.CollectCountPoints | server/src/python/video_summary.py:204-208 | the view line above 1000 views and the like line above 100 likes, grouped by thousands |
| VideoSummaryPy.CollectStridePoints | server/src/python/video_summary.py:199-201 | every step-th piece longer than 30 characters, stripped, with `.` |
| VideoSummaryPy.PadKeyPoints | server/src/python/video_summary.py:218-225 | the `while` loop computes the padding, for any distinct five fallback points |
| VideoSummaryPy.AddFirstMissing | server/src/python/video_summary.py:219-222 | the inner `for`/`break` appends exactly the first fallback point not yet present |
| VideoSummaryPy.CollectTerms | server/src/python/video_summary.py:231-250 | the dictionary loops build the terms in insertion order |
| VideoSummaryPy.GenerateSummary | server/src/python/video_summary.py:156-257 | the summary result, or the `range` error iff a non-empty transcript has fewer than four `.`; five key points and one to five terms |
| VideoSummaryPy.ResolveVideoId | server/src/python/video_summary.py:311 | `--video_id` verbatim if given, else the recogniser on `--url`; a recognised id is well-formed |
| VideoSummaryPy.RunSingleVideo | server/src/python/video_summary.py:271-343 | exit 1 without arguments; channel mode iff `--channel_id`; a record is printed iff an id, its details and a non-crashing transcript exist, holding the id, title, channel and the summary's four parts |
| VideoSummaryPy.SummarizeVideo | server/src/python/video_summary.py:316-343 | printed iff the details exist and the summary does not raise; exit 1 otherwise |
| DataPipeline.CollapseSpace | server/src/python/data_pipeline.py:69 | never longer; only plain spaces, never two in a row; the same non-whitespace characters in order; empty iff the text is; starts (ends) with a space iff the text starts (ends) with whitespace |
| DataPipeline.CollapseSpaceWords | server/src/python/data_pipeline.py:69 | the collapse keeps the words of `split()` |
| DataPipeline.CollapseSpaceAbsent | server/src/python/data_pipeline.py:69 | a character other than the space that the text lacks, the collapse lacks too |
| DataPipeline.Unescape | server/src/python/data_pipeline.py:72-76 | the five replacements in order; never longer, and a text whose whitespace is plain spaces keeps that |
| DataPipeline.UnescapeAbsent | server/src/python/data_pipeline.py:72-76 | a text without `&` is left alone |
| DataPipeline.UnescapeTwice | server/src/python/data_pipeline.py:72-76 | example: the sequential replacements turn `&amp;lt;` into `<` |
| DataPipeline.CollapseMarks | server/src/python/data_pipeline.py:79 | `[.!?]{2,}` to `.`; its properties are stated by the lemmas below |
| DataPipeline.CollapseMarksAppend | server/src/python/data_pipeline.py:79 | a text ending in a character other than a mark collapses apart from what follows it |
| DataPipeline.CollapseMarksRun | server/src/python/data_pipeline.py:79 | a run of two or more marks becomes one `.`; a lone mark stays |
| DataPipeline.CollapseMarksSplice | server/src/python/data_pipeline.py:79 | a whole run of two or more marks inside a text becomes `.`, the two sides collapsed on their own |
| DataPipeline.CollapseMarksLone | server/src/python/data_pipeline.py:79 | a lone mark inside a text stays, the two sides collapsed on their own |
| DataPipeline.CollapseMarksSeparates | server/src/python/data_pipeline.py:79 | after the collapse no two of `.`, `!`, `?` are neighbours |
| DataPipeline.CollapseMarksKeeps | server/src/python/data_pipeline.py:79 | the collapse keeps every other character, in order |
| DataPipeline.CollapseMarksIdle | server/src/python/data_pipeline.py:79 | a text without neighbouring marks is unchanged |
| DataPipeline.RemoveUrls | server/src/python/data_pipeline.py:82 | `https?://\S+` removed left to right; its properties are stated by the lemmas below |
| DataPipeline.RemoveUrlsNoColon | server/src/python/data_pipeline.py:82 | a text without `:` is left alone |
| DataPipeline.RemoveUrlsComplete | server/src/python/data_pipeline.py:82 | no `http://` or `https://` token is left in the result |
| DataPipeline.RemoveUrlsSeparated | server/src/python/data_pipeline.py:79-82 | if no two marks were neighbours before URL removal, none are after it |
| DataPipeline.CleanText | server/src/python/data_pipeline.py:59-87 | the five stages in order; never longer than the input |
| DataPipeline.CleanTextShape | server/src/python/data_pipeline.py:59-87 | no whitespace at either end, only plain spaces, no neighbouring marks, no URL token |
| DataPipeline.CleanTextPlain | server/src/python/data_pipeline.py:59-87 | without `&`, `:` and marks only the collapse and `strip()` act, and the words of `split()` are kept |
| Text.WordsStrip | server/src/python/data_pipeline.py:85 | `strip()` keeps the words of `split()` |
| Text.WordsDropSpaces | server/src/python/data_pipeline.py:208 | leading whitespace is no part of any word |
| Text.WordsDropTrail | server/src/python/data_pipeline.py:208 | trailing whitespace is no part of any word |
| Text.WordsCons | server/src/python/data_pipeline.py:208 | a visible first character is a word of its own or starts the first word |
| DataPipeline.DetectLanguage | server/src/python/data_pipeline.py:89-105 | the result is `tr` or `en` (the threshold is stated by the four lemmas below) |
| DataPipeline.DetectWithoutTurkishLetters | server/src/python/data_pipeline.py:100-105 | a text without the twelve letters, the empty text included, is `en` |
| DataPipeline.DetectOnlyTurkishLetters | server/src/python/data_pipeline.py:100-105 | a non-empty text of the twelve letters only is `tr` |
| DataPipeline.DetectShortText | server/src/python/data_pipeline.py:100-105 | under 100 characters one such letter decides `tr` |
| DataPipeline.DetectThreshold | server/src/python/data_pipeline.py:100-105 | exactly 1% is not enough |
| DataPipeline.ExtractParagraphs | server/src/python/data_pipeline.py:107-133 | the accumulation loop computes the paragraphs |
| DataPipeline.Paragraphs | server/src/python/data_pipeline.py:107-133 | never more paragraphs than segments |
| DataPipeline.ParagraphShape | server/src/python/data_pipeline.py:121-131 | every paragraph is stripped and non-empty; all but the last end in `.`, `!` or `?`, and each of those is the stripped glue of consecutive segments, at least `min_segment_chars` long before stripping |
| DataPipeline.ParagraphsFromBlocks | server/src/python/data_pipeline.py:121-128 | from any point of the loop on, every closed paragraph is such a block of the segments after it |
| DataPipeline.ParagraphContent | server/src/python/data_pipeline.py:121-131 | the paragraphs keep the segments' non-whitespace characters, in order, and lose none |
| DataPipeline.TopTerms | server/src/python/data_pipeline.py:135-153 | at most `top_n` pairs; the ranking is stated by the lemmas below |
| DataPipeline.FindTerms | server/src/python/data_pipeline.py:146 | every term has three or more letters of the class |
| DataPipeline.FindTermsDigitGlued | server/src/python/data_pipeline.py:146 | example: in `cay2 kahve`, `cay2` is glued to a digit and only `kahve` is found |
| DataPipeline.FindTermsSuperscriptGlued | server/src/python/data_pipeline.py:146 | example: a superscript is a word character, so `km²` is no term and only `alan` is found |
| DataPipeline.FindTermsWhole | server/src/python/data_pipeline.py:146 | a whole run of class letters is one term |
| DataPipeline.FindTermsGlued | server/src/python/data_pipeline.py:146 | a run of word characters holding a character outside the term letters (ASCII and Turkish letters) adds no term, whatever follows it after a non-word character |
| DataPipeline.WithoutStopWords | server/src/python/data_pipeline.py:149 | a word is kept iff it is not a stop word |
| DataPipeline.SortByCount | server/src/python/data_pipeline.py:152-153 | the sort is a permutation |
| DataPipeline.TallyFacts | server/src/python/data_pipeline.py:152 | every word once, in first-occurrence order, with its count |
| DataPipeline.RankingFacts | server/src/python/data_pipeline.py:152-153 | ranked by count, ties by first occurrence; all words counted |
| DataPipeline.TopTermsFacts | server/src/python/data_pipeline.py:135-153 | at most top_n; counts non-increasing, ties in first-occurrence order; exact counts; no stop word; no term twice |
| DataPipeline.TopTermsComplete | server/src/python/data_pipeline.py:152-153 | a filtered word left out was cut by top_n and counts no more than any kept term |
| DataPipeline.FormatTerms | server/src/python/data_pipeline.py:245-247 | the loop fills the dictionary from the first ten pairs |
| DataPipeline.TermMapLookup | server/src/python/data_pipeline.py:245-247 | with distinct terms, exactly those keys, each with its count |
| DataPipeline.FormattedTerms | server/src/python/data_pipeline.py:245-247 | the first ten of the top twenty are the top ten; at most ten keys, each with its number of occurrences |
| DataPipeline.KeptSegmentsFacts | server/src/python/data_pipeline.py:182-190 | kept segments have non-empty cleaned text and come from the items |
| DataPipeline.KeptSegmentsAppend | server/src/python/data_pipeline.py:182-190 | the kept segments of a concatenation are those of each part |
| DataPipeline.Process | server/src/python/data_pipeline.py:166-221 | non-empty segments in order, full text cleaned from them, language, paragraphs, top twenty terms and word count |
| GetTranscript.GetTranscript | server/src/python/get_transcript.py:8-49 | no error iff the list is non-empty; on error, empty text and no segments with the message |
| GetTranscript.SegmentsFollowEntries | server/src/python/get_transcript.py:30-37 | same length and order; text and duration kept, `start` renamed `offset` |
| GetTranscript.FullTranscriptSplits | server/src/python/get_transcript.py:27 | when no entry text holds a space, the full text splits on `' '` back into the entry texts |
| GetTranscript.FullTranscriptLayout | server/src/python/get_transcript.py:27 | for any entries, each entry text sits at its offset in the full text, a single space follows each one but the last, and the full text has exactly that length |
| GetTranscript.RunScript | server/src/python/get_transcript.py:51-64 | usage exit iff no video id; language defaults to `tr` |
| GetTranscript.ResolveTranscript | server/src/utils/youtubeHelper.ts:73-90 | non-zero exit and unparsable output reject; otherwise the text and segments |
| GetTranscript.FailuresReachTheServerAsEmptyText | server/src/python/get_transcript.py:44-64 | an API failure still exits 0, so the server resolves with empty text |
| SummarizationService.Outcome | server/src/services/summarizationService.ts:190-213 | success iff exit 0 with parsable output; other exits fail with the code; bad output fails with the parse message |
| SummarizationService.ExitCodeDecides | server/src/services/summarizationService.ts:191-195 | a non-zero exit fails whatever was printed |
| VideoController.Prepare | server/src/controllers/videoController.ts:16-42 | the three 400 checks in order, then fetch and summariser; oracle failures are 500 |
| VideoController.PrepareSucceeds | server/src/controllers/videoController.ts:21-42 | passes iff the checks pass and both oracles succeed, called with (url, language defaulting to `tr`, title) |
| VideoController.ChecksPrecedeOracles | server/src/controllers/videoController.ts:16-32 | a failed check gives 400 whatever the oracles would do |
| VideoController.SignedInCreateFailsAsWritten | server/src/controllers/videoController.ts:46-59 | under the written schema the signed-in save fails with 400 |
| VideoController.SortNewestSpec | server/src/controllers/videoController.ts:88-89 | the sort puts the newest first and is a permutation |
| VideoController.SummaryStore.OwnedFrom | server/src/controllers/videoController.ts:88 | exactly the caller's records, in id order |
| VideoController.SummaryStore.GetUserSummaries | server/src/controllers/videoController.ts:82-100 | 401 without a caller; a caller id that does not cast to an ObjectId is the cast error, 500; 200 iff a caller whose id casts, with exactly the caller's records, newest first, and their count |
| VideoController.SummaryStore.GetSummaryById | server/src/controllers/videoController.ts:103-124 | 404 iff absent; 403 iff a caller who is not the owner; else the record; a malformed id is 500 |
| VideoController.SummaryStore.CreateSummary | server/src/controllers/videoController.ts:13-79 | Prepare's error, or the response copied from details and summariser; a record (empty transcript, duration 0) only for a caller, saved under the corrected schema of the Findings row (the code as written answers 400 there), `summaryId` null otherwise |
| VideoController.SummaryStore.DeleteSummary | server/src/controllers/videoController.ts:127-154 | 401, cast error, 404, 403 in that order; the owner's record alone is removed |
| VideoSummaryModel.SchemaErrors | server/src/models/VideoSummary.ts:16-43 | no errors iff the six required paths are non-empty after the trims |
| VideoSummaryModel.IntendedErrors | server/src/models/VideoSummary.ts:16-43 | the same without the transcript requirement, and never an error the schema lacks |
| VideoSummaryModel.Build | server/src/models/VideoSummary.ts:16-58 | refused iff there are errors; otherwise the record with URL and id trimmed, language and duration defaulted, creation time now |
| VideoSummaryModel.EmptyTranscriptRejected | server/src/models/VideoSummary.ts:36-39 | as written, an empty transcript never saves |
| VideoSummaryModel.EmptyTranscriptAccepted | server/src/models/VideoSummary.ts:36-39 | corrected, the same record saves with its empty transcript |
| VideoSummaryModel.CorrectionOnlyAccepts | server/src/models/VideoSummary.ts:16-43 | wherever the written schema saves, the correction saves the same record |
| VideoRoutes.SummaryErrors | server/src/routes/videoRoutes.ts:11-14 | no errors iff a non-empty URL and an absent language or one whose `isLength` count (code points other than U+FE0E and U+FE0F) is 2 to 5 |
| VideoRoutes.LanguageSelectorIgnored | server/src/routes/videoRoutes.ts:14 | a variation selector appended to `language` changes no validation result |
| VideoRoutes.OnlyCreateIsOpen | server/src/routes/videoRoutes.ts:9-29 | only `POST /summary` sits in front of `authenticate` |
| VideoRoutes.ValidatedUrlIsGiven | server/src/routes/videoRoutes.ts:12-13 | after the validators the URL checks see the caller's URL |
| VideoRoutes.PostSummary | server/src/routes/videoRoutes.ts:9-20 | nothing is stored and `summaryId` is always null |
| VideoRoutes.MySummariesRoute | server/src/routes/videoRoutes.ts:20-23 | 401 iff no token; 200 iff the token verifies and its id casts, with exactly the caller's records, newest first; 500 iff the token verifies and its id does not cast |
| VideoRoutes.GetSummaryRoute | server/src/routes/videoRoutes.ts:20-26 | 200 iff a verified caller owns the existing record, with that record; the handler's anonymous branch is unreachable |
| VideoRoutes.DeleteRoute | server/src/routes/videoRoutes.ts:20-29 | only the owner of an existing record removes it; nothing else changes |
| AuthController.TokenFor | server/src/controllers/authController.ts:10-19 | payload id and role, role defaulting to `user`, lifetime `7d` |
| AuthController.UserStore.FindByEmail | server/src/controllers/authController.ts:31-33 | the user whose stored address is the normalised one, or none has it |
| AuthController.UserStore.Register | server/src/controllers/authController.ts:22-64 | 400 for validation, 400 for a taken address, the schema's errors, else one new user and 201 with a token and `{id, name, email}` |
| AuthController.UserStore.Add | server/src/controllers/authController.ts:45 | the saved user is stored under a fresh id and the store keeps at most one user per address |
| AuthController.UserStore.Login | server/src/controllers/authController.ts:67-106 | 400 iff validation fails; 200 iff an address and password match; 401 with one message otherwise |
| AuthController.UserStore.GetMe | server/src/controllers/authController.ts:109-128 | 401 without a caller; 500 for a caller id that does not cast; 404 iff the user is missing; otherwise the user without the password |
| AuthController.FailuresLookAlike | server/src/controllers/authController.ts:78-87 | an unknown address and a wrong password give the same reply |
| AuthController.IssuedTokenAuthenticates | server/src/controllers/authController.ts:10-19 | a token issued here opens the Bearer gate with the same id and role |
| AuthRoutes.RegisterErrors | server/src/routes/authRoutes.ts:12-14 | no errors iff a non-empty name, an e-mail and a password whose `isLength` count (code points other than U+FE0E and U+FE0F) is at least six |
| AuthRoutes.MissingNameTwoErrors | server/src/routes/authRoutes.ts:12 | a missing name fails both of its validators |
| AuthRoutes.LoginErrors | server/src/routes/authRoutes.ts:23-24 | no errors iff an e-mail and a non-empty password |
| AuthRoutes.OnlyMeNeedsToken | server/src/routes/authRoutes.ts:9-33 | only `/me` sits behind `authenticate` |
| AuthRoutes.PostRegister | server/src/routes/authRoutes.ts:9-16 | validator errors give 400 with the store unchanged; any other non-201 leaves the store unchanged; 201 adds exactly the stored form of the posted user under the next id and answers its session |
| AuthRoutes.PostLogin | server/src/routes/authRoutes.ts:20-26 | 400 iff the validators fail, with their errors; 200 iff they pass and a stored user has the normalised address and a password that `compare` accepts, with that user's session; otherwise 401 with the one credentials message |
| AuthRoutes.GetMeRoute | server/src/routes/authRoutes.ts:30-33 | 401 is only the middleware's missing-token reply; 403 iff the token fails; 500 iff the verified id does not cast; 404 iff it casts to an id with no user; 200 iff that user exists, with its profile |
| AuthRoutes.RouteAcceptsSchemaRefuses | server/src/routes/authRoutes.ts:12-14 | example: a blank name and an address with a four-letter ending pass the route but fail the schema |
| UserModel.IsEmail | server/src/models/User.ts:26 | the `match` pattern of the e-mail field; stated by the lemmas below |
| UserModel.DomainMatchesShape | server/src/models/User.ts:26 | the domain pattern matches iff runs joined by single separators end in `.` and 2-3 word characters |
| UserModel.EmailOfParts | server/src/models/User.ts:26 | runs, `@`, runs, `.` and a 2-3 character ending are accepted |
| UserModel.AcceptsPlainAddress | server/src/models/User.ts:26 | example: `a.b@c-d.org` is accepted |
| UserModel.RejectsLongTopLevelDomain | server/src/models/User.ts:26 | example: `a@b.info` is refused |
| UserModel.RejectsMalformed | server/src/models/User.ts:26 | example: no dot in the host, a doubled separator or a missing local part is refused |
| UserModel.FieldErrors | server/src/models/User.ts:14-42 | no errors iff a name, a matching address, a password of six or more and a known role |
| UserModel.UserDocument.constructor | server/src/models/User.ts:15-41 | name and address trimmed, address lower-cased, role `user`, creation time now |
| UserModel.UserDocument.PreSave | server/src/models/User.ts:45-55 | the password is hashed only when it was modified |
| UserModel.UserDocument.Save | server/src/models/User.ts:14-55 | validation errors, or the hook and the stored user; afterwards nothing counts as modified |
| UserModel.SaveTwiceKeepsPassword | server/src/models/User.ts:45-60 | a second save keeps the hash, and `comparePassword` accepts the original password |
| Auth.RoleOfValue | server/src/middlewares/auth.ts:7-10 | exactly `user` and `admin` name a role |
| Auth.BearerToken | server/src/middlewares/auth.ts:27-28 | a token is the second space-separated piece: non-empty and without a space |
| Auth.BearerTokenOfScheme | server/src/middlewares/auth.ts:28 | `Bearer <token>` gives the token |
| Auth.BearerTokenIgnoresRest | server/src/middlewares/auth.ts:28 | whatever follows a second space is ignored |
| Auth.NoSpaceNoToken | server/src/middlewares/auth.ts:28-32 | a header without a space gives no token |
| Auth.DoubleSpaceNoToken | server/src/middlewares/auth.ts:28-32 | two spaces after the scheme give no token |
| Auth.Decide | server/src/middlewares/auth.ts:25-49 | 401 iff no token; 403 iff a token that fails verification; else the caller with role defaulting to `user` |
| Auth.RejectedTokenIsForbidden | server/src/middlewares/auth.ts:45-48 | an invalid or expired token is 403 |
| Auth.Request.Authenticate | server/src/middlewares/auth.ts:25-49 | the caller is attached iff the decision passes; a refusal leaves the request as it was |
| Auth.IsAdmin | server/src/middlewares/auth.ts:52-62 | 401 without a caller, 403 for a role other than admin, else it passes |
| Auth.AdminGateAfterAuthenticate | server/src/middlewares/auth.ts:36-62 | behind `authenticate` the gate passes exactly the payloads whose role is `admin` |
| ErrorHandler.HandleError | server/src/middlewares/errorHandler.ts:8-61 | `success: false`, a non-empty message, errors only for validation, the stack iff development and an unnamed error |
| ErrorHandler.FirstMatchDecides | server/src/middlewares/errorHandler.ts:16-50 | validation 400, duplicate key 409 and the two token errors 401, tried in that order |
| ErrorHandler.UnauthorizedOnlyFromTokens | server/src/middlewares/errorHandler.ts:35-54 | 401 comes from a token error or an unnamed error carrying 401 |
| ErrorHandler.PlainErrorIsServerError | server/src/middlewares/errorHandler.ts:53-54 | an error without a status code is 500 with its message or `Sunucu hatası` |
| ErrorHandler.NoStackInProduction | server/src/middlewares/errorHandler.ts:53-60 | no stack outside development |
| ErrorHandler.NotFoundReply | server/src/middlewares/errorHandler.ts:64-68 | an unmatched URL is 404 with `Not Found - ` and the URL |
| ObjectIds.ParseId | server/src/controllers/videoController.ts:105 | a request string is an id iff it is that id's string form |
| ObjectIds.ParseIdText | server/src/controllers/videoController.ts:72 | the string form of an id casts back to the id |
| ClientVideoSummary.ObjectKeys | client/src/components/VideoSummary.tsx:30 | `Object.keys` of the parsed object; stated by the four lemmas below |
| ClientVideoSummary.ObjectKeysMembers | client/src/components/VideoSummary.tsx:30 | each key of the object once, and no other |
| ClientVideoSummary.ObjectKeysIndicesFirst | client/src/components/VideoSummary.tsx:30 | array-index keys first, in ascending order |
| ClientVideoSummary.ObjectKeysInsertionOrder | client/src/components/VideoSummary.tsx:30 | without array-index keys, insertion order |
| ClientVideoSummary.IndexKeyMovesFirst | client/src/components/VideoSummary.tsx:30 | for any named key and any array-index key, with any values, written in that order, `Object.keys` lists the index key first |
| ClientVideoSummary.TermsToShow | client/src/components/VideoSummary.tsx:18-33 | no terms iff absent, an empty list or an empty object; a list as it is |
| ClientVideoSummary.ObjectTermsAreKeys | client/src/components/VideoSummary.tsx:27-31 | an object's terms are its keys, in written order when none is an index |
| ClientVideoSummary.ScriptTermsShownInOrder | client/src/components/VideoSummary.tsx:27-31 | when no key is an array index, the summariser's terms reach the card in the order it added them |
| ClientVideoSummary.WatchLinkRoundTrip | client/src/components/VideoSummary.tsx:115 | the watch link passes the server's check and gives the id back |
| ClientVideoSummary.Render | client/src/components/VideoSummary.tsx:12-127 | nothing iff no data; channel and transcript iff present; the toggle label; the watch link |
| ClientVideoSummary.EllipsisRule | client/src/components/VideoSummary.tsx:104 | `...` iff collapsed and longer than 200 UTF-16 units |
| ClientVideoSummary.CardTerms | client/src/components/VideoSummary.tsx:86 | the card hides the terms block iff there are none; a list is shown as it is |

## Left out

- `get_channel_videos`, `get_video_details` and `get_video_transcript` of `video_summary.py`, and channel mode of its `main`, are network and library calls. They are inputs or oracles (`fetch`, `transcriptOf`). The model does not parse arguments with argparse. The `--title` the server passes is not read by the script.
- `getYoutubeTranscript` and `summarizeVideo` spawn processes and collect streams. Only the rules that turn the exit code and output into a result are modelled. The HTTP request of `getVideoDetails` is a `DetailsResponse` input.
- Floats: segment `start` and `duration` are carried as `real` but never computed with. `total_duration`, `duration_minutes` and the sentence list of `process` are left out. `detect_language`'s float test `count > len * 0.01` is read exactly as `100 * count > len`. The two can differ only where rounding the float product matters.
- NLTK: `sent_tokenize` and the stop-word corpus are foreign. The stop-word set is a parameter.
- Lower-casing is a table: ASCII, Latin-1 capitals, `Ğ`, `Ş` and `İ`. Python and JavaScript turn `İ` into `i` plus a combining dot; the model gives `i`.
- Python's `\w` is ASCII letters, digits and `_`, plus the Latin-1 letters and numeric characters (`ª`, `µ`, `º`, `²`, `³`, `¹`, `¼`, `½`, `¾`) and the Latin Extended-A/B letters. Letters, digits and numerals of other scripts count as non-word characters.
- bcrypt and JSON Web Tokens (RFC 7519) are oracles. `IssuedTokenAuthenticates` requires that verification accepts what signing produced.
- The e-mail check of the validator library (`isEmail`) is an oracle. The Mongoose uniqueness index is left out; uniqueness is the store's invariant instead.
- MongoDB ids are natural numbers whose string form is their decimal notation. A real ObjectId is 24 hex digits; only the cast's accept/refuse behaviour is kept.
- Mongoose's cast of `req.user.id` on `userId` at save time is left out.
- Server startup, configuration and logging (`index.ts`, `config.ts`, `logger.ts`) are setup. The logger calls in the handlers are dropped.
- Client pages, forms, layout, the HTTP client and the `useState` toggle are UI. The toggle's value is a parameter of `Render`.
- VideoSummaryPy.RunSingleVideo: does not model the printed JSON text, only the record it encodes.
- VideoController.SummaryStore.CreateSummary: the signed-in branch saves under the corrected schema (`VideoSummaryModel.Create`), while the code as written (videoController.ts with VideoSummary.ts:36-39) answers 400 there; the as-written outcome is stated by `VideoController.SignedInCreateFailsAsWritten`. No route reaches this branch, since `POST /summary` never sets `req.user`.
- GetTranscript.RunScript: the usage message goes to standard error and is not modelled as text.

## Findings

| source | as written | input that shows it | evidently intended | confidence | as-written member | corrected member |
|---|---|---|---|---|---|---|
| server/src/controllers/videoController.ts:52 with server/src/models/VideoSummary.ts:36-39 | `createSummary` saves `transcript: ''`, but the schema marks `transcript` as `required`, and Mongoose's `required` refuses the empty string. Every save by a signed-in caller fails with a validation error (400). The route table never sets `req.user` on `POST /summary`, so this does not surface today. | a signed-in caller posts `https://www.youtube.com/watch?v=dQw4w9WgXcQ` | the record is saved with an empty transcript | high, not executed | VideoSummaryModel.EmptyTranscriptRejected | VideoSummaryModel.EmptyTranscriptAccepted |
