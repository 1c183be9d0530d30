# Episode recording, clipping and topic grouping — a Dafny model

This project models the timing-and-clipping core of the ai-news show
pipeline, together with two small helper sets from the aggregation side:

- **Word segmentation** (`WordSegmenter`): the recorder turns the per-character
  timestamps of a spoken line into word timings. The scan is modelled as a
  method with a loop and proved equal to a declarative definition.
- **Recorder session** (`EpisodeModel`, `Recorder`):
  - the `ShmotimeRecorder` class holds the phase machine, the event
    timeline, the episode data and the scene and dialogue counters;
  - its handlers are the event logger and phase transition, speak-start
    timing, the fallback dialogue timestamp, the `scene_loaded` visual
    windows and the end-of-recording finalisation;
  - alongside the class sit episode normalisation, the k-th-dialogue
    lookup and the slug-to-title conversion (`Slug`).
- **Clip tool** (`Clip`, `ClipSearch`):
  - time arguments;
  - episode base names;
  - the session-log shape choice;
  - clip starts after a scene transition;
  - scene selection, validation and cut planning for `extract`;
  - transcript search and padded cuts for `search`.
- **File helpers** (`FileHelper`): media detection, path validation, file
  name sanitising and the type directory.
- **Topic grouping** (`TopicGrouping`): grouping objects by lower-cased topic
  and sorting the groups by size, and grouping content items by topic with
  a `Miscellaneous` bucket.

Supporting modules:

- `Wrappers`: `Option` and `Result`.
- `Text`: ASCII character classes, lower/upper case, trimming,
  substring search and decimal rendering.
- `JsNumber`: the subset of `parseInt`, `parseFloat`, `Math.floor` and `%`
  that the clip tool relies on.

Conventions:

- Seconds are `real`. Wall-clock time enters as a parameter `now`, in
  milliseconds.
- A timing field that the source leaves `undefined` is `None`.
- Where the source tests a field for falsiness, both `None` and `0.0` count
  as unset. This applies to scene start and end and to dialogue end.
- Dialogue start is tested with `=== undefined`, so only `None` counts as
  unset there.

Two behaviours follow the code rather than the design description:

- The `ended` phase is not terminal. The transition switch runs before the
  completion test on every event, so a later `start_intro` leaves `ended`
  again. `end_credits` sets `waiting` and then `ended`.
- `getClipStart` does not skip media-command dialogues when it looks for
  the first audio after a transition.

## Model

| member | source | states |
|---|---|---|
| WordSegmenter.ExtractWordTimings | scripts/recorder6.js:147-188 | the single-pass scan yields exactly `SegmentWords(cs)`, the declarative segmentation (loop invariant `Scanned`) |
| WordSegmenter.ScanOpensWord | scripts/recorder6.js:167-173 | at a word start the open word is flushed and a new word holding just that character is opened; the scan invariant is kept |
| WordSegmenter.ScanExtendsWord | scripts/recorder6.js:174-177 | a non-space character while a word is open is appended and moves the word's end to that character's end |
| WordSegmenter.ScanSkips | scripts/recorder6.js:178-179 | a space, or any character before the first word opens, is dropped |
| WordSegmenter.ScanFlushes | scripts/recorder6.js:183-187 | after the last character the final open word is emitted, completing `SegmentWords` |
| WordSegmenter.WordStartsBefore | scripts/recorder6.js:155-165 | lists, in increasing order, exactly the positions below `n` where a word starts |
| WordSegmenter.NoWordsExactlyWithoutStart | scripts/recorder6.js:148-165 | no words iff no position is a word start: alphanumeric and first, after whitespace, or after `! ? . : ;`; empty input gives no words |
| WordSegmenter.WordsAreWellFormed | scripts/recorder6.js:165-177 | every word is non-empty, holds no whitespace, starts with an alphanumeric, and starts at its first character's start |
| WordSegmenter.NonSpaceTextHasNoSpace | scripts/recorder6.js:174-179 | the text kept from the characters never contains whitespace |
| WordSegmenter.ConcatenatedWordsAreNonSpaceText | scripts/recorder6.js:155-187 | the concatenated word texts equal the non-whitespace characters from the first word start onward |
| WordSegmenter.SegmentWordsSpan | scripts/recorder6.js:155-187 | consecutive words cover consecutive runs of characters between successive word starts |
| EpisodeModel.ProcessEpisodeData | scripts/recorder6.js:494-555 | one scene per input scene and one dialogue per input dialogue, in order; all timing unset; numbers default to the 1-based position; name from `name`, else `title`, else empty; `id`, `premise`, the scene texts, `action`, `line` and `actor` copied with empty defaults; media flag iff the lower-cased actor is one of the four media actors |
| EpisodeModel.MediaActorIgnoresCase | scripts/recorder6.js:530-533 | `Roll-Media` is flagged as a media command and `Narrator` is not |
| EpisodeModel.ShiftWords | scripts/recorder6.js:207-211 | every word keeps its text and has start and end shifted by the same base |
| EpisodeModel.ApplySpeakStart | scripts/recorder6.js:213-232 | for an existing address, the dialogue gets start `base`, end `base + duration` and the words, and its other fields, the scene's other fields and dialogues, and every other scene stay as they were. The scene start becomes the minimum of the old start and `base`, or `base` when unset or 0. The scene end becomes the dialogue end. A missing address leaves the episode unchanged |
| EpisodeModel.ApplySceneLoaded | scripts/recorder6.js:323-340 | the previous scene's visual end and the new scene's visual start both become the event time; when the two scenes differ, the previous scene's visual start and the new scene's visual end are kept; no other field or scene changes |
| EpisodeModel.DialogueTimestampOnlyFills | scripts/recorder6.js:368-409 | the fallback changes at most timing fields that were unset, to `sec`, and never overwrites a dialogue start that is set; afterwards the dialogue has a start, the previous dialogue of the scene is closed and a first dialogue opens its scene when these were unset; a missing address is a no-op |
| EpisodeModel.DialogueTimestampCloses | scripts/recorder6.js:368-409 | the exact effect on an existing address: the dialogue's start is `sec` only if absent; the previous dialogue's end, or for dialogue 0 the previous scene's last dialogue's end and that scene's end, become `sec` when falsy and are kept otherwise; dialogue 0 opens its scene the same way; every other dialogue, scene and field is unchanged |
| EpisodeModel.FinaliseClosesLastScene | scripts/recorder6.js:569-588 | finalisation only fills unset fields; the last scene's visual end, and, when it has dialogue, its own end and its last dialogue's end each become `sec` when falsy and are kept otherwise; the rest of the last scene, its other dialogues and the earlier scenes are untouched |
| EpisodeModel.SpeakStartWinsOverFallback | scripts/recorder6.js:378-380 | after speak-start timed a dialogue, the fallback for it keeps that start, end and words |
| Recorder.TransitionTarget | scripts/recorder6.js:304-322 | the six transition kinds set their fixed phase, and none of them sets `ended` |
| Recorder.EndedOnlyByStop | scripts/recorder6.js:304-350 | after an event the phase is `ended` iff the event is a completion event or the configured stop, or the phase was `ended` and the event is not a transition kind |
| Recorder.EndedIsNotTerminal | scripts/recorder6.js:304-350 | `start_intro` after `ended` gives `intro` |
| Recorder.EndCreditsEnds | scripts/recorder6.js:317-350 | `end_credits` is switched to `waiting` and then, being a completion event, ends the recording |
| Recorder.StopAtNever | scripts/recorder6.js:1545-1551 | with stop event `never` only the four completion events stop; every completion event is an accepted stop value |
| Recorder.Take | scripts/recorder6.js:238 | the logged line is a prefix of the line: the whole line when it has at most 50 characters, otherwise exactly its first 50 |
| Recorder.Stamp | scripts/recorder6.js:258-275 | an event is stamped with its kind, data, wall clock, milliseconds since recording start (0 before), seconds = ms / 1000, fps defaulting to 30, and `frame = floor(sec * fps)` |
| Recorder.AnyStopSnoc | scripts/recorder6.js:345-350 | a timeline has reached a stop iff its prefix has or its last event is a stop |
| Recorder.DialoguesBeforeGrows | scripts/recorder6.js:949-961 | the global dialogue count before a later scene covers all dialogues of an earlier one |
| Recorder.AddressUnique | scripts/recorder6.js:949-961 | two scene and dialogue addresses with the same global position are the same address |
| Recorder.LocateDialogue | scripts/recorder6.js:944-961 | for `1 <= k <= total`, returns the unique scene and in-scene index of the k-th dialogue counted scene by scene; otherwise `(0, 0)` |
| Recorder.ShmotimeRecorder.constructor | scripts/recorder6.js:56-125 | options default to 30 fps and stop at `end_credits`; phase `waiting`, empty timeline, no episode, counters 0, not recording |
| Recorder.ShmotimeRecorder.HandlePayload | scripts/recorder6.js:290-340 | `load_episode` replaces the episode with its normalised form; `scene_loaded` with an index applies the visual window, sets the current scene and resets the in-scene counter |
| Recorder.ShmotimeRecorder.UpdatePhase | scripts/recorder6.js:304-350 | phase becomes `PhaseAfter`; `endDetected` becomes true on a stop and otherwise keeps its value; `start_ep` records the playback start |
| Recorder.ShmotimeRecorder.HandlePhaseTransition | scripts/recorder6.js:288-362 | applies the payload and the phase update and keeps the invariant that the phase is `ended` only after a stop and the stop flag matches the timeline |
| Recorder.ShmotimeRecorder.LogEvent | scripts/recorder6.js:258-282 | appends exactly the stamped event to the timeline, then runs the phase transition |
| Recorder.ShmotimeRecorder.BeginCapture | scripts/recorder6.js:1156-1165 | opens the stream, sets the recording start to now and logs `recording_start` |
| Recorder.ShmotimeRecorder.HandleSpeakStart | scripts/recorder6.js:196-244 | the episode becomes `ApplySpeakStart` at the 1-based address with the shifted segmented words, and one `speak_start` event is logged |
| Recorder.ShmotimeRecorder.EmbedDialogueTimestamp | scripts/recorder6.js:368-409 | for an existing address the episode becomes `ApplyDialogueTimestamp` and the last dialogue end becomes `sec`; otherwise nothing changes |
| Recorder.ShmotimeRecorder.OnDialogueStart | scripts/recorder6.js:941-978 | bumps the dialogue counter; for the located address of the k-th dialogue (or `(0, 0)` when there is none) the episode becomes the fallback timing there and the last dialogue time becomes `sec` exactly when a dialogue exists there; the one entry appended is `dialogue_start` with the count, the address and that dialogue's line excerpt and actor (empty when absent); the scene counters and the playback start are unchanged |
| Recorder.DialogueStartData | scripts/recorder6.js:969-977 | the payload carries the count and address, the `Take` excerpt of the dialogue's first 50 characters, and its actor, both empty when no dialogue is there |
| Recorder.DialogueStartDataKept | scripts/recorder6.js:966-977 | the payload read after embedding equals the one read before, since the fallback changes no line or actor |
| Recorder.ShmotimeRecorder.StopRecording | scripts/recorder6.js:561-605 | once only, while recording: logs `recording_stop`, finalises timing and marks the recording stopped; otherwise nothing changes |
| Slug.TitleCaseShape | scripts/recorder6.js:1415-1423 | the title is hyphen-joined non-empty alphanumeric words with no doubled or outer hyphen, and, ignoring case, keeps exactly the slug's ASCII alphanumerics in order |
| Slug.TitleCaseCapitalizesRuns | scripts/recorder6.js:1415-1423 | the title is the slug's maximal runs of ASCII letters and digits, each with its first character upper-cased and the rest unchanged, joined by single hyphens |
| Slug.SplitIsRuns | scripts/recorder6.js:1419-1420 | on letters, digits and blanks not ending in a blank, `split(/\s+/)` yields the current piece completed by the leading run, then the remaining maximal runs |
| Slug.LeadingRun | scripts/recorder6.js:1415-1423 | the longest alphanumeric prefix: a prefix, all letters and digits, non-empty when the string starts with one, and followed by a non-alphanumeric or the end |
| Slug.AlnumRuns | scripts/recorder6.js:1415-1423 | the maximal runs are non-empty strings of letters and digits |
| Slug.NonSpaceOfNormalised | scripts/recorder6.js:1417-1418 | after the two replacements only alphanumerics and spaces remain, and the non-space characters are the slug's alphanumerics |
| Slug.TrimmedShape | scripts/recorder6.js:1419 | trimming keeps alphanumerics and blanks only, with non-blank ends, and drops no non-space character |
| Slug.SplitPieces | scripts/recorder6.js:1420 | splitting on whitespace runs gives non-empty alphanumeric pieces whose concatenation is the non-space text |
| Slug.JoinShape | scripts/recorder6.js:1421-1422 | joining capitalised pieces with `-` gives hyphenated words whose alphanumerics are the pieces in order |
| JsNumber.ParseIntOfDigits | scripts/clip.ts:187 | `parseInt` of a digit string is its decimal value |
| JsNumber.ParseFloatOfDigits | scripts/clip.ts:188 | `parseFloat` of a digit string is its decimal value |
| JsNumber.RemOfNonNegative | scripts/clip.ts:200 | for a non-negative time, `% 60` is what is left after whole minutes, and its floor lies in 0..59 |
| Clip.LoadTimedData | scripts/clip.ts:255-275 | a legacy file is returned as is. A session log succeeds iff `episode`, or else `episode_data`, is present with scenes, and it then carries those scenes, name, premise and id (empty by default) |
| Clip.EpisodeMemberWins | scripts/clip.ts:261-264 | a present `episode` member hides `episode_data`, even without scenes |
| Clip.BaseNameOfRecording | scripts/clip.ts:277-281 | the base name of `dir/<stem>_fps<n>.<ext>` is `stem` |
| Clip.BaseNameOfDotted | scripts/clip.ts:277-281 | the base name drops the extension and a trailing `_fps<digits>` |
| Clip.StripFpsOf | scripts/clip.ts:280 | `_fps<n>` at the end is removed |
| Clip.TrailingDigits | scripts/clip.ts:280 | counts exactly the maximal run of digits at the end |
| Clip.ParseTimeArgAt | scripts/clip.ts:184-192 | with a colon, the value is `parseInt(before) * 60 + parseFloat(after)` |
| Clip.ParseMinutesSeconds | scripts/clip.ts:184-192 | `M:SS` reads as `M * 60 + SS` |
| Clip.FormatTimeParts | scripts/clip.ts:198-202 | the text is the whole minutes, a colon, then the remaining whole seconds padded to two digits |
| Clip.PaddedSeconds | scripts/clip.ts:201 | seconds below 60 pad to exactly two digits with the same value |
| Clip.FormatTimeRoundTrip | scripts/clip.ts:184-202 | reading back a formatted non-negative time gives the time rounded down to whole seconds |
| Clip.FindScene | scripts/clip.ts:508 | finds a scene with the number iff one exists, and it is the scene at the first index holding that number |
| Clip.EarliestAudioStart | scripts/clip.ts:484-493 | the smallest audio start (first word, else dialogue start) at or after the visual start, or none iff every one is earlier |
| Clip.ClipStartUnknownOrFirst | scripts/clip.ts:469-477 | an unknown scene starts at 0, and the first scene at its own start with no offset |
| Clip.ClipStartAfterTransition | scripts/clip.ts:479-501 | a later scene's clip start is at least the previous scene's end plus 0.17, at most any qualifying audio start plus 0.17, and is one of those two forms |
| Clip.MaxSceneNumber | scripts/clip.ts:460 | none iff there are no scenes, else a scene number at least every other |
| Clip.SceneRangeSnoc | scripts/clip.ts:450-453 | the inclusive range `from..i` is `from..i-1` followed by `i` |
| Clip.FirstOutOfRange | scripts/clip.ts:461-466 | none iff every requested number lies in `1..max`, else a requested number outside it |
| Clip.FirstOutOfRangeAt | scripts/clip.ts:461-466 | the reported number is the first one out of range |
| Clip.HandleExtract | scripts/clip.ts:421-547 | the method's selection loop, validation and cut loops yield exactly the `PlanExtract` plan |
| Clip.ExplicitTimesPassThrough | scripts/clip.ts:435-441 | an explicit start and end give that one cut verbatim |
| Clip.ValidationGuards | scripts/clip.ts:459-466 | a requested number out of range fails with an out-of-range error before any cut |
| Clip.SingleSceneCut | scripts/clip.ts:505-517 | one requested scene gives `[getClipStart(n), scene.endSec]` |
| Clip.RangeCut | scripts/clip.ts:518-533 | a valid range gives one cut `[getClipStart(from), toScene.endSec]`, and fails when either end scene is missing |
| Clip.SetCutsAreSceneWindows | scripts/clip.ts:534-546 | a scene set gives exactly one `[startSec, endSec]` cut per requested number whose scene exists, in request order, so missing ones are skipped |
| Clip.SetCutsSkipMissing | scripts/clip.ts:534-546 | the cuts of a set equal the cuts of its found numbers |
| Clip.Found | scripts/clip.ts:535-539 | the found numbers come from the request, and every requested number whose scene exists is among them |
| ClipSearch.SearchTranscript | scripts/clip.ts:383-403 | the nested loops yield exactly the matches at the hit addresses |
| ClipSearch.HitsExactly | scripts/clip.ts:387-395 | an address is a hit iff it is valid and its line is non-empty and contains the query ignoring case |
| ClipSearch.HitsOrdered | scripts/clip.ts:387-388 | hits come in scene-then-dialogue order |
| ClipSearch.SearchFindsExactlyTheHits | scripts/clip.ts:383-403 | every hit is reported, and every reported match is a hit carrying its scene, dialogue and line, in order |
| ClipSearch.EffectivePadding | scripts/clip.ts:565 | padding is the given value unless absent or 0, in which case it is the default 2; never 0 |
| ClipSearch.SearchCut | scripts/clip.ts:597-599 | a cut starts at `max(0, start - padding)` and ends at `end + padding` |
| ClipSearch.SanitizedQueryShape | scripts/clip.ts:594 | the query part has exactly the first 20 (or fewer) positions of the query; an alphanumeric is kept and every other character becomes `_` |
| ClipSearch.ClipNamesDistinct | scripts/clip.ts:600-603 | different match positions get different clip names |
| ClipSearch.HandleSearch | scripts/clip.ts:549-607 | the method yields exactly the `PlanSearch` plan |
| ClipSearch.SearchClipsPadMatches | scripts/clip.ts:592-606 | with `--extract`, one padded clip per match, in match order, named after its position |
| ClipSearch.SearchNeedsQueryAndExtract | scripts/clip.ts:556-590 | a missing or empty query fails; without `--extract` nothing is cut |
| FileHelper.MediaByContentType | src/helpers/fileHelper.ts:21-24 | with a non-empty content type, media iff it starts with `image/` or `video/`, whatever the URL |
| FileHelper.MediaByExtension | src/helpers/fileHelper.ts:17-27 | without a content type, media is decided by the lower-cased URL's ending; a listed extension in any case is media |
| FileHelper.ValidPathIff | src/helpers/fileHelper.ts:56-73 | valid iff non-empty, free of the six dangerous substrings, and not absolute |
| FileHelper.SanitizedIsClean | src/helpers/fileHelper.ts:80-90 | empty gives `unknown`; otherwise at most 255 characters, no forbidden character, no leading dot |
| FileHelper.SanitizeKeepsAllowed | src/helpers/fileHelper.ts:86-89 | a name not starting with a dot keeps its length up to 255 and every allowed character |
| FileHelper.SanitizeKeepsClean | src/helpers/fileHelper.ts:80-90 | a name that is already clean is returned unchanged |
| FileHelper.SanitizeIdempotent | src/helpers/fileHelper.ts:80-90 | sanitising twice equals sanitising once |
| FileHelper.FinalSegment | src/helpers/fileHelper.ts:156 | a dot-free suffix of the name that is the whole name or is preceded by a dot, i.e. the text after the last dot |
| FileHelper.FileTypeDirChoice | src/helpers/fileHelper.ts:148-162 | always one of the four directories; a matching content-type prefix wins in order; otherwise the file name decides |
| FileHelper.FileTypeDirByExtension | src/helpers/fileHelper.ts:156-161 | without a content type the lower-cased text after the last dot picks the directory |
| FileHelper.MediaFilesGoToMediaDirs | src/helpers/fileHelper.ts:148-162 | anything `isMediaFile` accepts is filed under `images` or `videos` |
| TopicGrouping.GroupObjectsByTopics | src/plugins/generators/DailySummaryGenerator.ts:68-100 | the map-building loops, sort and formatting yield exactly `TopicGroups(objects)` |
| TopicGrouping.BuildTopicMap | src/plugins/generators/DailySummaryGenerator.ts:72-82 | the key order and map contents match the lower-cased topic occurrences in input order |
| TopicGrouping.GroupTopicsDistinct | src/plugins/generators/DailySummaryGenerator.ts:72-82 | no two groups share a topic |
| TopicGrouping.GroupTopicIsUsed | src/plugins/generators/DailySummaryGenerator.ts:72-82 | every group's topic is a lower-cased topic of some object |
| TopicGrouping.UsedTopicHasGroup | src/plugins/generators/DailySummaryGenerator.ts:72-82 | every lower-cased topic of an object has a group |
| TopicGrouping.GroupMembersExactly | src/plugins/generators/DailySummaryGenerator.ts:72-82 | an object is in a group iff it is an input object with that lower-cased topic |
| TopicGrouping.GroupSizesTotal | src/plugins/generators/DailySummaryGenerator.ts:72-85 | the group sizes add up to the number of topic occurrences |
| TopicGrouping.GroupsBySize | src/plugins/generators/DailySummaryGenerator.ts:85 | groups are in non-increasing size, and groups of equal size keep their first-seen order |
| TopicGrouping.SortPermutes | src/plugins/generators/DailySummaryGenerator.ts:85 | sorting is a permutation of the entries |
| TopicGrouping.SortStable | src/plugins/generators/DailySummaryGenerator.ts:85 | sorting keeps the relative order of equal-size entries |
| TopicGrouping.AllTopicsOfGroup | src/plugins/generators/DailySummaryGenerator.ts:88-98 | `allTopics` is duplicate-free, is exactly the original-case topics of the members, and includes one that lower-cases to the key |
| TopicGrouping.MergedTopicsExactly | src/plugins/generators/DailySummaryGenerator.ts:89-92 | the merged topics are duplicate-free and exactly the members' topics |
| TopicGrouping.MergeTopics | src/plugins/generators/DailySummaryGenerator.ts:89-92 | the loop yields exactly `MergedTopics` |
| TopicGrouping.GroupContentByTopic | src/plugins/generators/DailySummaryGenerator.ts:103-153 | the set, bucket creation and placement loops yield exactly `ContentGroups(items)` |
| TopicGrouping.CollectTopics | src/plugins/generators/DailySummaryGenerator.ts:108-125 | collects exactly the topics of items that have a non-empty topic list |
| TopicGrouping.UniqueTopicsExactly | src/plugins/generators/DailySummaryGenerator.ts:108-125 | a topic is collected iff some item with topics lists it |
| TopicGrouping.ContentKeys | src/plugins/generators/DailySummaryGenerator.ts:127-131 | the keys are `Miscellaneous` and the collected topics, untrimmed |
| TopicGrouping.ContentPlacement | src/plugins/generators/DailySummaryGenerator.ts:133-148 | an item without topics goes to `Miscellaneous`; each topic files the item under its trimmed form if that is a key, otherwise under `Miscellaneous` |
| TopicGrouping.EveryItemGrouped | src/plugins/generators/DailySummaryGenerator.ts:133-148 | every item lands in at least one group |
| TopicGrouping.UntrimmedTopicMisfiled | src/plugins/generators/DailySummaryGenerator.ts:114-143 | an item whose only topic is a blank then `t` leaves the group for its untrimmed topic empty and lands in `Miscellaneous` |
| TopicGrouping.TrimmedTopicsGrouped | src/plugins/generators/DailySummaryGenerator.ts:133-143 | with topics trimmed when collected, every item is in the group of each of its trimmed topics |
| TopicGrouping.TrimmedMiscellaneous | src/plugins/generators/DailySummaryGenerator.ts:131-148 | with topics trimmed when collected, `Miscellaneous` holds only items without topics or with a topic that trims to `Miscellaneous` |
| Clip.ReversedRangeCutsBackwards | scripts/clip.ts:450-526 | `--from 3 --to 1` passes validation and plans the backwards cut `[25.17, 10.0]` |
| Clip.CheckedRangeRunsForward | scripts/clip.ts:450-526 | whenever the request reaches the range branch (with or without `--scenes`), a reversed range is refused and a planned range runs forward; every other request is planned as before |
| Clip.ReversedRangeWithScenesIsRefused | scripts/clip.ts:450-526 | `--scenes 1,2 --from 3 --to 1` reaches the range branch and the checked plan refuses it |
| FileHelper.ParentPathAccepted | src/helpers/fileHelper.ts:56-73 | the path `..` is accepted, although it names the parent directory |
| FileHelper.CheckedPathHasNoParentSegment | src/helpers/fileHelper.ts:56-73 | a path accepted by the corrected test, which also refuses a trailing `..`, contains no parent segment anywhere |
| FileHelper.CheckedPathIsValid | src/helpers/fileHelper.ts:56-73 | the checked test accepts exactly the accepted paths that do not end in a parent segment |

## Left out

- Browser automation, the page event listener plumbing, console logging
  and the navigation monitor are not modelled. They are puppeteer I/O.
  The event handlers receive their already-extracted arguments.
- Timers are not modelled: the post-roll `setTimeout` before stopping,
  the waiting loops and the status interval. Completion is the `ended`
  phase and the `endDetected` flag, and `StopRecording` is a separate
  call.
- EpisodeModel.ProcessEpisodeData: the episode's `image` and `image_thumb`,
  and each scene's `cast`, `length`, `totalInEpisode` and
  `total_dialogues`, are not carried, because no timing or clip
  computation reads them.
- Clip: the loaded dialogue and scene timing fields are plain numbers, so
  the model assumes every one of them is set, as the TypeScript interface
  declares. A recording whose dialogue lacks `startSec` (which
  `getClipStart`'s filter would skip) or whose scene lacks `endSec` (which
  would give a `NaN` cut) is not modelled.
- `processShowConfig` (the `load_show` payload) is not modelled. Show
  metadata does not feed any timing.
- The debug log line in the `load_episode` branch is not modelled.
- ffmpeg is not modelled: `extractClip` and the frame-rate fix are
  foreign processes. The model stops at the planned `{start, end}` cuts
  and the search clip names.
- Output paths, `ensureOutputDir` and the file-name formatting of explicit
  time cuts are not modelled.
- Reading and parsing JSON files is not modelled. `loadTimedData` is
  modelled from an already-parsed value.
- The video and data path resolution (`resolveVideoAndData`) is not
  modelled. `handleSearch`'s missing-video error is left out with it.
- Command-line parsing and help text are not modelled. Padding, query and
  scene selections arrive as already-parsed options. `None` means an
  option was not given. A `--start`, `--end` or scene number that parses to
  `NaN` is not represented: the source would treat it as given.
- Numbers are `real`: IEEE rounding of `+ 0.17`, `/ 1000` or `% 60` is not
  captured.
- JsNumber.ParseFloat: does not model `NaN`, exponents or `Infinity`. It
  reads an optional sign, digits and an optional fraction, and a
  non-number is `None`.
- JsNumber.ParseInt: does not model the radix prefix forms or `NaN`
  arithmetic; an unparsable minutes part makes the whole time `None`.
- Case mapping and whitespace are ASCII only. `toLowerCase`,
  `toUpperCase`, `trim` and `\s` on non-ASCII text are not modelled.
- Lengths are counted in characters, not UTF-16 code units, for the
  50-character line excerpt, the 20-character query and the 255-character
  file name.
- `path.isAbsolute` is a parameter of `IsValidPath`, since platform path
  rules are not part of this model. Likewise `path.basename` and
  `path.extname` are modelled for `/`-separated paths only.
- In `groupContentByTopic`, the insertion order of the result's keys is
  not modelled, because the result is a `map`.
- Keys inherited from `Object.prototype` (a topic named `constructor`, for
  instance) are not modelled either.
- The `try`/`catch` JSON round-trip of each item's topics in
  `groupContentByTopic` is modelled as the identity. Topics are
  sequences of strings.
- Non-string topics are not modelled.
- The `console.log` of the sorted topics is not modelled.
- The summary generator's LLM prompt, storage and content hashing are not
  modelled; they are network and storage calls.
- `src/helpers/promptHelper.ts` and `src/historical.ts` are not part of
  this model.
- URL parsing helpers (`isValidUrl`, `extractFilenameFromUrl`, the episode
  slug) are not modelled; they depend on the WHATWG URL parser.
- Media download extraction is not modelled; it depends on helpers outside
  these files.
- Recorder.ShmotimeRecorder.HandleSpeakStart: the logged `actor` is taken
  as a given string. The `actor?.id || actor` choice on the raw event is
  not modelled.

## Findings

| source | as written | input that shows it | evidently intended | confidence | as-written member | corrected member |
|---|---|---|---|---|---|---|
| scripts/clip.ts:450-526 | `--from N --to M` with `N > M` expands to no scene numbers, so validation has nothing to reject; the range branch then cuts from scene N's clip start to scene M's end | scenes 1, 2, 3 ending at 10, 20, 30 and a line in scene 3 at 25; `--from 3 --to 1` plans the cut `[25.17, 10.0]` | a reversed range is refused | not executed | Clip.ReversedRangeCutsBackwards | Clip.PlanExtractChecked, Clip.CheckedRangeRunsForward |
| src/helpers/fileHelper.ts:56-73 | the dangerous patterns `../` and `..\` only catch a parent segment followed by a separator | the relative path `..` is accepted | a path naming the parent directory is refused | not executed | FileHelper.ParentPathAccepted | FileHelper.IsValidPathChecked, FileHelper.CheckedPathHasNoParentSegment |
| src/plugins/generators/DailySummaryGenerator.ts:108-143 | the buckets are created from the untrimmed topics, while the items are filed under the trimmed topics | an item with the single topic `" x"` creates an empty bucket `" x"` and lands in `Miscellaneous` | buckets are keyed by the trimmed topic, so the item is filed under `x` | not executed | TopicGrouping.UntrimmedTopicMisfiled | TopicGrouping.TrimmedContentGroups, TopicGrouping.TrimmedTopicsGrouped |
