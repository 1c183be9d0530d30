/**
 * The clip boundary resolver of `scripts/clip.ts`: reading a finalised
 * episode, naming, time arguments, where a scene clip starts, and which cuts
 * an `extract` request produces. Cuts are the `{start, end}` pairs that would
 * be handed to ffmpeg; running ffmpeg is not part of this model.
 */
module Clip {
  import opened Wrappers
  import opened Text
  import opened JsNumber
  import W = WordSegmenter
  import EM = EpisodeModel

  /** A dialogue entry of a finalised episode; an absent `line` is the empty string. */
  datatype Dialogue = Dialogue(number: int, line: string, actor: string, startSec: real, endSec: real, words: seq<W.Word>)

  datatype Scene = Scene(number: int, startSec: real, endSec: real, dialogue: seq<Dialogue>)

  datatype TimedEpisode = TimedEpisode(id: string, name: Option<string>, premise: Option<string>, scenes: seq<Scene>)

  /** The clip that would be cut: from `start` to `end` seconds of the video. */
  datatype Cut = Cut(start: real, end: real)

  // ---------------------------------------------------------------------------
  // Loading: the shape choice of `loadTimedData` on an already parsed file
  // ---------------------------------------------------------------------------

  /** An `episode` / `episode_data` object of a session log, fields possibly absent. */
  datatype EpisodeObject = EpisodeObject(id: Option<string>, name: Option<string>, premise: Option<string>, scenes: Option<seq<Scene>>)

  /**
   * A parsed data file: its `episode` and `episode_data` members (session-log
   * format) and the same value read as episode data (the legacy format).
   */
  datatype ParsedFile = ParsedFile(episode: Option<EpisodeObject>, episodeData: Option<EpisodeObject>, asTimed: TimedEpisode)

  /** `parsed.episode || parsed.episode_data` */
  function ChosenEpisode(parsed: ParsedFile): Option<EpisodeObject> {
    if parsed.episode.Some? then parsed.episode else parsed.episodeData
  }

  function LoadTimedData(parsed: ParsedFile, isSessionLog: bool): (r: Result<TimedEpisode, string>)
    ensures !isSessionLog ==> r == Success(parsed.asTimed)
    ensures isSessionLog ==>
      (r.Success? <==> ChosenEpisode(parsed).Some? && ChosenEpisode(parsed).value.scenes.Some?)
    ensures isSessionLog && r.Success? ==>
      var e := ChosenEpisode(parsed).value;
      && r.value.scenes == e.scenes.value
      && r.value.name == e.name && r.value.premise == e.premise
      && (e.id.Some? && e.id.value != "" ==> r.value.id == e.id.value)
      && (e.id.None? || e.id.value == "" ==> r.value.id == "")
  {
    if isSessionLog then
      match ChosenEpisode(parsed)
      case None => Failure("Invalid session-log format: missing episode.scenes")
      case Some(e) =>
        if e.scenes.None? then Failure("Invalid session-log format: missing episode.scenes")
        else Success(TimedEpisode(EM.OrString(e.id, ""), e.name, e.premise, e.scenes.value))
    else Success(parsed.asTimed)
  }

  /** A present `episode` member hides `episode_data`, even when it has no scenes. */
  lemma EpisodeMemberWins(parsed: ParsedFile)
    requires parsed.episode.Some?
    ensures LoadTimedData(parsed, true).Success? <==> parsed.episode.value.scenes.Some?
  {
  }

  // ---------------------------------------------------------------------------
  // Output names: `getEpisodeBaseName`
  // ---------------------------------------------------------------------------

  /** Index of the first occurrence of `c` in `s`, or -1. */
  function IndexOf(s: string, c: char): (r: int)
    ensures -1 <= r < |s|
    ensures r >= 0 ==> s[r] == c
    ensures forall i :: 0 <= i < |s| && (r < 0 || i < r) ==> s[i] != c
    decreases |s|
  {
    if s == [] then -1
    else if s[0] == c then 0
    else var k := IndexOf(s[1..], c); if k < 0 then -1 else k + 1
  }

  function StripTrailingSlashes(p: string): (r: string)
    ensures |r| <= |p| && r == p[..|r|]
    ensures r != [] ==> r[|r| - 1] != '/'
    decreases |p|
  {
    if p != [] && p[|p| - 1] == '/' then StripTrailingSlashes(p[..|p| - 1]) else p
  }

  /** `path.basename(p)` on POSIX paths: the last segment, trailing slashes ignored. */
  function Basename(p: string): string {
    var q := StripTrailingSlashes(p);
    q[LastIndexOf(q, '/') + 1..]
  }

  /**
   * `path.extname` of a final path segment: from its last `.` to the end,
   * or empty when there is no dot, when the only dot-free text is after a
   * leading dot, or for `..`.
   */
  function Extname(name: string): (r: string)
    ensures |r| <= |name| && r == name[|name| - |r|..]
  {
    var d := LastIndexOf(name, '.');
    if d <= 0 || name == ".." then [] else name[d..]
  }

  /** `name.replace(/_fps\d+$/, "")` */
  function StripFpsSuffix(name: string): string {
    var k := TrailingDigits(name);
    var stem := name[..|name| - k];
    if k > 0 && EndsWith(stem, "_fps") then stem[..|stem| - 4] else name
  }

  /** Length of the run of decimal digits at the end of `s`. */
  function TrailingDigits(s: string): (k: nat)
    ensures k <= |s|
    ensures forall i :: |s| - k <= i < |s| ==> IsDigit(s[i])
    ensures k < |s| ==> !IsDigit(s[|s| - k - 1])
    decreases |s|
  {
    if s != [] && IsDigit(s[|s| - 1]) then 1 + TrailingDigits(s[..|s| - 1]) else 0
  }

  function GetEpisodeBaseName(videoPath: string): string {
    var b := Basename(videoPath);
    StripFpsSuffix(b[..|b| - |Extname(b)|])
  }

  /** The base name of a path is the text after its last slash. */
  lemma BasenameAfterSlash(dir: string, name: string)
    requires name != [] && name[|name| - 1] != '/'
    requires forall i :: 0 <= i < |name| ==> name[i] != '/'
    ensures Basename(dir + "/" + name) == name
  {
    var p := dir + "/" + name;
    assert p == dir + ['/'] + name;
    assert p[|p| - 1] == name[|name| - 1];
    assert StripTrailingSlashes(p) == p;
    LastIndexPast(dir, '/', name);
    assert p[|dir| + 1..] == name;
  }

  /** The extension of `<front>.<ext>` is `.<ext>` when `ext` has no dot and `front` is not empty. */
  lemma ExtnameOfDotted(front: string, ext: string)
    requires front != [] && ext != [] && forall i :: 0 <= i < |ext| ==> ext[i] != '.'
    ensures Extname(front + "." + ext) == "." + ext
  {
    var name := front + "." + ext;
    assert name == front + ['.'] + ext;
    LastIndexPast(front, '.', ext);
    assert |name| > 2;
    assert name[|front|..] == "." + ext;
  }

  /** `_fps<n>` at the end of a name is dropped. */
  lemma StripFpsOf(stem: string, n: nat)
    ensures StripFpsSuffix(stem + "_fps" + NatToString(n)) == stem
  {
    var digits := NatToString(n);
    var a := stem + "_fps";
    var name := a + digits;
    assert a[|a| - 1] == 's';
    TrailingDigitsOf(a, digits);
    assert name[..|name| - |digits|] == a;
    assert a[|a| - 4..] == "_fps";
    assert a[..|a| - 4] == stem;
  }

  lemma RecordingNameHasNoSlash(stem: string, digits: string, ext: string)
    requires forall i :: 0 <= i < |stem| ==> stem[i] != '/'
    requires forall i :: 0 <= i < |digits| ==> IsDigit(digits[i])
    requires forall i :: 0 <= i < |ext| ==> ext[i] != '/'
    ensures var name := stem + "_fps" + digits + "." + ext;
      forall i :: 0 <= i < |name| ==> name[i] != '/'
  {
    var name := stem + "_fps" + digits + "." + ext;
    forall i | 0 <= i < |name| ensures name[i] != '/' {
      if i < |stem| {
        assert name[i] == stem[i];
      } else if i < |stem| + 4 {
        assert name[i] == "_fps"[i - |stem|];
      } else if i < |stem| + 4 + |digits| {
        assert name[i] == digits[i - |stem| - 4];
      } else if i > |stem| + 4 + |digits| {
        assert name[i] == ext[i - |stem| - 5 - |digits|];
      }
    }
  }

  /** A base name `<front>.<ext>` leaves `<front>` to the `_fps` strip. */
  lemma BaseNameOfDotted(p: string, front: string, ext: string)
    requires front != [] && ext != [] && forall i :: 0 <= i < |ext| ==> ext[i] != '.'
    requires Basename(p) == front + "." + ext
    ensures GetEpisodeBaseName(p) == StripFpsSuffix(front)
  {
    var name := front + "." + ext;
    ExtnameOfDotted(front, ext);
    assert name[..|name| - |Extname(name)|] == front;
  }

  /**
   * A recording named `<dir>/<stem>_fps<n>.<ext>` gives back `<stem>`,
   * whatever the directory, the frame rate and the extension.
   */
  lemma BaseNameOfRecording(dir: string, stem: string, n: nat, ext: string)
    requires forall i :: 0 <= i < |stem| ==> stem[i] != '/'
    requires ext != [] && forall i :: 0 <= i < |ext| ==> ext[i] != '/' && ext[i] != '.'
    ensures GetEpisodeBaseName(dir + "/" + stem + "_fps" + NatToString(n) + "." + ext) == stem
  {
    var digits := NatToString(n);
    var front := stem + "_fps" + digits;
    var name := front + "." + ext;
    assert dir + "/" + stem + "_fps" + digits + "." + ext == dir + "/" + name;
    RecordingNameHasNoSlash(stem, digits, ext);
    BasenameAfterSlash(dir, name);
    BaseNameOfDotted(dir + "/" + name, front, ext);
    StripFpsOf(stem, n);
  }

  lemma TrailingDigitsOf(a: string, digits: string)
    requires a != [] && !IsDigit(a[|a| - 1])
    requires forall i :: 0 <= i < |digits| ==> IsDigit(digits[i])
    ensures TrailingDigits(a + digits) == |digits|
  {
    var s := a + digits;
    assert forall i :: |a| <= i < |s| ==> s[i] == digits[i - |a|];
    assert s[|a| - 1] == a[|a| - 1];
  }

  // ---------------------------------------------------------------------------
  // Time arguments and rendering: `parseTimeArg`, `formatTime`
  // ---------------------------------------------------------------------------

  /** `value.split(":")[1]` when `value` has a colon at `i`: up to the next colon. */
  function SecondPart(value: string, i: nat): string
    requires i < |value|
  {
    var after := value[i + 1..];
    var j := IndexOf(after, ':');
    if j < 0 then after else after[..j]
  }

  /** `parseTimeArg`: `M:SS`, `M:SS.ms` or plain seconds; `None` is `NaN`. */
  function ParseTimeArg(value: string): Option<real> {
    if ':' in value then
      var i := IndexOf(value, ':');
      var mins := ParseInt(value[..i]);
      var secs := ParseFloat(SecondPart(value, i));
      if mins.Some? && secs.Some? then Some((mins.value * 60) as real + secs.value) else None
    else ParseFloat(value)
  }

  /** `formatTime`: whole minutes, a colon, whole seconds padded to two digits. */
  function FormatTime(seconds: real): string {
    IntToString(Floor(seconds / 60.0)) + ":" + PadStart2(IntToString(Floor(Rem(seconds, 60.0))))
  }

  /** Two-digit rendering of a number of seconds below a minute. */
  lemma PaddedSeconds(secs: nat)
    requires secs < 60
    ensures var t := PadStart2(NatToString(secs));
      && |t| == 2 && (forall i :: 0 <= i < |t| ==> IsDigit(t[i])) && DigitsValue(t) == secs
  {
    var t := PadStart2(NatToString(secs));
    DigitsValueOfNatToString(secs);
    if secs < 10 {
      assert t == ['0', DigitChar(secs)];
      assert t[..1] == ['0'];
    } else {
      assert NatToString(secs) == NatToString(secs / 10) + [DigitChar(secs % 10)];
      assert |NatToString(secs / 10)| == 1;
    }
  }

  /** A time of zero or more seconds is printed as its whole minutes and its padded remaining seconds. */
  lemma FormatTimeParts(seconds: real)
    requires seconds >= 0.0
    ensures var mins := Floor(seconds / 60.0);
      && 0 <= mins && 0 <= Floor(seconds) - 60 * mins < 60
      && FormatTime(seconds) == NatToString(mins) + [':'] + PadStart2(NatToString(Floor(seconds) - 60 * mins))
  {
    RemOfNonNegative(seconds);
    assert seconds / 60.0 >= 0.0;
  }

  /** The first occurrence of `c` is found after a prefix that has none. */
  lemma {:induction false} IndexOfPast(a: string, c: char, b: string)
    requires forall i :: 0 <= i < |a| ==> a[i] != c
    ensures IndexOf(a + [c] + b, c) == |a|
    decreases |a|
  {
    var s := a + [c] + b;
    if a != [] {
      assert s[0] == a[0];
      assert s[1..] == a[1..] + [c] + b;
      IndexOfPast(a[1..], c, b);
    }
  }

  /** `parseTimeArg` on a value whose first colon is at `i` and whose parts both parse. */
  lemma ParseTimeArgAt(value: string, i: nat, mins: int, secs: real)
    requires i < |value| && IndexOf(value, ':') == i
    requires ParseInt(value[..i]).Some? && ParseInt(value[..i]).value == mins
    requires ParseFloat(SecondPart(value, i)).Some? && ParseFloat(SecondPart(value, i)).value == secs
    ensures ParseTimeArg(value).Some? && ParseTimeArg(value).value == (mins * 60) as real + secs
  {
  }

  /** In `M:SS`, the first colon follows the minute digits and the seconds run to the end. */
  lemma MinutesColonSeconds(mins: nat, t: string)
    requires forall i :: 0 <= i < |t| ==> IsDigit(t[i])
    ensures var m := NatToString(mins);
      var f := m + [':'] + t;
      && IndexOf(f, ':') == |m| && f[..|m|] == m && SecondPart(f, |m|) == t
  {
    var m := NatToString(mins);
    var f := m + [':'] + t;
    forall i | 0 <= i < |m| ensures m[i] != ':' {
      assert IsDigit(m[i]);
    }
    IndexOfPast(m, ':', t);
    assert f[|m| + 1..] == t;
    assert IndexOf(t, ':') < 0;
  }

  /** `M:SS` with a two-digit `SS` is read as `M * 60 + SS`. */
  lemma ParseMinutesSeconds(mins: nat, t: string)
    requires |t| == 2 && forall i :: 0 <= i < |t| ==> IsDigit(t[i])
    ensures var r := ParseTimeArg(NatToString(mins) + [':'] + t);
      r.Some? && r.value == (mins * 60 + DigitsValue(t)) as real
  {
    var m := NatToString(mins);
    MinutesColonSeconds(mins, t);
    DigitsValueOfNatToString(mins);
    ParseIntOfDigits(m);
    ParseFloatOfDigits(t);
    ParseTimeArgAt(m + [':'] + t, |m|, mins, DigitsValue(t) as real);
  }

  /**
   * Reading back what `formatTime` printed for a non-negative time gives
   * the time rounded down to whole seconds.
   */
  lemma FormatTimeRoundTrip(seconds: real)
    requires seconds >= 0.0
    ensures ParseTimeArg(FormatTime(seconds)).Some?
    ensures ParseTimeArg(FormatTime(seconds)).value == Floor(seconds) as real
  {
    FormatTimeParts(seconds);
    var mins := Floor(seconds / 60.0);
    var secs := Floor(seconds) - 60 * mins;
    PaddedSeconds(secs);
    ParseMinutesSeconds(mins, PadStart2(NatToString(secs)));
  }

  // ---------------------------------------------------------------------------
  // Where a scene clip starts: `getClipStart`
  // ---------------------------------------------------------------------------

  /** Seconds added after the audio anchor for encoder latency (about 5 frames at 30 fps). */
  const EncodingBuffer: real := 0.17

  /** `scenes.findIndex(s => s.number === n)` */
  function FindSceneIndex(scenes: seq<Scene>, n: int): (r: int)
    ensures -1 <= r < |scenes|
    ensures r >= 0 ==> scenes[r].number == n
    ensures forall k :: 0 <= k < |scenes| && (r < 0 || k < r) ==> scenes[k].number != n
    decreases |scenes|
  {
    if scenes == [] then -1
    else if scenes[0].number == n then 0
    else var k := FindSceneIndex(scenes[1..], n); if k < 0 then -1 else k + 1
  }

  /** `scenes.find(s => s.number === n)` */
  function FindScene(scenes: seq<Scene>, n: int): (r: Option<Scene>)
    ensures r.Some? <==> exists k :: 0 <= k < |scenes| && scenes[k].number == n
    ensures r.Some? ==> r.value.number == n && r.value in scenes
    ensures r.Some? ==> 0 <= FindSceneIndex(scenes, n) < |scenes| && r.value == scenes[FindSceneIndex(scenes, n)]
  {
    var i := FindSceneIndex(scenes, n);
    if i < 0 then None else Some(scenes[i])
  }

  /** `d.words?.[0]?.start ?? d.startSec`: the first word's start, else the dialogue's. */
  function AudioStart(d: Dialogue): real {
    if |d.words| > 0 then d.words[0].start else d.startSec
  }

  /**
   * The audio start of the first dialogue after the filter on
   * `audioStart >= visualStart` and the ascending sort: the least
   * qualifying audio start, or `None` when no dialogue qualifies.
   */
  function EarliestAudioStart(ds: seq<Dialogue>, visualStart: real): (r: Option<real>)
    ensures r.None? <==> forall i :: 0 <= i < |ds| ==> AudioStart(ds[i]) < visualStart
    ensures r.Some? ==> r.value >= visualStart && exists d :: d in ds && AudioStart(d) == r.value
    ensures r.Some? ==> forall i :: 0 <= i < |ds| && AudioStart(ds[i]) >= visualStart ==> r.value <= AudioStart(ds[i])
    decreases |ds|
  {
    if ds == [] then None
    else
      var rest := EarliestAudioStart(ds[1..], visualStart);
      var a := AudioStart(ds[0]);
      assert forall i :: 1 <= i < |ds| ==> ds[i] == ds[1..][i - 1];
      if a < visualStart || (rest.Some? && rest.value < a) then rest else Some(a)
  }

  /** `getClipStart(sceneNum)` */
  function GetClipStart(scenes: seq<Scene>, sceneNum: int): real {
    var idx := FindSceneIndex(scenes, sceneNum);
    if idx < 0 then 0.0
    else if idx == 0 then scenes[0].startSec
    else
      var visualStart := scenes[idx - 1].endSec;
      EarliestAudioStart(scenes[idx].dialogue, visualStart).GetOr(visualStart) + EncodingBuffer
  }

  /** An unknown scene starts at 0; the first scene at its own `startSec`, with no offset. */
  lemma ClipStartUnknownOrFirst(scenes: seq<Scene>, sceneNum: int)
    ensures FindScene(scenes, sceneNum).None? ==> GetClipStart(scenes, sceneNum) == 0.0
    ensures |scenes| > 0 && scenes[0].number == sceneNum ==> GetClipStart(scenes, sceneNum) == scenes[0].startSec
  {
  }

  /**
   * A later scene starts the encoding buffer after the earliest dialogue
   * audio at or after the previous scene's end (every dialogue counts, media
   * commands included), or after that end itself when no audio qualifies;
   * either way no earlier than the previous end plus the buffer.
   */
  lemma ClipStartAfterTransition(scenes: seq<Scene>, sceneNum: int, idx: nat)
    requires 0 < idx < |scenes| && scenes[idx].number == sceneNum
    requires forall k :: 0 <= k < idx ==> scenes[k].number != sceneNum
    ensures GetClipStart(scenes, sceneNum) >= scenes[idx - 1].endSec + EncodingBuffer
    ensures forall i :: 0 <= i < |scenes[idx].dialogue| && AudioStart(scenes[idx].dialogue[i]) >= scenes[idx - 1].endSec ==>
      GetClipStart(scenes, sceneNum) <= AudioStart(scenes[idx].dialogue[i]) + EncodingBuffer
    ensures GetClipStart(scenes, sceneNum) == scenes[idx - 1].endSec + EncodingBuffer ||
      exists d :: d in scenes[idx].dialogue && GetClipStart(scenes, sceneNum) == AudioStart(d) + EncodingBuffer
  {
    assert FindSceneIndex(scenes, sceneNum) == idx;
  }

  // ---------------------------------------------------------------------------
  // Scene selection and cuts: the `extract` command
  // ---------------------------------------------------------------------------

  /**
   * The `extract` options: `--scene`, `--scenes`, `--from`, `--to`, `--start`, `--end`,
   * as already-parsed numbers. `None` means the option was not given; a
   * value that parsed to `NaN` is not represented.
   */
  datatype ExtractArgs = ExtractArgs(
    scene: Option<int>, scenes: Option<seq<int>>, from: Option<int>, to: Option<int>,
    start: Option<real>, end: Option<real>)

  /** Why nothing is extracted (each is an error message and exit code 1). */
  datatype ExtractError = NoSelection | OutOfRange(num: int) | SceneNotFound(num: int) | RangeInvalid(from: int, to: int)

  /** `Math.max(...scenes.map(s => s.number))`; `None` stands for `-Infinity`. */
  function MaxSceneNumber(scenes: seq<Scene>): (r: Option<int>)
    ensures r.None? <==> scenes == []
    ensures r.Some? ==> exists s :: s in scenes && s.number == r.value
    ensures r.Some? ==> forall k :: 0 <= k < |scenes| ==> scenes[k].number <= r.value
    decreases |scenes|
  {
    if scenes == [] then None
    else
      var rest := MaxSceneNumber(scenes[1..]);
      assert forall k :: 1 <= k < |scenes| ==> scenes[k] == scenes[1..][k - 1];
      if rest.Some? && rest.value > scenes[0].number then rest else Some(scenes[0].number)
  }

  predicate InRange(num: int, max: Option<int>) {
    max.Some? && 1 <= num <= max.value
  }

  /** The inclusive list `from..to`, empty when `from > to`. */
  function SceneRange(from: int, to: int): seq<int> {
    seq(if from <= to then to - from + 1 else 0, i => from + i)
  }

  lemma SceneRangeSnoc(from: int, i: int)
    requires from <= i
    ensures SceneRange(from, i) == SceneRange(from, i - 1) + [i]
  {
  }

  /** The scene numbers the options ask for, by the priority `--scene`, `--scenes`, `--from/--to`. */
  function Requested(args: ExtractArgs): Option<seq<int>> {
    if args.scene.Some? then Some([args.scene.value])
    else if args.scenes.Some? then args.scenes
    else if args.from.Some? && args.to.Some? then Some(SceneRange(args.from.value, args.to.value))
    else None
  }

  /** The first requested number outside `[1, max]`, the one the error names. */
  function FirstOutOfRange(nums: seq<int>, max: Option<int>): (r: Option<int>)
    ensures r.None? <==> forall i :: 0 <= i < |nums| ==> InRange(nums[i], max)
    ensures r.Some? ==> r.value in nums && !InRange(r.value, max)
    decreases |nums|
  {
    if nums == [] then None
    else if !InRange(nums[0], max) then Some(nums[0])
    else
      assert forall i :: 1 <= i < |nums| ==> nums[i] == nums[1..][i - 1];
      FirstOutOfRange(nums[1..], max)
  }

  /** The number named is the first one out of range, in request order. */
  lemma {:induction false} FirstOutOfRangeAt(nums: seq<int>, max: Option<int>, k: nat)
    requires k < |nums| && !InRange(nums[k], max)
    requires forall j :: 0 <= j < k ==> InRange(nums[j], max)
    ensures FirstOutOfRange(nums, max).Some? && FirstOutOfRange(nums, max).value == nums[k]
    decreases k
  {
    if k > 0 {
      assert forall j :: 0 <= j < k - 1 ==> nums[1..][j] == nums[j + 1];
      FirstOutOfRangeAt(nums[1..], max, k - 1);
    }
  }

  /** The cut for one scene of a `--scenes` set: its own unanchored `[startSec, endSec]`, if it exists. */
  function SetCut(scenes: seq<Scene>, num: int): seq<Cut> {
    match FindScene(scenes, num)
    case None => []
    case Some(s) => [Cut(s.startSec, s.endSec)]
  }

  /** One cut per requested scene that exists, in request order; missing scenes are skipped. */
  function SetCuts(scenes: seq<Scene>, nums: seq<int>): seq<Cut>
    decreases |nums|
  {
    if nums == [] then [] else SetCuts(scenes, nums[..|nums| - 1]) + SetCut(scenes, nums[|nums| - 1])
  }

  /** What `handleExtract` cuts, or why it stops. */
  function PlanExtract(scenes: seq<Scene>, args: ExtractArgs): Result<seq<Cut>, ExtractError> {
    if args.start.Some? && args.end.Some? then Success([Cut(args.start.value, args.end.value)])
    else match Requested(args)
      case None => Failure(NoSelection)
      case Some(nums) =>
        match FirstOutOfRange(nums, MaxSceneNumber(scenes))
        case Some(bad) => Failure(OutOfRange(bad))
        case None =>
          if |nums| == 1 then
            match FindScene(scenes, nums[0])
            case None => Failure(SceneNotFound(nums[0]))
            case Some(s) => Success([Cut(GetClipStart(scenes, nums[0]), s.endSec)])
          else if args.from.Some? && args.to.Some? then
            var fromScene := FindScene(scenes, args.from.value);
            var toScene := FindScene(scenes, args.to.value);
            if fromScene.None? || toScene.None? then Failure(RangeInvalid(args.from.value, args.to.value))
            else Success([Cut(GetClipStart(scenes, args.from.value), toScene.value.endSec)])
          else Success(SetCuts(scenes, nums))
  }

  /** `handleExtract`, with its loops: range expansion, validation and per-scene cuts. */
  method HandleExtract(scenes: seq<Scene>, args: ExtractArgs) returns (r: Result<seq<Cut>, ExtractError>)
    ensures r == PlanExtract(scenes, args)
  {
    if args.start.Some? && args.end.Some? {
      return Success([Cut(args.start.value, args.end.value)]);
    }
    var nums: seq<int>;
    if args.scene.Some? {
      nums := [args.scene.value];
    } else if args.scenes.Some? {
      nums := args.scenes.value;
    } else if args.from.Some? && args.to.Some? {
      var lo, hi := args.from.value, args.to.value;
      nums := [];
      var i := lo;
      assert SceneRange(lo, lo - 1) == [];
      while i <= hi
        invariant lo <= i && (lo <= hi ==> i <= hi + 1) && (lo > hi ==> i == lo)
        invariant nums == SceneRange(lo, i - 1)
        decreases hi + 1 - i
      {
        SceneRangeSnoc(lo, i);
        nums := nums + [i];
        i := i + 1;
      }
      assert lo > hi ==> SceneRange(lo, hi) == [];
      assert nums == SceneRange(lo, hi);
    } else {
      return Failure(NoSelection);
    }
    assert Requested(args) == Some(nums);
    var max := MaxSceneNumber(scenes);
    for k := 0 to |nums|
      invariant forall j :: 0 <= j < k ==> InRange(nums[j], max)
    {
      if !InRange(nums[k], max) {
        FirstOutOfRangeAt(nums, max, k);
        return Failure(OutOfRange(nums[k]));
      }
    }
    assert FirstOutOfRange(nums, max).None?;
    if |nums| == 1 {
      var scene := FindScene(scenes, nums[0]);
      if scene.None? {
        return Failure(SceneNotFound(nums[0]));
      }
      return Success([Cut(GetClipStart(scenes, nums[0]), scene.value.endSec)]);
    } else if args.from.Some? && args.to.Some? {
      var fromScene := FindScene(scenes, args.from.value);
      var toScene := FindScene(scenes, args.to.value);
      if fromScene.None? || toScene.None? {
        return Failure(RangeInvalid(args.from.value, args.to.value));
      }
      return Success([Cut(GetClipStart(scenes, args.from.value), toScene.value.endSec)]);
    }
    var cuts: seq<Cut> := [];
    for k := 0 to |nums|
      invariant cuts == SetCuts(scenes, nums[..k])
    {
      var scene := FindScene(scenes, nums[k]);
      if scene.Some? {
        cuts := cuts + [Cut(scene.value.startSec, scene.value.endSec)];
      }
      assert nums[..k + 1][..k] == nums[..k];
    }
    assert nums[..|nums|] == nums;
    return Success(cuts);
  }

  /** An explicit `--start`/`--end` pair is cut verbatim, whatever else is asked. */
  lemma ExplicitTimesPassThrough(scenes: seq<Scene>, args: ExtractArgs)
    requires args.start.Some? && args.end.Some?
    ensures PlanExtract(scenes, args) == Success([Cut(args.start.value, args.end.value)])
  {
  }

  /** Every requested scene number must lie in `[1, max]`, or nothing is extracted. */
  lemma ValidationGuards(scenes: seq<Scene>, args: ExtractArgs)
    requires !(args.start.Some? && args.end.Some?) && Requested(args).Some?
    requires exists i :: 0 <= i < |Requested(args).value| && !InRange(Requested(args).value[i], MaxSceneNumber(scenes))
    ensures PlanExtract(scenes, args).Failure?
    ensures PlanExtract(scenes, args).error.OutOfRange?
  {
    var nums := Requested(args).value;
    var i :| 0 <= i < |nums| && !InRange(nums[i], MaxSceneNumber(scenes));
    assert FirstOutOfRange(nums, MaxSceneNumber(scenes)).Some?;
  }

  /** A single scene gives one cut from its clip start to its own end. */
  lemma SingleSceneCut(scenes: seq<Scene>, args: ExtractArgs, s: Scene)
    requires !(args.start.Some? && args.end.Some?) && args.scene.Some?
    requires s in scenes && s.number == args.scene.value
    requires InRange(s.number, MaxSceneNumber(scenes))
    ensures PlanExtract(scenes, args) == Success([Cut(GetClipStart(scenes, s.number), FindScene(scenes, s.number).value.endSec)])
  {
    var k :| 0 <= k < |scenes| && scenes[k] == s;
    assert FirstOutOfRange([s.number], MaxSceneNumber(scenes)).None?;
  }

  /**
   * A `--from/--to` range of at least two scenes gives one cut, from the clip
   * start of `from` to the end of `to`, and is refused when either is missing.
   */
  lemma RangeCut(scenes: seq<Scene>, args: ExtractArgs)
    requires !(args.start.Some? && args.end.Some?) && args.scene.None? && args.scenes.None?
    requires args.from.Some? && args.to.Some? && args.from.value < args.to.value
    requires InRange(args.from.value, MaxSceneNumber(scenes)) && InRange(args.to.value, MaxSceneNumber(scenes))
    ensures var fromScene := FindScene(scenes, args.from.value);
      var toScene := FindScene(scenes, args.to.value);
      && (fromScene.None? || toScene.None? ==> PlanExtract(scenes, args) == Failure(RangeInvalid(args.from.value, args.to.value)))
      && (fromScene.Some? && toScene.Some? ==>
            PlanExtract(scenes, args) == Success([Cut(GetClipStart(scenes, args.from.value), toScene.value.endSec)]))
  {
    var max := MaxSceneNumber(scenes);
    var nums := SceneRange(args.from.value, args.to.value);
    assert Requested(args) == Some(nums);
    assert |nums| >= 2;
    assert FirstOutOfRange(nums, max).None? by {
      forall i | 0 <= i < |nums|
        ensures InRange(nums[i], max)
      {
        assert nums[i] == args.from.value + i;
      }
    }
  }

  /** The requested numbers whose scene exists, in request order. */
  function Found(scenes: seq<Scene>, nums: seq<int>): (f: seq<int>)
    ensures |f| <= |nums|
    ensures forall i :: 0 <= i < |f| ==> f[i] in nums && FindScene(scenes, f[i]).Some?
    ensures forall x :: x in nums && FindScene(scenes, x).Some? ==> x in f
    decreases |nums|
  {
    if nums == [] then []
    else
      var init := nums[..|nums| - 1];
      var last := nums[|nums| - 1];
      assert forall x :: x in nums ==> x in init || x == last;
      Found(scenes, init) + (if FindScene(scenes, last).Some? then [last] else [])
  }

  /** Missing scenes are skipped: the cuts of a set are the cuts of its found numbers. */
  lemma {:induction false} SetCutsSkipMissing(scenes: seq<Scene>, nums: seq<int>)
    ensures SetCuts(scenes, nums) == SetCuts(scenes, Found(scenes, nums))
    decreases |nums|
  {
    if nums != [] {
      var init := nums[..|nums| - 1];
      var last := nums[|nums| - 1];
      var f := Found(scenes, init);
      SetCutsSkipMissing(scenes, init);
      if FindScene(scenes, last).Some? {
        assert (f + [last])[..|f + [last]| - 1] == f;
        assert SetCuts(scenes, f + [last]) == SetCuts(scenes, f) + SetCut(scenes, last);
      } else {
        assert Found(scenes, nums) == f;
        assert SetCut(scenes, last) == [];
      }
    }
  }

  /** The cuts of a set whose requested scenes all exist: one window per number, in order. */
  lemma {:induction false} SetCutsAllFound(scenes: seq<Scene>, nums: seq<int>)
    ensures |SetCuts(scenes, nums)| <= |nums|
    ensures (forall i :: 0 <= i < |nums| ==> FindScene(scenes, nums[i]).Some?) ==>
      |SetCuts(scenes, nums)| == |nums| &&
      forall i :: 0 <= i < |nums| ==>
        SetCuts(scenes, nums)[i] == Cut(FindScene(scenes, nums[i]).value.startSec, FindScene(scenes, nums[i]).value.endSec)
    decreases |nums|
  {
    if nums != [] {
      var init := nums[..|nums| - 1];
      SetCutsAllFound(scenes, init);
      assert forall i :: 0 <= i < |init| ==> init[i] == nums[i];
    }
  }

  /**
   * A `--scenes` set gives, for each requested scene that exists and in
   * request order, its own `[startSec, endSec]`, skipping the missing ones.
   */
  lemma SetCutsAreSceneWindows(scenes: seq<Scene>, nums: seq<int>)
    ensures |SetCuts(scenes, nums)| <= |nums|
    ensures (forall i :: 0 <= i < |nums| ==> FindScene(scenes, nums[i]).Some?) ==>
      |SetCuts(scenes, nums)| == |nums| &&
      forall i :: 0 <= i < |nums| ==>
        SetCuts(scenes, nums)[i] == Cut(FindScene(scenes, nums[i]).value.startSec, FindScene(scenes, nums[i]).value.endSec)
    ensures var f := Found(scenes, nums);
      && |SetCuts(scenes, nums)| == |f|
      && forall i :: 0 <= i < |f| ==>
           SetCuts(scenes, nums)[i] == Cut(FindScene(scenes, f[i]).value.startSec, FindScene(scenes, f[i]).value.endSec)
  {
    SetCutsAllFound(scenes, nums);
    SetCutsSkipMissing(scenes, nums);
    SetCutsAllFound(scenes, Found(scenes, nums));
  }

  /**
   * `--from` after `--to` expands to no scene numbers, which passes
   * validation, and the range branch then cuts from the later scene's clip
   * start to the earlier scene's end.
   */
  lemma ReversedRangeCutsBackwards()
    ensures var d := Dialogue(1, "hi", "a", 25.0, 28.0, []);
      var scenes := [Scene(1, 0.0, 10.0, []), Scene(2, 10.0, 20.0, []), Scene(3, 20.0, 30.0, [d])];
      var args := ExtractArgs(None, None, Some(3), Some(1), None, None);
      PlanExtract(scenes, args) == Success([Cut(25.17, 10.0)])
  {
    var d := Dialogue(1, "hi", "a", 25.0, 28.0, []);
    var scenes := [Scene(1, 0.0, 10.0, []), Scene(2, 10.0, 20.0, []), Scene(3, 20.0, 30.0, [d])];
    assert SceneRange(3, 1) == [];
    assert scenes[1..][1..] == [scenes[2]];
    assert FindSceneIndex(scenes[1..][1..], 3) == 0;
    assert FindSceneIndex(scenes[1..], 3) == 1;
    assert FindSceneIndex(scenes, 3) == 2;
    assert FindSceneIndex(scenes, 1) == 0;
    assert EarliestAudioStart(scenes[2].dialogue, 20.0) == Some(25.0);
  }

  /**
   * The request reaches the continuous-range branch of `handleExtract`: no
   * explicit times, a selection that passes validation and is not a single
   * scene, and both `--from` and `--to` given (with or without `--scenes`).
   */
  predicate TakesRangeBranch(scenes: seq<Scene>, args: ExtractArgs) {
    && !(args.start.Some? && args.end.Some?)
    && Requested(args).Some?
    && FirstOutOfRange(Requested(args).value, MaxSceneNumber(scenes)).None?
    && |Requested(args).value| != 1
    && args.from.Some? && args.to.Some?
  }

  /** `handleExtract` with a reversed `--from/--to` range refused wherever the range branch is taken. */
  function PlanExtractChecked(scenes: seq<Scene>, args: ExtractArgs): Result<seq<Cut>, ExtractError> {
    if TakesRangeBranch(scenes, args) && args.from.value > args.to.value
    then Failure(RangeInvalid(args.from.value, args.to.value))
    else PlanExtract(scenes, args)
  }

  /**
   * With the check, a range that is cut at all runs forwards, and every
   * other request is planned as before.
   */
  lemma CheckedRangeRunsForward(scenes: seq<Scene>, args: ExtractArgs)
    ensures TakesRangeBranch(scenes, args) && PlanExtractChecked(scenes, args).Success? ==>
              && args.from.value <= args.to.value
              && PlanExtractChecked(scenes, args) == PlanExtract(scenes, args)
    ensures TakesRangeBranch(scenes, args) && args.from.value > args.to.value ==>
              PlanExtractChecked(scenes, args) == Failure(RangeInvalid(args.from.value, args.to.value))
    ensures !TakesRangeBranch(scenes, args) || args.from.value <= args.to.value ==>
              PlanExtractChecked(scenes, args) == PlanExtract(scenes, args)
  {
  }

  /** The range branch is also reached when `--scenes` is given alongside a reversed `--from/--to`. */
  lemma ReversedRangeWithScenesIsRefused()
    ensures var scenes := [Scene(1, 0.0, 10.0, []), Scene(2, 10.0, 20.0, []), Scene(3, 20.0, 30.0, [])];
      var args := ExtractArgs(None, Some([1, 2]), Some(3), Some(1), None, None);
      && TakesRangeBranch(scenes, args)
      && PlanExtractChecked(scenes, args) == Failure(RangeInvalid(3, 1))
  {
    var scenes := [Scene(1, 0.0, 10.0, []), Scene(2, 10.0, 20.0, []), Scene(3, 20.0, 30.0, [])];
    assert MaxSceneNumber(scenes) == Some(3);
  }
}
