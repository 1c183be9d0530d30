/**
 * The session state of `ShmotimeRecorder` (scripts/recorder6.js): the event
 * timeline, the phase machine with completion detection, and the episode
 * timing that the `load_episode`, `scene_loaded`, speak-start,
 * `DIALOGUE START` and stop handlers write. The wall clock is the `now`
 * parameter (milliseconds); browser automation, timers and the encoder are
 * not part of this model.
 */
module Recorder {
  import opened Wrappers
  import opened Text
  import opened WordSegmenter
  import opened EpisodeModel

  /** `currentPhase`; `InEpisode` is the phase the source calls `episode`. */
  datatype Phase = Waiting | Intro | InEpisode | Credits | PostCredits | Ended

  /** Event kinds that always end the recording. */
  const CompletionEvents: seq<string> := ["end_ep", "end_credits", "end_postcredits", "episode_end"]

  /** The values the command line accepts for the configured stop event. */
  const ValidStopEvents: seq<string> := [
    "start_intro", "end_intro", "start_ep", "end_ep", "start_credits", "end_credits",
    "start_postcredits", "end_postcredits", "episode_end", "never"]

  /** The phase a kind sets in the transition switch, if it is one of the six transition kinds. */
  function TransitionTarget(kind: string): (r: Option<Phase>)
    ensures r != Some(Ended)
  {
    if kind == "start_intro" then Some(Intro)
    else if kind == "end_intro" then Some(Waiting)
    else if kind == "start_ep" then Some(InEpisode)
    else if kind == "start_credits" then Some(Credits)
    else if kind == "end_credits" then Some(Waiting)
    else if kind == "start_postcredits" then Some(PostCredits)
    else None
  }

  /** The completion test: a completion event, or the configured stop event. */
  predicate IsStop(kind: string, stopRecordingAt: string) {
    kind in CompletionEvents || kind == stopRecordingAt
  }

  /** The phase after an event: the switch runs first, then completion overrides it. */
  function PhaseAfter(phase: Phase, kind: string, stopRecordingAt: string): Phase {
    if IsStop(kind, stopRecordingAt) then Ended else TransitionTarget(kind).GetOr(phase)
  }

  /**
   * The phase is `Ended` after an event exactly when the event is a stop,
   * or it was already `Ended` and the event is not a transition kind: a
   * later transition kind leaves `Ended` again.
   */
  lemma {:induction false} EndedOnlyByStop(phase: Phase, kind: string, stopRecordingAt: string)
    ensures PhaseAfter(phase, kind, stopRecordingAt) == Ended
            <==> IsStop(kind, stopRecordingAt) || (TransitionTarget(kind).None? && phase == Ended)
  {
    if !IsStop(kind, stopRecordingAt) && TransitionTarget(kind).Some? {
      assert TransitionTarget(kind).value != Ended;
    }
  }

  /** `ended` is not terminal: `start_intro` after the end goes back to `intro`. */
  lemma EndedIsNotTerminal()
    ensures PhaseAfter(Ended, "start_intro", "end_credits") == Intro
  {
    assert "start_intro" !in CompletionEvents;
  }

  /** `end_credits` sets `waiting` in the switch, and completion then makes it `ended`, whatever the configuration. */
  lemma EndCreditsEnds(phase: Phase, stopRecordingAt: string)
    ensures TransitionTarget("end_credits") == Some(Waiting)
    ensures PhaseAfter(phase, "end_credits", stopRecordingAt) == Ended
  {
  }

  /**
   * With the stop event `never`, only the four completion events stop the
   * recording (for every kind other than `never` itself); every completion
   * event is also an accepted configured stop event.
   */
  lemma StopAtNever(kind: string)
    requires kind != "never"
    ensures IsStop(kind, "never") <==> kind in CompletionEvents
    ensures forall c :: c in CompletionEvents ==> c in ValidStopEvents
  {
  }

  /** Milliseconds since recording start, or 0 before it (the start time is tested for truthiness). */
  function ElapsedMs(recordingStartTime: Option<int>, now: int): int {
    if recordingStartTime.Some? && recordingStartTime.value != 0 then now - recordingStartTime.value else 0
  }

  function SecondsSince(recordingStartTime: Option<int>, now: int): real {
    ElapsedMs(recordingStartTime, now) as real / 1000.0
  }

  /** `options.frameRate || 30` */
  function FramesPerSecond(frameRate: int): int {
    if frameRate != 0 then frameRate else 30
  }

  /** `s.substring(0, n)` */
  function Take(s: string, n: nat): (r: string)
    ensures |r| <= n && StartsWith(s, r)
    ensures |s| <= n ==> r == s
    ensures |s| > n ==> |r| == n
  {
    if |s| <= n then s else s[..n]
  }

  /** The payload attached to a logged event. */
  datatype EventData =
    | NoData
    | EpisodePayload(episode: EpisodeInput)
    | ScenePayload(index: Option<int>)
    | SpeakStartLog(sceneIndex: int, dialogueIndex: int, line: string, actor: string,
                    duration: Option<real>, wordCount: nat, videoBaseSec: real)
    | DialogueStartLog(globalIndex: int, sceneIndex: int, dialogueIndex: int, line: string, actor: string)
    | RecordingLog(filename: Option<string>)
    | OtherPayload

  /** `eventData?.sceneIndex`, for the payloads that carry one. */
  function SceneIndexOf(data: EventData): Option<int> {
    match data
    case ScenePayload(i) => i
    case SpeakStartLog(i, _, _, _, _, _, _) => Some(i)
    case DialogueStartLog(_, i, _, _, _) => Some(i)
    case _ => None
  }

  /**
   * What `processEpisodeData` reads from a truthy payload: the episode
   * payload itself, or, for any other object, an episode with every field
   * absent.
   */
  function EpisodeOf(data: EventData): Option<EpisodeInput> {
    match data
    case NoData => None
    case EpisodePayload(e) => Some(e)
    case _ => Some(EpisodeInput(None, None, None, None, None))
  }

  /**
   * The payload cases of the switch in `handlePhaseTransition`, on the
   * episode, the current scene index and the in-scene dialogue counter:
   * `load_episode` replaces the episode, and `scene_loaded` with an index
   * closes the current scene's visual window, opens the new one at
   * `visualSec` and makes it current.
   */
  function PayloadAfter(kind: string, data: EventData, visualSec: real,
                        episode: Option<Episode>, sceneIndex: int, dialogueInScene: int): (Option<Episode>, int, int)
  {
    if kind == "load_episode" && EpisodeOf(data).Some? then
      (Some(ProcessEpisodeData(EpisodeOf(data).value)), sceneIndex, dialogueInScene)
    else if kind == "scene_loaded" && SceneIndexOf(data).Some? then
      var next := SceneIndexOf(data).value;
      (if episode.Some? then Some(ApplySceneLoaded(episode.value, sceneIndex, next, visualSec)) else None, next, 0)
    else
      (episode, sceneIndex, dialogueInScene)
  }

  /** One entry of `eventTimeline`; `wallClockMs` is the instant the ISO timestamp renders. */
  datatype LoggedEvent = LoggedEvent(
    kind: string, wallClockMs: int, ms: int, sec: real, frame: int, fps: int, data: EventData)

  /**
   * The entry `logEvent` builds: elapsed milliseconds, seconds, and the
   * video frame the event falls in.
   */
  function Stamp(kind: string, data: EventData, now: int, recordingStartTime: Option<int>, frameRate: int): (e: LoggedEvent)
    ensures e.kind == kind && e.data == data && e.wallClockMs == now
    ensures e.ms == ElapsedMs(recordingStartTime, now) && e.sec * 1000.0 == e.ms as real
    ensures e.fps == FramesPerSecond(frameRate)
    ensures e.frame as real <= e.sec * e.fps as real < e.frame as real + 1.0
  {
    var ms := ElapsedMs(recordingStartTime, now);
    var sec := ms as real / 1000.0;
    var fps := FramesPerSecond(frameRate);
    LoggedEvent(kind, now, ms, sec, (sec * fps as real).Floor, fps, data)
  }

  /** An entry whose frame is the floor of its seconds times its frame rate. */
  predicate Stamped(e: LoggedEvent, fps: int) {
    e.fps == fps && e.sec * 1000.0 == e.ms as real && e.frame == (e.sec * fps as real).Floor
  }

  /** Some entry of `timeline` is a stop event. */
  ghost predicate AnyStop(timeline: seq<LoggedEvent>, stopRecordingAt: string) {
    exists k :: 0 <= k < |timeline| && IsStop(timeline[k].kind, stopRecordingAt)
  }

  lemma AnyStopSnoc(timeline: seq<LoggedEvent>, e: LoggedEvent, stopRecordingAt: string)
    ensures AnyStop(timeline + [e], stopRecordingAt) <==> AnyStop(timeline, stopRecordingAt) || IsStop(e.kind, stopRecordingAt)
  {
    var t := timeline + [e];
    if AnyStop(timeline, stopRecordingAt) {
      var k :| 0 <= k < |timeline| && IsStop(timeline[k].kind, stopRecordingAt);
      assert t[k] == timeline[k];
    }
    if IsStop(e.kind, stopRecordingAt) {
      assert t[|timeline|] == e;
    }
    if AnyStop(t, stopRecordingAt) && !IsStop(e.kind, stopRecordingAt) {
      var k :| 0 <= k < |t| && IsStop(t[k].kind, stopRecordingAt);
      assert k < |timeline| && t[k] == timeline[k];
    }
  }

  /** The number of dialogues in the scenes before `s`. */
  function DialoguesBefore(scenes: seq<Scene>, s: nat): nat
    requires s <= |scenes|
    decreases s
  {
    if s == 0 then 0 else DialoguesBefore(scenes, s - 1) + |scenes[s - 1].dialogue|
  }

  function TotalDialogues(scenes: seq<Scene>): nat {
    DialoguesBefore(scenes, |scenes|)
  }

  lemma {:induction false} DialoguesBeforeGrows(scenes: seq<Scene>, s: nat, t: nat)
    requires s < t <= |scenes|
    ensures DialoguesBefore(scenes, s) + |scenes[s].dialogue| <= DialoguesBefore(scenes, t)
    decreases t
  {
    if s < t - 1 {
      DialoguesBeforeGrows(scenes, s, t - 1);
    }
  }

  /**
   * Global dialogue positions are unambiguous: two in-range addresses with
   * the same count of dialogues before them are the same address.
   */
  lemma AddressUnique(scenes: seq<Scene>, s1: nat, d1: nat, s2: nat, d2: nat)
    requires s1 < |scenes| && d1 < |scenes[s1].dialogue|
    requires s2 < |scenes| && d2 < |scenes[s2].dialogue|
    requires DialoguesBefore(scenes, s1) + d1 == DialoguesBefore(scenes, s2) + d2
    ensures s1 == s2 && d1 == d2
  {
    if s1 < s2 {
      DialoguesBeforeGrows(scenes, s1, s2);
    } else if s2 < s1 {
      DialoguesBeforeGrows(scenes, s2, s1);
    }
  }

  /**
   * The lookup of the `k`-th dialogue (1-based) of the whole episode,
   * counting scene by scene: the scene and in-scene position holding it,
   * or `(0, 0)` when the episode has fewer than `k` dialogues.
   */
  method LocateDialogue(scenes: seq<Scene>, k: int) returns (foundSceneIdx: int, foundDialogueIdx: int)
    ensures 1 <= k <= TotalDialogues(scenes) ==>
              && 0 <= foundSceneIdx < |scenes|
              && 0 <= foundDialogueIdx < |scenes[foundSceneIdx].dialogue|
              && DialoguesBefore(scenes, foundSceneIdx) + foundDialogueIdx + 1 == k
    ensures !(1 <= k <= TotalDialogues(scenes)) ==> foundSceneIdx == 0 && foundDialogueIdx == 0
  {
    var globalIdx := 0;
    foundSceneIdx, foundDialogueIdx := 0, 0;
    label outer:
    for s := 0 to |scenes|
      invariant globalIdx == DialoguesBefore(scenes, s)
      invariant !(1 <= k <= globalIdx)
      invariant foundSceneIdx == 0 && foundDialogueIdx == 0
    {
      for d := 0 to |scenes[s].dialogue|
        invariant globalIdx == DialoguesBefore(scenes, s) + d
        invariant !(1 <= k <= globalIdx)
        invariant foundSceneIdx == 0 && foundDialogueIdx == 0
      {
        globalIdx := globalIdx + 1;
        if globalIdx == k {
          foundSceneIdx, foundDialogueIdx := s, d;
          DialoguesBeforeGrows(scenes, s, |scenes|);
          break outer;
        }
      }
    }
  }

  /** The scenes of a loaded episode; none before one is loaded. */
  function ScenesOf(episode: Option<Episode>): seq<Scene> {
    if episode.Some? then episode.value.scenes else []
  }

  /**
   * `(s, d)` is where the lookup of `DIALOGUE START` lands for the global
   * count `k`: the dialogue with that 1-based position, or `(0, 0)` when
   * there is none.
   */
  predicate LocatedAt(scenes: seq<Scene>, k: int, s: int, d: int) {
    if 1 <= k <= TotalDialogues(scenes) then
      && 0 <= s < |scenes| && 0 <= d < |scenes[s].dialogue|
      && DialoguesBefore(scenes, s) + d + 1 == k
    else s == 0 && d == 0
  }

  /**
   * The payload of `dialogue_start`: the global count, the address, and the
   * first 50 characters of the line and the actor of the dialogue there,
   * both empty when the address holds no dialogue.
   */
  function DialogueStartData(episode: Option<Episode>, k: int, s: int, d: int): (data: EventData)
    ensures data.DialogueStartLog? && data.globalIndex == k && data.sceneIndex == s && data.dialogueIndex == d
    ensures |data.line| <= 50
    ensures episode.Some? && HasDialogue(episode.value, s, d) ==>
              && StartsWith(episode.value.scenes[s].dialogue[d].line, data.line)
              && data.line == Take(episode.value.scenes[s].dialogue[d].line, 50)
              && data.actor == episode.value.scenes[s].dialogue[d].actor
    ensures !(episode.Some? && HasDialogue(episode.value, s, d)) ==> data.line == [] && data.actor == []
  {
    if episode.Some? && HasDialogue(episode.value, s, d) then
      var dialogue := episode.value.scenes[s].dialogue[d];
      DialogueStartLog(k, s, d, Take(dialogue.line, 50), dialogue.actor)
    else DialogueStartLog(k, s, d, "", "")
  }

  /** The fallback timing changes no line, actor or address, so the payload reads the same before and after it. */
  lemma DialogueStartDataKept(ep: Episode, sec: real, k: int, s: int, d: int)
    ensures DialogueStartData(Some(ApplyDialogueTimestamp(ep, sec, s, d)), k, s, d) == DialogueStartData(Some(ep), k, s, d)
  {
    DialogueTimestampCloses(ep, sec, s, d);
    if !HasDialogue(ep, s, d) {
      DialogueTimestampOnlyFills(ep, sec, s, d);
    }
  }

  class ShmotimeRecorder {
    /** `options.frameRate` and `options.stopRecordingAt`. */
    const frameRate: int
    const stopRecordingAt: string

    var recordingStartTime: Option<int>
    /** Whether the capture stream has been opened. */
    var streamOpen: bool
    var recordingStopped: bool
    var endDetected: bool
    var currentPhase: Phase
    var eventTimeline: seq<LoggedEvent>
    var episodeData: Option<Episode>
    var episodePlaybackStartTime: Option<int>
    var dialogueIndex: int
    var currentSceneIndex: int
    var currentDialogueInScene: int
    var lastDialogueEndSec: real

    /** Every logged entry carries the configured frame rate and a frame consistent with its time. */
    ghost predicate Stamps()
      reads this
    {
      forall k :: 0 <= k < |eventTimeline| ==> Stamped(eventTimeline[k], FramesPerSecond(frameRate))
    }

    /**
     * The session invariant: every logged entry is stamped with the
     * configured frame rate, completion has been detected exactly when a
     * stop event has been logged, and the phase is `Ended` only after that.
     */
    ghost predicate Valid()
      reads this
    {
      && Stamps()
      && (endDetected <==> AnyStop(eventTimeline, stopRecordingAt))
      && (currentPhase == Ended ==> endDetected)
    }

    constructor(frameRate: Option<int>, stopRecordingAt: Option<string>)
      ensures Valid()
      ensures this.frameRate == frameRate.GetOr(30) && this.stopRecordingAt == stopRecordingAt.GetOr("end_credits")
      ensures recordingStartTime.None? && !streamOpen && !recordingStopped && !endDetected
      ensures currentPhase == Waiting && eventTimeline == [] && episodeData.None? && episodePlaybackStartTime.None?
      ensures dialogueIndex == 0 && currentSceneIndex == 0 && currentDialogueInScene == 0 && lastDialogueEndSec == 0.0
    {
      this.frameRate := frameRate.GetOr(30);
      this.stopRecordingAt := stopRecordingAt.GetOr("end_credits");
      recordingStartTime := None;
      streamOpen := false;
      recordingStopped := false;
      endDetected := false;
      currentPhase := Waiting;
      eventTimeline := [];
      episodeData := None;
      episodePlaybackStartTime := None;
      dialogueIndex := 0;
      currentSceneIndex := 0;
      currentDialogueInScene := 0;
      lastDialogueEndSec := 0.0;
    }

    /** The state change `handlePhaseTransition` makes for an event (the timeline aside). */
    twostate predicate TransitionApplied(kind: string, data: EventData, now: int)
      reads this
    {
      && (episodeData, currentSceneIndex, currentDialogueInScene)
         == PayloadAfter(kind, data, SecondsSince(recordingStartTime, now),
                         old(episodeData), old(currentSceneIndex), old(currentDialogueInScene))
      && currentPhase == PhaseAfter(old(currentPhase), kind, stopRecordingAt)
      && endDetected == (old(endDetected) || IsStop(kind, stopRecordingAt))
      && episodePlaybackStartTime == (if kind == "start_ep" then Some(now) else old(episodePlaybackStartTime))
    }

    /** The `load_episode` and `scene_loaded` cases of the switch in `handlePhaseTransition`. */
    method HandlePayload(kind: string, data: EventData, now: int)
      modifies this`episodeData, this`currentSceneIndex, this`currentDialogueInScene
      ensures (episodeData, currentSceneIndex, currentDialogueInScene)
              == PayloadAfter(kind, data, SecondsSince(recordingStartTime, now),
                              old(episodeData), old(currentSceneIndex), old(currentDialogueInScene))
    {
      if kind == "load_episode" {
        var input := EpisodeOf(data);
        if input.Some? {
          episodeData := Some(ProcessEpisodeData(input.value));
        }
      } else if kind == "scene_loaded" {
        var index := SceneIndexOf(data);
        if index.Some? {
          var visualSec := SecondsSince(recordingStartTime, now);
          if episodeData.Some? {
            episodeData := Some(ApplySceneLoaded(episodeData.value, currentSceneIndex, index.value, visualSec));
          }
          currentSceneIndex := index.value;
          currentDialogueInScene := 0;
        }
      }
    }

    /**
     * `handlePhaseTransition`, run on the entry `logEvent` has just appended:
     * the payload handlers and the transition switch (the payload kinds set
     * no phase), then completion detection.
     */
    method HandlePhaseTransition(kind: string, data: EventData, now: int)
      requires Stamps() && (currentPhase == Ended ==> endDetected)
      requires AnyStop(eventTimeline, stopRecordingAt) <==> endDetected || IsStop(kind, stopRecordingAt)
      modifies this
      ensures Valid()
      ensures TransitionApplied(kind, data, now)
      ensures eventTimeline == old(eventTimeline) && recordingStartTime == old(recordingStartTime)
      ensures streamOpen == old(streamOpen) && recordingStopped == old(recordingStopped)
      ensures dialogueIndex == old(dialogueIndex) && lastDialogueEndSec == old(lastDialogueEndSec)
    {
      HandlePayload(kind, data, now);
      UpdatePhase(kind, now);
      EndedOnlyByStop(old(currentPhase), kind, stopRecordingAt);
    }

    /** The transition switch and completion detection of `handlePhaseTransition`. */
    method UpdatePhase(kind: string, now: int)
      modifies this`currentPhase, this`endDetected, this`episodePlaybackStartTime
      ensures currentPhase == PhaseAfter(old(currentPhase), kind, stopRecordingAt)
      ensures endDetected == (old(endDetected) || IsStop(kind, stopRecordingAt))
      ensures episodePlaybackStartTime == (if kind == "start_ep" then Some(now) else old(episodePlaybackStartTime))
    {
      if kind == "start_ep" {
        episodePlaybackStartTime := Some(now);
      }
      currentPhase := TransitionTarget(kind).GetOr(currentPhase);
      if IsStop(kind, stopRecordingAt) {
        currentPhase := Ended;
        endDetected := true;
      }
    }

    /**
     * `logEvent`: appends a stamped entry to the timeline, then applies
     * the event's phase transition.
     */
    method LogEvent(kind: string, data: EventData, now: int) returns (event: LoggedEvent)
      requires Valid()
      modifies this
      ensures Valid()
      ensures event == Stamp(kind, data, now, recordingStartTime, frameRate)
      ensures eventTimeline == old(eventTimeline) + [event]
      ensures TransitionApplied(kind, data, now)
      ensures recordingStartTime == old(recordingStartTime)
      ensures streamOpen == old(streamOpen) && recordingStopped == old(recordingStopped)
      ensures dialogueIndex == old(dialogueIndex) && lastDialogueEndSec == old(lastDialogueEndSec)
    {
      event := Stamp(kind, data, now, recordingStartTime, frameRate);
      eventTimeline := eventTimeline + [event];
      AnyStopSnoc(old(eventTimeline), event, stopRecordingAt);
      HandlePhaseTransition(kind, data, now);
    }

    /**
     * The start of capture: the stream is open, the recording clock starts
     * at `now`, and `recording_start` is logged at 0 ms.
     */
    method BeginCapture(filename: string, now: int)
      requires Valid()
      modifies this
      ensures Valid()
      ensures streamOpen && recordingStartTime == Some(now)
      ensures eventTimeline == old(eventTimeline)
                               + [Stamp("recording_start", RecordingLog(Some(filename)), now, Some(now), frameRate)]
      ensures TransitionApplied("recording_start", RecordingLog(Some(filename)), now)
      ensures recordingStopped == old(recordingStopped)
      ensures dialogueIndex == old(dialogueIndex) && lastDialogueEndSec == old(lastDialogueEndSec)
    {
      streamOpen := true;
      recordingStartTime := Some(now);
      var _ := LogEvent("recording_start", RecordingLog(Some(filename)), now);
    }

    /**
     * `handleSpeakStart`: the words of the line, shifted to the recording's
     * time line, and the dialogue's audio window are written into the
     * episode at the 1-based address of the event; then `speak_start` is
     * logged.
     */
    method HandleSpeakStart(sceneNumber: Option<int>, number: Option<int>, timestamps: Option<seq<CharTiming>>,
                            duration: Option<real>, timingDuration: Option<real>,
                            line: Option<string>, actor: string, now: int)
      requires Valid()
      modifies this
      ensures Valid()
      ensures var base := SecondsSince(recordingStartTime, now);
              var words := ShiftWords(SegmentWords(timestamps.GetOr([])), base);
              var si, di := OrNumber(sceneNumber, 1) - 1, OrNumber(number, 1) - 1;
              && eventTimeline == old(eventTimeline)
                   + [Stamp("speak_start", SpeakStartLog(si, di, Take(OrString(line, ""), 50), actor, duration, |words|, base),
                            now, recordingStartTime, frameRate)]
              && episodeData == (if old(episodeData).Some?
                                 then Some(ApplySpeakStart(old(episodeData).value, si, di, base, SpeakDuration(duration, timingDuration), words))
                                 else None)
      ensures currentPhase == PhaseAfter(old(currentPhase), "speak_start", stopRecordingAt)
      ensures endDetected == (old(endDetected) || IsStop("speak_start", stopRecordingAt))
      ensures currentSceneIndex == old(currentSceneIndex) && currentDialogueInScene == old(currentDialogueInScene)
      ensures recordingStartTime == old(recordingStartTime) && streamOpen == old(streamOpen)
      ensures recordingStopped == old(recordingStopped)
      ensures dialogueIndex == old(dialogueIndex) && lastDialogueEndSec == old(lastDialogueEndSec)
      ensures episodePlaybackStartTime == old(episodePlaybackStartTime)
    {
      var videoBaseSec := SecondsSince(recordingStartTime, now);
      var wordTimings := ExtractWordTimings(timestamps.GetOr([]));
      var words := ShiftWords(wordTimings, videoBaseSec);
      var sceneIdx := OrNumber(sceneNumber, 1) - 1;
      var dialogueIdx := OrNumber(number, 1) - 1;
      if episodeData.Some? {
        episodeData := Some(ApplySpeakStart(episodeData.value, sceneIdx, dialogueIdx, videoBaseSec,
                                            SpeakDuration(duration, timingDuration), words));
      }
      var _ := LogEvent("speak_start",
                        SpeakStartLog(sceneIdx, dialogueIdx, Take(OrString(line, ""), 50), actor, duration, |words|, videoBaseSec),
                        now);
    }

    /**
     * `embedDialogueTimestamp`: the fallback timing, applied only when the
     * addressed dialogue exists; then (and only then) the last dialogue
     * time is remembered.
     */
    method EmbedDialogueTimestamp(sec: real, sceneIndex: int, dialogueIndex: int)
      modifies this
      ensures old(episodeData).Some? && HasDialogue(old(episodeData).value, sceneIndex, dialogueIndex) ==>
                && episodeData == Some(ApplyDialogueTimestamp(old(episodeData).value, sec, sceneIndex, dialogueIndex))
                && lastDialogueEndSec == sec
      ensures !(old(episodeData).Some? && HasDialogue(old(episodeData).value, sceneIndex, dialogueIndex)) ==>
                episodeData == old(episodeData) && lastDialogueEndSec == old(lastDialogueEndSec)
      ensures eventTimeline == old(eventTimeline) && currentPhase == old(currentPhase) && endDetected == old(endDetected)
      ensures recordingStartTime == old(recordingStartTime) && streamOpen == old(streamOpen)
      ensures recordingStopped == old(recordingStopped) && episodePlaybackStartTime == old(episodePlaybackStartTime)
      ensures this.dialogueIndex == old(this.dialogueIndex)
      ensures currentSceneIndex == old(currentSceneIndex) && currentDialogueInScene == old(currentDialogueInScene)
    {
      if episodeData.None? {
        return;
      }
      if !HasDialogue(episodeData.value, sceneIndex, dialogueIndex) {
        return;
      }
      episodeData := Some(ApplyDialogueTimestamp(episodeData.value, sec, sceneIndex, dialogueIndex));
      lastDialogueEndSec := sec;
    }

    /**
     * A `DIALOGUE START` console line: the running dialogue count moves on,
     * the dialogue with that global position is looked up, the fallback
     * timing is embedded there and `dialogue_start` is logged.
     */
    method OnDialogueStart(now: int)
      requires Valid()
      modifies this
      ensures Valid()
      ensures dialogueIndex == old(dialogueIndex) + 1
      ensures var sec := SecondsSince(recordingStartTime, now);
              old(episodeData).Some? ==>
                var scenes := old(episodeData).value.scenes;
                1 <= dialogueIndex <= TotalDialogues(scenes) ==>
                  exists s, d :: 0 <= s < |scenes| && 0 <= d < |scenes[s].dialogue|
                                 && DialoguesBefore(scenes, s) + d + 1 == dialogueIndex
                                 && episodeData == Some(ApplyDialogueTimestamp(old(episodeData).value, sec, s, d))
      ensures |eventTimeline| == |old(eventTimeline)| + 1
      ensures eventTimeline[..|old(eventTimeline)|] == old(eventTimeline)
      ensures eventTimeline[|old(eventTimeline)|].kind == "dialogue_start"
      ensures currentPhase == PhaseAfter(old(currentPhase), "dialogue_start", stopRecordingAt)
      ensures endDetected == (old(endDetected) || IsStop("dialogue_start", stopRecordingAt))
      ensures recordingStartTime == old(recordingStartTime) && streamOpen == old(streamOpen)
      ensures recordingStopped == old(recordingStopped)
      ensures var sec := SecondsSince(recordingStartTime, now);
              exists s, d ::
                && LocatedAt(ScenesOf(old(episodeData)), dialogueIndex, s, d)
                && episodeData == (if old(episodeData).Some?
                                   then Some(ApplyDialogueTimestamp(old(episodeData).value, sec, s, d))
                                   else None)
                && lastDialogueEndSec == (if old(episodeData).Some? && HasDialogue(old(episodeData).value, s, d)
                                          then sec else old(lastDialogueEndSec))
                && eventTimeline == old(eventTimeline)
                     + [Stamp("dialogue_start", DialogueStartData(old(episodeData), dialogueIndex, s, d),
                              now, recordingStartTime, frameRate)]
      ensures currentSceneIndex == old(currentSceneIndex) && currentDialogueInScene == old(currentDialogueInScene)
      ensures episodePlaybackStartTime == old(episodePlaybackStartTime)
    {
      dialogueIndex := dialogueIndex + 1;
      var foundSceneIdx, foundDialogueIdx := 0, 0;
      if episodeData.Some? {
        foundSceneIdx, foundDialogueIdx := LocateDialogue(episodeData.value.scenes, dialogueIndex);
      }
      var sec := SecondsSince(recordingStartTime, now);
      assert LocatedAt(ScenesOf(episodeData), dialogueIndex, foundSceneIdx, foundDialogueIdx);
      ghost var before := episodeData;
      EmbedDialogueTimestamp(sec, foundSceneIdx, foundDialogueIdx);
      assert before.Some? ==> episodeData == Some(ApplyDialogueTimestamp(before.value, sec, foundSceneIdx, foundDialogueIdx));
      var data := DialogueStartData(episodeData, dialogueIndex, foundSceneIdx, foundDialogueIdx);
      assert data == DialogueStartData(before, dialogueIndex, foundSceneIdx, foundDialogueIdx) by {
        if before.Some? {
          DialogueStartDataKept(before.value, sec, dialogueIndex, foundSceneIdx, foundDialogueIdx);
        }
      }
      var _ := LogEvent("dialogue_start", data, now);
    }

    /**
     * `stopRecording` while the stream is open and not yet stopped:
     * `recording_stop` is logged, the last scene's timing is finalised at
     * the current time, and the recording is marked stopped. Otherwise
     * nothing happens.
     */
    method StopRecording(filename: Option<string>, now: int)
      requires Valid()
      modifies this
      ensures Valid()
      ensures !(old(streamOpen) && !old(recordingStopped)) ==>
                eventTimeline == old(eventTimeline) && episodeData == old(episodeData)
                && recordingStopped == old(recordingStopped) && currentPhase == old(currentPhase)
                && endDetected == old(endDetected)
      ensures old(streamOpen) && !old(recordingStopped) ==>
                && recordingStopped
                && eventTimeline == old(eventTimeline)
                     + [Stamp("recording_stop", RecordingLog(filename), now, recordingStartTime, frameRate)]
                && episodeData == (if old(episodeData).Some?
                                   then Some(FinaliseTiming(old(episodeData).value, SecondsSince(recordingStartTime, now)))
                                   else None)
                && currentPhase == PhaseAfter(old(currentPhase), "recording_stop", stopRecordingAt)
                && endDetected == (old(endDetected) || IsStop("recording_stop", stopRecordingAt))
      ensures recordingStartTime == old(recordingStartTime) && streamOpen == old(streamOpen)
      ensures dialogueIndex == old(dialogueIndex) && lastDialogueEndSec == old(lastDialogueEndSec)
      ensures episodePlaybackStartTime == old(episodePlaybackStartTime)
      ensures currentSceneIndex == old(currentSceneIndex) && currentDialogueInScene == old(currentDialogueInScene)
    {
      if streamOpen && !recordingStopped {
        var _ := LogEvent("recording_stop", RecordingLog(filename), now);
        if episodeData.Some? && |episodeData.value.scenes| > 0 {
          var sec := SecondsSince(recordingStartTime, now);
          episodeData := Some(FinaliseTiming(episodeData.value, sec));
        }
        recordingStopped := true;
      }
    }
  }
}
