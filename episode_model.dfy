/**
 * The episode data a recording session builds up (scripts/recorder6.js):
 * the normalised episode produced from the `load_episode` payload, and the
 * timing updates the session handlers make to it. Seconds since the start
 * of the recording are `real`; a timing field that has not been set yet is
 * `None`. Several handlers test timing fields for JavaScript truthiness,
 * under which `0` counts as unset too: that test is `Unset`.
 */
module EpisodeModel {
  import opened Wrappers
  import opened Text
  import opened WordSegmenter

  datatype Dialogue = Dialogue(
    number: int, action: string, line: string, actor: string,
    startSec: Option<real>, endSec: Option<real>,
    words: seq<Word>,
    isMediaCommand: bool)

  datatype Scene = Scene(
    number: int, description: string, location: string,
    transitionIn: string, transitionOut: string,
    startSec: Option<real>, endSec: Option<real>,
    visualStartSec: Option<real>, visualEndSec: Option<real>,
    dialogue: seq<Dialogue>)

  datatype Episode = Episode(id: string, name: string, premise: string, scenes: seq<Scene>)

  /** The `load_episode` payload as received; absent fields are `None`. */
  datatype DialogueInput = DialogueInput(
    number: Option<int>, action: Option<string>, line: Option<string>, actor: Option<string>)

  datatype SceneInput = SceneInput(
    number: Option<int>, description: Option<string>, location: Option<string>,
    transitionIn: Option<string>, transitionOut: Option<string>,
    dialogue: Option<seq<DialogueInput>>)

  datatype EpisodeInput = EpisodeInput(
    id: Option<string>, name: Option<string>, title: Option<string>, premise: Option<string>,
    scenes: Option<seq<SceneInput>>)

  /** A timing field that fails JavaScript's truthiness test: absent or zero. */
  predicate Unset(t: Option<real>) {
    t.None? || t.value == 0.0
  }

  /** `s || d` for a string field. */
  function OrString(s: Option<string>, d: string): string {
    if s.Some? && s.value != "" then s.value else d
  }

  /** `n || d` for a numeric field. */
  function OrNumber(n: Option<int>, d: int): int {
    if n.Some? && n.value != 0 then n.value else d
  }

  /** Actors whose lines are media commands rather than speech. */
  const MediaActors: seq<string> := ["aishaw", "roll-commercial", "roll-media", "clear-media"]

  predicate IsMediaActor(actor: string) {
    Lower(actor) in MediaActors
  }

  function NewDialogue(d: DialogueInput, position: nat): Dialogue {
    var actor := OrString(d.actor, "");
    Dialogue(OrNumber(d.number, position + 1), OrString(d.action, ""), OrString(d.line, ""), actor,
             None, None, [], IsMediaActor(actor))
  }

  function NewScene(s: SceneInput, position: nat): Scene {
    var ds := s.dialogue.GetOr([]);
    Scene(OrNumber(s.number, position + 1), OrString(s.description, ""), OrString(s.location, ""),
          OrString(s.transitionIn, ""), OrString(s.transitionOut, ""),
          None, None, None, None,
          seq(|ds|, j requires 0 <= j < |ds| => NewDialogue(ds[j], j)))
  }

  /** No timing has been recorded anywhere in the episode. */
  predicate Untimed(ep: Episode) {
    forall i :: 0 <= i < |ep.scenes| ==>
      var s := ep.scenes[i];
      && s.startSec.None? && s.endSec.None? && s.visualStartSec.None? && s.visualEndSec.None?
      && forall j :: 0 <= j < |s.dialogue| ==>
           s.dialogue[j].startSec.None? && s.dialogue[j].endSec.None? && s.dialogue[j].words == []
  }

  /**
   * `processEpisodeData`: the normalised episode built from a `load_episode`
   * payload. It has one scene per input scene and one dialogue per input
   * dialogue, in order, carries no timing, numbers missing (or zero)
   * numbers by 1-based position, takes its name from `name`, else `title`,
   * copies the text fields with `''` for a missing one, and marks exactly
   * the dialogues of the four media actors, ignoring case.
   */
  function ProcessEpisodeData(e: EpisodeInput): (ep: Episode)
    ensures Untimed(ep)
    ensures |ep.scenes| == (if e.scenes.Some? then |e.scenes.value| else 0)
    ensures e.name.Some? && e.name.value != "" ==> ep.name == e.name.value
    ensures !(e.name.Some? && e.name.value != "") ==> ep.name == OrString(e.title, "")
    ensures ep.id == OrString(e.id, "") && ep.premise == OrString(e.premise, "")
    ensures forall i :: 0 <= i < |ep.scenes| ==>
              var input := e.scenes.value[i];
              && ep.scenes[i].number == (if input.number.Some? && input.number.value != 0 then input.number.value else i + 1)
              && ep.scenes[i].description == OrString(input.description, "")
              && ep.scenes[i].location == OrString(input.location, "")
              && ep.scenes[i].transitionIn == OrString(input.transitionIn, "")
              && ep.scenes[i].transitionOut == OrString(input.transitionOut, "")
              && |ep.scenes[i].dialogue| == (if input.dialogue.Some? then |input.dialogue.value| else 0)
    ensures forall i, j :: 0 <= i < |ep.scenes| && 0 <= j < |ep.scenes[i].dialogue| ==>
              var input := e.scenes.value[i].dialogue.value[j];
              var d := ep.scenes[i].dialogue[j];
              && d.number == (if input.number.Some? && input.number.value != 0 then input.number.value else j + 1)
              && d.actor == (if input.actor.Some? then input.actor.value else "")
              && d.action == OrString(input.action, "") && d.line == OrString(input.line, "")
              && (d.isMediaCommand <==> Lower(d.actor) in MediaActors)
  {
    var ss := e.scenes.GetOr([]);
    Episode(OrString(e.id, ""), OrString(e.name, OrString(e.title, "")), OrString(e.premise, ""),
            seq(|ss|, i requires 0 <= i < |ss| => NewScene(ss[i], i)))
  }

  /** The media-actor test ignores case: `Roll-Media` is a media command, `Narrator` is not. */
  lemma MediaActorIgnoresCase()
    ensures NewDialogue(DialogueInput(None, None, None, Some("Roll-Media")), 0).isMediaCommand
    ensures !NewDialogue(DialogueInput(None, None, None, Some("Narrator")), 0).isMediaCommand
  {
    assert Lower("Roll-Media") == "roll-media";
    assert Lower("Narrator") == "narrator";
  }

  predicate HasScene(ep: Episode, i: int) {
    0 <= i < |ep.scenes|
  }

  predicate HasDialogue(ep: Episode, i: int, j: int) {
    HasScene(ep, i) && 0 <= j < |ep.scenes[i].dialogue|
  }

  function WithScene(ep: Episode, i: int, s: Scene): Episode
    requires HasScene(ep, i)
  {
    ep.(scenes := ep.scenes[i := s])
  }

  /** Word timings relative to the spoken line, moved onto the recording's time line. */
  function ShiftWords(ws: seq<Word>, base: real): (r: seq<Word>)
    ensures |r| == |ws|
    ensures forall k :: 0 <= k < |ws| ==>
              && r[k].word == ws[k].word
              && r[k].start - ws[k].start == base
              && r[k].end - r[k].start == ws[k].end - ws[k].start
  {
    seq(|ws|, k requires 0 <= k < |ws| => Word(ws[k].word, base + ws[k].start, base + ws[k].end))
  }

  /** `eventData.duration || eventData.timingData?.duration || 0` */
  function SpeakDuration(duration: Option<real>, timingDuration: Option<real>): real {
    if !Unset(duration) then duration.value
    else if !Unset(timingDuration) then timingDuration.value
    else 0.0
  }

  /**
   * The episode update of `handleSpeakStart` for the dialogue at 0-based
   * `(si, di)`: the dialogue gets its audio window and words, the scene's
   * start moves back to `base` if that is earlier, and its end follows the
   * dialogue. A missing address leaves the episode alone.
   */
  function ApplySpeakStart(ep: Episode, si: int, di: int, base: real, duration: real, words: seq<Word>): (r: Episode)
    ensures |r.scenes| == |ep.scenes| && r.(scenes := ep.scenes) == ep
    ensures !HasDialogue(ep, si, di) ==> r == ep
    ensures HasDialogue(ep, si, di) ==>
              var s, s' := ep.scenes[si], r.scenes[si];
              && |s'.dialogue| == |s.dialogue|
              && s'.dialogue[di].startSec == Some(base)
              && s'.dialogue[di].endSec == Some(base + duration)
              && s'.dialogue[di].words == words
              && s'.dialogue[di].(startSec := None, endSec := None, words := [])
                 == s.dialogue[di].(startSec := None, endSec := None, words := [])
              && s'.startSec.Some?
              && (Unset(s.startSec) ==> s'.startSec.value == base)
              && (!Unset(s.startSec) ==>
                    && s'.startSec.value <= base && s'.startSec.value <= s.startSec.value
                    && (s'.startSec.value == base || s'.startSec.value == s.startSec.value))
              && s'.endSec == s'.dialogue[di].endSec
              && s'.(dialogue := s.dialogue, startSec := s.startSec, endSec := s.endSec) == s
              && (forall j :: 0 <= j < |s.dialogue| && j != di ==> s'.dialogue[j] == s.dialogue[j])
              && (forall i :: 0 <= i < |ep.scenes| && i != si ==> r.scenes[i] == ep.scenes[i])
  {
    if !HasDialogue(ep, si, di) then ep
    else
      var s := ep.scenes[si];
      var d := s.dialogue[di].(startSec := Some(base), endSec := Some(base + duration), words := words);
      var start := if Unset(s.startSec) || base < s.startSec.value then Some(base) else s.startSec;
      WithScene(ep, si, s.(dialogue := s.dialogue[di := d], startSec := start, endSec := d.endSec))
  }

  /**
   * The visual-window update of a `scene_loaded` event: the scene that was
   * current gets `visualEndSec`, then the newly loaded scene gets
   * `visualStartSec`, both at `sec`.
   */
  function ApplySceneLoaded(ep: Episode, previous: int, next: int, sec: real): (r: Episode)
    ensures |r.scenes| == |ep.scenes| && r.(scenes := ep.scenes) == ep
    ensures HasScene(ep, previous) ==> r.scenes[previous].visualEndSec == Some(sec)
    ensures HasScene(ep, next) ==> r.scenes[next].visualStartSec == Some(sec)
    ensures HasScene(ep, previous) && HasScene(ep, next) ==>
              r.scenes[previous].visualEndSec == r.scenes[next].visualStartSec
    ensures forall i :: 0 <= i < |ep.scenes| ==>
              r.scenes[i].(visualStartSec := None, visualEndSec := None)
              == ep.scenes[i].(visualStartSec := None, visualEndSec := None)
    ensures HasScene(ep, previous) && previous != next ==>
              r.scenes[previous].visualStartSec == ep.scenes[previous].visualStartSec
    ensures HasScene(ep, next) && previous != next ==>
              r.scenes[next].visualEndSec == ep.scenes[next].visualEndSec
    ensures forall i :: 0 <= i < |ep.scenes| && i != previous && i != next ==> r.scenes[i] == ep.scenes[i]
  {
    var ep1 := if HasScene(ep, previous) then WithScene(ep, previous, ep.scenes[previous].(visualEndSec := Some(sec))) else ep;
    if HasScene(ep1, next) then WithScene(ep1, next, ep1.scenes[next].(visualStartSec := Some(sec))) else ep1
  }

  /** `d'` fills at most the unset timing fields of `d` with `sec`; its `startSec` only if absent. */
  predicate DialogueFilled(d: Dialogue, d': Dialogue, sec: real) {
    && d'.(startSec := d.startSec, endSec := d.endSec) == d
    && (d'.startSec == d.startSec || (d.startSec.None? && d'.startSec == Some(sec)))
    && (d'.endSec == d.endSec || (Unset(d.endSec) && d'.endSec == Some(sec)))
  }

  /** `s'` fills at most the unset start, end and visual-end fields of `s` and of its dialogues. */
  predicate SceneFilled(s: Scene, s': Scene, sec: real) {
    && s'.(startSec := s.startSec, endSec := s.endSec, visualEndSec := s.visualEndSec, dialogue := s.dialogue) == s
    && (s'.startSec == s.startSec || (Unset(s.startSec) && s'.startSec == Some(sec)))
    && (s'.endSec == s.endSec || (Unset(s.endSec) && s'.endSec == Some(sec)))
    && (s'.visualEndSec == s.visualEndSec || (Unset(s.visualEndSec) && s'.visualEndSec == Some(sec)))
    && |s'.dialogue| == |s.dialogue|
    && forall j :: 0 <= j < |s.dialogue| ==> DialogueFilled(s.dialogue[j], s'.dialogue[j], sec)
  }

  /** `ep'` differs from `ep` only in timing fields that were unset and now hold `sec`. */
  predicate Filled(ep: Episode, ep': Episode, sec: real) {
    && ep'.(scenes := ep.scenes) == ep
    && |ep'.scenes| == |ep.scenes|
    && forall i :: 0 <= i < |ep.scenes| ==> SceneFilled(ep.scenes[i], ep'.scenes[i], sec)
  }

  /** `x || sec` as an assignment target: keeps a set value, otherwise takes `sec`. */
  function FillIfUnset(t: Option<real>, sec: real): Option<real> {
    if Unset(t) then Some(sec) else t
  }

  function CloseDialogue(d: Dialogue, sec: real): Dialogue {
    d.(endSec := FillIfUnset(d.endSec, sec))
  }

  /**
   * `embedDialogueTimestamp(sec, si, di)`: the fallback timing of a
   * `DIALOGUE START` console line. The dialogue's start is set only if it
   * is absent; the previous dialogue of the scene (or, for a scene's first
   * dialogue, the last dialogue of the previous scene and that scene) is
   * closed at `sec` if still open; a scene's first dialogue opens the scene.
   */
  function ApplyDialogueTimestamp(ep: Episode, sec: real, si: int, di: int): Episode {
    if !HasDialogue(ep, si, di) then ep
    else
      var s := ep.scenes[si];
      var d := s.dialogue[di];
      var ds := s.dialogue[di := if d.startSec.None? then d.(startSec := Some(sec)) else d];
      var ds' := if di > 0 then ds[di - 1 := CloseDialogue(ds[di - 1], sec)] else ds;
      var ep1 :=
        if di == 0 && si > 0 && |ep.scenes[si - 1].dialogue| > 0 then
          var p := ep.scenes[si - 1];
          var n := |p.dialogue|;
          WithScene(ep, si - 1, p.(dialogue := p.dialogue[n - 1 := CloseDialogue(p.dialogue[n - 1], sec)],
                                   endSec := FillIfUnset(p.endSec, sec)))
        else ep;
      var start := if di == 0 then FillIfUnset(s.startSec, sec) else s.startSec;
      WithScene(ep1, si, s.(dialogue := ds', startSec := start))
  }

  /**
   * The fallback only fills: it never overwrites a dialogue start that is
   * set (even to 0) nor any end or scene start that is truthy, and a
   * missing scene or dialogue leaves the episode unchanged. On an existing
   * address the dialogue has a start afterwards, and the fields it is
   * meant to close hold `sec` when they were unset.
   */
  lemma DialogueTimestampOnlyFills(ep: Episode, sec: real, si: int, di: int)
    ensures var r := ApplyDialogueTimestamp(ep, sec, si, di);
      && Filled(ep, r, sec)
      && (!HasDialogue(ep, si, di) ==> r == ep)
      && (HasDialogue(ep, si, di) ==>
            && r.scenes[si].dialogue[di].startSec.Some?
            && (ep.scenes[si].dialogue[di].startSec.Some? ==>
                  r.scenes[si].dialogue[di].startSec == ep.scenes[si].dialogue[di].startSec)
            && (di > 0 && Unset(ep.scenes[si].dialogue[di - 1].endSec) ==>
                  r.scenes[si].dialogue[di - 1].endSec == Some(sec))
            && (di == 0 && Unset(ep.scenes[si].startSec) ==> r.scenes[si].startSec == Some(sec)))
  {
    if HasDialogue(ep, si, di) {
      var r := ApplyDialogueTimestamp(ep, sec, si, di);
      forall i | 0 <= i < |ep.scenes|
        ensures SceneFilled(ep.scenes[i], r.scenes[i], sec)
      {
        var s, s' := ep.scenes[i], r.scenes[i];
        forall j | 0 <= j < |s.dialogue|
          ensures DialogueFilled(s.dialogue[j], s'.dialogue[j], sec)
        {
        }
      }
    }
  }

  /**
   * The exact effect of the fallback on an existing address: the dialogue's
   * start becomes `sec` only if absent; the previous dialogue of the scene,
   * or for a scene's first dialogue the last dialogue of the previous scene
   * and that scene's end, are closed with `sec` when falsy; a first dialogue
   * opens its scene. Every other scene, dialogue and field stays as it was.
   */
  lemma DialogueTimestampCloses(ep: Episode, sec: real, si: int, di: int)
    ensures var r := ApplyDialogueTimestamp(ep, sec, si, di);
      HasDialogue(ep, si, di) ==>
        var s, s' := ep.scenes[si], r.scenes[si];
        var d := s.dialogue[di];
        && |r.scenes| == |ep.scenes|
        && |s'.dialogue| == |s.dialogue|
        && s'.dialogue[di] == d.(startSec := if d.startSec.None? then Some(sec) else d.startSec)
        && (di > 0 ==> s'.dialogue[di - 1] == CloseDialogue(s.dialogue[di - 1], sec))
        && (forall j :: 0 <= j < |s.dialogue| && j != di && j != di - 1 ==> s'.dialogue[j] == s.dialogue[j])
        && s'.startSec == (if di == 0 then FillIfUnset(s.startSec, sec) else s.startSec)
        && s'.(dialogue := s.dialogue, startSec := s.startSec) == s
        && (forall i :: 0 <= i < |ep.scenes| && i != si && i != si - 1 ==> r.scenes[i] == ep.scenes[i])
    ensures var r := ApplyDialogueTimestamp(ep, sec, si, di);
      HasDialogue(ep, si, di) && si > 0 ==>
        var p, p' := ep.scenes[si - 1], r.scenes[si - 1];
        var n := |p.dialogue|;
        if di == 0 && n > 0 then
          && |p'.dialogue| == n
          && p'.dialogue[n - 1] == CloseDialogue(p.dialogue[n - 1], sec)
          && (forall j :: 0 <= j < n - 1 ==> p'.dialogue[j] == p.dialogue[j])
          && p'.endSec == FillIfUnset(p.endSec, sec)
          && p'.(dialogue := p.dialogue, endSec := p.endSec) == p
        else p' == p
  {
  }

  /**
   * The timing finalisation of `stopRecording`: the last scene's visual
   * end, and, when it has dialogue, its last dialogue's end and its own
   * end, are filled with `sec` when unset.
   */
  function FinaliseTiming(ep: Episode, sec: real): Episode {
    if |ep.scenes| == 0 then ep
    else
      var k := |ep.scenes| - 1;
      var s := ep.scenes[k].(visualEndSec := FillIfUnset(ep.scenes[k].visualEndSec, sec));
      var n := |s.dialogue|;
      var s' := if n > 0 then s.(dialogue := s.dialogue[n - 1 := CloseDialogue(s.dialogue[n - 1], sec)],
                                 endSec := FillIfUnset(s.endSec, sec))
                else s;
      WithScene(ep, k, s')
  }

  /**
   * Finalisation only fills unset fields, and afterwards the last scene has
   * a visual end and, if it has dialogue, an end and a closed last dialogue:
   * each of these three is `sec` when it was falsy and unchanged otherwise,
   * and nothing else in the episode changes.
   */
  lemma FinaliseClosesLastScene(ep: Episode, sec: real)
    ensures var r := FinaliseTiming(ep, sec);
      && Filled(ep, r, sec)
      && (|ep.scenes| > 0 ==>
            var k := |ep.scenes| - 1;
            var n := |ep.scenes[k].dialogue|;
            var s, s' := ep.scenes[k], r.scenes[k];
            && s'.visualEndSec.Some?
            && (n > 0 ==> s'.endSec.Some? && s'.dialogue[n - 1].endSec.Some?)
            && s'.visualEndSec == FillIfUnset(s.visualEndSec, sec)
            && s'.endSec == (if n > 0 then FillIfUnset(s.endSec, sec) else s.endSec)
            && |s'.dialogue| == n
            && (n > 0 ==> s'.dialogue[n - 1] == CloseDialogue(s.dialogue[n - 1], sec))
            && (forall j :: 0 <= j < n - 1 ==> s'.dialogue[j] == s.dialogue[j])
            && s'.(visualEndSec := s.visualEndSec, endSec := s.endSec, dialogue := s.dialogue) == s
            && (forall i :: 0 <= i < k ==> r.scenes[i] == ep.scenes[i]))
  {
    if |ep.scenes| > 0 {
      var r := FinaliseTiming(ep, sec);
      forall i | 0 <= i < |ep.scenes|
        ensures SceneFilled(ep.scenes[i], r.scenes[i], sec)
      {
        var s, s' := ep.scenes[i], r.scenes[i];
        forall j | 0 <= j < |s.dialogue|
          ensures DialogueFilled(s.dialogue[j], s'.dialogue[j], sec)
        {
        }
      }
    }
  }

  /**
   * Once a speak-start has timed a dialogue, the fallback for the same
   * dialogue keeps that start and end: the high-precision timing wins.
   */
  lemma SpeakStartWinsOverFallback(ep: Episode, si: int, di: int, base: real, duration: real, words: seq<Word>, sec: real)
    requires HasDialogue(ep, si, di)
    ensures var r := ApplyDialogueTimestamp(ApplySpeakStart(ep, si, di, base, duration, words), sec, si, di);
      && r.scenes[si].dialogue[di].startSec == Some(base)
      && r.scenes[si].dialogue[di].endSec == Some(base + duration)
      && r.scenes[si].dialogue[di].words == words
  {
    var e1 := ApplySpeakStart(ep, si, di, base, duration, words);
    DialogueTimestampOnlyFills(e1, sec, si, di);
  }
}
