/**
 * The `search` command of `scripts/clip.ts`: finding the dialogue lines that
 * contain a query, case-insensitively, and the padded cuts and clip file
 * names a search with `--extract` produces.
 */
module ClipSearch {
  import opened Wrappers
  import opened Text
  import opened Clip

  /** One hit: the scene, the dialogue and the text that matched. */
  datatype SearchMatch = SearchMatch(scene: Scene, dialogue: Dialogue, matchedText: string)

  /** Where a dialogue sits: index of its scene, index within the scene. */
  datatype Addr = Addr(si: nat, di: nat)

  /** A dialogue with a non-empty line containing the query, ignoring case. */
  predicate IsHit(d: Dialogue, query: string) {
    d.line != "" && Contains(Lower(d.line), Lower(query))
  }

  predicate ValidAddr(scenes: seq<Scene>, a: Addr) {
    a.si < |scenes| && a.di < |scenes[a.si].dialogue|
  }

  /** Scene-then-dialogue order. */
  predicate Before(a: Addr, b: Addr) {
    a.si < b.si || (a.si == b.si && a.di < b.di)
  }

  // ---------------------------------------------------------------------------
  // The hits, as addresses
  // ---------------------------------------------------------------------------

  /** The hits among `ds`, the leading dialogue of scene `si`. */
  function SceneHits(si: nat, ds: seq<Dialogue>, query: string): seq<Addr>
    decreases |ds|
  {
    if ds == [] then []
    else
      var j := |ds| - 1;
      SceneHits(si, ds[..j], query) + (if IsHit(ds[j], query) then [Addr(si, j)] else [])
  }

  /** The hits among the leading `scenes`, scene by scene. */
  function Hits(scenes: seq<Scene>, query: string): seq<Addr>
    decreases |scenes|
  {
    if scenes == [] then []
    else
      var i := |scenes| - 1;
      Hits(scenes[..i], query) + SceneHits(i, scenes[i].dialogue, query)
  }

  function MatchAt(scenes: seq<Scene>, a: Addr): SearchMatch
    requires ValidAddr(scenes, a)
  {
    var d := scenes[a.si].dialogue[a.di];
    SearchMatch(scenes[a.si], d, d.line)
  }

  function MatchesAt(scenes: seq<Scene>, addrs: seq<Addr>): (r: seq<SearchMatch>)
    requires forall k :: 0 <= k < |addrs| ==> ValidAddr(scenes, addrs[k])
    ensures |r| == |addrs|
  {
    seq(|addrs|, k requires 0 <= k < |addrs| => MatchAt(scenes, addrs[k]))
  }

  // ---------------------------------------------------------------------------
  // What the hits are
  // ---------------------------------------------------------------------------

  /** The hits of one scene are exactly its matching dialogue, in increasing order. */
  lemma {:induction false} SceneHitsExactly(si: nat, ds: seq<Dialogue>, query: string)
    ensures forall k :: 0 <= k < |SceneHits(si, ds, query)| ==>
      SceneHits(si, ds, query)[k].si == si && SceneHits(si, ds, query)[k].di < |ds|
    ensures forall di :: 0 <= di < |ds| ==> (Addr(si, di) in SceneHits(si, ds, query) <==> IsHit(ds[di], query))
    ensures forall k, l :: 0 <= k < l < |SceneHits(si, ds, query)| ==>
      SceneHits(si, ds, query)[k].di < SceneHits(si, ds, query)[l].di
    decreases |ds|
  {
    if ds != [] {
      var j := |ds| - 1;
      SceneHitsExactly(si, ds[..j], query);
      assert forall di :: 0 <= di < j ==> ds[..j][di] == ds[di];
    }
  }

  /** Every hit addresses a dialogue of the leading `scenes`. */
  lemma {:induction false} HitsValid(scenes: seq<Scene>, query: string)
    ensures forall k :: 0 <= k < |Hits(scenes, query)| ==> ValidAddr(scenes, Hits(scenes, query)[k])
    decreases |scenes|
  {
    if scenes != [] {
      var i := |scenes| - 1;
      HitsValid(scenes[..i], query);
      SceneHitsExactly(i, scenes[i].dialogue, query);
      var front, back := Hits(scenes[..i], query), SceneHits(i, scenes[i].dialogue, query);
      forall k | 0 <= k < |front| + |back|
        ensures ValidAddr(scenes, (front + back)[k])
      {
        if k < |front| {
          assert ValidAddr(scenes[..i], front[k]);
          assert scenes[..i][front[k].si] == scenes[front[k].si];
        }
      }
    }
  }

  /** An address is a hit exactly when it names a matching dialogue. */
  lemma {:induction false} HitsExactly(scenes: seq<Scene>, query: string, a: Addr)
    ensures a in Hits(scenes, query) <==> ValidAddr(scenes, a) && IsHit(scenes[a.si].dialogue[a.di], query)
    decreases |scenes|
  {
    if scenes != [] {
      var i := |scenes| - 1;
      HitsValid(scenes[..i], query);
      SceneHitsExactly(i, scenes[i].dialogue, query);
      HitsExactly(scenes[..i], query, a);
      if a.si < i {
        assert scenes[..i][a.si] == scenes[a.si];
      }
    }
  }

  /** The hits run strictly forward in scene-then-dialogue order, so none repeats. */
  lemma {:induction false} HitsOrdered(scenes: seq<Scene>, query: string)
    ensures forall k, l :: 0 <= k < l < |Hits(scenes, query)| ==> Before(Hits(scenes, query)[k], Hits(scenes, query)[l])
    decreases |scenes|
  {
    if scenes != [] {
      var i := |scenes| - 1;
      HitsValid(scenes[..i], query);
      HitsOrdered(scenes[..i], query);
      SceneHitsExactly(i, scenes[i].dialogue, query);
      var front, back := Hits(scenes[..i], query), SceneHits(i, scenes[i].dialogue, query);
      forall k, l | 0 <= k < l < |front| + |back|
        ensures Before((front + back)[k], (front + back)[l])
      {
        if k < |front| && l >= |front| {
          assert ValidAddr(scenes[..i], front[k]);
        }
      }
    }
  }

  // ---------------------------------------------------------------------------
  // `searchTranscript`
  // ---------------------------------------------------------------------------

  /** The matches `searchTranscript` returns: one per hit, in hit order. */
  function TranscriptMatches(scenes: seq<Scene>, query: string): (r: seq<SearchMatch>)
    ensures |r| == |Hits(scenes, query)|
  {
    HitsValid(scenes, query);
    MatchesAt(scenes, Hits(scenes, query))
  }

  /** `searchTranscript`: both loops, pushing each matching dialogue. */
  method SearchTranscript(scenes: seq<Scene>, query: string) returns (matches: seq<SearchMatch>)
    ensures matches == TranscriptMatches(scenes, query)
  {
    matches := [];
    ghost var hits: seq<Addr> := [];
    for i := 0 to |scenes|
      invariant hits == Hits(scenes[..i], query)
      invariant forall k :: 0 <= k < |hits| ==> ValidAddr(scenes, hits[k])
      invariant matches == MatchesAt(scenes, hits)
    {
      assert scenes[..i + 1][..i] == scenes[..i];
      HitsValid(scenes[..i], query);
      SceneHitsExactly(i, scenes[i].dialogue, query);
      ghost var front := hits;
      var ds := scenes[i].dialogue;
      for j := 0 to |ds|
        invariant hits == front + SceneHits(i, ds[..j], query)
        invariant forall k :: 0 <= k < |hits| ==> ValidAddr(scenes, hits[k])
        invariant matches == MatchesAt(scenes, hits)
      {
        assert ds[..j + 1][..j] == ds[..j];
        SceneHitsExactly(i, ds[..j], query);
        var d := ds[j];
        if d.line != "" && Contains(Lower(d.line), Lower(query)) {
          matches := matches + [SearchMatch(scenes[i], d, d.line)];
          hits := hits + [Addr(i, j)];
        }
      }
      assert ds[..|ds|] == ds;
    }
    assert scenes[..|scenes|] == scenes;
  }

  /**
   * The matches are exactly the matching dialogue, each once, in
   * scene-then-dialogue order.
   */
  lemma SearchFindsExactlyTheHits(scenes: seq<Scene>, query: string)
    ensures forall si, di :: 0 <= si < |scenes| && 0 <= di < |scenes[si].dialogue| && IsHit(scenes[si].dialogue[di], query) ==>
      exists k :: 0 <= k < |TranscriptMatches(scenes, query)| && Hits(scenes, query)[k] == Addr(si, di)
    ensures forall k :: 0 <= k < |TranscriptMatches(scenes, query)| ==>
      var a := Hits(scenes, query)[k];
      && ValidAddr(scenes, a)
      && IsHit(scenes[a.si].dialogue[a.di], query)
      && TranscriptMatches(scenes, query)[k] == SearchMatch(scenes[a.si], scenes[a.si].dialogue[a.di], scenes[a.si].dialogue[a.di].line)
    ensures forall k, l :: 0 <= k < l < |TranscriptMatches(scenes, query)| ==> Before(Hits(scenes, query)[k], Hits(scenes, query)[l])
  {
    var hits := Hits(scenes, query);
    HitsValid(scenes, query);
    HitsOrdered(scenes, query);
    forall si, di | 0 <= si < |scenes| && 0 <= di < |scenes[si].dialogue| && IsHit(scenes[si].dialogue[di], query)
      ensures exists k :: 0 <= k < |hits| && hits[k] == Addr(si, di)
    {
      HitsExactly(scenes, query, Addr(si, di));
    }
    forall k | 0 <= k < |hits|
      ensures IsHit(scenes[hits[k].si].dialogue[hits[k].di], query)
    {
      HitsExactly(scenes, query, hits[k]);
    }
  }

  // ---------------------------------------------------------------------------
  // `handleSearch`: padded cuts and clip names
  // ---------------------------------------------------------------------------

  /** Seconds of padding when `--padding` is absent. */
  const DefaultPadding: real := 2.0

  /** `args.padding || 2`: an absent, unparsable (`NaN`) or zero padding falls back to 2. */
  function EffectivePadding(padding: Option<real>): (p: real)
    ensures p != 0.0
    ensures padding.Some? && padding.value != 0.0 ==> p == padding.value
    ensures padding.None? || padding.value == 0.0 ==> p == DefaultPadding
  {
    if padding.None? || padding.value == 0.0 then DefaultPadding else padding.value
  }

  /** `[max(0, startSec - padding), endSec + padding]` for one match. */
  function SearchCut(d: Dialogue, padding: real): (c: Cut)
    ensures c.start >= 0.0
    ensures c.start >= d.startSec - padding && (c.start == 0.0 || c.start == d.startSec - padding)
    ensures c.end == d.endSec + padding
  {
    var start := d.startSec - padding;
    Cut(if 0.0 >= start then 0.0 else start, d.endSec + padding)
  }

  /** `query.replace(/[^a-zA-Z0-9]/g, "_")`, before the cut to 20 characters. */
  function UnderscoreNonAlnum(q: string): (r: string)
    ensures |r| == |q|
    ensures forall i :: 0 <= i < |q| ==> r[i] == (if IsAsciiAlnum(q[i]) then q[i] else '_')
  {
    seq(|q|, i requires 0 <= i < |q| => if IsAsciiAlnum(q[i]) then q[i] else '_')
  }

  /** The query as it appears in clip names: letters and digits kept, the rest `_`, at most 20. */
  function SanitizeQuery(q: string): string {
    var r := UnderscoreNonAlnum(q);
    if |r| <= 20 then r else r[..20]
  }

  /** `<episode>_search_<query>_<i + 1>.mp4` */
  function ClipName(episodeName: string, query: string, i: nat): string {
    episodeName + "_search_" + SanitizeQuery(query) + "_" + NatToString(i + 1) + ".mp4"
  }

  /** What one extracted search clip is: its cut and its file name. */
  datatype SearchClip = SearchClip(cut: Cut, fileName: string)

  /** Why `search` stops before searching. */
  datatype SearchError = MissingQuery

  /** Clip `i` cuts around match `i` and is named after it. */
  function PaddedClips(matches: seq<SearchMatch>, p: real, episodeName: string, query: string): (r: seq<SearchClip>)
    ensures |r| == |matches|
  {
    seq(|matches|, i requires 0 <= i < |matches| => SearchClip(SearchCut(matches[i].dialogue, p), ClipName(episodeName, query, i)))
  }

  /** What `handleSearch` cuts: nothing unless `--extract`; otherwise one padded clip per match. */
  function PlanSearch(scenes: seq<Scene>, query: Option<string>, padding: Option<real>, doExtract: bool, episodeName: string)
    : Result<seq<SearchClip>, SearchError>
  {
    if query.None? || query.value == "" then Failure(MissingQuery)
    else
      var matches := TranscriptMatches(scenes, query.value);
      if |matches| == 0 || !doExtract then Success([])
      else
        Success(PaddedClips(matches, EffectivePadding(padding), episodeName, query.value))
  }

  /** `handleSearch` after the data is loaded: search, then the extraction loop. */
  method HandleSearch(scenes: seq<Scene>, query: Option<string>, padding: Option<real>, doExtract: bool, episodeName: string)
    returns (r: Result<seq<SearchClip>, SearchError>)
    ensures r == PlanSearch(scenes, query, padding, doExtract, episodeName)
  {
    if query.None? || query.value == "" {
      return Failure(MissingQuery);
    }
    var p := EffectivePadding(padding);
    var matches := SearchTranscript(scenes, query.value);
    if |matches| == 0 || !doExtract {
      return Success([]);
    }
    var clips: seq<SearchClip> := [];
    for i := 0 to |matches|
      invariant |clips| == i
      invariant forall k :: 0 <= k < i ==>
        clips[k] == SearchClip(SearchCut(matches[k].dialogue, p), ClipName(episodeName, query.value, k))
    {
      var d := matches[i].dialogue;
      var start := d.startSec - p;
      var startWithPadding := if 0.0 >= start then 0.0 else start;
      var endWithPadding := d.endSec + p;
      clips := clips + [SearchClip(Cut(startWithPadding, endWithPadding), ClipName(episodeName, query.value, i))];
    }
    assert clips == PaddedClips(matches, p, episodeName, query.value);
    return Success(clips);
  }

  // ---------------------------------------------------------------------------
  // Properties of a search plan
  // ---------------------------------------------------------------------------

  /** The sanitised query is at most 20 letters, digits and underscores, a prefix of the query's shape. */
  lemma SanitizedQueryShape(q: string)
    ensures |SanitizeQuery(q)| == if |q| <= 20 then |q| else 20
    ensures forall i :: 0 <= i < |SanitizeQuery(q)| ==> IsAsciiAlnum(SanitizeQuery(q)[i]) || SanitizeQuery(q)[i] == '_'
    ensures forall i :: 0 <= i < |SanitizeQuery(q)| && IsAsciiAlnum(q[i]) ==> SanitizeQuery(q)[i] == q[i]
    ensures forall i :: 0 <= i < |SanitizeQuery(q)| && !IsAsciiAlnum(q[i]) ==> SanitizeQuery(q)[i] == '_'
  {
  }

  /** Equal texts around a common prefix and suffix have equal middles. */
  lemma SameMiddle(pre: string, a: string, b: string, suf: string)
    requires pre + a + suf == pre + b + suf
    ensures a == b
  {
    var t := pre + a + suf;
    assert |a| == |b|;
    assert a == t[|pre|..|pre| + |a|];
  }

  /** Two clips of one search never share a file name. */
  lemma ClipNamesDistinct(episodeName: string, query: string, i: nat, j: nat)
    requires i != j
    ensures ClipName(episodeName, query, i) != ClipName(episodeName, query, j)
  {
    var pre := episodeName + "_search_" + SanitizeQuery(query) + "_";
    var a, b := NatToString(i + 1), NatToString(j + 1);
    if ClipName(episodeName, query, i) == ClipName(episodeName, query, j) {
      assert pre + a + ".mp4" == pre + b + ".mp4";
      SameMiddle(pre, a, b, ".mp4");
      DigitsValueOfNatToString(i + 1);
      DigitsValueOfNatToString(j + 1);
      assert false;
    }
  }

  /**
   * With `--extract`, clip `i` is cut around the `i`-th match: it never
   * starts before 0, starts at most `padding` before the line and ends
   * exactly `padding` after it.
   */
  lemma SearchClipsPadMatches(scenes: seq<Scene>, query: string, padding: Option<real>, episodeName: string)
    requires query != ""
    ensures var plan := PlanSearch(scenes, Some(query), padding, true, episodeName);
      var matches := TranscriptMatches(scenes, query);
      var p := EffectivePadding(padding);
      && plan.Success? && |plan.value| == |matches|
      && forall i :: 0 <= i < |matches| ==>
        && plan.value[i].cut.start >= 0.0
        && plan.value[i].cut.start >= matches[i].dialogue.startSec - p
        && plan.value[i].cut.end == matches[i].dialogue.endSec + p
        && plan.value[i].fileName == ClipName(episodeName, query, i)
  {
  }

  /** Without a query nothing happens; without `--extract` nothing is cut. */
  lemma SearchNeedsQueryAndExtract(scenes: seq<Scene>, query: Option<string>, padding: Option<real>, doExtract: bool, episodeName: string)
    ensures query.None? || query == Some("") ==> PlanSearch(scenes, query, padding, doExtract, episodeName) == Failure(MissingQuery)
    ensures query.Some? && query.value != "" && !doExtract ==> PlanSearch(scenes, query, padding, doExtract, episodeName) == Success([])
  {
  }
}
