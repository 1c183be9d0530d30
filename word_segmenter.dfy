/**
 * Word segmentation of text-to-speech character timings: the one-pass scan
 * that turns `{character, start, end}` records into `{word, start, end}`
 * records (`extractWordTimings` in scripts/recorder6.js).
 *
 * The scan is specified independently of the loop: `WordStarts` lists the
 * positions where a word opens, and word k spans from the k-th start up to
 * the next one (or the end of the input).
 */
module WordSegmenter {
  import opened Wrappers
  import opened Text

  /** One character of a spoken line, with its time window relative to the line. */
  datatype CharTiming = CharTiming(character: char, start: real, end: real)

  /** One word of a spoken line. */
  datatype Word = Word(word: string, start: real, end: real)

  /** `[!?.:;]` */
  predicate IsSentencePunctuation(c: char) {
    c == '!' || c == '?' || c == '.' || c == ':' || c == ';'
  }

  /**
   * A word opens at an alphanumeric character that is first, or follows
   * white space or sentence punctuation.
   */
  predicate IsWordStart(cs: seq<CharTiming>, i: int)
    requires 0 <= i < |cs|
  {
    IsAsciiAlnum(cs[i].character)
    && (i == 0 || IsSpace(cs[i - 1].character) || IsSentencePunctuation(cs[i - 1].character))
  }

  /** The positions before `n` at which a word opens, in increasing order. */
  function WordStartsBefore(cs: seq<CharTiming>, n: nat): (r: seq<nat>)
    requires n <= |cs|
    ensures forall k :: 0 <= k < |r| ==> r[k] < n && IsWordStart(cs, r[k])
    ensures forall k, l :: 0 <= k < l < |r| ==> r[k] < r[l]
    ensures forall i :: 0 <= i < n && IsWordStart(cs, i) ==> i in r
    decreases n
  {
    if n == 0 then []
    else WordStartsBefore(cs, n - 1) + (if IsWordStart(cs, n - 1) then [n - 1] else [])
  }

  function WordStarts(cs: seq<CharTiming>): seq<nat> {
    WordStartsBefore(cs, |cs|)
  }

  /** The characters of `cs` that are not white space, in order. */
  function NonSpaceText(cs: seq<CharTiming>): string
    decreases |cs|
  {
    if cs == [] then []
    else NonSpaceText(cs[..|cs| - 1])
         + (if IsSpace(cs[|cs| - 1].character) then [] else [cs[|cs| - 1].character])
  }

  /** The end time of the last non-white-space character of `cs[a..b]`, where `cs[a]` opens a word. */
  function LastNonSpaceEnd(cs: seq<CharTiming>, a: nat, b: nat): real
    requires a < b <= |cs|
    decreases b
  {
    if b - 1 == a || !IsSpace(cs[b - 1].character) then cs[b - 1].end
    else LastNonSpaceEnd(cs, a, b - 1)
  }

  /** The word that opens at `a` and is closed before `b`. */
  function WordBetween(cs: seq<CharTiming>, a: nat, b: nat): Word
    requires a < b <= |cs|
  {
    Word(NonSpaceText(cs[a..b]), cs[a].start, LastNonSpaceEnd(cs, a, b))
  }

  /** Where the word opened at the k-th start is closed. */
  function WordBound(cs: seq<CharTiming>, starts: seq<nat>, k: nat): nat
    requires k < |starts|
  {
    if k + 1 < |starts| then starts[k + 1] else |cs|
  }

  /** The words of a spoken line: one per word start, up to the next start. */
  function SegmentWords(cs: seq<CharTiming>): seq<Word> {
    var starts := WordStarts(cs);
    seq(|starts|, k requires 0 <= k < |starts| => WordBetween(cs, starts[k], WordBound(cs, starts, k)))
  }

  lemma NonSpaceTextSnoc(cs: seq<CharTiming>, a: nat, b: nat)
    requires a <= b < |cs|
    ensures NonSpaceText(cs[a..b + 1])
            == NonSpaceText(cs[a..b]) + (if IsSpace(cs[b].character) then [] else [cs[b].character])
  {
    assert cs[a..b + 1][..b - a] == cs[a..b];
    assert cs[a..b + 1][b - a] == cs[b];
  }

  /**
   * The state of the scan after the first `i` characters: every word opened
   * so far except the last is closed in `words`, and the last is `current`.
   */
  ghost predicate Scanned(cs: seq<CharTiming>, i: nat, words: seq<Word>, current: Option<Word>)
    requires i <= |cs|
  {
    var st := WordStartsBefore(cs, i);
    && (current.Some? <==> |st| > 0)
    && |words| + (if current.Some? then 1 else 0) == |st|
    && (forall k :: 0 <= k < |words| ==> words[k] == WordBetween(cs, st[k], st[k + 1]))
    && (current.Some? ==> current.value == WordBetween(cs, st[|st| - 1], i))
  }

  lemma ScanOpensWord(cs: seq<CharTiming>, i: nat, words: seq<Word>, current: Option<Word>)
    requires i < |cs| && Scanned(cs, i, words, current) && IsWordStart(cs, i)
    ensures Scanned(cs, i + 1, if current.Some? then words + [current.value] else words,
                    Some(Word([cs[i].character], cs[i].start, cs[i].end)))
  {
    var st := WordStartsBefore(cs, i);
    var st' := WordStartsBefore(cs, i + 1);
    assert st' == st + [i];
    var first := Word([cs[i].character], cs[i].start, cs[i].end);
    assert first == WordBetween(cs, i, i + 1) by {
      NonSpaceTextSnoc(cs, i, i);
      assert cs[i..i] == [];
    }
    if current.Some? {
      var words' := words + [current.value];
      forall k | 0 <= k < |words'|
        ensures words'[k] == WordBetween(cs, st'[k], st'[k + 1])
      {
        if k < |words| {
          assert words'[k] == words[k];
        }
      }
    }
  }

  lemma ScanExtendsWord(cs: seq<CharTiming>, i: nat, words: seq<Word>, current: Option<Word>)
    requires i < |cs| && Scanned(cs, i, words, current) && !IsWordStart(cs, i)
    requires current.Some? && !IsSpace(cs[i].character)
    ensures Scanned(cs, i + 1, words,
                    Some(current.value.(word := current.value.word + [cs[i].character], end := cs[i].end)))
  {
    var st := WordStartsBefore(cs, i);
    NonSpaceTextSnoc(cs, st[|st| - 1], i);
  }

  lemma ScanSkips(cs: seq<CharTiming>, i: nat, words: seq<Word>, current: Option<Word>)
    requires i < |cs| && Scanned(cs, i, words, current) && !IsWordStart(cs, i)
    requires current.None? || IsSpace(cs[i].character)
    ensures Scanned(cs, i + 1, words, current)
  {
    var st := WordStartsBefore(cs, i);
    if current.Some? {
      NonSpaceTextSnoc(cs, st[|st| - 1], i);
    }
  }

  lemma ScanFlushes(cs: seq<CharTiming>, words: seq<Word>, current: Option<Word>)
    requires Scanned(cs, |cs|, words, current)
    ensures (if current.Some? then words + [current.value] else words) == SegmentWords(cs)
  {
    var st := WordStarts(cs);
    var ws := if current.Some? then words + [current.value] else words;
    var seg := SegmentWords(cs);
    assert |ws| == |seg|;
    forall k | 0 <= k < |ws|
      ensures ws[k] == seg[k]
    {
    }
  }

  /**
   * The scan of scripts/recorder6.js:147-188. Before the first word opens,
   * characters are dropped; an open word absorbs every non-white-space
   * character until the next word start; the last open word is flushed.
   */
  method ExtractWordTimings(cs: seq<CharTiming>) returns (words: seq<Word>)
    ensures words == SegmentWords(cs)
  {
    if |cs| == 0 {
      return [];
    }
    words := [];
    var current: Option<Word> := None;
    for i := 0 to |cs|
      invariant Scanned(cs, i, words, current)
    {
      var c := cs[i];
      var isAlphanumeric := IsAsciiAlnum(c.character);
      var isSpace := IsSpace(c.character);
      var isSentencePunctuation := i > 0 && IsSentencePunctuation(cs[i - 1].character);
      var isPrevSpace := i > 0 && IsSpace(cs[i - 1].character);
      var isWordStart := isAlphanumeric && (i == 0 || isPrevSpace || isSentencePunctuation);
      if isWordStart {
        ScanOpensWord(cs, i, words, current);
        if current.Some? {
          words := words + [current.value];
        }
        current := Some(Word([c.character], c.start, c.end));
      } else if current.Some? && !isSpace {
        ScanExtendsWord(cs, i, words, current);
        current := Some(current.value.(word := current.value.word + [c.character], end := c.end));
      } else {
        ScanSkips(cs, i, words, current);
      }
    }
    ScanFlushes(cs, words, current);
    if current.Some? {
      words := words + [current.value];
    }
  }

  /** Empty input, or input in which no word opens, yields no words; otherwise there are words. */
  lemma NoWordsExactlyWithoutStart(cs: seq<CharTiming>)
    ensures SegmentWords(cs) == [] <==> forall i :: 0 <= i < |cs| ==> !IsWordStart(cs, i)
    ensures |cs| == 0 ==> SegmentWords(cs) == []
  {
    var st := WordStarts(cs);
    if |st| > 0 {
      assert IsWordStart(cs, st[0]);
    }
  }

  lemma {:induction false} NonSpaceTextHasNoSpace(cs: seq<CharTiming>)
    ensures forall j :: 0 <= j < |NonSpaceText(cs)| ==> !IsSpace(NonSpaceText(cs)[j])
    decreases |cs|
  {
    if cs != [] {
      NonSpaceTextHasNoSpace(cs[..|cs| - 1]);
    }
  }

  lemma {:induction false} NonSpaceTextAppend(xs: seq<CharTiming>, ys: seq<CharTiming>)
    ensures NonSpaceText(xs + ys) == NonSpaceText(xs) + NonSpaceText(ys)
    decreases |ys|
  {
    if ys != [] {
      var zs := xs + ys;
      assert zs[..|zs| - 1] == xs + ys[..|ys| - 1];
      assert zs[|zs| - 1] == ys[|ys| - 1];
      var tail := if IsSpace(ys[|ys| - 1].character) then [] else [ys[|ys| - 1].character];
      assert NonSpaceText(zs) == NonSpaceText(xs + ys[..|ys| - 1]) + tail;
      assert NonSpaceText(ys) == NonSpaceText(ys[..|ys| - 1]) + tail;
      NonSpaceTextAppend(xs, ys[..|ys| - 1]);
    } else {
      assert xs + ys == xs;
    }
  }

  lemma {:induction false} NonSpaceTextStartsWith(cs: seq<CharTiming>)
    requires |cs| > 0 && !IsSpace(cs[0].character)
    ensures |NonSpaceText(cs)| > 0 && NonSpaceText(cs)[0] == cs[0].character
    decreases |cs|
  {
    if |cs| > 1 {
      NonSpaceTextStartsWith(cs[..|cs| - 1]);
    } else {
      assert cs[..0] == [];
    }
  }

  /**
   * White space is never part of a word, and every word is non-empty and
   * begins with the alphanumeric character that opened it, at that
   * character's start time.
   */
  lemma WordsAreWellFormed(cs: seq<CharTiming>)
    ensures forall w :: w in SegmentWords(cs) ==>
              |w.word| > 0 && IsAsciiAlnum(w.word[0])
              && forall j :: 0 <= j < |w.word| ==> !IsSpace(w.word[j])
    ensures forall k :: 0 <= k < |SegmentWords(cs)| ==>
              0 <= WordStarts(cs)[k] < |cs| && IsWordStart(cs, WordStarts(cs)[k])
              && SegmentWords(cs)[k].start == cs[WordStarts(cs)[k]].start
  {
    var st := WordStarts(cs);
    var ws := SegmentWords(cs);
    forall k | 0 <= k < |ws|
      ensures |ws[k].word| > 0 && IsAsciiAlnum(ws[k].word[0])
      ensures forall j :: 0 <= j < |ws[k].word| ==> !IsSpace(ws[k].word[j])
    {
      var a, b := st[k], WordBound(cs, st, k);
      NonSpaceTextHasNoSpace(cs[a..b]);
      NonSpaceTextStartsWith(cs[a..b]);
    }
  }

  /** The texts of `ws`, concatenated. */
  function ConcatWords(ws: seq<Word>): string
    decreases |ws|
  {
    if ws == [] then [] else ConcatWords(ws[..|ws| - 1]) + ws[|ws| - 1].word
  }

  /** The first position at which a word opens, or `|cs|` if none does. */
  function FirstWordStart(cs: seq<CharTiming>): nat {
    var st := WordStarts(cs);
    if |st| > 0 then st[0] else |cs|
  }

  /**
   * Characters before the first word start are dropped and every other
   * non-white-space character lands in exactly one word, in order: the
   * concatenated words are the non-white-space text from the first word
   * start onward.
   */
  lemma ConcatenatedWordsAreNonSpaceText(cs: seq<CharTiming>)
    ensures ConcatWords(SegmentWords(cs)) == NonSpaceText(cs[FirstWordStart(cs)..])
  {
    var st := WordStarts(cs);
    var ws := SegmentWords(cs);
    var f := FirstWordStart(cs);
    if |st| == 0 {
      assert ConcatWords(ws) == [] by {
        assert |ws| == 0;
      }
      assert cs[f..] == [];
    } else {
      assert ConcatWords(ws) == NonSpaceText(cs[f..|cs|]) by {
        ConcatAllWords(cs);
      }
      assert cs[f..|cs|] == cs[f..];
    }
  }

  lemma ConcatAllWords(cs: seq<CharTiming>)
    requires |WordStarts(cs)| > 0
    ensures ConcatWords(SegmentWords(cs)) == NonSpaceText(cs[WordStarts(cs)[0]..|cs|])
  {
    var st := WordStarts(cs);
    var ws := SegmentWords(cs);
    SegmentWordsSpan(cs);
    ConcatSpans(cs, st, ws, |ws|);
    assert ws[..|ws|] == ws;
  }

  lemma SegmentWordsSpan(cs: seq<CharTiming>)
    ensures Spans(cs, WordStarts(cs), SegmentWords(cs))
  {
    var st := WordStarts(cs);
    var ws := SegmentWords(cs);
    forall k | 0 <= k < |st|
      ensures st[k] < WordBound(cs, st, k) <= |cs|
      ensures ws[k].word == NonSpaceText(cs[st[k]..WordBound(cs, st, k)])
    {
    }
  }

  /** `ws[k]` holds the non-white-space text from the k-th start up to the next. */
  ghost predicate Spans(cs: seq<CharTiming>, st: seq<nat>, ws: seq<Word>) {
    && |ws| == |st|
    && forall k :: 0 <= k < |st| ==>
         st[k] < WordBound(cs, st, k) <= |cs|
         && ws[k].word == NonSpaceText(cs[st[k]..WordBound(cs, st, k)])
  }

  lemma {:induction false} ConcatSpans(cs: seq<CharTiming>, st: seq<nat>, ws: seq<Word>, m: nat)
    requires Spans(cs, st, ws) && 0 < m <= |st|
    ensures st[0] < WordBound(cs, st, m - 1) <= |cs|
            && ConcatWords(ws[..m]) == NonSpaceText(cs[st[0]..WordBound(cs, st, m - 1)])
    decreases m
  {
    var a, b := st[m - 1], WordBound(cs, st, m - 1);
    ConcatWordsSnoc(ws, m);
    if m > 1 {
      ConcatSpans(cs, st, ws, m - 1);
      SliceSplit(cs, st[0], a, b);
      NonSpaceTextAppend(cs[st[0]..a], cs[a..b]);
    }
  }

  lemma ConcatWordsSnoc(ws: seq<Word>, m: nat)
    requires 0 < m <= |ws|
    ensures ConcatWords(ws[..m]) == ConcatWords(ws[..m - 1]) + ws[m - 1].word
  {
    assert ws[..m][..m - 1] == ws[..m - 1];
  }

  lemma SliceSplit<T>(s: seq<T>, i: nat, j: nat, k: nat)
    requires i <= j <= k <= |s|
    ensures s[i..k] == s[i..j] + s[j..k]
  {
  }
}
