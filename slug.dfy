/**
 * `slugToTitleCase` (scripts/recorder6.js): an episode slug turned into the
 * hyphenated title-case part of the output file name. The chain of
 * `replace`, `trim`, `split(/\s+/)`, `map` and `join('-')` is modelled step
 * by step.
 */
module Slug {
  import opened Text

  /** `.replace(/[^a-zA-Z0-9\- ]/g, ' ')` */
  function ReplaceDisallowed(s: string): string {
    seq(|s|, i requires 0 <= i < |s| => if IsAsciiAlnum(s[i]) || s[i] == '-' || s[i] == ' ' then s[i] else ' ')
  }

  /** `.replace(/-/g, ' ')` */
  function ReplaceHyphens(s: string): string {
    seq(|s|, i requires 0 <= i < |s| => if s[i] == '-' then ' ' else s[i])
  }

  /** `s.split(/\s+/)` continued from position 0 of `s` with the piece `cur` already begun. */
  function SplitFrom(s: string, cur: string): seq<string>
    decreases |s|
  {
    if s == [] then [cur]
    else if IsSpace(s[0]) then
      var rest := TrimStart(s);
      assert rest != s;
      [cur] + SplitFrom(rest, [])
    else SplitFrom(s[1..], cur + [s[0]])
  }

  /** `s.split(/\s+/)` */
  function SplitWs(s: string): seq<string> {
    SplitFrom(s, [])
  }

  /** `w[0] ? w[0].toUpperCase() + w.slice(1) : ''` */
  function Capitalize(w: string): string {
    if w == [] then [] else [UpperChar(w[0])] + w[1..]
  }

  /** `.join('-')` */
  function JoinHyphen(ws: seq<string>): string
    decreases |ws|
  {
    if ws == [] then []
    else if |ws| == 1 then ws[0]
    else ws[0] + "-" + JoinHyphen(ws[1..])
  }

  function SlugToTitleCase(slug: string): string {
    JoinHyphen(CapitalizeAll(SplitWs(Trim(ReplaceHyphens(ReplaceDisallowed(slug))))))
  }

  predicate AllAlnum(s: string) {
    forall i :: 0 <= i < |s| ==> IsAsciiAlnum(s[i])
  }

  predicate AlnumOrBlank(s: string) {
    forall i :: 0 <= i < |s| ==> IsAsciiAlnum(s[i]) || s[i] == ' '
  }

  /** The characters of `s` that are not white space. */
  function NonSpace(s: string): string
    decreases |s|
  {
    if s == [] then [] else (if IsSpace(s[0]) then [] else [s[0]]) + NonSpace(s[1..])
  }

  /** The ASCII letters and digits of `s`, in order. */
  function Alnums(s: string): string
    decreases |s|
  {
    if s == [] then [] else (if IsAsciiAlnum(s[0]) then [s[0]] else []) + Alnums(s[1..])
  }

  function Flatten(ws: seq<string>): string
    decreases |ws|
  {
    if ws == [] then [] else ws[0] + Flatten(ws[1..])
  }

  lemma {:induction false} TrimStartKeepsNonSpace(s: string)
    requires s != [] && !IsSpace(s[|s| - 1])
    ensures TrimStart(s) != [] && TrimStart(s)[|TrimStart(s)| - 1] == s[|s| - 1]
    ensures NonSpace(TrimStart(s)) == NonSpace(s)
    decreases |s|
  {
    if IsSpace(s[0]) {
      assert |s| > 1;
      assert TrimStart(s) == TrimStart(s[1..]);
      assert NonSpace(s) == NonSpace(s[1..]);
      TrimStartKeepsNonSpace(s[1..]);
    } else {
      assert TrimStart(s) == s;
    }
  }

  lemma {:induction false} NonSpaceAppend(a: string, b: string)
    ensures NonSpace(a + b) == NonSpace(a) + NonSpace(b)
    decreases |a|
  {
    if a != [] {
      assert (a + b)[1..] == a[1..] + b;
      NonSpaceAppend(a[1..], b);
    } else {
      assert a + b == b;
    }
  }

  /** Dropping leading white space keeps the non-white-space characters. */
  lemma {:induction false} NonSpaceTrimStart(s: string)
    ensures NonSpace(TrimStart(s)) == NonSpace(s)
    decreases |s|
  {
    if s != [] && IsSpace(s[0]) {
      assert TrimStart(s) == TrimStart(s[1..]);
      assert NonSpace(s) == NonSpace(s[1..]);
      NonSpaceTrimStart(s[1..]);
    }
  }

  /** Dropping trailing white space keeps the non-white-space characters. */
  lemma {:induction false} NonSpaceTrimEnd(s: string)
    ensures NonSpace(TrimEnd(s)) == NonSpace(s)
    decreases |s|
  {
    if s != [] && IsSpace(s[|s| - 1]) {
      var init := s[..|s| - 1];
      assert TrimEnd(s) == TrimEnd(init);
      NonSpaceTrimEnd(init);
      assert s == init + [s[|s| - 1]];
      NonSpaceAppend(init, [s[|s| - 1]]);
      assert NonSpace([s[|s| - 1]]) == [] + NonSpace([]);
    }
  }

  /** Non-empty pieces made only of letters and digits. */
  predicate GoodPieces(ps: seq<string>) {
    forall k :: 0 <= k < |ps| ==> ps[k] != [] && AllAlnum(ps[k])
  }

  lemma GoodPiecesCons(p: string, ps: seq<string>)
    requires p != [] && AllAlnum(p) && GoodPieces(ps)
    ensures GoodPieces([p] + ps)
  {
    forall k | 0 <= k < |[p] + ps| ensures ([p] + ps)[k] != [] && AllAlnum(([p] + ps)[k]) {
      if k > 0 {
        assert ([p] + ps)[k] == ps[k - 1];
      }
    }
  }

  lemma FlattenCons(p: string, ps: seq<string>)
    ensures Flatten([p] + ps) == p + Flatten(ps)
  {
    assert ([p] + ps)[1..] == ps;
  }

  lemma AlnumOrBlankSuffix(s: string, k: nat)
    requires AlnumOrBlank(s) && k <= |s|
    ensures AlnumOrBlank(s[k..])
  {
    forall i | 0 <= i < |s| - k ensures IsAsciiAlnum(s[k..][i]) || s[k..][i] == ' ' {
      assert s[k..][i] == s[k + i];
    }
  }

  lemma SplitAtSpace(s: string, cur: string)
    requires s != [] && IsSpace(s[0])
    ensures SplitFrom(s, cur) == [cur] + SplitFrom(TrimStart(s), [])
  {
  }

  lemma SplitAtNonSpace(s: string, cur: string)
    requires s != [] && !IsSpace(s[0])
    ensures SplitFrom(s, cur) == SplitFrom(s[1..], cur + [s[0]])
  {
  }

  /**
   * Splitting a string of letters, digits and blanks with no blank at
   * either end gives non-empty alphanumeric pieces whose concatenation is
   * the non-blank text.
   */
  lemma {:induction false} SplitPieces(s: string, cur: string)
    requires AlnumOrBlank(s) && AllAlnum(cur)
    requires s == [] || !IsSpace(s[|s| - 1])
    requires s == [] || cur != [] || !IsSpace(s[0])
    requires cur != [] || s != []
    ensures GoodPieces(SplitFrom(s, cur))
    ensures Flatten(SplitFrom(s, cur)) == cur + NonSpace(s)
    decreases |s|, 1
  {
    if s == [] {
      assert SplitFrom(s, cur) == [cur];
      FlattenCons(cur, []);
      GoodPiecesCons(cur, []);
    } else if IsSpace(s[0]) {
      SplitPiecesAtSpace(s, cur);
    } else {
      SplitPiecesAtChar(s, cur);
    }
  }

  lemma {:induction false} SplitPiecesAtSpace(s: string, cur: string)
    requires AlnumOrBlank(s) && AllAlnum(cur) && cur != []
    requires s != [] && IsSpace(s[0]) && !IsSpace(s[|s| - 1])
    ensures GoodPieces(SplitFrom(s, cur))
    ensures Flatten(SplitFrom(s, cur)) == cur + NonSpace(s)
    decreases |s|, 0
  {
    var rest := TrimStart(s);
    TrimmedRest(s);
    SplitPieces(rest, []);
    var ps := SplitFrom(rest, []);
    assert Flatten(ps) == NonSpace(s);
    SplitAtSpace(s, cur);
    GoodPiecesCons(cur, ps);
    FlattenCons(cur, ps);
    assert Flatten(SplitFrom(s, cur)) == cur + Flatten(ps);
  }

  lemma TrimmedRest(s: string)
    requires AlnumOrBlank(s) && s != [] && !IsSpace(s[|s| - 1])
    ensures var rest := TrimStart(s);
      && AlnumOrBlank(rest) && rest != [] && !IsSpace(rest[0]) && !IsSpace(rest[|rest| - 1])
      && NonSpace(rest) == NonSpace(s)
  {
    var rest := TrimStart(s);
    TrimStartKeepsNonSpace(s);
    var k := |s| - |rest|;
    assert rest == s[k..];
    AlnumOrBlankSuffix(s, k);
  }

  lemma {:induction false} SplitPiecesAtChar(s: string, cur: string)
    requires AlnumOrBlank(s) && AllAlnum(cur)
    requires s != [] && !IsSpace(s[0]) && !IsSpace(s[|s| - 1])
    ensures GoodPieces(SplitFrom(s, cur))
    ensures Flatten(SplitFrom(s, cur)) == cur + NonSpace(s)
    decreases |s|, 0
  {
    AlnumOrBlankSlice(s);
    SplitAtNonSpace(s, cur);
    var cur' := cur + [s[0]];
    assert AllAlnum(cur') by {
      forall i | 0 <= i < |cur'| ensures IsAsciiAlnum(cur'[i]) {
        if i < |cur| {
          assert cur'[i] == cur[i];
        }
      }
    }
    SplitPieces(s[1..], cur');
    assert NonSpace(s) == [s[0]] + NonSpace(s[1..]);
    assert cur' + NonSpace(s[1..]) == cur + NonSpace(s);
  }

  lemma AlnumOrBlankSlice(s: string)
    requires s != [] && AlnumOrBlank(s) && !IsSpace(s[0])
    ensures AlnumOrBlank(s[1..]) && IsAsciiAlnum(s[0])
  {
    forall i | 0 <= i < |s| - 1 ensures IsAsciiAlnum(s[1..][i]) || s[1..][i] == ' ' {
      assert s[1..][i] == s[i + 1];
    }
  }

  predicate AlnumOrHyphen(r: string) {
    forall i :: 0 <= i < |r| ==> IsAsciiAlnum(r[i]) || r[i] == '-'
  }

  predicate NoDoubleHyphen(r: string) {
    forall i :: 0 <= i < |r| - 1 ==> r[i] != '-' || r[i + 1] != '-'
  }

  /** Hyphen-joined non-empty alphanumeric pieces: letters, digits and single inner hyphens. */
  predicate HyphenatedWords(r: string) {
    && AlnumOrHyphen(r)
    && (r != [] ==> r[0] != '-' && r[|r| - 1] != '-')
    && NoDoubleHyphen(r)
  }

  lemma AlnumIsHyphenated(w: string)
    requires w != [] && AllAlnum(w)
    ensures HyphenatedWords(w)
  {
    assert IsAsciiAlnum(w[0]) && IsAsciiAlnum(w[|w| - 1]);
  }

  /** Joining an alphanumeric word to hyphenated words with one hyphen keeps the shape. */
  lemma HyphenatedCons(w: string, tail: string)
    requires w != [] && AllAlnum(w)
    requires tail != [] && HyphenatedWords(tail)
    ensures HyphenatedWords(w + "-" + tail)
  {
    var r := w + "-" + tail;
    assert |r| == |w| + 1 + |tail|;
    forall i | 0 <= i < |r| ensures IsAsciiAlnum(r[i]) || r[i] == '-' {
      if i < |w| {
        assert r[i] == w[i];
      } else if i > |w| {
        assert r[i] == tail[i - |w| - 1];
      }
    }
    forall i | 0 <= i < |r| - 1 ensures r[i] != '-' || r[i + 1] != '-' {
      if i < |w| {
        assert r[i] == w[i];
        assert IsAsciiAlnum(w[i]);
      } else if i == |w| {
        assert r[i + 1] == tail[0];
      } else {
        assert r[i] == tail[i - |w| - 1] && r[i + 1] == tail[i - |w|];
      }
    }
    assert r[0] == w[0] && IsAsciiAlnum(w[0]);
    assert r[|r| - 1] == tail[|tail| - 1];
  }

  lemma JoinUnfold(ws: seq<string>)
    requires |ws| > 1
    ensures JoinHyphen(ws) == ws[0] + "-" + JoinHyphen(ws[1..])
  {
  }

  lemma {:induction false} JoinShape(ws: seq<string>)
    requires GoodPieces(ws)
    ensures JoinHyphen(ws) != [] <==> ws != []
    ensures HyphenatedWords(JoinHyphen(ws))
    ensures Alnums(JoinHyphen(ws)) == Flatten(ws)
    decreases |ws|
  {
    if |ws| == 1 {
      assert JoinHyphen(ws) == ws[0];
      AlnumIsHyphenated(ws[0]);
      AlnumsOfAlnum(ws[0]);
      FlattenCons(ws[0], []);
      assert ws == [ws[0]] + [];
    } else if |ws| > 1 {
      var tail := JoinHyphen(ws[1..]);
      assert GoodPieces(ws[1..]) by {
        forall k | 0 <= k < |ws| - 1 ensures ws[1..][k] != [] && AllAlnum(ws[1..][k]) {
          assert ws[1..][k] == ws[k + 1];
        }
      }
      JoinShape(ws[1..]);
      JoinUnfold(ws);
      assert ws[0] != [] && AllAlnum(ws[0]);
      HyphenatedCons(ws[0], tail);
      AlnumsOfAlnum(ws[0]);
      AlnumsAppend(ws[0], "-");
      AlnumsAppend(ws[0] + "-", tail);
      assert Alnums("-") == [];
      FlattenCons(ws[0], ws[1..]);
      assert ws == [ws[0]] + ws[1..];
    }
  }

  lemma {:induction false} AlnumsOfAlnum(w: string)
    requires AllAlnum(w)
    ensures Alnums(w) == w
    decreases |w|
  {
    if w != [] {
      AlnumsOfAlnum(w[1..]);
      assert w == [w[0]] + w[1..];
    }
  }

  lemma {:induction false} AlnumsAppend(a: string, b: string)
    ensures Alnums(a + b) == Alnums(a) + Alnums(b)
    decreases |a|
  {
    if a != [] {
      assert (a + b)[1..] == a[1..] + b;
      AlnumsAppend(a[1..], b);
    } else {
      assert a + b == b;
    }
  }

  lemma {:induction false} LowerAppend(a: string, b: string)
    ensures Lower(a + b) == Lower(a) + Lower(b)
  {
  }

  /** Capitalising the pieces changes only the case of their letters. */
  lemma {:induction false} LowerFlattenCapitalized(ws: seq<string>, caps: seq<string>)
    requires |caps| == |ws| && forall k :: 0 <= k < |ws| ==> caps[k] == Capitalize(ws[k])
    ensures Lower(Flatten(caps)) == Lower(Flatten(ws))
    decreases |ws|
  {
    if ws != [] {
      LowerFlattenCapitalized(ws[1..], caps[1..]);
      LowerAppend(caps[0], Flatten(caps[1..]));
      LowerAppend(ws[0], Flatten(ws[1..]));
      if ws[0] != [] {
        assert Lower(caps[0]) == Lower(ws[0]) by {
          assert caps[0] == [UpperChar(ws[0][0])] + ws[0][1..];
          assert LowerChar(UpperChar(ws[0][0])) == LowerChar(ws[0][0]);
          assert Lower(caps[0])[0] == Lower(ws[0])[0];
        }
      }
    }
  }

  lemma {:induction false} NonSpaceOfNormalised(s: string)
    ensures NonSpace(ReplaceHyphens(ReplaceDisallowed(s))) == Alnums(s)
    ensures AlnumOrBlank(ReplaceHyphens(ReplaceDisallowed(s)))
    decreases |s|
  {
    var n := ReplaceHyphens(ReplaceDisallowed(s));
    if s != [] {
      NonSpaceOfNormalised(s[1..]);
      assert n[1..] == ReplaceHyphens(ReplaceDisallowed(s[1..]));
      AlnumIsNotSpace(s[0]);
    }
  }

  lemma AlnumOrBlankPrefix(s: string, k: nat)
    requires AlnumOrBlank(s) && k <= |s|
    ensures AlnumOrBlank(s[..k])
  {
    forall i | 0 <= i < k ensures IsAsciiAlnum(s[..k][i]) || s[..k][i] == ' ' {
      assert s[..k][i] == s[i];
    }
  }

  lemma TrimmedShape(s: string)
    requires AlnumOrBlank(s)
    ensures var t := Trim(s);
      && AlnumOrBlank(t)
      && (t != [] ==> !IsSpace(t[0]) && !IsSpace(t[|t| - 1]))
      && NonSpace(t) == NonSpace(s)
  {
    var a := TrimStart(s);
    var t := TrimEnd(a);
    assert Trim(s) == t;
    assert AlnumOrBlank(t) by {
      AlnumOrBlankSuffix(s, |s| - |a|);
      AlnumOrBlankPrefix(a, |t|);
    }
    assert t != [] ==> !IsSpace(t[0]) && !IsSpace(t[|t| - 1]) by {
      if t != [] {
        assert t[0] == a[0];
      }
    }
    assert NonSpace(t) == NonSpace(s) by {
      NonSpaceTrimStart(s);
      NonSpaceTrimEnd(a);
    }
  }

  function CapitalizeAll(ws: seq<string>): (caps: seq<string>)
    ensures |caps| == |ws| && forall k :: 0 <= k < |ws| ==> caps[k] == Capitalize(ws[k])
  {
    seq(|ws|, i requires 0 <= i < |ws| => Capitalize(ws[i]))
  }

  lemma CapitalizeKeepsGood(ws: seq<string>)
    requires GoodPieces(ws)
    ensures GoodPieces(CapitalizeAll(ws))
  {
    var caps := CapitalizeAll(ws);
    forall k | 0 <= k < |caps| ensures caps[k] != [] && AllAlnum(caps[k]) {
      var w := ws[k];
      assert IsAsciiAlnum(w[0]);
      assert caps[k] == [UpperChar(w[0])] + w[1..];
      forall i | 0 <= i < |caps[k]| ensures IsAsciiAlnum(caps[k][i]) {
        if i > 0 {
          assert caps[k][i] == w[i];
        }
      }
    }
  }

  /**
   * The file-name part is hyphen-separated words of letters and digits,
   * with no hyphen at either end and none doubled, and it keeps every
   * letter and digit of the slug, in order, changing only their case.
   */
  lemma TitleCaseShape(slug: string)
    ensures HyphenatedWords(SlugToTitleCase(slug))
    ensures Lower(Alnums(SlugToTitleCase(slug))) == Lower(Alnums(slug))
  {
    var n := ReplaceHyphens(ReplaceDisallowed(slug));
    NonSpaceOfNormalised(slug);
    var t := Trim(n);
    TrimmedShape(n);
    var words := SplitWs(t);
    var caps := CapitalizeAll(words);
    assert SlugToTitleCase(slug) == JoinHyphen(caps);
    if t == [] {
      assert words == [[]];
      assert caps == [[]];
      assert JoinHyphen(caps) == [];
      assert Alnums(slug) == NonSpace(t) == [];
    } else {
      SplitPieces(t, []);
      assert Flatten(words) == Alnums(slug);
      CapitalizeKeepsGood(words);
      JoinShape(caps);
      LowerFlattenCapitalized(words, caps);
    }
  }

  /** The longest prefix of `s` made of ASCII letters and digits. */
  function LeadingRun(s: string): (w: string)
    ensures |w| <= |s| && w == s[..|w|] && AllAlnum(w)
    ensures s != [] && IsAsciiAlnum(s[0]) ==> w != []
    ensures |w| < |s| ==> !IsAsciiAlnum(s[|w|])
    decreases |s|
  {
    if s != [] && IsAsciiAlnum(s[0]) then [s[0]] + LeadingRun(s[1..]) else []
  }

  /**
   * The maximal runs of ASCII letters and digits in `s`, in order: an
   * independent statement of the words a slug is made of.
   */
  function AlnumRuns(s: string): (ws: seq<string>)
    ensures GoodPieces(ws)
    decreases |s|
  {
    if s == [] then []
    else if !IsAsciiAlnum(s[0]) then AlnumRuns(s[1..])
    else
      var w := LeadingRun(s);
      var rest := AlnumRuns(s[|w|..]);
      GoodPiecesCons(w, rest);
      [w] + rest
  }

  /** `a` and `b` have the same letters and digits at the same places. */
  predicate SameAlnums(a: string, b: string) {
    && |a| == |b|
    && forall i :: 0 <= i < |a| ==> (IsAsciiAlnum(a[i]) <==> IsAsciiAlnum(b[i])) && (IsAsciiAlnum(a[i]) ==> a[i] == b[i])
  }

  lemma SameAlnumsSuffix(a: string, b: string, k: nat)
    requires SameAlnums(a, b) && k <= |a|
    ensures SameAlnums(a[k..], b[k..])
  {
    forall i | 0 <= i < |a| - k
      ensures (IsAsciiAlnum(a[k..][i]) <==> IsAsciiAlnum(b[k..][i])) && (IsAsciiAlnum(a[k..][i]) ==> a[k..][i] == b[k..][i])
    {
      assert a[k..][i] == a[k + i] && b[k..][i] == b[k + i];
    }
  }

  lemma {:induction false} LeadingRunSame(a: string, b: string)
    requires SameAlnums(a, b)
    ensures LeadingRun(a) == LeadingRun(b)
    decreases |a|
  {
    if a != [] && IsAsciiAlnum(a[0]) {
      SameAlnumsSuffix(a, b, 1);
      LeadingRunSame(a[1..], b[1..]);
    }
  }

  /** The runs depend only on where the letters and digits are and what they are. */
  lemma {:induction false} RunsSame(a: string, b: string)
    requires SameAlnums(a, b)
    ensures AlnumRuns(a) == AlnumRuns(b)
    decreases |a|
  {
    if a != [] {
      if !IsAsciiAlnum(a[0]) {
        SameAlnumsSuffix(a, b, 1);
        RunsSame(a[1..], b[1..]);
      } else {
        LeadingRunSame(a, b);
        var k := |LeadingRun(a)|;
        SameAlnumsSuffix(a, b, k);
        RunsSame(a[k..], b[k..]);
      }
    }
  }

  /** Normalising a slug blanks exactly the characters that are not letters or digits. */
  lemma NormalisedSame(slug: string)
    ensures SameAlnums(slug, ReplaceHyphens(ReplaceDisallowed(slug)))
  {
    var n := ReplaceHyphens(ReplaceDisallowed(slug));
    forall i | 0 <= i < |slug|
      ensures (IsAsciiAlnum(slug[i]) <==> IsAsciiAlnum(n[i])) && (IsAsciiAlnum(slug[i]) ==> slug[i] == n[i])
    {
      assert !IsAsciiAlnum(slug[i]) ==> n[i] == ' ';
    }
  }

  lemma {:induction false} LeadingRunSnoc(a: string, c: char)
    requires !IsAsciiAlnum(c)
    ensures LeadingRun(a + [c]) == LeadingRun(a)
    decreases |a|
  {
    if a != [] && IsAsciiAlnum(a[0]) {
      assert (a + [c])[1..] == a[1..] + [c];
      LeadingRunSnoc(a[1..], c);
    }
  }

  /** A trailing separator adds no run. */
  lemma {:induction false} RunsSnoc(a: string, c: char)
    requires !IsAsciiAlnum(c)
    ensures AlnumRuns(a + [c]) == AlnumRuns(a)
    decreases |a|
  {
    if a == [] {
      assert a + [c] == [c] && [c][1..] == [];
    } else if !IsAsciiAlnum(a[0]) {
      assert (a + [c])[1..] == a[1..] + [c];
      RunsSnoc(a[1..], c);
    } else {
      LeadingRunSnoc(a, c);
      var k := |LeadingRun(a)|;
      assert (a + [c])[k..] == a[k..] + [c];
      RunsSnoc(a[k..], c);
    }
  }

  lemma {:induction false} RunsTrimStart(s: string)
    ensures AlnumRuns(TrimStart(s)) == AlnumRuns(s)
    decreases |s|
  {
    if s != [] && IsSpace(s[0]) {
      AlnumIsNotSpace(s[0]);
      RunsTrimStart(s[1..]);
    }
  }

  lemma {:induction false} RunsTrimEnd(s: string)
    ensures AlnumRuns(TrimEnd(s)) == AlnumRuns(s)
    decreases |s|
  {
    if s != [] && IsSpace(s[|s| - 1]) {
      var init := s[..|s| - 1];
      AlnumIsNotSpace(s[|s| - 1]);
      RunsTrimEnd(init);
      assert s == init + [s[|s| - 1]];
      RunsSnoc(init, s[|s| - 1]);
    }
  }

  /**
   * On letters, digits and blanks with no blank at the end, `split(/\s+/)`
   * with the piece `cur` begun finishes `cur` with the leading run and then
   * yields the remaining runs.
   */
  lemma {:induction false} SplitIsRuns(t: string, cur: string)
    requires AlnumOrBlank(t)
    requires t == [] || !IsSpace(t[|t| - 1])
    ensures SplitFrom(t, cur) == [cur + LeadingRun(t)] + AlnumRuns(t[|LeadingRun(t)|..])
    decreases |t|, 1
  {
    if t == [] {
      assert SplitFrom(t, cur) == [cur];
      assert cur + LeadingRun(t) == cur && t[|LeadingRun(t)|..] == [];
    } else if IsSpace(t[0]) {
      SplitIsRunsAtSpace(t, cur);
    } else {
      SplitIsRunsAtChar(t, cur);
    }
  }

  lemma {:induction false} SplitIsRunsAtSpace(t: string, cur: string)
    requires AlnumOrBlank(t) && t != [] && IsSpace(t[0]) && !IsSpace(t[|t| - 1])
    ensures SplitFrom(t, cur) == [cur + LeadingRun(t)] + AlnumRuns(t[|LeadingRun(t)|..])
    decreases |t|, 0
  {
    var rest := TrimStart(t);
    assert SplitFrom(rest, []) == AlnumRuns(t) by {
      TrimmedRest(t);
      AlnumOrBlankSlice(rest);
      var w := LeadingRun(rest);
      assert SplitFrom(rest, []) == [w] + AlnumRuns(rest[|w|..]) by {
        SplitIsRuns(rest, []);
        assert [] + w == w;
      }
      assert AlnumRuns(rest) == [w] + AlnumRuns(rest[|w|..]);
      RunsTrimStart(t);
    }
    assert SplitFrom(t, cur) == [cur] + SplitFrom(rest, []) by {
      SplitAtSpace(t, cur);
    }
    assert cur + LeadingRun(t) == cur && t[|LeadingRun(t)|..] == t by {
      assert !IsAsciiAlnum(t[0]);
    }
  }

  lemma {:induction false} SplitIsRunsAtChar(t: string, cur: string)
    requires AlnumOrBlank(t) && t != [] && !IsSpace(t[0]) && !IsSpace(t[|t| - 1])
    ensures SplitFrom(t, cur) == [cur + LeadingRun(t)] + AlnumRuns(t[|LeadingRun(t)|..])
    decreases |t|, 0
  {
    AlnumOrBlankSlice(t);
    SplitAtNonSpace(t, cur);
    var w1 := LeadingRun(t[1..]);
    assert LeadingRun(t) == [t[0]] + w1;
    SplitIsRuns(t[1..], cur + [t[0]]);
    assert cur + [t[0]] + w1 == cur + LeadingRun(t);
    assert t[1..][|w1|..] == t[|LeadingRun(t)|..];
  }

  /**
   * The file-name part is the slug's maximal runs of letters and digits,
   * each with its first character upper-cased and the rest kept as they
   * are, joined with single hyphens.
   */
  lemma TitleCaseCapitalizesRuns(slug: string)
    ensures SlugToTitleCase(slug) == JoinHyphen(CapitalizeAll(AlnumRuns(slug)))
    ensures forall k :: 0 <= k < |AlnumRuns(slug)| ==>
              CapitalizeAll(AlnumRuns(slug))[k] == [UpperChar(AlnumRuns(slug)[k][0])] + AlnumRuns(slug)[k][1..]
  {
    var n := ReplaceHyphens(ReplaceDisallowed(slug));
    var t := Trim(n);
    assert AlnumRuns(t) == AlnumRuns(slug) by {
      NormalisedSame(slug);
      RunsSame(slug, n);
      RunsTrimStart(n);
      RunsTrimEnd(TrimStart(n));
    }
    assert SlugToTitleCase(slug) == JoinHyphen(CapitalizeAll(SplitWs(t)));
    assert SplitWs(t) == AlnumRuns(t) || (SplitWs(t) == [[]] && AlnumRuns(t) == []) by {
      NonSpaceOfNormalised(slug);
      TrimmedShape(n);
      if t != [] {
        AlnumOrBlankSlice(t);
        SplitIsRuns(t, []);
        assert [] + LeadingRun(t) == LeadingRun(t);
      }
    }
    if SplitWs(t) != AlnumRuns(t) {
      assert CapitalizeAll([[]]) == [[]];
    }
  }
}
