/**
 * `TextProcessor.simple_summarize` (app.py:366-489): the extractive summariser.
 *
 * Stages: input guard; sentence splitting at terminal punctuation and Korean
 * verb endings; boilerplate filter; fallback split at periods; term
 * frequencies over the kept sentences; score = term-frequency sum times a
 * position weight times a length weight; stable descending sort; the best
 * `max` sentences restored to text order and joined with ". ".
 *
 * Weights are exact decimals in the source (1.3, 0.8, 1.2, 0.7); here they
 * are scaled by ten, so a score is one hundred times the source's value.
 * The position test compares the index with `len(sentences) * 0.3` and
 * `* 0.7`, two rounded double products. `PositionWeightAsWritten` models
 * that rounding and exhibits an index where it departs from the exact 30 %
 * and 70 % marks; the summary itself uses the exact test `PositionWeight`.
 * Each loop of the source is a method proved equal to a specification
 * function; the properties the summariser promises are lemmas about those
 * functions.
 */
module Summarizer {
  import opened Chars
  import opened Text
  import opened Ranking
  import Doubles

  const InsufficientText := "요약할 내용이 부족합니다."
  const Unsplittable := "문장을 분리할 수 없습니다."
  const NoSummary := "요약을 생성할 수 없습니다."

  /** The guard `not text or len(text.strip()) < 50`. */
  predicate TooShort(text: string) {
    text == [] || |Strip(text)| < 50
  }

  // ---------------------------------------------------------------------------
  // Sentence splitting: re.split(r'[.!?]|다\s|었다\s|였다\s|습니다\s|ㅂ니다\s', text)

  predicate IsTerminal(c: char) {
    c == '.' || c == '!' || c == '?'
  }

  /** The verb endings of the pattern, each matched with one whitespace character after it. */
  const VerbEndings: seq<string> := ["다", "었다", "였다", "습니다", "ㅂ니다"]

  /** The verb ending `w` followed by one whitespace character starts at index `i`. */
  predicate EndingWordAt(s: string, i: nat, w: string) {
    StartsAt(s, i, w) && i + |w| < |s| && IsSpace(s[i + |w|])
  }

  /** Length of the first verb ending of `ends` that matches at index `i` with its whitespace character, 0 when none does. */
  function EndingAt(s: string, i: nat, ends: seq<string>): (n: nat)
    requires i <= |s|
    ensures i + n <= |s|
    decreases |ends|
  {
    if ends == [] then 0
    else if EndingWordAt(s, i, ends[0]) then |ends[0]| + 1
    else EndingAt(s, i, ends[1..])
  }

  /** A verb ending of the list matches exactly when `EndingAt` reports one, and then it reports that ending's match. */
  lemma {:induction false} EndingAtMeaning(s: string, i: nat, ends: seq<string>)
    requires i <= |s|
    ensures EndingAt(s, i, ends) > 0 ==>
      exists w :: w in ends && EndingWordAt(s, i, w) && EndingAt(s, i, ends) == |w| + 1
    ensures EndingAt(s, i, ends) == 0 <==> forall w :: w in ends ==> !EndingWordAt(s, i, w)
    decreases |ends|
  {
    if ends != [] {
      EndingAtMeaning(s, i, ends[1..]);
      assert forall w :: w in ends <==> w == ends[0] || w in ends[1..];
    }
  }

  /** Length of the separator the split pattern matches at index `i`, 0 when none does; the alternatives are tried in the pattern's order. */
  function SeparatorAt(s: string, i: nat): (n: nat)
    requires i <= |s|
    ensures i + n <= |s|
    ensures n == 0 ==> i == |s| || !IsTerminal(s[i])
  {
    if i == |s| then 0
    else if IsTerminal(s[i]) then 1
    else EndingAt(s, i, VerbEndings)
  }

  /**
   * The alternatives of the pattern: a terminal is a separator of length 1,
   * a verb ending with its whitespace character one of the ending's length
   * plus 1, and where neither starts there is none.
   */
  lemma SeparatorAtMeaning(s: string, i: nat)
    requires i <= |s|
    ensures SeparatorAt(s, i) == 1 <==> i < |s| && IsTerminal(s[i])
    ensures SeparatorAt(s, i) > 1 ==>
      exists w :: w in VerbEndings && EndingWordAt(s, i, w) && SeparatorAt(s, i) == |w| + 1
    ensures SeparatorAt(s, i) == 0 <==>
      i == |s| || (!IsTerminal(s[i]) && forall w :: w in VerbEndings ==> !EndingWordAt(s, i, w))
  {
    if i < |s| && !IsTerminal(s[i]) {
      EndingAtMeaning(s, i, VerbEndings);
      assert forall w :: w in VerbEndings ==> |w| >= 1;
    }
  }

  /** `t` is a match of the split pattern: a terminal, or a verb ending and one whitespace character. */
  predicate IsSeparator(t: string) {
    (|t| == 1 && IsTerminal(t[0]))
    || exists w :: w in VerbEndings && |t| == |w| + 1 && t[..|w|] == w && IsSpace(t[|w|])
  }

  /** No separator starts anywhere in `t`. */
  predicate NoSeparatorIn(t: string) {
    forall j :: 0 <= j < |t| ==> SeparatorAt(t, j) == 0
  }

  /** In particular `t` holds no terminal punctuation. */
  lemma NoSeparatorNoTerminal(t: string)
    requires NoSeparatorIn(t)
    ensures forall j :: 0 <= j < |t| ==> !IsTerminal(t[j])
  {
    forall j | 0 <= j < |t| ensures !IsTerminal(t[j]) {
      assert SeparatorAt(t, j) == 0;
    }
  }

  /** The separator lengths at each index keep every separator inside a text of length `len`. */
  predicate Fits(lens: seq<nat>, len: nat) {
    |lens| == len && forall j :: 0 <= j < len ==> j + lens[j] <= len
  }

  /** The length of the separator starting at each index of `s`, 0 where none does. */
  function SeparatorLengths(s: string): (lens: seq<nat>)
    ensures Fits(lens, |s|)
  {
    seq(|s|, j requires 0 <= j < |s| => SeparatorAt(s, j))
  }

  /**
   * The pieces of `s` from index `start` and the separators between them,
   * scanning from index `i` and cutting out a separator wherever `lens`
   * marks one: always one piece more than separators.
   */
  function SplitAt(s: string, lens: seq<nat>, start: nat, i: nat): (r: (seq<string>, seq<string>))
    requires Fits(lens, |s|) && start <= i <= |s|
    ensures |r.0| == |r.1| + 1
    decreases |s| - i
  {
    if i == |s| then ([s[start..]], [])
    else if lens[i] > 0 then
      var rest := SplitAt(s, lens, i + lens[i], i + lens[i]);
      ([s[start..i]] + rest.0, [s[i..i + lens[i]]] + rest.1)
    else SplitAt(s, lens, start, i + 1)
  }

  /** No separator is marked from index `a` up to index `b`. */
  predicate NoCut(lens: seq<nat>, a: nat, b: nat)
    requires a <= b <= |lens|
  {
    forall j :: a <= j < b ==> lens[j] == 0
  }

  /** Every element of `[x] + rest` has `p` when `x` and every element of `rest` do. */
  lemma AllCons<T>(x: T, rest: seq<T>, p: T -> bool)
    requires p(x) && forall k :: 0 <= k < |rest| ==> p(rest[k])
    ensures forall k :: 0 <= k < |[x] + rest| ==> p(([x] + rest)[k])
  {
    forall k | 0 <= k < |[x] + rest| ensures p(([x] + rest)[k]) {
      if k > 0 {
        assert ([x] + rest)[k] == rest[k - 1];
      }
    }
  }

  /** Every piece of the split has `p` when every stretch without a mark does. */
  lemma {:induction false} PiecesHave(s: string, lens: seq<nat>, start: nat, i: nat, p: string -> bool)
    requires Fits(lens, |s|) && start <= i <= |s| && NoCut(lens, start, i)
    requires forall a, b :: 0 <= a <= b <= |s| && NoCut(lens, a, b) ==> p(s[a..b])
    ensures forall k :: 0 <= k < |SplitAt(s, lens, start, i).0| ==> p(SplitAt(s, lens, start, i).0[k])
    decreases |s| - i
  {
    if i == |s| {
      assert s[start..|s|] == s[start..];
    } else if lens[i] > 0 {
      var m := i + lens[i];
      PiecesHave(s, lens, m, m, p);
      AllCons(s[start..i], SplitAt(s, lens, m, m).0, p);
    } else {
      PiecesHave(s, lens, start, i + 1, p);
    }
  }

  /** Every separator the split cuts out has `p` when every marked stretch does. */
  lemma {:induction false} CutsHave(s: string, lens: seq<nat>, start: nat, i: nat, p: string -> bool)
    requires Fits(lens, |s|) && start <= i <= |s|
    requires forall j :: 0 <= j < |s| && lens[j] > 0 ==> p(s[j..j + lens[j]])
    ensures forall k :: 0 <= k < |SplitAt(s, lens, start, i).1| ==> p(SplitAt(s, lens, start, i).1[k])
    decreases |s| - i
  {
    if i < |s| {
      if lens[i] > 0 {
        var m := i + lens[i];
        CutsHave(s, lens, m, m, p);
        AllCons(s[i..m], SplitAt(s, lens, m, m).1, p);
      } else {
        CutsHave(s, lens, start, i + 1, p);
      }
    }
  }

  /** A stretch of text where no separator is marked holds no separator. */
  lemma UnmarkedHoldsNoSeparator(s: string)
    ensures forall a, b :: 0 <= a <= b <= |s| && NoCut(SeparatorLengths(s), a, b) ==> NoSeparatorIn(s[a..b])
  {
    var lens := SeparatorLengths(s);
    forall a, b | 0 <= a <= b <= |s| && NoCut(lens, a, b) ensures NoSeparatorIn(s[a..b]) {
      assert forall j :: a <= j < b ==> SeparatorAt(s, j) == lens[j];
      NoSeparatorInSlice(s, a, b);
    }
  }

  /** Every marked stretch is a separator. */
  lemma MarkedIsSeparator(s: string)
    ensures forall j :: 0 <= j < |s| && SeparatorLengths(s)[j] > 0 ==> IsSeparator(s[j..j + SeparatorLengths(s)[j]])
  {
    forall j | 0 <= j < |s| && SeparatorLengths(s)[j] > 0 ensures IsSeparator(s[j..j + SeparatorLengths(s)[j]]) {
      SeparatorShape(s, j);
    }
  }

  /** What `SeparatorAt` finds is a separator. */
  lemma {:induction false} SeparatorShape(s: string, i: nat)
    requires i <= |s| && SeparatorAt(s, i) > 0
    ensures IsSeparator(s[i..i + SeparatorAt(s, i)])
  {
    var n := SeparatorAt(s, i);
    if IsTerminal(s[i]) {
      TerminalIsSeparator(s, i, n);
    } else {
      var w := EndingAtWitness(s, i, VerbEndings);
      EndingIsSeparator(s, i, w, n);
    }
  }

  /** A terminal character is a separator. */
  lemma TerminalIsSeparator(s: string, i: nat, n: nat)
    requires i < |s| && IsTerminal(s[i]) && n == 1
    ensures IsSeparator(s[i..i + n])
  {
    var t := s[i..i + n];
    assert |t| == 1 && IsTerminal(t[0]);
  }

  /** A verb ending with its whitespace character is a separator. */
  lemma EndingIsSeparator(s: string, i: nat, w: string, n: nat)
    requires w in VerbEndings && EndingWordAt(s, i, w) && n == |w| + 1
    ensures IsSeparator(s[i..i + n])
  {
    var t := s[i..i + n];
    SliceOfSlice(s, i, n, |w|);
    assert t[..|w|] == w && IsSpace(t[|w|]);
  }

  /** The verb ending whose match `EndingAt` reports. */
  lemma {:induction false} EndingAtWitness(s: string, i: nat, ends: seq<string>) returns (w: string)
    requires i <= |s| && EndingAt(s, i, ends) > 0
    ensures w in ends && EndingWordAt(s, i, w) && EndingAt(s, i, ends) == |w| + 1
    decreases |ends|
  {
    if EndingWordAt(s, i, ends[0]) {
      w := ends[0];
    } else {
      w := EndingAtWitness(s, i, ends[1..]);
    }
  }

  /** The first `m` elements of a slice, and the one after them. */
  lemma SliceOfSlice<T>(s: seq<T>, i: nat, n: nat, m: nat)
    requires m < n && i + n <= |s|
    ensures s[i..i + n][..m] == s[i..i + m]
    ensures s[i..i + n][m] == s[i + m]
  {
  }

  /** A verb ending found in a slice is found in the whole text. */
  lemma EndingInSlice(s: string, a: nat, b: nat, j: nat, w: string)
    requires a <= b <= |s| && j < b - a && EndingWordAt(s[a..b], j, w)
    ensures EndingWordAt(s, a + j, w)
  {
    SliceInSlice(s, a, b, j, j + |w|);
    assert s[a..b][j + |w|] == s[a + j + |w|];
  }

  lemma SliceInSlice<T>(s: seq<T>, a: nat, b: nat, j: nat, k: nat)
    requires a <= b <= |s| && j <= k <= b - a
    ensures s[a..b][j..k] == s[a + j..a + k]
  {
    forall i | 0 <= i < k - j ensures s[a..b][j..k][i] == s[a + j..a + k][i] {
      assert s[a..b][j..k][i] == s[a..b][j + i];
    }
  }

  /** A verb ending of the list found in a slice is found in the whole text. */
  lemma {:induction false} EndingAtInSlice(s: string, a: nat, b: nat, j: nat, ends: seq<string>)
    requires a <= b <= |s| && j < b - a && EndingAt(s[a..b], j, ends) > 0
    ensures EndingAt(s, a + j, ends) > 0
    decreases |ends|
  {
    if EndingWordAt(s[a..b], j, ends[0]) {
      EndingInSlice(s, a, b, j, ends[0]);
    } else {
      EndingAtInSlice(s, a, b, j, ends[1..]);
    }
  }

  /** A separator found in a slice starts a separator of the whole text. */
  lemma SeparatorInSlice(s: string, a: nat, b: nat, j: nat)
    requires a <= b <= |s| && j < b - a && SeparatorAt(s[a..b], j) > 0
    ensures SeparatorAt(s, a + j) > 0
  {
    assert s[a..b][j] == s[a + j];
    if !IsTerminal(s[a + j]) {
      EndingAtInSlice(s, a, b, j, VerbEndings);
    }
  }

  /** A slice of text where no separator starts holds no separator. */
  lemma NoSeparatorInSlice(s: string, a: nat, b: nat)
    requires a <= b <= |s|
    requires forall j :: a <= j < b ==> SeparatorAt(s, j) == 0
    ensures NoSeparatorIn(s[a..b])
  {
    forall j | 0 <= j < b - a ensures SeparatorAt(s[a..b], j) == 0 {
      if SeparatorAt(s[a..b], j) > 0 {
        SeparatorInSlice(s, a, b, j);
      }
    }
  }

  /** Pieces and separators taken in turn: what `re.split` took apart. */
  function Interleave(parts: seq<string>, seps: seq<string>): string
    requires |parts| == |seps| + 1
  {
    if seps == [] then parts[0] else parts[0] + seps[0] + Interleave(parts[1..], seps[1..])
  }

  /** The pieces and the separators taken in turn give back the text. */
  lemma {:induction false} SplitAtRoundTrip(s: string, lens: seq<nat>, start: nat, i: nat)
    requires Fits(lens, |s|) && start <= i <= |s|
    ensures Interleave(SplitAt(s, lens, start, i).0, SplitAt(s, lens, start, i).1) == s[start..]
    decreases |s| - i
  {
    if i < |s| {
      if lens[i] > 0 {
        var m := i + lens[i];
        var rest := SplitAt(s, lens, m, m);
        SplitAtRoundTrip(s, lens, m, m);
        InterleaveStep(s, start, i, m, rest.0, rest.1);
      } else {
        SplitAtRoundTrip(s, lens, start, i + 1);
      }
    }
  }

  /** A piece and a separator in front of a round trip of the rest give a round trip from the piece's start. */
  lemma InterleaveStep(s: string, a: nat, b: nat, c: nat, parts: seq<string>, seps: seq<string>)
    requires a <= b <= c <= |s| && |parts| == |seps| + 1 && Interleave(parts, seps) == s[c..]
    ensures |[s[a..b]] + parts| == |[s[b..c]] + seps| + 1
    ensures Interleave([s[a..b]] + parts, [s[b..c]] + seps) == s[a..]
  {
    InterleaveCons(s[a..b], s[b..c], parts, seps);
    ThreeSlices(s, a, b, c);
  }

  lemma InterleaveCons(piece: string, sep: string, parts: seq<string>, seps: seq<string>)
    requires |parts| == |seps| + 1
    ensures Interleave([piece] + parts, [sep] + seps) == piece + sep + Interleave(parts, seps)
  {
    assert ([piece] + parts)[1..] == parts;
    assert ([sep] + seps)[1..] == seps;
  }

  lemma ThreeSlices<T>(s: seq<T>, a: nat, b: nat, c: nat)
    requires a <= b <= c <= |s|
    ensures s[a..] == s[a..b] + s[b..c] + s[c..]
  {
  }

  /** The pieces `re.split` returns for the sentence pattern. */
  function SplitSentences(text: string): (parts: seq<string>)
    ensures |parts| >= 1
    ensures forall k, j :: 0 <= k < |parts| && 0 <= j < |parts[k]| ==> !IsTerminal(parts[k][j])
  {
    var parts := SplitAt(text, SeparatorLengths(text), 0, 0).0;
    UnmarkedHoldsNoSeparator(text);
    PiecesHave(text, SeparatorLengths(text), 0, 0, NoSeparatorIn);
    forall k | 0 <= k < |parts| ensures forall j :: 0 <= j < |parts[k]| ==> !IsTerminal(parts[k][j]) {
      NoSeparatorNoTerminal(parts[k]);
    }
    parts
  }

  /** The separators the sentence split drops. */
  function Separators(text: string): seq<string> {
    SplitAt(text, SeparatorLengths(text), 0, 0).1
  }

  /** The split takes the text apart exactly: the pieces, with the separators between them, give back the text. */
  lemma SplitSentencesRoundTrip(text: string)
    ensures |SplitSentences(text)| == |Separators(text)| + 1
    ensures Interleave(SplitSentences(text), Separators(text)) == text
  {
    SplitAtRoundTrip(text, SeparatorLengths(text), 0, 0);
    assert text[0..] == text;
  }

  /** Every separator the split drops is a match of the sentence pattern. */
  lemma SeparatorsMatch(text: string)
    ensures forall k :: 0 <= k < |Separators(text)| ==> IsSeparator(Separators(text)[k])
  {
    MarkedIsSeparator(text);
    CutsHave(text, SeparatorLengths(text), 0, 0, IsSeparator);
  }

  /** No piece of the split holds a match of the sentence pattern. */
  lemma PiecesHoldNoSeparator(text: string)
    ensures forall k :: 0 <= k < |SplitSentences(text)| ==> NoSeparatorIn(SplitSentences(text)[k])
  {
    UnmarkedHoldsNoSeparator(text);
    PiecesHave(text, SeparatorLengths(text), 0, 0, NoSeparatorIn);
  }

  /** Text in which no separator starts is one piece, the text itself. */
  lemma SplitWithoutSeparator(text: string)
    requires forall j :: 0 <= j < |text| ==> SeparatorAt(text, j) == 0
    ensures SplitSentences(text) == [text]
  {
    SplitAtNoCut(text, SeparatorLengths(text), 0, 0);
    assert text[0..] == text;
  }

  lemma {:induction false} SplitAtNoCut(s: string, lens: seq<nat>, start: nat, i: nat)
    requires Fits(lens, |s|) && start <= i <= |s|
    requires forall j :: i <= j < |s| ==> lens[j] == 0
    ensures SplitAt(s, lens, start, i).0 == [s[start..]]
    decreases |s| - i
  {
    if i < |s| {
      SplitAtNoCut(s, lens, start, i + 1);
    }
  }

  // ---------------------------------------------------------------------------
  // Boilerplate filter (app.py:376-402)

  /** Substrings that disqualify a candidate sentence. */
  const Markers: seq<string> := [
    "사진=", "출처:", "제공=", "이미지=", "자료사진", "게티이미지", "AFP", "로이터",
    "닫기", "제보는", "카카오톡", "뉴스제보", "독자제보", "시청자제보", "취재요청",
    "홈페이지", "바로가기", "로그인", "회원가입", ".kr", ".com"]

  /** The test a stripped piece must pass to become a sentence. */
  predicate IsKept(s: string) {
    |s| > 15 && !Contains(s[..10], "기자") && forall m :: m in Markers ==> !Contains(s, m)
  }

  /** The stripped pieces that pass the filter, in order. */
  function KeptSentences(pieces: seq<string>): seq<string> {
    if pieces == [] then []
    else
      var s := Strip(pieces[|pieces| - 1]);
      KeptSentences(pieces[..|pieces| - 1]) + (if IsKept(s) then [s] else [])
  }

  lemma KeptSentencesStep(pieces: seq<string>, i: nat)
    requires i < |pieces|
    ensures var s := Strip(pieces[i]);
      KeptSentences(pieces[..i + 1]) == KeptSentences(pieces[..i]) + (if IsKept(s) then [s] else [])
  {
    assert pieces[..i + 1][..i] == pieces[..i];
  }

  /** The loop at app.py:376-402. */
  method CollectSentences(pieces: seq<string>) returns (sentences: seq<string>)
    ensures sentences == KeptSentences(pieces)
  {
    sentences := [];
    var i := 0;
    while i < |pieces|
      invariant 0 <= i <= |pieces|
      invariant sentences == KeptSentences(pieces[..i])
    {
      var s := Strip(pieces[i]);
      KeptSentencesStep(pieces, i);
      if IsKept(s) {
        sentences := sentences + [s];
      }
      i := i + 1;
    }
    assert pieces[..|pieces|] == pieces;
  }

  /** The sentences of the primary pass. */
  function PrimarySentences(text: string): seq<string> {
    KeptSentences(SplitSentences(text))
  }

  /** The length test of the fallback pass. */
  predicate IsLong(s: string) {
    |s| > 15
  }

  /** The stripped pieces longer than 15 characters: the comprehension at app.py:406. */
  function LongPieces(pieces: seq<string>): seq<string> {
    if pieces == [] then []
    else
      var s := Strip(pieces[|pieces| - 1]);
      LongPieces(pieces[..|pieces| - 1]) + (if |s| > 15 then [s] else [])
  }

  /** The fallback: the original text split at periods only, without the boilerplate filter. */
  function FallbackSentences(text: string): seq<string> {
    LongPieces(Split(text, '.'))
  }

  /** The sentence list the scorer works on. */
  function Sentences(text: string): seq<string> {
    var primary := PrimarySentences(text);
    if primary != [] then primary else FallbackSentences(text)
  }

  lemma NoTerminalInStrip(s: string)
    requires forall j :: 0 <= j < |s| ==> !IsTerminal(s[j])
    ensures forall j :: 0 <= j < |Strip(s)| ==> !IsTerminal(Strip(s)[j])
  {
    var a := |s| - |StripLeft(s)|;
    StripIsSlice(s);
    forall j | 0 <= j < |Strip(s)| ensures !IsTerminal(Strip(s)[j]) {
      assert Strip(s)[j] == s[a + j];
    }
  }

  /** A well-formed sentence: stripped, longer than 15 characters, no terminal punctuation. */
  predicate IsSentence(s: string) {
    |s| > 15 && Trimmed(s) && forall j :: 0 <= j < |s| ==> !IsTerminal(s[j])
  }

  /** Every sentence of the primary pass is a stripped piece that passed the filter. */
  lemma {:induction false} KeptSentencesShape(pieces: seq<string>)
    requires forall k, j :: 0 <= k < |pieces| && 0 <= j < |pieces[k]| ==> !IsTerminal(pieces[k][j])
    ensures forall k :: 0 <= k < |KeptSentences(pieces)| ==> IsKeptSentence(KeptSentences(pieces)[k])
  {
    if pieces != [] {
      var init := pieces[..|pieces| - 1];
      var s := Strip(pieces[|pieces| - 1]);
      var kept := KeptSentences(init);
      assert forall k :: 0 <= k < |kept| ==> IsKeptSentence(kept[k]) by {
        KeptSentencesShape(init);
      }
      assert IsKept(s) ==> IsKeptSentence(s) by {
        NoTerminalInStrip(pieces[|pieces| - 1]);
      }
      assert KeptSentences(pieces) == kept + (if IsKept(s) then [s] else []);
      AllSnoc(kept, s, IsKept(s), IsKeptSentence);
    }
  }

  /** A piece that passes the filter and is a well-formed sentence. */
  predicate IsKeptSentence(s: string) {
    IsKept(s) && IsSentence(s)
  }

  /** Every fallback sentence is a stripped period-free piece longer than 15 characters. */
  lemma {:induction false} LongPiecesShape(pieces: seq<string>)
    requires forall k :: 0 <= k < |pieces| ==> '.' !in pieces[k]
    ensures forall k :: 0 <= k < |LongPieces(pieces)| ==>
      |LongPieces(pieces)[k]| > 15 && Trimmed(LongPieces(pieces)[k]) && '.' !in LongPieces(pieces)[k]
  {
    if pieces != [] {
      var init := pieces[..|pieces| - 1];
      LongPiecesShape(init);
      var p := pieces[|pieces| - 1];
      var s := Strip(p);
      var l := LongPieces(init);
      assert p in pieces;
      NotInStrip(p, '.');
      assert LongPieces(pieces) == l + (if |s| > 15 then [s] else []);
      forall k | 0 <= k < |LongPieces(pieces)|
        ensures |LongPieces(pieces)[k]| > 15 && Trimmed(LongPieces(pieces)[k]) && '.' !in LongPieces(pieces)[k]
      {
        if k < |l| {
          assert LongPieces(pieces)[k] == l[k];
        } else {
          assert LongPieces(pieces)[k] == s;
        }
      }
    }
  }

  /** The primary pass keeps, in order, exactly the stripped pieces that pass the filter. */
  lemma {:induction false} KeptSentencesSelect(pieces: seq<string>)
    ensures IsSubseq(KeptSentences(pieces), StripEach(pieces))
    ensures forall s :: s in KeptSentences(pieces) <==> s in StripEach(pieces) && IsKept(s)
    ensures forall s :: multiset(KeptSentences(pieces))[s] == if IsKept(s) then multiset(StripEach(pieces))[s] else 0
  {
    if pieces != [] {
      var init := pieces[..|pieces| - 1];
      var x := Strip(pieces[|pieces| - 1]);
      KeptSentencesSelect(init);
      FilterSnoc(KeptSentences(init), StripEach(init), x, IsKept);
      CountSnoc(KeptSentences(init), StripEach(init), x, IsKept);
    }
  }

  /** The fallback keeps, in order, exactly the stripped pieces longer than 15 characters. */
  lemma {:induction false} LongPiecesSelect(pieces: seq<string>)
    ensures IsSubseq(LongPieces(pieces), StripEach(pieces))
    ensures forall s :: s in LongPieces(pieces) <==> s in StripEach(pieces) && |s| > 15
    ensures forall s :: multiset(LongPieces(pieces))[s] == if |s| > 15 then multiset(StripEach(pieces))[s] else 0
  {
    if pieces != [] {
      var init := pieces[..|pieces| - 1];
      var x := Strip(pieces[|pieces| - 1]);
      LongPiecesSelect(init);
      assert LongPieces(pieces) == LongPieces(init) + (if IsLong(x) then [x] else []);
      assert StripEach(pieces) == StripEach(init) + [x];
      FilterSnoc(LongPieces(init), StripEach(init), x, IsLong);
      CountSnoc(LongPieces(init), StripEach(init), x, IsLong);
    }
  }

  /** Stripping adds no character. */
  lemma NotInStrip(s: string, c: char)
    requires c !in s
    ensures c !in Strip(s)
  {
    var a := |s| - |StripLeft(s)|;
    StripIsSlice(s);
    forall j | 0 <= j < |Strip(s)| ensures Strip(s)[j] != c {
      assert Strip(s)[j] == s[a + j];
    }
  }

  /** The sentence list: the filtered primary pass, or else the fallback split (app.py:404-409). */
  lemma SentencesShape(text: string)
    ensures PrimarySentences(text) != [] ==> Sentences(text) == PrimarySentences(text)
    ensures PrimarySentences(text) != [] ==>
      forall k :: 0 <= k < |Sentences(text)| ==> IsKept(Sentences(text)[k]) && IsSentence(Sentences(text)[k])
    ensures PrimarySentences(text) == [] ==> Sentences(text) == FallbackSentences(text)
    ensures forall k :: 0 <= k < |Sentences(text)| ==>
      |Sentences(text)[k]| > 15 && Trimmed(Sentences(text)[k]) && '.' !in Sentences(text)[k]
  {
    KeptSentencesShape(SplitSentences(text));
    LongPiecesShape(Split(text, '.'));
    var ss := Sentences(text);
    if PrimarySentences(text) != [] {
      forall k | 0 <= k < |ss| ensures '.' !in ss[k] {
        assert forall j :: 0 <= j < |ss[k]| ==> !IsTerminal(ss[k][j]);
      }
    }
  }

  // ---------------------------------------------------------------------------
  // Term frequencies (app.py:411-439)

  /** Hangul runs of 2 or more, Latin runs of 3 or more, digit runs: the three `re.findall` scans. */
  function Terms(s: string): seq<string> {
    Runs(s, IsHangul, 2) + Runs(s, IsAsciiLetter, 3) + Runs(s, IsDigit, 1)
  }

  /** The stop words of the summariser (app.py:423-435). */
  const StopWords: set<string> := {
    "이것", "그것", "저것", "이런", "그런", "저런", "이렇게", "그렇게", "저렇게",
    "때문", "경우", "때문에", "하지만", "그러나", "그런데", "또한", "그리고",
    "이다", "있다", "없다", "한다", "된다", "이며", "이고", "에서", "에게",
    "기자", "뉴스", "기사", "보도", "발표", "관련", "대해", "한국", "우리나라",
    "오늘", "어제", "내일", "올해", "지난해", "내년", "지난", "다음",
    "현재", "최근", "앞으로", "향후", "이후", "이전", "당시", "지금",
    "jebo23", "라인", "앱에서", "친구", "추가", "좋아요", "응원해요", "후속", "원해요",
    "ADVERTISEMENT", "광고", "AD", "공유", "공유하기", "구독", "알림", "팔로우",
    "다운로드", "모바일", "페이스북", "트위터", "카카오톡", "네이버", "더보기",
    "yna", "krc", "co", "kr"}

  /** A term that is counted. */
  predicate Counted(w: string, stops: set<string>) {
    |w| >= 2 && w !in stops
  }

  /** Python's `d.get(w, 0)`. */
  function Get(m: map<string, nat>, w: string): nat {
    if w in m then m[w] else 0
  }

  /** The frequency table: each counted term with its number of occurrences. */
  function WordFreq(words: seq<string>, stops: set<string>): map<string, nat> {
    map w | w in words && Counted(w, stops) :: multiset(words)[w]
  }

  lemma WordFreqAppend(words: seq<string>, w: string, stops: set<string>)
    ensures WordFreq(words + [w], stops) ==
      if Counted(w, stops) then WordFreq(words, stops)[w := Get(WordFreq(words, stops), w) + 1] else WordFreq(words, stops)
  {
    var f, g := WordFreq(words, stops), WordFreq(words + [w], stops);
    assert multiset(words + [w]) == multiset(words) + multiset{w};
    assert forall v :: v in words + [w] <==> v in words || v == w;
    if Counted(w, stops) {
      assert w !in words ==> multiset(words)[w] == 0;
      var h := f[w := Get(f, w) + 1];
      assert g.Keys == h.Keys;
      forall v | v in g ensures g[v] == h[v] {
        if v != w { assert multiset(words + [w])[v] == multiset(words)[v]; }
      }
    } else {
      assert g.Keys == f.Keys;
      forall v | v in g ensures g[v] == f[v] {
        assert multiset(words + [w])[v] == multiset(words)[v];
      }
    }
  }

  /** The counting loop at app.py:437-439. */
  method CountWords(words: seq<string>, stops: set<string>) returns (freq: map<string, nat>)
    ensures freq == WordFreq(words, stops)
  {
    freq := map[];
    var i := 0;
    while i < |words|
      invariant 0 <= i <= |words|
      invariant freq == WordFreq(words[..i], stops)
    {
      var w := words[i];
      WordFreqAppend(words[..i], w, stops);
      assert words[..i + 1] == words[..i] + [w];
      if |w| >= 2 && w !in stops {
        freq := freq[w := Get(freq, w) + 1];
      }
      i := i + 1;
    }
    assert words[..|words|] == words;
  }

  /** Frequency lookups: a counted term's number of occurrences, 0 for anything else. */
  lemma WordFreqMeaning(words: seq<string>, w: string, stops: set<string>)
    ensures Get(WordFreq(words, stops), w) == if Counted(w, stops) then multiset(words)[w] else 0
  {
    if w !in words { assert multiset(words)[w] == 0; }
  }

  // ---------------------------------------------------------------------------
  // Sentence scores (app.py:442-468), one hundred times the source's value

  /** `sum(word_freq.get(word, 0) for word in words)`. */
  function TermSum(words: seq<string>, freq: map<string, nat>): nat {
    if words == [] then 0 else TermSum(words[..|words| - 1], freq) + Get(freq, words[|words| - 1])
  }

  /** Position weight times ten: 1.3 in the first 30 %, 0.8 in the last 30 %, else 1.0. */
  function PositionWeight(i: nat, n: nat): (w: nat)
    ensures 8 <= w <= 13
  {
    if 10 * i < 3 * n then 13 else if 10 * i > 7 * n then 8 else 10
  }

  /** Length weight times ten: 1.2 for 30 to 150 characters, 0.7 below 20 or above 200, else 1.0. */
  function LengthWeight(len: nat): (w: nat)
    ensures 7 <= w <= 12
  {
    if 30 <= len <= 150 then 12 else if len < 20 || len > 200 then 7 else 10
  }

  /** Earlier sentences never weigh less than later ones. */
  lemma PositionWeightMonotone(i: nat, j: nat, n: nat)
    requires i <= j
    ensures PositionWeight(i, n) >= PositionWeight(j, n)
  {
  }

  /**
   * The weight depends on the relative position only: scaling the index and
   * the number of sentences alike leaves it unchanged.
   */
  lemma PositionWeightScaleInvariant(i: nat, n: nat, k: nat)
    requires k >= 1
    ensures PositionWeight(k * i, k * n) == PositionWeight(i, n)
  {
    SignScaled(10 * i - 3 * n, k);
    SignScaled(10 * i - 7 * n, k);
    assert 10 * (k * i) - 3 * (k * n) == k * (10 * i - 3 * n);
    assert 10 * (k * i) - 7 * (k * n) == k * (10 * i - 7 * n);
  }

  /** A positive factor keeps the sign. */
  lemma SignScaled(x: int, k: int)
    requires k >= 1
    ensures (k * x < 0 <==> x < 0) && (k * x > 0 <==> x > 0)
  {
    assert k * x == (k - 1) * x + x;
    if x < 0 {
      assert (k - 1) * x <= 0;
    } else {
      assert (k - 1) * x >= 0;
    }
  }

  /** Python's `0.3` is `Point3 / 2^54` and `0.7` is `Point7 / 2^52`, as doubles. */
  const Point3 := 5404319552844595
  const Point7 := 3152519739159347

  /**
   * The position weight as the source computes it: `len(sentences) * 0.3`
   * and `len(sentences) * 0.7` are double products, each rounded.
   */
  function PositionWeightAsWritten(i: nat, n: nat): (w: nat)
    ensures w == 13 || w == 10 || w == 8
  {
    Doubles.Pow2Values();
    if i * Doubles.Pow2(54) < Doubles.TimesDouble(n, Point3) then 13
    else if i * Doubles.Pow2(52) > Doubles.TimesDouble(n, Point7) then 8
    else 10
  }

  /**
   * With 90 sentences, `90 * 0.7` rounds to 62.99999999999999, so the 64th
   * sentence (index 63, exactly at the 70 % mark) is weighted 0.8, while at
   * the same relative place among 10 sentences (index 7, where `10 * 0.7`
   * is exactly 7.0) it is weighted 1.0. The exact weight gives 1.0 in both.
   */
  lemma PositionWeightAsWrittenNotScaleInvariant()
    ensures PositionWeightAsWritten(7, 10) == 10
    ensures PositionWeightAsWritten(63, 90) == 8
    ensures PositionWeight(7, 10) == 10 && PositionWeight(63, 90) == 10
  {
    TenTimesPoint7();
    NinetyTimesPoint7();
    SmallTimesPoint3(10, 7);
    SmallTimesPoint3(90, 63);
    AsWrittenMiddle(7, 10);
    AsWrittenTail(63, 90);
  }

  lemma AsWrittenMiddle(i: nat, n: nat)
    requires Doubles.TimesDouble(n, Point3) <= i * Doubles.Pow2(54)
    requires i * Doubles.Pow2(52) <= Doubles.TimesDouble(n, Point7)
    ensures PositionWeightAsWritten(i, n) == 10
  {
  }

  lemma AsWrittenTail(i: nat, n: nat)
    requires Doubles.TimesDouble(n, Point3) <= i * Doubles.Pow2(54)
    requires i * Doubles.Pow2(52) > Doubles.TimesDouble(n, Point7)
    ensures PositionWeightAsWritten(i, n) == 8
  {
  }

  /** `10 * 0.7` is an exact tie between two doubles and rounds up to 7.0. */
  lemma TenTimesPoint7()
    ensures 7 * Doubles.Pow2(52) <= Doubles.TimesDouble(10, Point7)
  {
    Doubles.Pow2Values();
    var p := 10 * Point7;
    Doubles.UlpOfBinade(p, 54);
    assert Doubles.Ulp(p) == 4;
    assert Doubles.RoundDiv(p, 4) == 7881299347898368;
  }

  /** `90 * 0.7` rounds to a double below 63. */
  lemma NinetyTimesPoint7()
    ensures 63 * Doubles.Pow2(52) > Doubles.TimesDouble(90, Point7)
  {
    Doubles.Pow2Values();
    Doubles.RoundedWithin(90 * Point7, 57);
  }

  /** `n * 0.3` stays below `i` for the indices compared with it above. */
  lemma SmallTimesPoint3(n: nat, i: nat)
    requires 2 * n <= 5 * i && i <= 100
    ensures Doubles.TimesDouble(n, Point3) <= i * Doubles.Pow2(54)
  {
    Doubles.Pow2Values();
    var p := n * Point3;
    if p >= Doubles.Pow2(53) {
      Doubles.UlpBounds(p);
    }
  }

  /** The score of sentence `s`, placed by its first occurrence in `sentences`. */
  function SentenceScore(sentences: seq<string>, s: string, freq: map<string, nat>): nat
    requires s in sentences
  {
    TermSum(Terms(s), freq) * PositionWeight(IndexOf(sentences, s), |sentences|) * LengthWeight(|s|)
  }

  /** The scores of the sentences in `seen`, each placed within all of `sentences`. */
  function ScoreMap(seen: seq<string>, sentences: seq<string>, freq: map<string, nat>): map<string, nat>
    requires forall s :: s in seen ==> s in sentences
  {
    map s | s in seen :: SentenceScore(sentences, s, freq)
  }

  lemma ScoreMapSnoc(seen: seq<string>, x: string, sentences: seq<string>, freq: map<string, nat>)
    requires forall s :: s in seen + [x] ==> s in sentences
    ensures ScoreMap(seen + [x], sentences, freq) == ScoreMap(seen, sentences, freq)[x := SentenceScore(sentences, x, freq)]
  {
    assert forall t :: t in seen + [x] <==> t in seen || t == x;
  }

  /** The scoring loop (app.py:442-468): the dict keys in insertion order and their scores. */
  method ScoreSentences(sentences: seq<string>, freq: map<string, nat>)
    returns (keys: seq<string>, scores: map<string, nat>)
    ensures keys == Distinct(sentences)
    ensures forall s :: s in scores <==> s in sentences
    ensures forall s :: s in scores ==> scores[s] == SentenceScore(sentences, s, freq)
  {
    keys, scores := [], map[];
    var i := 0;
    while i < |sentences|
      invariant 0 <= i <= |sentences|
      invariant keys == Distinct(sentences[..i])
      invariant scores == ScoreMap(sentences[..i], sentences, freq)
    {
      var sentence := sentences[i];
      var score := SentenceScore(sentences, sentence, freq);
      ghost var seen := sentences[..i];
      assert sentences[..i + 1] == seen + [sentence];
      DistinctSnoc(seen, sentence);
      ScoreMapSnoc(seen, sentence, sentences, freq);
      if sentence !in scores {
        keys := keys + [sentence];
      }
      scores := scores[sentence := score];
      i := i + 1;
    }
    assert sentences[..|sentences|] == sentences;
  }

  // ---------------------------------------------------------------------------
  // Selection and assembly (app.py:474-489)

  /** The scores of the dict keys, in insertion order. */
  function KeyScores(sentences: seq<string>, keys: seq<string>, freq: map<string, nat>): (r: seq<int>)
    requires forall k :: 0 <= k < |keys| ==> keys[k] in sentences
    ensures |r| == |keys|
  {
    seq(|keys|, a requires 0 <= a < |keys| => SentenceScore(sentences, keys[a], freq) as int)
  }

  /** The sentences of `top_sentences[:max_sentences]`. */
  function Chosen(keys: seq<string>, scores: seq<int>, max: nat): (chosen: set<string>)
    requires |scores| == |keys|
    ensures forall c :: c in chosen ==> c in keys
  {
    var r := Ranked(scores);
    set a | 0 <= a < Min(max, |keys|) :: keys[r[a]]
  }

  /** A chosen sentence outranks every sentence left out: higher score, or equal score and earlier. */
  lemma ChosenOutrank(keys: seq<string>, scores: seq<int>, max: nat, c: nat, u: nat)
    requires |scores| == |keys|
    requires forall i, j :: 0 <= i < j < |keys| ==> keys[i] != keys[j]
    requires c < |keys| && u < |keys|
    requires keys[c] in Chosen(keys, scores, max) && keys[u] !in Chosen(keys, scores, max)
    ensures scores[c] > scores[u] || (scores[c] == scores[u] && c < u)
  {
    var r := Ranked(scores);
    var m := Min(max, |keys|);
    var a :| 0 <= a < m && keys[r[a]] == keys[c];
    assert r[a] == c;
    assert u in r;
    var b :| 0 <= b < |r| && r[b] == u;
    assert forall x :: 0 <= x < m ==> keys[r[x]] in Chosen(keys, scores, max);
    assert b >= m;
    assert Before(scores, r[a], r[b]);
  }

  /**
   * In terms of the text: a chosen sentence scores higher than every sentence
   * left out, or scores the same and first occurs earlier.
   */
  lemma ChosenOutrankInText(ss: seq<string>, freq: map<string, nat>, max: nat, x: string, y: string)
    requires x in ss && y in ss
    requires x in Picked(ss, freq, max) && y !in Picked(ss, freq, max)
    ensures SentenceScore(ss, x, freq) > SentenceScore(ss, y, freq)
      || (SentenceScore(ss, x, freq) == SentenceScore(ss, y, freq) && IndexOf(ss, x) < IndexOf(ss, y))
  {
    var keys := Distinct(ss);
    var scores := KeyScores(ss, keys, freq);
    var c := IndexOf(keys, x);
    var u := IndexOf(keys, y);
    assert scores[c] > scores[u] || (scores[c] == scores[u] && c < u) by {
      ChosenOutrank(keys, scores, max, c, u);
    }
    assert c < u ==> IndexOf(ss, x) < IndexOf(ss, y);
    KeyScoresAt(ss, keys, freq, c);
    KeyScoresAt(ss, keys, freq, u);
  }

  lemma KeyScoresAt(ss: seq<string>, keys: seq<string>, freq: map<string, nat>, a: nat)
    requires forall k :: 0 <= k < |keys| ==> keys[k] in ss
    requires a < |keys|
    ensures KeyScores(ss, keys, freq)[a] == SentenceScore(ss, keys[a], freq) as int
  {
  }

  /** `Min(max, n)` distinct sentences are chosen. */
  lemma ChosenSize(keys: seq<string>, scores: seq<int>, max: nat)
    requires |scores| == |keys|
    requires forall i, j :: 0 <= i < j < |keys| ==> keys[i] != keys[j]
    ensures |Chosen(keys, scores, max)| == Min(max, |keys|)
  {
    var r := Ranked(scores);
    RankedDistinct(scores);
    ChosenCount(keys, r, Min(max, |keys|));
  }

  /** Keys at `m` distinct ranked positions are `m` distinct sentences. */
  lemma {:induction false} ChosenCount(keys: seq<string>, r: seq<nat>, m: nat)
    requires m <= |r|
    requires forall a :: 0 <= a < |r| ==> r[a] < |keys|
    requires forall a, b :: 0 <= a < b < |r| ==> r[a] != r[b]
    requires forall i, j :: 0 <= i < j < |keys| ==> keys[i] != keys[j]
    ensures |set a | 0 <= a < m :: keys[r[a]]| == m
  {
    if m > 0 {
      ChosenCount(keys, r, m - 1);
      var prev := set a | 0 <= a < m - 1 :: keys[r[a]];
      var now := set a | 0 <= a < m :: keys[r[a]];
      assert now == prev + {keys[r[m - 1]]};
      assert keys[r[m - 1]] !in prev;
    }
  }

  /** The restore-order loop (app.py:478-483): chosen sentences in text order, stopping at `max`. */
  function KeepChosen(sentences: seq<string>, chosen: set<string>, max: nat): seq<string> {
    if sentences == [] then []
    else if sentences[0] in chosen then
      if max <= 1 then [sentences[0]] else [sentences[0]] + KeepChosen(sentences[1..], chosen, max - 1)
    else KeepChosen(sentences[1..], chosen, max)
  }

  method RestoreOrder(sentences: seq<string>, chosen: set<string>, max: nat) returns (final: seq<string>)
    ensures final == KeepChosen(sentences, chosen, max)
  {
    final := [];
    var i := 0;
    while i < |sentences|
      invariant 0 <= i <= |sentences|
      invariant final == [] || |final| < max
      invariant final + KeepChosen(sentences[i..], chosen, max - |final|) == KeepChosen(sentences, chosen, max)
    {
      assert sentences[i..] == [sentences[i]] + sentences[i + 1..];
      if sentences[i] in chosen {
        final := final + [sentences[i]];
        if |final| >= max {
          break;
        }
      }
      i := i + 1;
    }
  }

  /** The kept sentences are chosen ones, in text order, at most `max` of them (none when `max` is 0). */
  lemma {:induction false} KeepChosenShape(sentences: seq<string>, chosen: set<string>, max: nat)
    ensures IsSubseq(KeepChosen(sentences, chosen, max), sentences)
    ensures forall s :: s in KeepChosen(sentences, chosen, max) ==> s in chosen
    ensures max >= 1 ==> |KeepChosen(sentences, chosen, max)| <= max
    ensures chosen == {} ==> KeepChosen(sentences, chosen, max) == []
    decreases |sentences|
  {
    if sentences != [] {
      var rest := sentences[1..];
      KeepChosenShape(rest, chosen, max);
      assert sentences == [sentences[0]] + rest;
      if sentences[0] in chosen {
        if max <= 1 {
          assert IsSubseq([] , rest);
          SubseqPrepend([], rest, sentences[0]);
        } else {
          KeepChosenShape(rest, chosen, max - 1);
          SubseqPrepend(KeepChosen(rest, chosen, max - 1), rest, sentences[0]);
        }
      } else {
        SubseqCons(KeepChosen(rest, chosen, max), rest, sentences[0]);
      }
    }
  }

  /** `'. '.join(final)`, completed with a period; the empty join becomes the no-summary sentinel. */
  function Assemble(final: seq<string>): string {
    var joined := Join(final, ". ");
    var result := if EndsWith(joined, '.') then joined else joined + ".";
    if result != "." then result else NoSummary
  }

  /** The summary of sentences that are not empty and carry no period: their join plus one period. */
  lemma AssembleShape(final: seq<string>)
    requires forall k :: 0 <= k < |final| ==> |final[k]| > 15 && '.' !in final[k]
    ensures final == [] ==> Assemble(final) == NoSummary
    ensures final != [] ==> Assemble(final) == Join(final, ". ") + "."
  {
    if final != [] {
      var last := final[|final| - 1];
      JoinLast(final, ". ");
      JoinLength(final, ". ");
      assert last[|last| - 1] in last;
    }
  }

  // ---------------------------------------------------------------------------
  // The whole summariser

  /** The sentences the summary is made of. */
  function SummarySentences(text: string, max: nat): seq<string>
    requires !TooShort(text) && Sentences(text) != []
  {
    Selected(Sentences(text), max)
  }

  /** The word frequencies of the sentences joined by spaces (app.py:434-440). */
  function TextFreq(ss: seq<string>): map<string, nat> {
    WordFreq(Terms(Join(ss, " ")), StopWords)
  }

  /** The best `max` sentences by score, in text order. */
  function Selected(ss: seq<string>, max: nat): seq<string> {
    SelectedBy(ss, TextFreq(ss), max)
  }

  /** The distinct sentences that rank among the best `max` under `freq`. */
  function Picked(ss: seq<string>, freq: map<string, nat>, max: nat): set<string> {
    Chosen(Distinct(ss), KeyScores(ss, Distinct(ss), freq), max)
  }

  /** The best `max` sentences by score under the frequency table `freq`, in text order. */
  function SelectedBy(ss: seq<string>, freq: map<string, nat>, max: nat): seq<string> {
    KeepChosen(ss, Picked(ss, freq, max), max)
  }

  /** `simple_summarize(text, max_sentences)`. */
  function Summary(text: string, max: nat): string {
    if TooShort(text) then InsufficientText
    else if Sentences(text) == [] then Unsplittable
    else Assemble(SummarySentences(text, max))
  }

  /** app.py:366-489, with each loop a method of its own. */
  method SimpleSummarize(text: string, max: nat) returns (result: string)
    ensures result == Summary(text, max)
  {
    if text == [] || |Strip(text)| < 50 {
      return InsufficientText;
    }
    var pieces := SplitSentences(text);
    var sentences := CollectSentences(pieces);
    if |sentences| == 0 {
      sentences := FallbackSentences(text);
    }
    assert sentences == Sentences(text);
    if |sentences| == 0 {
      return Unsplittable;
    }
    var final := SelectSentences(sentences, max);
    result := Assemble(final);
  }

  /** Scoring, ranking and order restoring (app.py:434-486). */
  method SelectSentences(sentences: seq<string>, max: nat) returns (final: seq<string>)
    ensures final == Selected(sentences, max)
  {
    var freq := CountWords(Terms(Join(sentences, " ")), StopWords);
    final := SelectBy(sentences, freq, max);
  }

  /** Scoring under a given frequency table, ranking and order restoring. */
  method SelectBy(sentences: seq<string>, freq: map<string, nat>, max: nat) returns (final: seq<string>)
    ensures final == SelectedBy(sentences, freq, max)
  {
    var keys, scores := ScoreSentences(sentences, freq);
    var scoreList := seq(|keys|, a requires 0 <= a < |keys| => scores[keys[a]] as int);
    assert scoreList == KeyScores(sentences, keys, freq);
    var chosen := Chosen(keys, scoreList, max);
    final := RestoreOrder(sentences, chosen, max);
  }

  /** Short input gets the insufficient-content sentinel (app.py:368-369). */
  lemma SummaryOfShortText(text: string, max: nat)
    requires TooShort(text)
    ensures Summary(text, max) == InsufficientText
  {
  }

  /**
   * A summary is the insufficient-content sentinel, the cannot-split sentinel,
   * the no-summary sentinel (exactly when `max` is 0), or the join of at most
   * `max` sentences taken in text order, followed by a period. The
   * sentences are the first `max` occurrences of sentences that rank among
   * the best `max`, so such a sentence is missing only when `max` sentences
   * fill the summary.
   */
  lemma SummaryShape(text: string, max: nat)
    requires !TooShort(text)
    ensures Sentences(text) == [] ==> Summary(text, max) == Unsplittable
    ensures Sentences(text) != [] ==>
      var final := SummarySentences(text, max);
      && IsSubseq(final, Sentences(text))
      && |final| <= max
      && (final == [] <==> max == 0)
      && (max == 0 ==> Summary(text, max) == NoSummary)
      && (max > 0 ==> Summary(text, max) == Join(final, ". ") + ".")
    ensures var ss := Sentences(text);
      ss != [] ==>
      var final := SummarySentences(text, max);
      var picked := Picked(ss, TextFreq(ss), max);
      && (forall x :: x in picked && x !in final ==> |final| == max)
      && (forall x :: x in final ==> x in picked)
      && final == FirstChosen(ss, picked, max)
  {
    var ss := Sentences(text);
    if ss != [] {
      SentencesShape(text);
      var freq := TextFreq(ss);
      var final := SummarySentences(text, max);
      assert final == SelectedBy(ss, freq, max);
      SelectedByShape(ss, freq, max);
      forall k | 0 <= k < |final| ensures |final[k]| > 15 && '.' !in final[k] {
        SubseqMembers(final, ss);
        assert final[k] in ss;
      }
      AssembleShape(final);
    }
  }

  /**
   * Under any frequency table, at most `max` sentences are kept, in text order,
   * and none only when `max` is 0; a picked sentence is left out only when
   * `max` sentences are kept.
   */
  lemma SelectedByShape(ss: seq<string>, freq: map<string, nat>, max: nat)
    requires ss != []
    ensures IsSubseq(SelectedBy(ss, freq, max), ss)
    ensures |SelectedBy(ss, freq, max)| <= max
    ensures SelectedBy(ss, freq, max) == [] <==> max == 0
    ensures forall x :: x in Picked(ss, freq, max) && x !in SelectedBy(ss, freq, max) ==> |SelectedBy(ss, freq, max)| == max
    ensures forall x :: x in SelectedBy(ss, freq, max) ==> x in Picked(ss, freq, max)
    ensures SelectedBy(ss, freq, max) == FirstChosen(ss, Picked(ss, freq, max), max)
  {
    var keys := Distinct(ss);
    var chosen := Picked(ss, freq, max);
    KeepChosenShape(ss, chosen, max);
    ChosenSize(keys, KeyScores(ss, keys, freq), max);
    forall x | x in chosen && x !in SelectedBy(ss, freq, max) ensures |SelectedBy(ss, freq, max)| == max {
      assert x in keys;
      assert |chosen| > 0;
      KeepChosenComplete(ss, chosen, max, x);
    }
    if max == 0 {
      assert chosen == {};
    } else {
      assert ss[0] in keys;
      assert |chosen| > 0;
      var c :| c in chosen;
      KeepChosenNonEmpty(ss, chosen, max, c);
      KeepChosenPrefix(ss, chosen, max);
    }
  }

  /** Every occurrence of a chosen sentence, in text order. */
  function ChosenInOrder(sentences: seq<string>, chosen: set<string>): (r: seq<string>)
    ensures |r| <= |sentences|
    ensures forall x :: multiset(r)[x] == if x in chosen then multiset(sentences)[x] else 0
  {
    if sentences == [] then []
    else
      var rest := sentences[1..];
      assert sentences == [sentences[0]] + rest;
      assert multiset(sentences) == multiset{sentences[0]} + multiset(rest);
      (if sentences[0] in chosen then [sentences[0]] else []) + ChosenInOrder(rest, chosen)
  }

  /** The first `max` occurrences of chosen sentences, in text order. */
  function FirstChosen(sentences: seq<string>, chosen: set<string>, max: nat): seq<string> {
    var all := ChosenInOrder(sentences, chosen);
    all[..Min(max, |all|)]
  }

  /**
   * For `max` of at least 1, the restore-order loop keeps exactly the first
   * `max` occurrences of chosen sentences, every copy of a sentence counted.
   */
  lemma {:induction false} KeepChosenPrefix(sentences: seq<string>, chosen: set<string>, max: nat)
    requires max >= 1
    ensures KeepChosen(sentences, chosen, max) == FirstChosen(sentences, chosen, max)
    decreases |sentences|
  {
    var all := ChosenInOrder(sentences, chosen);
    var kept := KeepChosen(sentences, chosen, max);
    if sentences == [] {
      assert kept == [] && all == [];
    } else {
      var s := sentences[0];
      var rest := sentences[1..];
      var tail := ChosenInOrder(rest, chosen);
      if s in chosen {
        assert all == [s] + tail;
        if max > 1 {
          assert kept == [s] + KeepChosen(rest, chosen, max - 1);
          KeepChosenPrefix(rest, chosen, max - 1);
          ConsPrefix(s, tail, max);
        } else {
          assert kept == [s];
          assert all[..Min(max, |all|)] == [s];
        }
      } else {
        assert all == tail;
        assert kept == KeepChosen(rest, chosen, max);
        KeepChosenPrefix(rest, chosen, max);
      }
    }
    assert kept == all[..Min(max, |all|)];
  }

  /** The first `m` elements of `[x] + t` are `x` and the first `m - 1` of `t`. */
  lemma ConsPrefix<T>(x: T, t: seq<T>, m: nat)
    requires m > 1
    ensures ([x] + t)[..Min(m, |t| + 1)] == [x] + t[..Min(m - 1, |t|)]
  {
  }

  /** With room for every sentence, each chosen sentence is kept as often as it occurs, and no other. */
  lemma KeepChosenCounts(sentences: seq<string>, chosen: set<string>, max: nat)
    requires max >= |sentences| && max >= 1
    ensures forall x :: multiset(KeepChosen(sentences, chosen, max))[x] == if x in chosen then multiset(sentences)[x] else 0
  {
    KeepChosenPrefix(sentences, chosen, max);
    var all := ChosenInOrder(sentences, chosen);
    assert FirstChosen(sentences, chosen, max) == all[..Min(max, |all|)] == all;
  }

  /** A chosen sentence that occurs in the list is left out only when `max` sentences are already kept. */
  lemma {:induction false} KeepChosenComplete(sentences: seq<string>, chosen: set<string>, max: nat, x: string)
    requires x in chosen && x in sentences && max >= 1
    requires x !in KeepChosen(sentences, chosen, max)
    ensures |KeepChosen(sentences, chosen, max)| == max
    decreases |sentences|
  {
    var rest := sentences[1..];
    assert x == sentences[0] || x in rest;
    if sentences[0] in chosen {
      if max > 1 {
        KeepChosenComplete(rest, chosen, max - 1, x);
      }
    } else {
      KeepChosenComplete(rest, chosen, max, x);
    }
  }

  /** Some chosen sentence occurs in the text, so at least one is kept. */
  lemma {:induction false} KeepChosenNonEmpty(sentences: seq<string>, chosen: set<string>, max: nat, c: string)
    requires c in chosen && c in sentences
    ensures KeepChosen(sentences, chosen, max) != []
    decreases |sentences|
  {
    if sentences[0] !in chosen {
      KeepChosenNonEmpty(sentences[1..], chosen, max, c);
    }
  }

  /** Every summary ends with a period, sentinels included. */
  lemma SummaryEndsWithPeriod(text: string, max: nat)
    ensures EndsWith(Summary(text, max), '.')
  {
    if !TooShort(text) && Sentences(text) != [] {
      SummaryShape(text, max);
      if max > 0 {
        var joined := Join(SummarySentences(text, max), ". ");
        assert Summary(text, max) == joined + ".";
        assert (joined + ".")[|joined|] == '.';
      }
    }
  }
}
