/**
 * The two clean-up chains of the news pipeline.
 *
 * `crawl_article_content` (app.py:243-303) removes bylines, copyright
 * notices, photo credits, share buttons and site chrome from an article
 * body, normalises whitespace and caps the body at 2500 characters.
 * `summarize_text` (app.py:491-608) runs a longer chain of the same kind
 * before handing the text to the summariser.
 *
 * Each chain is a list of `Rule`s tagged with the source line of its
 * pattern; patterns other than literals, `a\s*b` pairs and lazy spans are
 * `Other` steps interpreted by the oracle.
 */
module Cleanup {
  import opened Chars
  import opened Text
  import opened Rules
  import Summarizer

  const NoContent := "본문을 가져올 수 없습니다."
  const MaxContent := 2500

  /** The substitutions of app.py:245-297, in order. */
  const CrawlRules: seq<Rule> := [
    Other(245),
    LazySpan("저작권", "금지"), LazySpan("무단", "금지"),
    Other(248), Other(249),
    Other(252), Other(253), Other(254),
    Literal("ADVERTISEMENT"), Literal("광고"),
    Other(259), Other(260), Other(261), Other(262), Other(263), Other(264),
    Spaced("연합뉴스", "자료사진"), Spaced("뉴시스", "자료사진"), Spaced("게티이미지", "뱅크"),
    Spaced("AFP", "연합뉴스"), Spaced("로이터", "연합뉴스"),
    LazySpan("페이스북", "공유"), LazySpan("트위터", "공유"),
    LazySpan("카카오톡", "공유"), LazySpan("네이버", "공유"),
    LazySpan("구독", "알림"), LazySpan("팔로우", "하기"), Other(280),
    Literal("닫기"), LazySpan("제보는", "카카오톡"), LazySpan("제보", "접수"),
    Spaced("뉴스", "제보"), Spaced("독자", "제보"), Spaced("시청자", "제보"), Spaced("취재", "요청"),
    LazySpan("문의", "연락처"), LazySpan("홈페이지", "바로가기"), LazySpan("모바일", "버전"),
    LazySpan("PC", "버전"), LazySpan("전체", "메뉴"), LazySpan("메뉴", "닫기"),
    LazySpan("로그인", "회원가입"), LazySpan("회원", "서비스")]

  /** The cleaned body: the chain, then whitespace runs collapsed and the ends stripped (app.py:243-301). */
  function CleanContent(content: string, other: Oracle): string {
    if content == [] then [] else Strip(Collapse(RunChain(CrawlRules, content, other)))
  }

  /** `content[:2500] if content else "본문을 가져올 수 없습니다."` (app.py:303). */
  function CrawlResult(content: string, other: Oracle): string {
    Cap(CleanContent(content, other))
  }

  /** The cleaned body cut to 2500 characters, or the sentinel when nothing is left. */
  function Cap(c: string): string {
    if c == [] then NoContent else c[..Min(|c|, MaxContent)]
  }

  /** A cleaned body has single plain spaces between words and none at either end. */
  lemma CleanContentShape(content: string, other: Oracle)
    ensures var c := CleanContent(content, other);
      Trimmed(c) && NoDoubleSpace(c) && OnlyPlainSpaces(c)
  {
    if content != [] {
      NormalizedShape(RunChain(CrawlRules, content, other));
    }
  }

  /** Cleaning an already clean body changes nothing but what the chain deletes. */
  lemma CleanContentOfNormal(content: string, other: Oracle)
    requires forall line: nat, s: string :: other(line, s) == s
    requires Trimmed(content) && NoDoubleSpace(content) && OnlyPlainSpaces(content)
    requires forall k :: 0 <= k < |CrawlRules| ==> CrawlRules[k].Other? || !Contains(content, OpeningOf(CrawlRules[k]))
    ensures CleanContent(content, other) == content
  {
    if content != [] {
      ChainUntouched(CrawlRules, content, other);
      CollapseFixpoint(content);
    }
  }

  /** The literal a concrete step must find before it deletes anything. */
  function OpeningOf(rule: Rule): string {
    match rule
    case Literal(lit) => lit
    case Spaced(first, _) => first
    case LazySpan(open, _) => open
    case Other(_) => []
  }

  /** Steps whose opening literal is absent, and uninterpreted steps that change nothing, leave the text alone. */
  lemma {:induction false} ChainUntouched(rules: seq<Rule>, s: string, other: Oracle)
    requires forall line: nat, t: string :: other(line, t) == t
    requires forall k :: 0 <= k < |rules| ==> rules[k].Other? || !Contains(s, OpeningOf(rules[k]))
    ensures RunChain(rules, s, other) == s
    decreases |rules|
  {
    if rules != [] {
      var r := rules[0];
      match r {
        case Other(_) =>
        case Literal(lit) => LiteralAbsent(lit, s);
        case LazySpan(open, close) => LazySpanAbsent(open, close, s);
        case Spaced(first, second) => SpacedAbsent(first, second, s);
      }
      assert Apply(r, s, other) == s;
      ChainUntouched(rules[1..], s, other);
    }
  }

  /** A spaced pair whose first literal does not occur in `s` deletes nothing. */
  lemma SpacedAbsent(first: string, second: string, s: string)
    requires !Contains(s, first)
    ensures DeleteMatches(Spaced(first, second), s) == s
  {
    forall i | 0 <= i < |s| ensures MatchAt(Spaced(first, second), s[i..]).None? {
      if first != [] && StartsAt(s[i..], 0, first) {
        assert s[i..][..|first|] == s[i..i + |first|];
        ContainsAt(s, i, first);
      }
    }
    DeleteNoMatch(Spaced(first, second), s);
  }

  /**
   * The crawl result is the no-content sentinel exactly when cleaning leaves
   * nothing; otherwise it is the first 2500 characters of the cleaned body.
   */
  lemma CrawlResultShape(content: string, other: Oracle)
    ensures var c := CleanContent(content, other);
      var r := CrawlResult(content, other);
      && (c == [] ==> r == NoContent)
      && (c != [] ==> 0 < |r| <= MaxContent && |r| <= |c| && r == c[..|r|] && !IsSpace(r[0]))
      && (c != [] && |c| <= MaxContent ==> r == c)
      && (|c| > MaxContent ==> r == c[..MaxContent])
      && (c != [] ==> NoDoubleSpace(r) && OnlyPlainSpaces(r))
  {
    var c := CleanContent(content, other);
    CleanContentShape(content, other);
    CapShape(c);
  }

  lemma CapShape(c: string)
    requires Trimmed(c) && NoDoubleSpace(c) && OnlyPlainSpaces(c)
    ensures c == [] ==> Cap(c) == NoContent
    ensures c != [] ==> 0 < |Cap(c)| <= MaxContent && |Cap(c)| <= |c| && Cap(c) == c[..|Cap(c)|] && !IsSpace(Cap(c)[0])
    ensures c != [] && |c| <= MaxContent ==> Cap(c) == c
    ensures |c| > MaxContent ==> Cap(c) == c[..MaxContent]
    ensures c != [] ==> NoDoubleSpace(Cap(c)) && OnlyPlainSpaces(Cap(c))
  {
    if c != [] {
      NoDoubleSpaceSlice(c, 0, Min(|c|, MaxContent));
      OnlyPlainSpacesSlice(c, 0, Min(|c|, MaxContent));
    }
  }

  /** With deleting steps, the chain's output is a subsequence of the raw body. */
  lemma CrawlChainDeletes(content: string, other: Oracle)
    requires Deleting(other)
    ensures IsSubseq(RunChain(CrawlRules, content, other), content)
  {
    ChainDeletes(CrawlRules, content, other);
  }

  // ---------------------------------------------------------------------------
  // summarize_text (app.py:491-608)

  /** The substitutions of app.py:502-576, in order. */
  const SummaryRules: seq<Rule> := [
    Other(502), Other(503), Other(504),
    LazySpan("【", "】"), LazySpan("[", "]"),
    Other(509), Other(510), Other(511),
    Literal("ADVERTISEMENT"), Literal("광고"), Literal("AD"),
    LazySpan("페이스북", "공유"), LazySpan("트위터", "공유"),
    LazySpan("카카오톡", "공유"), LazySpan("네이버", "공유"), Literal("공유하기"),
    LazySpan("구독", "알림"), LazySpan("팔로우", "하기"), Other(526), Spaced("뉴스", "더보기"),
    Spaced("앱", "다운로드"), LazySpan("모바일", "앱"),
    Other(534), Other(535), Other(536), Other(537), Other(538), Other(539),
    Spaced("연합뉴스", "자료사진"), Spaced("뉴시스", "자료사진"), Spaced("게티이미지", "뱅크"),
    Spaced("AFP", "연합뉴스"), Spaced("로이터", "연합뉴스"), Spaced("EPA", "연합뉴스"),
    Spaced("AP", "연합뉴스"), Spaced("사진", "출처"), Spaced("이미지", "출처"),
    Literal("닫기"), LazySpan("제보는", "카카오톡"), LazySpan("제보", "접수"),
    Spaced("뉴스", "제보"), Spaced("독자", "제보"), Spaced("시청자", "제보"), Spaced("취재", "요청"),
    LazySpan("문의", "연락처"), LazySpan("홈페이지", "바로가기"), LazySpan("모바일", "버전"),
    LazySpan("PC", "버전"), LazySpan("전체", "메뉴"), LazySpan("메뉴", "닫기"),
    LazySpan("로그인", "회원가입"), LazySpan("회원", "서비스"), LazySpan("이용약관", "개인정보"),
    LazySpan("개인정보", "처리방침"), LazySpan("저작권", "정책"), LazySpan("청소년", "보호정책"),
    Other(572), Other(573), Other(574), Literal("www."), Other(576)]

  /** A character the mask at app.py:580 keeps: `\w`, `\s`, Hangul or `.,!?`. */
  predicate IsBasic(c: char) {
    IsWordChar(c) || IsSpace(c) || IsHangul(c) || c == '.' || c == ',' || c == '!' || c == '?'
  }

  /** `re.sub(r'[^\w\s가-힣.,!?]', ' ', s)`: every other character becomes a space. */
  function Mask(s: string): (r: string)
    ensures |r| == |s|
    ensures forall i :: 0 <= i < |s| ==> (IsBasic(s[i]) ==> r[i] == s[i]) && (!IsBasic(s[i]) ==> r[i] == ' ')
  {
    seq(|s|, i requires 0 <= i < |s| => if IsBasic(s[i]) then s[i] else ' ')
  }

  /** The text handed to the summariser (app.py:498-581). */
  function Preprocess(text: string, other: Oracle): string {
    Finish(RunChain(SummaryRules, Strip(Collapse(text)), other))
  }

  /** The last three steps, app.py:579-581. */
  function Finish(t: string): string {
    Strip(Mask(Collapse(t)))
  }

  /** Preprocessed text holds only mask-approved characters and plain spaces, none at either end. */
  lemma PreprocessShape(text: string, other: Oracle)
    ensures var p := Preprocess(text, other);
      Trimmed(p) && OnlyPlainSpaces(p) && forall i :: 0 <= i < |p| ==> IsBasic(p[i])
  {
    FinishShape(RunChain(SummaryRules, Strip(Collapse(text)), other));
  }

  lemma FinishShape(t: string)
    ensures Trimmed(Finish(t)) && OnlyPlainSpaces(Finish(t))
    ensures forall i :: 0 <= i < |Finish(t)| ==> IsBasic(Finish(t)[i])
  {
    MaskShape(Collapse(t));
    StripBasic(Mask(Collapse(t)));
  }

  lemma StripBasic(m: string)
    requires OnlyPlainSpaces(m) && forall i :: 0 <= i < |m| ==> IsBasic(m[i])
    ensures OnlyPlainSpaces(Strip(m)) && forall i :: 0 <= i < |Strip(m)| ==> IsBasic(Strip(m)[i])
  {
    var a := |m| - |StripLeft(m)|;
    var p := Strip(m);
    StripIsSlice(m);
    OnlyPlainSpacesSlice(m, a, a + |p|);
    forall i | 0 <= i < |p| ensures IsBasic(p[i]) {
      assert p[i] == m[a + i];
    }
  }

  lemma MaskShape(c: string)
    requires OnlyPlainSpaces(c)
    ensures OnlyPlainSpaces(Mask(c))
    ensures forall i :: 0 <= i < |Mask(c)| ==> IsBasic(Mask(c)[i])
  {
  }

  /** `summarize_text(text, sentences_count)` without the optional Sumy back end. */
  function SummarizeText(text: string, count: nat, other: Oracle): string {
    if Summarizer.TooShort(text) then Summarizer.InsufficientText
    else Summarizer.Summary(Preprocess(text, other), count)
  }

  /** Every summary ends with a period, and short input is answered with the sentinel before any clean-up. */
  lemma SummarizeTextShape(text: string, count: nat, other: Oracle)
    ensures EndsWith(SummarizeText(text, count, other), '.')
    ensures Summarizer.TooShort(text) ==> SummarizeText(text, count, other) == Summarizer.InsufficientText
  {
    if Summarizer.TooShort(text) {
      Summarizer.SummaryEndsWithPeriod(text, count);
      assert Summarizer.Summary(text, count) == Summarizer.InsufficientText;
    } else {
      Summarizer.SummaryEndsWithPeriod(Preprocess(text, other), count);
    }
  }
}
