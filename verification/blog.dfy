/**
 * Text handling of `BlogScraper` (blog_scraper.py): `clean_text`
 * (264-287), `is_supported_blog` (187-196) and the line filter of
 * `scrape_naver_blog_fallback` (164-182).
 */
module Blog {
  import opened Chars
  import opened Text
  import opened Wrappers

  /**
   * The dicts the scraper passes around: an error report, a scraped page, or
   * a cleaned post with its length and word count.
   */
  datatype BlogData =
    | Failed(error: string)
    | Page(title: string, content: string, platform: string, url: string)
    | Post(title: string, content: string, platform: string, url: string, contentLength: nat, wordCount: nat)

  const MaxContent := 5000
  const Ellipsis := "..."

  // ---------------------------------------------------------------------------
  // re.sub(r'\n\s*\n', '\n', content)

  /** The last newline at an index in `[lo, hi)`. */
  function LastNewline(s: string, lo: nat, hi: nat): (m: Option<nat>)
    requires lo <= hi <= |s|
    ensures m.Some? ==> lo <= m.value < hi && s[m.value] == '\n'
    ensures m.Some? ==> forall j :: m.value < j < hi ==> s[j] != '\n'
    ensures m.None? ==> forall j :: lo <= j < hi ==> s[j] != '\n'
    decreases hi - lo
  {
    if hi == lo then None
    else if s[hi - 1] == '\n' then Some(hi - 1)
    else LastNewline(s, lo, hi - 1)
  }

  /**
   * Every match of `\n\s*\n` becomes one newline. The greedy `\s*` runs to
   * the last newline of the whitespace run that follows the first newline.
   */
  function SquashBlankLines(s: string): (r: string)
    ensures IsSubseq(r, s)
    decreases |s|
  {
    if s == [] then []
    else
      var rest := if s[0] == '\n' then
        var n := RunLength(s[1..], IsSpace);
        match LastNewline(s, 1, 1 + n)
        case Some(i) => SquashBlankLines(s[i + 1..])
        case None => SquashBlankLines(s[1..])
      else SquashBlankLines(s[1..]);
      SquashTail(s, rest);
      [s[0]] + rest
  }

  /** Dropping a prefix after the first character keeps the subsequence relation for the first one prepended. */
  lemma SquashTail(s: string, rest: string)
    requires s != []
    requires exists e :: 1 <= e <= |s| && IsSubseq(rest, s[e..])
    ensures IsSubseq([s[0]] + rest, s)
  {
    var e :| 1 <= e <= |s| && IsSubseq(rest, s[e..]);
    assert s[1..][e - 1..] == s[e..];
    SubseqDropPrefix(rest, s[1..], e - 1);
    SubseqPrepend(rest, s[1..], s[0]);
    assert [s[0]] + s[1..] == s;
  }

  /** The squash keeps the first character, and keeps empty text empty. */
  lemma SquashFirst(s: string)
    ensures SquashBlankLines(s) == [] <==> s == []
    ensures s != [] ==> SquashBlankLines(s)[0] == s[0]
  {
  }

  /** Squashing blank lines changes no word: only whitespace goes. */
  lemma {:induction false} SquashKeepsWords(s: string)
    ensures Words(SquashBlankLines(s)) == Words(s)
    decreases |s|
  {
    if s != [] {
      var r := SquashBlankLines(s);
      if s[0] != '\n' {
        var rest := SquashBlankLines(s[1..]);
        SquashKeepsWords(s[1..]);
        SquashFirst(s[1..]);
        WordsOfFirst(s, rest);
      } else {
        var n := RunLength(s[1..], IsSpace);
        var k := match LastNewline(s, 1, 1 + n) case Some(i) => i + 1 case None => 1;
        var rest := SquashBlankLines(s[k..]);
        assert r == [s[0]] + rest;
        SquashKeepsWords(s[k..]);
        forall j | 0 <= j < k ensures IsSpace(s[j]) {
          if j > 0 {
            assert s[j] == s[1..][j - 1];
          }
        }
        RunsSkip(s, IsNonSpace, 1, k);
        RunsTail(r, IsNonSpace, 1);
        assert r[1..] == rest;
      }
    }
  }

  /** The whitespace run at the front of `t` holds no newline. */
  predicate QuietRun(t: string) {
    forall j :: 0 <= j < RunLength(t, IsSpace) ==> t[j] != '\n'
  }

  /** Nothing `\n\s*\n` matches: after every newline, the whitespace that follows holds no other newline. */
  predicate NoBlankLine(r: string) {
    forall i :: 0 <= i < |r| && r[i] == '\n' ==> QuietRun(r[i + 1..])
  }

  /** The squash keeps a quiet leading run quiet. */
  lemma {:induction false} SquashQuietRun(t: string)
    requires QuietRun(t)
    ensures QuietRun(SquashBlankLines(t))
    decreases |t|
  {
    if t != [] && IsSpace(t[0]) {
      assert t[0] != '\n';
      var u := SquashBlankLines(t);
      var rest := SquashBlankLines(t[1..]);
      assert u == [t[0]] + rest;
      assert QuietRun(t[1..]) by {
        assert RunLength(t, IsSpace) == 1 + RunLength(t[1..], IsSpace);
        forall j | 0 <= j < RunLength(t[1..], IsSpace) ensures t[1..][j] != '\n' {
          assert t[1..][j] == t[j + 1];
        }
      }
      SquashQuietRun(t[1..]);
      assert u[1..] == rest;
      assert RunLength(u, IsSpace) == 1 + RunLength(rest, IsSpace);
      forall j | 0 <= j < RunLength(u, IsSpace) ensures u[j] != '\n' {
        if j > 0 {
          assert u[j] == rest[j - 1];
        }
      }
    } else if t != [] {
      SquashFirst(t);
    }
  }

  /** A character in front of text without blank lines adds none, unless it is a newline before more whitespace holding a newline. */
  lemma NoBlankLineCons(c: char, rest: string)
    requires NoBlankLine(rest)
    requires c == '\n' ==> QuietRun(rest)
    ensures NoBlankLine([c] + rest)
  {
    var r := [c] + rest;
    forall i | 0 <= i < |r| && r[i] == '\n' ensures QuietRun(r[i + 1..]) {
      if i == 0 {
        assert r[1..] == rest;
      } else {
        assert r[i] == rest[i - 1];
        assert r[i + 1..] == rest[i..];
      }
    }
  }

  /** What follows the last newline of the whitespace run after the first character is a quiet run. */
  lemma QuietAfterLastNewline(s: string, n: nat, k: nat)
    requires s != [] && n == RunLength(s[1..], IsSpace) && 1 <= k <= 1 + n
    requires forall j :: k <= j < 1 + n ==> s[j] != '\n'
    ensures QuietRun(s[k..])
  {
    var t := s[k..];
    var m := 1 + n - k;
    forall j | 0 <= j < m ensures IsSpace(t[j]) && t[j] != '\n' {
      assert t[j] == s[k + j] == s[1..][k - 1 + j];
    }
    if m < |t| {
      assert t[m] == s[1..][n];
    }
    RunLengthUnique(t, IsSpace, m);
  }

  /** After the squash no blank line is left: `\n\s*\n` matches nowhere in the result. */
  lemma {:induction false} SquashLeavesNoBlankLine(s: string)
    ensures NoBlankLine(SquashBlankLines(s))
    decreases |s|
  {
    if s != [] {
      if s[0] != '\n' {
        SquashLeavesNoBlankLine(s[1..]);
        NoBlankLineCons(s[0], SquashBlankLines(s[1..]));
      } else {
        var n := RunLength(s[1..], IsSpace);
        var m := LastNewline(s, 1, 1 + n);
        var k := match m case Some(i) => i + 1 case None => 1;
        var rest := SquashBlankLines(s[k..]);
        assert SquashBlankLines(s) == [s[0]] + rest;
        SquashLeavesNoBlankLine(s[k..]);
        QuietAfterLastNewline(s, n, k);
        SquashQuietRun(s[k..]);
        NoBlankLineCons(s[0], rest);
      }
    }
  }

  // ---------------------------------------------------------------------------
  // clean_text

  /** `content[:5000] + "..."` when longer than 5000 characters. */
  function Truncate(c: string): string {
    if |c| > MaxContent then c[..MaxContent] + Ellipsis else c
  }

  /** The content pipeline of `clean_text` (blog_scraper.py:271-278). */
  function CleanContent(content: string): string {
    Truncate(Strip(Collapse(SquashBlankLines(content))))
  }

  /** `clean_text(data)`: error reports pass through, anything else is normalised. */
  function CleanText(data: BlogData): BlogData {
    if data.Failed? then data
    else
      var content := CleanContent(data.content);
      Post(Strip(Collapse(data.title)), content, data.platform, data.url, |content|, |Words(content)|)
  }

  /**
   * `clean_text` passes an error report through unchanged; otherwise the
   * title and the content are normalised, the content is capped at 5000
   * characters plus an ellipsis, and length, word count, platform and URL
   * are filled in.
   */
  lemma CleanTextShape(data: BlogData)
    ensures data.Failed? ==> CleanText(data) == data
    ensures !data.Failed? ==> var r := CleanText(data);
      && r.Post?
      && Trimmed(r.title) && NoDoubleSpace(r.title) && OnlyPlainSpaces(r.title)
      && Trimmed(r.content) && NoDoubleSpace(r.content) && OnlyPlainSpaces(r.content)
      && '\n' !in r.content
      && |r.content| <= MaxContent + |Ellipsis|
      && r.contentLength == |r.content|
      && r.wordCount == |Words(r.content)|
      && r.platform == data.platform && r.url == data.url
  {
    if !data.Failed? {
      NormalizedShape(data.title);
      NormalizedShape(SquashBlankLines(data.content));
      TruncateShape(Strip(Collapse(SquashBlankLines(data.content))));
    }
  }

  /** The word count is the number of space-separated pieces of the cleaned content. */
  lemma CleanTextWordCount(data: BlogData)
    requires !data.Failed?
    ensures var r := CleanText(data);
      r.content != [] ==> r.wordCount == |Split(r.content, ' ')|
    ensures CleanText(data).content == [] <==> CleanText(data).wordCount == 0
  {
    CleanTextShape(data);
    var r := CleanText(data);
    if r.content != [] {
      WordsOfNormal(r.content);
    } else {
      assert Words(r.content) == [];
    }
  }

  /** Truncation keeps normalised text normalised, and keeps short text as it is. */
  lemma TruncateShape(c: string)
    requires Trimmed(c) && NoDoubleSpace(c) && OnlyPlainSpaces(c)
    ensures Trimmed(Truncate(c)) && NoDoubleSpace(Truncate(c)) && OnlyPlainSpaces(Truncate(c))
    ensures '\n' !in Truncate(c)
    ensures |Truncate(c)| <= MaxContent + |Ellipsis|
    ensures |c| <= MaxContent ==> Truncate(c) == c
    ensures |c| > MaxContent ==> Truncate(c) == c[..MaxContent] + Ellipsis
  {
    var t := Truncate(c);
    if |c| > MaxContent {
      NoDoubleSpaceSlice(c, 0, MaxContent);
      OnlyPlainSpacesSlice(c, 0, MaxContent);
      var p := c[..MaxContent];
      assert forall i :: 0 <= i < |t| ==> (i < MaxContent ==> t[i] == p[i]) && (i >= MaxContent ==> t[i] == '.');
    }
    assert forall i :: 0 <= i < |t| && IsSpace(t[i]) ==> t[i] == ' ';
    assert forall i :: 0 <= i < |t| ==> t[i] != '\n';
  }

  // ---------------------------------------------------------------------------
  // is_supported_blog

  const SupportedDomains: seq<string> := ["blog.naver.com", "tistory.com", "velog.io", "brunch.co.kr"]

  /** `any(d in host for d in domains)`. */
  function AnyIn(domains: seq<string>, host: string): (b: bool)
    ensures b <==> exists k :: 0 <= k < |domains| && Contains(host, domains[k])
  {
    if domains == [] then false
    else Contains(host, domains[0]) || AnyIn(domains[1..], host)
  }

  /** `is_supported_blog`, given the URL's network location (`urlparse(url).netloc`). */
  function IsSupportedBlog(netloc: string): bool {
    AnyIn(SupportedDomains, Lower(netloc))
  }

  /** The platform test ignores letter case. */
  lemma SupportedIgnoresCase(netloc: string)
    ensures IsSupportedBlog(Lower(netloc)) == IsSupportedBlog(netloc)
  {
    LowerIdempotent(netloc);
  }

  /** Any host of a supported domain, sub-domains included, is supported. */
  lemma SubdomainSupported(prefix: string, k: nat)
    requires k < |SupportedDomains|
    ensures IsSupportedBlog(prefix + SupportedDomains[k])
  {
    var d := SupportedDomains[k];
    var host := Lower(prefix + d);
    assert Lower(d) == d by {
      forall i | 0 <= i < |d| ensures LowerChar(d[i]) == d[i] {
        assert !('A' <= d[i] <= 'Z');
      }
    }
    assert host[|prefix|..] == Lower(d);
    assert StartsAt(host, |prefix|, d);
    ContainsAt(host, |prefix|, d);
  }

  // ---------------------------------------------------------------------------
  // The line filter of scrape_naver_blog_fallback

  const FallbackTitle := "제목 추출 실패"
  const FallbackPlatform := "naver_fallback"
  const MaxLines := 50

  /** `[line.strip() for line in all_text.split('\n') if line.strip()]`. */
  function PageLines(allText: string): seq<string> {
    StrippedNonEmpty(Split(allText, '\n'))
  }

  function StrippedNonEmpty(lines: seq<string>): (r: seq<string>)
    ensures forall k :: 0 <= k < |r| ==> r[k] != [] && Trimmed(r[k])
  {
    if lines == [] then []
    else
      var init := StrippedNonEmpty(lines[..|lines| - 1]);
      var s := Strip(lines[|lines| - 1]);
      AllSnoc(init, s, s != [], x => x != [] && Trimmed(x));
      init + (if s != [] then [s] else [])
  }

  /** The page lines are, in order, exactly the stripped lines that are not empty. */
  lemma {:induction false} StrippedNonEmptySelect(lines: seq<string>)
    ensures IsSubseq(StrippedNonEmpty(lines), StripEach(lines))
    ensures forall s :: s in StrippedNonEmpty(lines) <==> s in StripEach(lines) && s != []
    ensures forall s :: multiset(StrippedNonEmpty(lines))[s] == if s != [] then multiset(StripEach(lines))[s] else 0
  {
    if lines != [] {
      var init := lines[..|lines| - 1];
      StrippedNonEmptySelect(init);
      FilterSnoc(StrippedNonEmpty(init), StripEach(init), Strip(lines[|lines| - 1]), s => s != []);
      CountSnoc(StrippedNonEmpty(init), StripEach(init), Strip(lines[|lines| - 1]), s => s != []);
    }
  }

  /** Words that mark a line as site chrome. */
  const BlockedWords: seq<string> := ["copyright", "저작권", "naver", "네이버", "menu", "메뉴", "login", "로그인"]

  /** A line worth keeping: more than 10 characters and none of the blocked words, ignoring case. */
  predicate IsContentLine(line: string) {
    |line| > 10 && forall k :: 0 <= k < |BlockedWords| ==> !Contains(Lower(line), BlockedWords[k])
  }

  /** The content lines, in order. */
  function ContentLines(lines: seq<string>): seq<string> {
    if lines == [] then []
    else
      var init := lines[..|lines| - 1];
      ContentLines(init) + (if IsContentLine(lines[|lines| - 1]) then [lines[|lines| - 1]] else [])
  }

  /** The loop at blog_scraper.py:169-172. */
  method FilterLines(lines: seq<string>) returns (contentLines: seq<string>)
    ensures contentLines == ContentLines(lines)
  {
    contentLines := [];
    var i := 0;
    while i < |lines|
      invariant 0 <= i <= |lines|
      invariant contentLines == ContentLines(lines[..i])
    {
      var line := lines[i];
      assert lines[..i + 1][..i] == lines[..i];
      if |line| > 10 && !(exists k :: 0 <= k < |BlockedWords| && Contains(Lower(line), BlockedWords[k])) {
        contentLines := contentLines + [line];
      }
      i := i + 1;
    }
    assert lines[..|lines|] == lines;
  }

  /** The content lines are the lines that pass the filter, in their original order. */
  lemma {:induction false} ContentLinesShape(lines: seq<string>)
    ensures IsSubseq(ContentLines(lines), lines)
    ensures forall l :: l in ContentLines(lines) <==> l in lines && IsContentLine(l)
    ensures forall l :: multiset(ContentLines(lines))[l] == if IsContentLine(l) then multiset(lines)[l] else 0
  {
    if lines != [] {
      var init := lines[..|lines| - 1];
      var x := lines[|lines| - 1];
      assert lines == init + [x];
      ContentLinesShape(init);
      FilterSnoc(ContentLines(init), init, x, IsContentLine);
      CountSnoc(ContentLines(init), init, x, IsContentLine);
    }
  }

  /** `'\n'.join(content_lines[:50])`. */
  function FallbackContent(allText: string): string {
    var kept := ContentLines(PageLines(allText));
    Join(kept[..Min(|kept|, MaxLines)], "\n")
  }

  /** The page the fallback scraper hands to `clean_text`; its title is never filled in. */
  function NaverFallback(allText: string, url: string): BlogData {
    CleanText(Page(FallbackTitle, FallbackContent(allText), FallbackPlatform, url))
  }

  /** The fallback yields a cleaned post with the fixed title and platform. */
  lemma NaverFallbackShape(allText: string, url: string)
    ensures var r := NaverFallback(allText, url);
      && r.Post? && r.title == FallbackTitle && r.platform == FallbackPlatform && r.url == url
      && r.content == CleanContent(FallbackContent(allText))
  {
    FallbackTitleNormal();
    var c := FallbackContent(allText);
    var content := CleanContent(c);
    assert NaverFallback(allText, url) ==
      Post(FallbackTitle, content, FallbackPlatform, url, |content|, |Words(content)|);
  }

  /** The fixed fallback title is already normalised. */
  lemma FallbackTitleNormal()
    ensures Strip(Collapse(FallbackTitle)) == FallbackTitle
  {
    var t := FallbackTitle;
    assert t == "제목" + " " + "추출" + " " + "실패";
    forall i | 0 <= i < |t| && IsSpace(t[i]) ensures t[i] == ' ' && i in {2, 5} {
    }
    NormalTextFixed(t);
  }

  /** Text that is already normalised comes out of `Strip(Collapse(_))` unchanged. */
  lemma NormalTextFixed(t: string)
    requires Trimmed(t) && NoDoubleSpace(t) && OnlyPlainSpaces(t)
    ensures Strip(Collapse(t)) == t
  {
    CollapseFixpoint(t);
    StripTrimmed(t);
  }

  /**
   * The content is built from at most 50 of the page's lines, kept in page
   * order, each one a content line.
   */
  lemma FallbackLinesShape(lines: seq<string>)
    ensures var kept := ContentLines(lines);
      var used := kept[..Min(|kept|, MaxLines)];
      && |used| <= MaxLines
      && IsSubseq(used, lines)
      && forall k :: 0 <= k < |used| ==> IsContentLine(used[k]) && used[k] in lines
  {
    var kept := ContentLines(lines);
    var used := kept[..Min(|kept|, MaxLines)];
    ContentLinesShape(lines);
    PrefixIsSubseq(kept, Min(|kept|, MaxLines));
    SubseqTrans(used, kept, lines);
    forall k | 0 <= k < |used| ensures IsContentLine(used[k]) && used[k] in lines {
      assert used[k] in kept;
    }
  }
}
