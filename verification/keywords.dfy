/**
 * `TextProcessor.extract_keywords` (app.py:610-658).
 *
 * Tokens are the maximal runs of `[가-힣a-zA-Z0-9]`. Tokens of two or more
 * characters that are not stop words are counted in a dict (first-seen
 * order). Tokens of four or more characters then have their count
 * multiplied by 1.5, the items are sorted by weight with a stable descending
 * sort, the first `top_k` are taken, and those with weight at least 2 are
 * returned.
 *
 * Weights are kept at twice the source's value, so they stay integers:
 * `2 * count`, or `3 * count` for long tokens; the threshold 2 becomes 4.
 */
module Keywords {
  import opened Chars
  import opened Text
  import opened Ranking

  /** The stop words of app.py:620-640. */
  const StopWords: set<string> := {
    "이", "그", "저", "것", "수", "등", "및", "의", "를", "을", "가", "은", "는",
    "에", "에서", "으로", "로", "와", "과", "하고", "그리고", "또는", "하지만",
    "그러나", "따라서", "위해", "통해", "대한", "위한", "있는", "없는", "있다",
    "없다", "이다", "아니다", "한다", "된다", "것이", "것은", "것을",
    "기자", "뉴스", "기사", "보도", "발표", "관련", "대해", "한국",
    "오늘", "어제", "내일", "올해", "지난", "앞으로",
    "jebo23", "라인", "앱에서", "친구", "추가", "좋아요", "응원해요", "후속", "원해요",
    "ADVERTISEMENT", "광고", "AD", "공유", "공유하기", "구독", "알림", "팔로우",
    "다운로드", "모바일", "페이스북", "트위터", "카카오톡", "네이버", "더보기",
    "yna", "krc", "co", "kr", "문화", "연예",
    "사진", "출처", "제공", "이미지", "자료사진", "사진제공", "이미지출처", "사진출처",
    "게티이미지", "뱅크", "AFP", "로이터", "뉴시스", "EPA", "AP",
    "닫기", "제보는", "제보", "뉴스제보", "독자제보", "시청자제보", "취재요청", "취재",
    "홈페이지", "바로가기", "로그인", "회원가입", "회원", "서비스", "이용약관",
    "개인정보", "처리방침", "저작권", "정책", "청소년", "보호정책", "메뉴", "전체",
    "www", "http", "https", "com", "버전", "PC", "문의", "연락처", "접수"}

  /** `re.findall(r'[가-힣a-zA-Z0-9]+', text)`. */
  function Tokens(text: string): seq<string> {
    Runs(text, IsKeywordChar, 1)
  }

  /** A token that is counted. */
  predicate Eligible(w: string, stops: set<string>) {
    |w| >= 2 && w !in stops
  }

  /** Number of occurrences of `w` among the tokens. */
  function Count(words: seq<string>, w: string): nat {
    multiset(words)[w]
  }

  /** The counted tokens, in order, repeats included. */
  function EligibleWords(words: seq<string>, stops: set<string>): (e: seq<string>)
    ensures forall x :: x in e <==> x in words && Eligible(x, stops)
  {
    if words == [] then []
    else
      var w := words[|words| - 1];
      assert forall x :: x in words <==> x in words[..|words| - 1] || x == w;
      EligibleWords(words[..|words| - 1], stops) + (if Eligible(w, stops) then [w] else [])
  }

  /** The dict's keys: each counted token once, by first occurrence. */
  function Keys(words: seq<string>, stops: set<string>): seq<string> {
    Distinct(EligibleWords(words, stops))
  }

  /** Twice the source's weight: a long token's count is boosted by half. */
  function Weight(w: string, count: nat): nat {
    if |w| >= 4 then 3 * count else 2 * count
  }

  /** The weight of token `w` in the text. */
  function WeightOf(words: seq<string>, w: string): nat {
    Weight(w, Count(words, w))
  }

  /** A token clears the threshold exactly when it occurs at least twice; the boost only reorders. */
  lemma WeightThreshold(words: seq<string>, w: string)
    ensures WeightOf(words, w) >= 4 <==> Count(words, w) >= 2
  {
  }

  /** The weights of the dict's items, in dict order. */
  function Weights(words: seq<string>, keys: seq<string>): (r: seq<int>)
    ensures |r| == |keys|
  {
    seq(|keys|, a requires 0 <= a < |keys| => WeightOf(words, keys[a]) as int)
  }

  /** `[word for word, freq in top if freq >= 2]`: the items of `top` above the threshold. */
  function Heavy(keys: seq<string>, weights: seq<int>, top: seq<nat>): seq<string>
    requires |weights| == |keys| && InRange(weights, top)
  {
    if top == [] then []
    else
      var a := top[|top| - 1];
      Heavy(keys, weights, top[..|top| - 1]) + (if weights[a] >= 4 then [keys[a]] else [])
  }

  /** The sorted items cut to `top_k` and filtered by weight. */
  function TopKeywords(keys: seq<string>, weights: seq<int>, topK: nat): seq<string>
    requires |weights| == |keys|
  {
    var r := Ranked(weights);
    Heavy(keys, weights, r[..Min(topK, |r|)])
  }

  /** `extract_keywords(text, top_k)`. */
  function Keywords(text: string, topK: nat): seq<string> {
    if text == [] then []
    else
      var words := Tokens(text);
      var keys := Keys(words, StopWords);
      TopKeywords(keys, Weights(words, keys), topK)
  }

  // ---------------------------------------------------------------------------
  // The loops of the source

  /** The dict after the boost loop has visited `keys[..j]`. */
  function Boosted(words: seq<string>, keys: seq<string>, j: nat): map<string, nat>
    requires j <= |keys|
  {
    map w | w in keys :: if w in keys[..j] then WeightOf(words, w) else 2 * Count(words, w)
  }

  lemma BoostedStep(words: seq<string>, keys: seq<string>, j: nat)
    requires j < |keys|
    ensures Boosted(words, keys, j + 1) == Boosted(words, keys, j)[keys[j] := WeightOf(words, keys[j])]
  {
    assert keys[..j + 1] == keys[..j] + [keys[j]];
    assert forall v :: v in keys[..j + 1] <==> v in keys[..j] || v == keys[j];
  }

  lemma KeysSnoc(words: seq<string>, w: string, stops: set<string>)
    ensures Keys(words + [w], stops) == if Eligible(w, stops) && w !in words then Keys(words, stops) + [w] else Keys(words, stops)
  {
    assert (words + [w])[..|words|] == words;
    var e := EligibleWords(words, stops);
    assert EligibleWords(words + [w], stops) == e + (if Eligible(w, stops) then [w] else []);
    DistinctSnoc(e, w);
    assert e + [] == e;
  }

  /** The dict the counting loop builds: each eligible token mapped to twice its count so far. */
  function Counts(words: seq<string>, stops: set<string>): map<string, nat> {
    if words == [] then map[]
    else
      var m := Counts(words[..|words| - 1], stops);
      var w := words[|words| - 1];
      if Eligible(w, stops) then m[w := (if w in m then m[w] else 0) + 2] else m
  }

  lemma CountsSnoc(words: seq<string>, w: string, stops: set<string>)
    ensures Counts(words + [w], stops) == if Eligible(w, stops) then Counts(words, stops)[w := (if w in Counts(words, stops) then Counts(words, stops)[w] else 0) + 2] else Counts(words, stops)
  {
    assert (words + [w])[..|words|] == words;
  }

  /** The counted dict holds exactly the eligible tokens, each with twice its number of occurrences. */
  lemma {:induction false} CountsShape(words: seq<string>, stops: set<string>)
    ensures forall v :: v in Counts(words, stops) <==> v in words && Eligible(v, stops)
    ensures forall v :: v in Counts(words, stops) ==> Counts(words, stops)[v] == 2 * Count(words, v)
  {
    if words != [] {
      var init := words[..|words| - 1];
      var w := words[|words| - 1];
      assert words == init + [w];
      CountsShape(init, stops);
      assert multiset(words) == multiset(init) + multiset{w};
      assert w !in init ==> Count(init, w) == 0;
      assert forall v :: v in words <==> v in init || v == w;
    }
  }

  /** The counting loop, app.py:643-645: the dict's keys in order, each with twice its count. */
  method CountTokens(words: seq<string>, stops: set<string>) returns (keys: seq<string>, freq: map<string, nat>)
    ensures keys == Keys(words, stops)
    ensures freq == Counts(words, stops)
  {
    keys, freq := [], map[];
    var i := 0;
    while i < |words|
      invariant 0 <= i <= |words|
      invariant keys == Keys(words[..i], stops)
      invariant freq == Counts(words[..i], stops)
    {
      var w := words[i];
      assert words[..i + 1] == words[..i] + [w];
      KeysSnoc(words[..i], w, stops);
      CountsSnoc(words[..i], w, stops);
      if Eligible(w, stops) {
        CountsShape(words[..i], stops);
        if w !in freq {
          keys := keys + [w];
        }
        freq := freq[w := (if w in freq then freq[w] else 0) + 2];
      }
      i := i + 1;
    }
    assert words[..|words|] == words;
  }

  /** The boost loop, app.py:648-650: long tokens' counts times 1.5. */
  method Boost(words: seq<string>, keys: seq<string>, counts: map<string, nat>) returns (freq: map<string, nat>)
    requires forall i, j :: 0 <= i < j < |keys| ==> keys[i] != keys[j]
    requires forall v :: v in counts <==> v in keys
    requires forall v :: v in counts ==> counts[v] == 2 * Count(words, v)
    ensures freq == Boosted(words, keys, |keys|)
    ensures forall w :: w in freq <==> w in keys
    ensures forall w :: w in freq ==> freq[w] == WeightOf(words, w)
  {
    freq := counts;
    assert freq == Boosted(words, keys, 0);
    var j := 0;
    while j < |keys|
      invariant 0 <= j <= |keys|
      invariant freq == Boosted(words, keys, j)
    {
      var w := keys[j];
      BoostedStep(words, keys, j);
      assert w !in keys[..j];
      assert freq[w] == 2 * Count(words, w);
      if |w| >= 4 {
        assert (2 * Count(words, w)) * 3 / 2 == 3 * Count(words, w);
        freq := freq[w := freq[w] * 3 / 2];
      }
      j := j + 1;
    }
    assert keys[..|keys|] == keys;
  }

  /** app.py:613-655: count, boost, sort, cut and filter. */
  method ExtractKeywords(text: string, topK: nat) returns (keywords: seq<string>)
    ensures keywords == Keywords(text, topK)
  {
    if text == [] {
      return [];
    }
    var words := Tokens(text);
    var keys, counts := CountTokens(words, StopWords);
    CountsShape(words, StopWords);
    KeysShape(words, StopWords);
    var freq := Boost(words, keys, counts);
    var weights := seq(|keys|, a requires 0 <= a < |keys| => freq[keys[a]] as int);
    assert weights == Weights(words, keys);
    keywords := TopKeywords(keys, weights, topK);
  }

  // ---------------------------------------------------------------------------
  // Properties

  /** The filter keeps a leading run of a list sorted by weight. */
  lemma {:induction false} HeavyIsLeadingRun(keys: seq<string>, weights: seq<int>, top: seq<nat>)
    requires |weights| == |keys| && InRange(weights, top)
    requires forall a, b :: 0 <= a < b < |top| ==> weights[top[a]] >= weights[top[b]]
    ensures |Heavy(keys, weights, top)| <= |top|
    ensures forall k :: 0 <= k < |Heavy(keys, weights, top)| ==>
      Heavy(keys, weights, top)[k] == keys[top[k]] && weights[top[k]] >= 4
    ensures forall k :: |Heavy(keys, weights, top)| <= k < |top| ==> weights[top[k]] < 4
  {
    if top != [] {
      var init := top[..|top| - 1];
      HeavyIsLeadingRun(keys, weights, init);
      var h := Heavy(keys, weights, init);
      var a := top[|top| - 1];
      if weights[a] >= 4 {
        assert forall k :: 0 <= k < |init| ==> weights[init[k]] >= weights[a];
        assert |h| == |init|;
      }
    }
  }

  /** Facts about the dict keys: counted tokens of the text, each once. */
  lemma KeysShape(words: seq<string>, stops: set<string>)
    ensures forall x :: x in Keys(words, stops) <==> x in words && Eligible(x, stops)
    ensures forall i, j :: 0 <= i < j < |Keys(words, stops)| ==> Keys(words, stops)[i] != Keys(words, stops)[j]
  {
  }

  /** The cut-and-filter step on any distinct keys: a leading run of the ranking, all above the threshold. */
  lemma TopKeywordsShape(keys: seq<string>, weights: seq<int>, topK: nat)
    requires |weights| == |keys|
    requires forall i, j :: 0 <= i < j < |keys| ==> keys[i] != keys[j]
    ensures |TopKeywords(keys, weights, topK)| <= Min(topK, |keys|)
    ensures forall k :: 0 <= k < |TopKeywords(keys, weights, topK)| ==>
      TopKeywords(keys, weights, topK)[k] == keys[Ranked(weights)[k]] && weights[Ranked(weights)[k]] >= 4
    ensures forall k :: Min(topK, |keys|) > k >= |TopKeywords(keys, weights, topK)| ==> weights[Ranked(weights)[k]] < 4
    ensures forall j, k :: 0 <= j < k < |TopKeywords(keys, weights, topK)| ==>
      TopKeywords(keys, weights, topK)[j] != TopKeywords(keys, weights, topK)[k]
      && weights[Ranked(weights)[j]] >= weights[Ranked(weights)[k]]
  {
    var r := Ranked(weights);
    var top := r[..Min(topK, |r|)];
    RankedDistinct(weights);
    HeavyIsLeadingRun(keys, weights, top);
    forall j, k | 0 <= j < k < |top| ensures weights[top[j]] >= weights[top[k]] && top[j] != top[k] {
      assert Before(weights, r[j], r[k]);
    }
  }

  /** The keywords: at most `top_k` distinct counted tokens, each occurring at least twice, heaviest first. */
  lemma KeywordsShape(text: string, topK: nat)
    ensures text == [] ==> Keywords(text, topK) == []
    ensures |Keywords(text, topK)| <= topK
    ensures forall k :: 0 <= k < |Keywords(text, topK)| ==>
      Keywords(text, topK)[k] in Tokens(text) && Eligible(Keywords(text, topK)[k], StopWords)
      && Count(Tokens(text), Keywords(text, topK)[k]) >= 2
    ensures forall j, k :: 0 <= j < k < |Keywords(text, topK)| ==>
      Keywords(text, topK)[j] != Keywords(text, topK)[k]
      && WeightOf(Tokens(text), Keywords(text, topK)[j]) >= WeightOf(Tokens(text), Keywords(text, topK)[k])
  {
    if text != [] {
      var words := Tokens(text);
      var keys := Keys(words, StopWords);
      var weights := Weights(words, keys);
      var r := Ranked(weights);
      var kws := Keywords(text, topK);
      KeysShape(words, StopWords);
      TopKeywordsShape(keys, weights, topK);
      forall k | 0 <= k < |kws| ensures kws[k] in words && Eligible(kws[k], StopWords) && Count(words, kws[k]) >= 2 {
        assert kws[k] == keys[r[k]];
        WeightThreshold(words, kws[k]);
      }
      forall j, k | 0 <= j < k < |kws| ensures WeightOf(words, kws[j]) >= WeightOf(words, kws[k]) {
        assert kws[j] == keys[r[j]] && kws[k] == keys[r[k]];
      }
    }
  }

  /**
   * Ties keep the dict's order: of two keywords with the same weight, the one
   * whose token first occurs earlier in the text comes first.
   */
  lemma KeywordsTieOrder(text: string, topK: nat, j: nat, k: nat)
    requires j < k < |Keywords(text, topK)|
    requires WeightOf(Tokens(text), Keywords(text, topK)[j]) == WeightOf(Tokens(text), Keywords(text, topK)[k])
    ensures Keywords(text, topK)[j] in Tokens(text) && Keywords(text, topK)[k] in Tokens(text)
    ensures IndexOf(Tokens(text), Keywords(text, topK)[j]) < IndexOf(Tokens(text), Keywords(text, topK)[k])
  {
    var words := Tokens(text);
    var e := EligibleWords(words, StopWords);
    var keys := Keys(words, StopWords);
    var weights := Weights(words, keys);
    var r := Ranked(weights);
    var kws := Keywords(text, topK);
    KeywordsShape(text, topK);
    TopKeywordsShape(keys, weights, topK);
    assert kws[j] == keys[r[j]] && kws[k] == keys[r[k]];
    assert Before(weights, r[j], r[k]);
    assert r[j] < r[k];
    assert keys[r[j]] in e && keys[r[k]] in e;
    EligibleOrder(words, StopWords, kws[j], kws[k]);
  }

  /** The counted tokens of a text are those of all but its last token, then the last one when it is counted. */
  lemma EligibleSnoc(words: seq<string>, stops: set<string>)
    requires words != []
    ensures var e0 := EligibleWords(words[..|words| - 1], stops);
      && EligibleWords(words, stops) == e0 + (if Eligible(words[|words| - 1], stops) then [words[|words| - 1]] else [])
      && EligibleWords(words, stops)[..|e0|] == e0
  {
  }

  /** Counting keeps the text order of first occurrences. */
  lemma {:induction false} EligibleOrder(words: seq<string>, stops: set<string>, x: string, y: string)
    requires x in EligibleWords(words, stops) && y in EligibleWords(words, stops)
    requires IndexOf(EligibleWords(words, stops), x) < IndexOf(EligibleWords(words, stops), y)
    ensures IndexOf(words, x) < IndexOf(words, y)
  {
    var init := words[..|words| - 1];
    var w := words[|words| - 1];
    var e0 := EligibleWords(init, stops);
    var e := EligibleWords(words, stops);
    EligibleSnoc(words, stops);
    if y in init {
      assert y in e0;
      var ix := IndexOf(e, x);
      assert e[ix] == e0[ix];
      assert x in e0;
      IndexOfPrefix(e, |e0|, x);
      IndexOfPrefix(e, |e0|, y);
      EligibleOrder(init, stops, x, y);
      IndexOfPrefix(words, |words| - 1, x);
      IndexOfPrefix(words, |words| - 1, y);
    } else {
      assert y == w;
      assert x != y;
      assert x in init;
      IndexOfPrefix(words, |words| - 1, x);
    }
  }

  /**
   * A counted token that occurs at least twice is missing from the keywords
   * only when `top_k` tokens at least as heavy fill the list.
   */
  lemma KeywordsComplete(text: string, topK: nat, v: string)
    requires text != [] && v in Tokens(text) && Eligible(v, StopWords) && Count(Tokens(text), v) >= 2
    requires v !in Keywords(text, topK)
    ensures |Keywords(text, topK)| == topK
    ensures forall k :: 0 <= k < |Keywords(text, topK)| ==>
      WeightOf(Tokens(text), Keywords(text, topK)[k]) >= WeightOf(Tokens(text), v)
  {
    var words := Tokens(text);
    var keys := Keys(words, StopWords);
    var weights := Weights(words, keys);
    KeysShape(words, StopWords);
    WeightThreshold(words, v);
    var i := IndexOf(keys, v);
    LeftOutIsOutweighed(keys, weights, topK, i);
    forall k | 0 <= k < |Keywords(text, topK)| ensures
      WeightOf(words, Keywords(text, topK)[k]) >= WeightOf(words, v)
    {
      var j := IndexOf(keys, Keywords(text, topK)[k]);
    }
  }

  /** A key above the threshold that was cut off sits below a full list of `top_k` keys at least as heavy. */
  lemma LeftOutIsOutweighed(keys: seq<string>, weights: seq<int>, topK: nat, i: nat)
    requires |weights| == |keys|
    requires forall i, j :: 0 <= i < j < |keys| ==> keys[i] != keys[j]
    requires i < |keys| && keys[i] !in TopKeywords(keys, weights, topK) && weights[i] >= 4
    ensures |TopKeywords(keys, weights, topK)| == topK
    ensures forall k :: 0 <= k < |TopKeywords(keys, weights, topK)| ==>
      TopKeywords(keys, weights, topK)[k] in keys
      && weights[IndexOf(keys, TopKeywords(keys, weights, topK)[k])] >= weights[i]
  {
    var r := Ranked(weights);
    var m := Min(topK, |r|);
    var h := TopKeywords(keys, weights, topK);
    TopKeywordsShape(keys, weights, topK);
    assert i in r;
    var b :| 0 <= b < |r| && r[b] == i;
    assert forall k :: 0 <= k < |h| ==> r[k] != i;
    assert b >= |h|;
    assert b >= m;
    assert forall k :: 0 <= k < m ==> Before(weights, r[k], r[b]);
    assert |h| == m;
    forall k | 0 <= k < |h| ensures h[k] in keys && weights[IndexOf(keys, h[k])] >= weights[i] {
      assert h[k] == keys[r[k]];
      assert IndexOf(keys, h[k]) == r[k];
    }
  }

  /**
   * The boost for long tokens: of two counted tokens with the same count, one
   * of four or more characters and one shorter, the long one is placed first
   * and is a keyword whenever the short one is.
   */
  lemma LongTokenFirst(text: string, topK: nat, long: string, short: string)
    requires text != [] && long in Tokens(text) && Eligible(long, StopWords) && |long| >= 4 && |short| < 4
    requires Count(Tokens(text), long) == Count(Tokens(text), short)
    requires short in Keywords(text, topK)
    ensures long in Keywords(text, topK)
    ensures IndexOf(Keywords(text, topK), long) < IndexOf(Keywords(text, topK), short)
  {
    var words := Tokens(text);
    var kws := Keywords(text, topK);
    KeywordsShape(text, topK);
    var s := IndexOf(kws, short);
    assert Count(words, short) >= 2;
    assert WeightOf(words, long) > WeightOf(words, short);
    if long !in kws {
      KeywordsComplete(text, topK, long);
      assert false;
    }
    var l := IndexOf(kws, long);
    assert l != s;
  }
}
