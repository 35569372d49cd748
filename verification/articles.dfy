/**
 * The article-list helpers of `NewsCollector`: URL de-duplication at the
 * end of `get_all_rss_feeds` (app.py:148-156) and `filter_by_keywords`
 * (app.py:158-171).
 */
module Articles {
  import opened Chars
  import opened Text

  /** The dict built per feed entry (app.py:100-107). */
  datatype Article = Article(
    title: string,
    link: string,
    description: string,
    published: string,
    summary: string,
    category: string)

  /** The links of a list of articles. */
  function LinkSet(articles: seq<Article>): set<string> {
    set a | a in articles :: a.link
  }

  lemma LinkSetSnoc(articles: seq<Article>, x: Article)
    ensures LinkSet(articles + [x]) == LinkSet(articles) + {x.link}
  {
    assert forall a :: a in articles + [x] <==> a in articles || a == x;
  }

  /** Position of the first article with link `link`. */
  function FirstWithLink(articles: seq<Article>, link: string): (k: nat)
    requires link in LinkSet(articles)
    ensures k < |articles| && articles[k].link == link
    ensures forall j :: 0 <= j < k ==> articles[j].link != link
  {
    if articles[0].link == link then 0
    else
      assert link in LinkSet(articles[1..]) by {
        var a :| a in articles && a.link == link;
        var j :| 0 <= j < |articles| && articles[j] == a;
        assert articles[1..][j - 1] == a;
      }
      1 + FirstWithLink(articles[1..], link)
  }

  /** The articles whose link was not seen before, in order. */
  function UniqueByLink(articles: seq<Article>): seq<Article> {
    if articles == [] then []
    else
      var init := articles[..|articles| - 1];
      var x := articles[|articles| - 1];
      UniqueByLink(init) + (if x.link in LinkSet(init) then [] else [x])
  }

  lemma UniqueByLinkSnoc(articles: seq<Article>, x: Article)
    ensures UniqueByLink(articles + [x]) == UniqueByLink(articles) + (if x.link in LinkSet(articles) then [] else [x])
  {
    assert (articles + [x])[..|articles|] == articles;
  }

  /** The de-duplication loop, with the `seen_urls` set. */
  method Dedup(articles: seq<Article>) returns (unique: seq<Article>)
    ensures unique == UniqueByLink(articles)
  {
    unique := [];
    var seen: set<string> := {};
    var i := 0;
    while i < |articles|
      invariant 0 <= i <= |articles|
      invariant unique == UniqueByLink(articles[..i])
      invariant seen == LinkSet(articles[..i])
    {
      var article := articles[i];
      assert articles[..i + 1] == articles[..i] + [article];
      UniqueByLinkSnoc(articles[..i], article);
      LinkSetSnoc(articles[..i], article);
      if article.link !in seen {
        unique := unique + [article];
        seen := seen + {article.link};
      }
      i := i + 1;
    }
    assert articles[..|articles|] == articles;
  }

  lemma {:induction false} FirstWithLinkSnoc(articles: seq<Article>, x: Article, link: string)
    requires link in LinkSet(articles)
    ensures link in LinkSet(articles + [x])
    ensures FirstWithLink(articles + [x], link) == FirstWithLink(articles, link)
  {
    LinkSetSnoc(articles, x);
    if articles[0].link != link {
      assert (articles + [x])[1..] == articles[1..] + [x];
      var k := FirstWithLink(articles, link);
      assert articles[1..][k - 1].link == link;
      assert link in LinkSet(articles[1..]);
      FirstWithLinkSnoc(articles[1..], x, link);
    }
  }

  /** De-duplication keeps a subsequence of the input, with pairwise distinct links and every link of the input. */
  lemma UniqueByLinkShape(articles: seq<Article>)
    ensures IsSubseq(UniqueByLink(articles), articles)
    ensures forall i, j :: 0 <= i < j < |UniqueByLink(articles)| ==>
      UniqueByLink(articles)[i].link != UniqueByLink(articles)[j].link
    ensures LinkSet(UniqueByLink(articles)) == LinkSet(articles)
  {
    UniqueByLinkSubseq(articles);
    UniqueByLinkLinks(articles);
  }

  lemma {:induction false} UniqueByLinkSubseq(articles: seq<Article>)
    ensures IsSubseq(UniqueByLink(articles), articles)
  {
    if articles != [] {
      var init := articles[..|articles| - 1];
      var x := articles[|articles| - 1];
      assert articles == init + [x];
      UniqueByLinkSubseq(init);
      UniqueByLinkSnoc(init, x);
      SubseqAppend(UniqueByLink(init), init, x);
      if x.link in LinkSet(init) {
        assert UniqueByLink(articles) == UniqueByLink(init);
      } else {
        assert UniqueByLink(articles) == UniqueByLink(init) + [x];
      }
    }
  }

  lemma {:induction false} UniqueByLinkLinks(articles: seq<Article>)
    ensures forall i, j :: 0 <= i < j < |UniqueByLink(articles)| ==>
      UniqueByLink(articles)[i].link != UniqueByLink(articles)[j].link
    ensures LinkSet(UniqueByLink(articles)) == LinkSet(articles)
  {
    if articles != [] {
      var init := articles[..|articles| - 1];
      var x := articles[|articles| - 1];
      assert articles == init + [x];
      UniqueByLinkLinks(init);
      var u := UniqueByLink(init);
      UniqueByLinkSnoc(init, x);
      LinkSetSnoc(init, x);
      if x.link !in LinkSet(init) {
        var r := u + [x];
        assert UniqueByLink(articles) == r;
        LinkSetSnoc(u, x);
        forall i, j | 0 <= i < j < |r| ensures r[i].link != r[j].link {
          assert r[i] == u[i];
          if j == |u| {
            assert r[j] == x;
            assert u[i].link in LinkSet(u);
          } else {
            assert r[j] == u[j];
          }
        }
      } else {
        assert UniqueByLink(articles) == u;
      }
    }
  }

  /** The article kept for a link is the first one with that link. */
  lemma {:induction false} UniqueByLinkFirst(articles: seq<Article>)
    ensures forall k :: 0 <= k < |UniqueByLink(articles)| ==>
      UniqueByLink(articles)[k].link in LinkSet(articles)
      && UniqueByLink(articles)[k] == articles[FirstWithLink(articles, UniqueByLink(articles)[k].link)]
  {
    if articles != [] {
      var init := articles[..|articles| - 1];
      var x := articles[|articles| - 1];
      assert articles == init + [x];
      UniqueByLinkFirst(init);
      var u := UniqueByLink(init);
      LinkSetSnoc(init, x);
      forall k | 0 <= k < |u|
        ensures u[k].link in LinkSet(articles) && u[k] == articles[FirstWithLink(articles, u[k].link)]
      {
        FirstWithLinkSnoc(init, x, u[k].link);
        var f := FirstWithLink(init, u[k].link);
        assert articles[f] == init[f];
      }
      UniqueByLinkSnoc(init, x);
      var r := UniqueByLink(articles);
      if x.link !in LinkSet(init) {
        assert r == u + [x];
        assert forall j :: 0 <= j < |init| ==> init[j].link in LinkSet(init);
        assert FirstWithLink(articles, x.link) == |init|;
        forall k | 0 <= k < |r|
          ensures r[k].link in LinkSet(articles) && r[k] == articles[FirstWithLink(articles, r[k].link)]
        {
          if k < |u| {
            assert r[k] == u[k];
          } else {
            assert r[k] == x;
          }
        }
      } else {
        assert r == u;
      }
    }
  }

  // ---------------------------------------------------------------------------
  // filter_by_keywords

  /** Some lower-cased keyword occurs in the lower-cased title or description. */
  predicate Matches(article: Article, keywordsLower: seq<string>) {
    exists k :: 0 <= k < |keywordsLower| &&
      (Contains(Lower(article.title), keywordsLower[k]) || Contains(Lower(article.description), keywordsLower[k]))
  }

  /** `[kw.lower() for kw in keywords]`. */
  function LowerAll(keywords: seq<string>): (r: seq<string>)
    ensures |r| == |keywords| && forall k :: 0 <= k < |r| ==> r[k] == Lower(keywords[k])
  {
    seq(|keywords|, k requires 0 <= k < |keywords| => Lower(keywords[k]))
  }

  /** The matching articles, in order. */
  function Filtered(articles: seq<Article>, keywords: seq<string>): seq<Article> {
    if articles == [] then []
    else
      var init := articles[..|articles| - 1];
      var x := articles[|articles| - 1];
      Filtered(init, keywords) + (if Matches(x, LowerAll(keywords)) then [x] else [])
  }

  /** The loop of `filter_by_keywords` (app.py:158-171). */
  method FilterByKeywords(articles: seq<Article>, keywords: seq<string>) returns (filtered: seq<Article>)
    ensures filtered == Filtered(articles, keywords)
  {
    filtered := [];
    var keywordsLower := LowerAll(keywords);
    var i := 0;
    while i < |articles|
      invariant 0 <= i <= |articles|
      invariant filtered == Filtered(articles[..i], keywords)
    {
      var article := articles[i];
      var titleLower := Lower(article.title);
      var descLower := Lower(article.description);
      assert articles[..i + 1][..i] == articles[..i];
      if exists k :: 0 <= k < |keywordsLower| && (Contains(titleLower, keywordsLower[k]) || Contains(descLower, keywordsLower[k])) {
        filtered := filtered + [article];
      }
      i := i + 1;
    }
    assert articles[..|articles|] == articles;
  }

  /**
   * Filtering keeps, in order, exactly the articles that match some keyword;
   * with no keywords nothing is kept.
   */
  lemma {:induction false} FilteredShape(articles: seq<Article>, keywords: seq<string>)
    ensures IsSubseq(Filtered(articles, keywords), articles)
    ensures forall a :: a in Filtered(articles, keywords) <==> a in articles && Matches(a, LowerAll(keywords))
    ensures forall a :: multiset(Filtered(articles, keywords))[a] == (if Matches(a, LowerAll(keywords)) then multiset(articles)[a] else 0)
    ensures keywords == [] ==> Filtered(articles, keywords) == []
  {
    if articles != [] {
      var init := articles[..|articles| - 1];
      var x := articles[|articles| - 1];
      var lower := LowerAll(keywords);
      assert articles == init + [x];
      FilteredShape(init, keywords);
      FilterSnoc(Filtered(init, keywords), init, x, a => Matches(a, lower));
      CountSnoc(Filtered(init, keywords), init, x, a => Matches(a, lower));
    }
  }
}
