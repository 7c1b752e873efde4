/** What the panel renders below its heading: the tagged articles, in order,
    each possibly highlighted, or a single "No articles" placeholder. */
module Render {
  import opened Wrappers
  import opened Text
  import opened Articles
  import opened Tally

  /** One rendered list entry: the article shown and whether it is highlighted. */
  datatype Item = Item(article: Article, highlight: bool)

  /** The panel's list: entries, or the "No articles" placeholder. */
  datatype View = Placeholder | Entries(items: seq<Item>)

  /** `articles.filter(a => !!a.locale).map(...)`: one entry per article with a
      truthy locale, highlighted when that locale is the selected one. */
  function RenderList(articles: seq<Article>, selected: Option<string>): (items: seq<Item>)
    reads articles
    ensures |items| == TaggedCount(Tags(articles))
    ensures forall k :: 0 <= k < |items| ==>
              items[k].article in articles && Truthy(items[k].article.locale)
              && (items[k].highlight <==> items[k].article.locale == selected)
  {
    if |articles| == 0 then []
    else
      var n := |articles| - 1;
      var a := articles[n];
      assert Tags(articles[..n]) == Tags(articles)[..n];
      RenderList(articles[..n], selected) + (if Truthy(a.locale) then [Item(a, a.locale == selected)] else [])
  }

  /** The list part of the render: the placeholder only when the unfiltered
      article list is empty. */
  function Render(articles: seq<Article>, selected: Option<string>): (v: View)
    reads articles
    ensures v.Placeholder? <==> |articles| == 0
  {
    if |articles| > 0 then Entries(RenderList(articles, selected)) else Placeholder
  }

  /** Rendering a concatenation renders each part in turn: the entries keep the
      order of the articles. */
  lemma {:induction false} RenderListAppend(front: seq<Article>, back: seq<Article>, selected: Option<string>)
    ensures RenderList(front + back, selected) == RenderList(front, selected) + RenderList(back, selected)
  {
    if |back| > 0 {
      var n := |back| - 1;
      assert (front + back)[..|front| + n] == front + back[..n];
      RenderListAppend(front, back[..n], selected);
    } else {
      assert front + back == front;
    }
  }

  /** Every article with a truthy locale is rendered. */
  lemma {:induction false} RenderListComplete(articles: seq<Article>, selected: Option<string>, i: nat)
    requires i < |articles| && Truthy(articles[i].locale)
    ensures Item(articles[i], articles[i].locale == selected) in RenderList(articles, selected)
  {
    var n := |articles| - 1;
    if i < n {
      RenderListComplete(articles[..n], selected, i);
    }
  }

  /** Articles were fetched but none carries a locale: the list is empty and
      no placeholder is shown. */
  lemma FetchedButUntaggedRendersNothing(articles: seq<Article>, selected: Option<string>)
    requires |articles| > 0
    requires forall i :: 0 <= i < |articles| ==> !Truthy(articles[i].locale)
    ensures Render(articles, selected) == Entries([])
  {
    UntaggedCountsZero(Tags(articles));
  }
}
