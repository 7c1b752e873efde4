/** News articles as received from the news API, and their classification by
    locale (`getTopicLocale` in the article panel). */
module Articles {
  import opened Wrappers
  import opened Text

  /** One article record of the API response. The source writes only its
      `locale` field, which is absent until classification finds a match. */
  class Article {
    const title: Option<string>
    const author: Option<string>
    const content: Option<string>
    const description: Option<string>
    const url: Option<string>
    const publishedAt: Option<string>
    var locale: Option<string>

    constructor (title: Option<string>, author: Option<string>, content: Option<string>,
                 description: Option<string>, url: Option<string>, publishedAt: Option<string>)
      ensures this.title == title && this.author == author && this.content == content
      ensures this.description == description && this.url == url && this.publishedAt == publishedAt
      ensures this.locale == None
    {
      this.title := title;
      this.author := author;
      this.content := content;
      this.description := description;
      this.url := url;
      this.publishedAt := publishedAt;
      this.locale := None;
    }
  }

  /** Locale name `name` is found in the article text: the title, or else the
      content, is present, non-empty and contains `name` (case-sensitive). */
  predicate Matches(name: string, title: Option<string>, content: Option<string>)
  {
    (Truthy(title) && Includes(title.value, name)) || (Truthy(content) && Includes(content.value, name))
  }

  /** The last locale in list order that is found in the article text. */
  function LastMatch(locales: seq<string>, title: Option<string>, content: Option<string>): (r: Option<string>)
    ensures r.None? <==> forall j :: 0 <= j < |locales| ==> !Matches(locales[j], title, content)
    ensures r.Some? ==> exists i :: 0 <= i < |locales| && locales[i] == r.value && Matches(locales[i], title, content)
                                  && forall j :: i < j < |locales| ==> !Matches(locales[j], title, content)
  {
    if |locales| == 0 then None
    else
      var n := |locales| - 1;
      if Matches(locales[n], title, content) then Some(locales[n])
      else
        var r := LastMatch(locales[..n], title, content);
        assert forall j :: 0 <= j < n ==> locales[..n][j] == locales[j];
        r
  }

  /** The locale an article carries after classification, given the one it had
      before (`prior`): the last matching locale, or `prior` if none matches. */
  function Classified(locales: seq<string>, title: Option<string>, content: Option<string>,
                      prior: Option<string>): (r: Option<string>)
    ensures r == prior || (r.Some? && r.value in locales && Matches(r.value, title, content))
    ensures (forall j :: 0 <= j < |locales| ==> !Matches(locales[j], title, content)) ==> r == prior
  {
    match LastMatch(locales, title, content)
    case Some(name) => Some(name)
    case None => prior
  }

  /** `getTopicLocale`: scan every locale in order and overwrite the article's
      locale with each one that matches, so the last match is kept. */
  method GetTopicLocale(locales: seq<string>, article: Article)
    modifies article
    ensures article.locale == Classified(locales, article.title, article.content, old(article.locale))
  {
    if |locales| < 1 {
      return;
    }
    for i := 0 to |locales|
      invariant article.locale == Classified(locales[..i], article.title, article.content, old(article.locale))
    {
      assert locales[..i + 1][..i] == locales[..i];
      if Matches(locales[i], article.title, article.content) {
        article.locale := Some(locales[i]);
      }
    }
    assert locales[..|locales|] == locales;
  }

  /** Classifying twice gives the same locale as classifying once, so an
      article that appears twice in a response ends up classified once. */
  lemma ClassifiedIdempotent(locales: seq<string>, title: Option<string>, content: Option<string>,
                             prior: Option<string>)
    ensures Classified(locales, title, content, Classified(locales, title, content, prior))
         == Classified(locales, title, content, prior)
  {
  }

  /** Classify every article of a response in place, in list order
      (the `forEach` over `res.articles`). */
  method ClassifyAll(locales: seq<string>, articles: seq<Article>)
    modifies articles
    ensures forall a :: a in articles ==> a.locale == Classified(locales, a.title, a.content, old(a.locale))
  {
    for i := 0 to |articles|
      invariant forall a :: a in articles[..i] ==> a.locale == Classified(locales, a.title, a.content, old(a.locale))
      invariant forall a :: a in articles && a !in articles[..i] ==> a.locale == old(a.locale)
    {
      var a := articles[i];
      ClassifiedIdempotent(locales, a.title, a.content, old(a.locale));
      GetTopicLocale(locales, a);
      assert articles[..i + 1] == articles[..i] + [a];
    }
    assert articles[..|articles|] == articles;
  }

  /** No locale can match an article that has neither title nor content. */
  lemma {:induction false} MissingTextNeverMatches(locales: seq<string>, prior: Option<string>)
    ensures Classified(locales, None, None, prior) == prior
  {
  }

  /** The first locale in list order that is found in the article text. */
  ghost function FirstMatch(locales: seq<string>, title: Option<string>, content: Option<string>): Option<string>
  {
    if |locales| == 0 then None
    else if Matches(locales[0], title, content) then Some(locales[0])
    else FirstMatch(locales[1..], title, content)
  }

  /** When at most one locale matches, keeping the last match is the same as
      keeping the first. */
  lemma {:induction false} LastMatchIsFirstWhenUnique(locales: seq<string>, title: Option<string>, content: Option<string>)
    requires forall i, j :: 0 <= i < j < |locales| && Matches(locales[i], title, content)
                            ==> !Matches(locales[j], title, content)
    ensures LastMatch(locales, title, content) == FirstMatch(locales, title, content)
  {
    if |locales| > 0 {
      LastMatchIsFirstWhenUnique(locales[1..], title, content);
      var r := LastMatch(locales, title, content);
      var r' := LastMatch(locales[1..], title, content);
      if Matches(locales[0], title, content) {
        assert forall j :: 1 <= j < |locales| ==> !Matches(locales[j], title, content);
        assert r'.None? by {
          assert forall j :: 0 <= j < |locales[1..]| ==> locales[1..][j] == locales[j + 1];
        }
      } else {
        assert r == r' by {
          LastMatchSkipsHead(locales, title, content);
        }
      }
    }
  }

  /** A locale at the head of the list that does not match changes nothing. */
  lemma {:induction false} LastMatchSkipsHead(locales: seq<string>, title: Option<string>, content: Option<string>)
    requires |locales| > 0 && !Matches(locales[0], title, content)
    ensures LastMatch(locales, title, content) == LastMatch(locales[1..], title, content)
  {
    var n := |locales| - 1;
    var tail := locales[1..];
    if n > 0 {
      assert tail[n - 1] == locales[n];
      if !Matches(locales[n], title, content) {
        var init := locales[..n];
        assert init[1..] == tail[..n - 1];
        LastMatchSkipsHead(init, title, content);
      }
    }
  }

  /** Two matching locales: the later one is the one kept. */
  lemma LastMatchOverridesFirst()
    ensures Classified(["a", "b"], Some("ab"), None, None) == Some("b")
    ensures FirstMatch(["a", "b"], Some("ab"), None) == Some("a")
  {
  }
}
