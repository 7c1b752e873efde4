/** The article panel's state (`{loading, articles}`) and the transitions the
    source makes on it: a change of inputs, a completed fetch, and the report
    of locale weights once loading has finished. */
module PanelState {
  import opened Wrappers
  import opened Text
  import opened Articles
  import opened Query
  import opened Tally

  /** `res.articles || []`: the response's article list, or an empty list when
      the response has none. */
  function Received(response: Option<seq<Article>>): (articles: seq<Article>)
    ensures response.None? ==> articles == []
    ensures response.Some? ==> articles == response.value
  {
    match response
    case Some(list) => list
    case None => []
  }

  class Panel {
    var loading: bool
    var articles: seq<Article>

    /** The initial state: loading, with no articles. */
    constructor ()
      ensures loading && articles == []
    {
      loading := true;
      articles := [];
    }

    /** The first effect, run when `locales` or `searchTopic` changes: it
        issues the request for the new inputs and marks the panel as loading,
        keeping the articles it already shows. */
    method OnInputChange(locales: seq<string>, topic: Option<string>) returns (request: Endpoint)
      modifies this
      ensures loading && articles == old(articles)
      ensures request == ChooseEndpoint(locales, topic)
    {
      if |locales| > 0 || Truthy(topic) {
        var keywords := BuildKeywords(topic, locales);
        request := Everything(keywords, SortBy, SearchPageSize, Language);
      } else {
        request := TopHeadlines(HeadlinesPageSize, Language, Country);
      }
      loading := true;
    }

    /** A fetch completes (`fetchNewsApi`): every received article is
        classified in place with the locales of the request, then the state is
        replaced wholesale by `{loading: false, articles}`. */
    method OnFetchCompleted(locales: seq<string>, response: Option<seq<Article>>)
      modifies this, Received(response)
      ensures !loading && articles == Received(response)
      ensures forall a :: a in articles ==> a.locale == Classified(locales, a.title, a.content, old(a.locale))
    {
      var received := Received(response);
      ClassifyAll(locales, received);
      loading := false;
      articles := received;
    }

    /** The second effect: while loading nothing is reported; afterwards the
        weights of the current articles, tallied afresh, are handed to the
        parent (`setLocaleWeight`). */
    method ReportWeights() returns (report: Option<map<string, nat>>)
      ensures loading ==> report == None
      ensures !loading ==> report == Some(WeightsOf(Tags(articles)))
    {
      if !loading {
        var weights := TallyWeights(articles);
        report := Some(weights);
      } else {
        report := None;
      }
    }
  }
}
