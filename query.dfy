/** The news API request the panel issues when its inputs change:
    the keyword expression of `fetchArticles` and the choice between the
    "everything" search and the "top-headlines" endpoints. */
module Query {
  import opened Wrappers
  import opened Text

  /** Fixed request parameters of the two endpoints. */
  const SearchPageSize: nat := 100
  const HeadlinesPageSize: nat := 20
  const Language := "en"
  const SortBy := "popularity"
  const Country := "us"

  /** A request to the news API. The lookback date, the API key and the
      percent-encoding of `keywords` are not part of this model. */
  datatype Endpoint =
    | Everything(keywords: string, sortBy: string, pageSize: nat, language: string)
    | TopHeadlines(pageSize: nat, language: string, country: string)

  /** The OR-group of all locales, in parentheses: `(l1 OR l2 ...)`. */
  function LocaleGroup(locales: seq<string>): string
  {
    "(" + Join(locales, " OR ") + ")"
  }

  /** The topic in double quotes: `"topic"`. */
  function Quoted(topic: string): string
  {
    "\"" + topic + "\""
  }

  /** The keyword expression, case by case: topic only, locales only, both
      joined by ` AND `, or the empty string when there is neither. */
  function Keywords(topic: Option<string>, locales: seq<string>): string
  {
    if Truthy(topic) && |locales| > 0 then Quoted(topic.value) + " AND " + LocaleGroup(locales)
    else if Truthy(topic) then Quoted(topic.value)
    else if |locales| > 0 then LocaleGroup(locales)
    else ""
  }

  /** `fetchArticles`: the keyword string accumulated with `+=`. */
  method BuildKeywords(topic: Option<string>, locales: seq<string>) returns (keywords: string)
    ensures keywords == Keywords(topic, locales)
  {
    keywords := "";
    if Truthy(topic) {
      keywords := keywords + "\"" + topic.value + "\"";
    }
    if |locales| > 0 {
      if Truthy(topic) {
        keywords := keywords + " AND ";
      }
      keywords := keywords + "(" + Join(locales, " OR ") + ")";
    }
  }

  /** The first effect: search "everything" when there are locales or a topic,
      otherwise ask for the top headlines. */
  function ChooseEndpoint(locales: seq<string>, topic: Option<string>): (e: Endpoint)
    ensures e.Everything? <==> |locales| > 0 || Truthy(topic)
    ensures e.Everything? ==> e.keywords == Keywords(topic, locales) && e.keywords != ""
  {
    if |locales| > 0 || Truthy(topic) then Everything(Keywords(topic, locales), SortBy, SearchPageSize, Language)
    else TopHeadlines(HeadlinesPageSize, Language, Country)
  }

  /** The keyword expression is empty exactly when there is neither a topic nor
      a locale, which is exactly when the headlines endpoint is chosen: a search
      is never sent with an empty query, and the headlines request drops no
      keyword. */
  lemma KeywordsEmptyIffHeadlines(locales: seq<string>, topic: Option<string>)
    ensures Keywords(topic, locales) == "" <==> ChooseEndpoint(locales, topic).TopHeadlines?
    ensures ChooseEndpoint(locales, topic).Everything? <==> |locales| > 0 || Truthy(topic)
  {
  }

  /** A search request names every locale and the quoted topic in its query. */
  lemma SearchMentionsEveryInput(locales: seq<string>, topic: Option<string>)
    requires ChooseEndpoint(locales, topic).Everything?
    ensures forall i :: 0 <= i < |locales| ==> Includes(ChooseEndpoint(locales, topic).keywords, locales[i])
    ensures Truthy(topic) ==> Includes(ChooseEndpoint(locales, topic).keywords, Quoted(topic.value))
  {
    KeywordsMentionLocales(locales, topic);
    if Truthy(topic) {
      KeywordsMentionTopic(locales, topic.value);
    }
  }

  /** Every locale occurs in the keyword expression. */
  lemma KeywordsMentionLocales(locales: seq<string>, topic: Option<string>)
    ensures forall i :: 0 <= i < |locales| ==> Includes(Keywords(topic, locales), locales[i])
  {
    if |locales| > 0 {
      var joined := Join(locales, " OR ");
      var prefix := if Truthy(topic) then Quoted(topic.value) + " AND (" else "(";
      assert Keywords(topic, locales) == prefix + joined + ")";
      JoinIncludesParts(locales, " OR ");
      forall i | 0 <= i < |locales| ensures Includes(prefix + joined + ")", locales[i]) {
        IncludesWithin(prefix, joined, ")", locales[i]);
      }
    }
  }

  /** A truthy topic occurs, in quotes, in the keyword expression. */
  lemma KeywordsMentionTopic(locales: seq<string>, topic: string)
    requires topic != ""
    ensures Includes(Keywords(Some(topic), locales), Quoted(topic))
  {
  }

  /** The three shapes of the keyword expression, on the example of a topic and
      two locales. */
  lemma KeywordsExample()
    ensures Keywords(Some("election"), ["Paris", "Berlin"]) == "\"election\" AND (Paris OR Berlin)"
    ensures Keywords(Some("election"), []) == "\"election\""
    ensures Keywords(None, ["Paris", "Berlin"]) == "(Paris OR Berlin)"
  {
    var locales := ["Paris", "Berlin"];
    assert locales[1..] == ["Berlin"];
    assert Join(["Berlin"], " OR ") == "Berlin";
    assert Join(locales, " OR ") == "Paris" + (" OR " + "Berlin");
    var group := LocaleGroup(locales);
    assert group == "(Paris OR Berlin)";
    var quoted := Quoted("election");
    assert quoted == "\"election\"";
    assert Keywords(Some("election"), locales) == quoted + " AND " + group;
  }
}
