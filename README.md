# ArticlePanel: locale classification, weights, query and render filter

This project models the logic of the `ArticlePanel` React component of a
COVID-19 news tracker (`src/components/article/panel.jsx`). The panel asks a
news API for articles about a search topic and a list of "locales" (place
names supplied by its parent). It tags each received article with a locale
found in its title or content. It reports to the parent how many articles
carry each locale. It renders the tagged articles and highlights those whose
locale is the one currently selected.

The model is split into modules that follow the component's pieces:

- `Wrappers`: `Option`, standing for a JavaScript field that may be absent.
- `Text`: JavaScript string truthiness, `includes` and `join`.
- `Articles`: the article record as a class whose `locale` field is written
  in place, and `getTopicLocale`, which tags one article or a whole response.
- `Query`: the keyword expression and the choice between the "everything"
  search endpoint and the "top-headlines" endpoint.
- `Tally`: the locale-weight map built by the second effect.
- `Render`: the filtered, highlighted article list and the "No articles"
  placeholder.
- `PanelState`: the `{loading, articles}` state and its transitions.

Two places in the code read differently from what they seem to do, and the
model follows what they do:

- The `return` inside the `forEach` callback of `getTopicLocale`
  (`panel.jsx:31`) looks like an early exit, but it only leaves the callback.
  The scan goes on, and each later match overwrites the earlier one, so an
  article ends up with the **last** matching locale in list order.
  `Articles.LastMatchOverridesFirst` gives an article for which the last match
  and the first match differ.
- The test at `panel.jsx:148` looks at the **unfiltered** article list, while
  the entries come from the filtered one. If articles arrive but none is
  tagged, the list renders empty and no "No articles" placeholder is shown
  (`Render.FetchedButUntaggedRendersNothing`).

JavaScript truthiness of a string field is modelled as "present and not
empty". So a missing or empty title never matches. An empty locale name
matches every non-empty title or content. An article tagged with the empty
locale is neither counted nor rendered.

## Model

| member | source | states |
|---|---|---|
| `Text.Includes` | src/components/article/panel.jsx:30 | `includes` holds exactly when the locale occurs at some index of the text |
| `Text.JoinIncludesParts` | src/components/article/panel.jsx:72 | a `join` of the locales contains every locale |
| `Articles.LastMatch` | src/components/article/panel.jsx:29-33 | no result exactly when no locale matches; otherwise the result is a matching locale of the list with no matching locale after it (last match wins) |
| `Articles.Classified` | src/components/article/panel.jsx:26-34 | the new locale is the previous one or a listed locale found in the title or content; when nothing matches, including when the list is empty, the previous locale is kept |
| `Articles.GetTopicLocale` | src/components/article/panel.jsx:26-34 | after the scan the article's locale is the last match, or the previous locale when nothing matched; the description is never consulted |
| `Articles.ClassifiedIdempotent` | src/components/article/panel.jsx:44-46 | classifying an article a second time does not change its locale |
| `Articles.ClassifyAll` | src/components/article/panel.jsx:44-46 | every article of the response, even one listed twice, ends with the locale one classification gives it |
| `Articles.MissingTextNeverMatches` | src/components/article/panel.jsx:30 | an article with neither title nor content keeps its locale |
| `Articles.LastMatchIsFirstWhenUnique` | src/components/article/panel.jsx:29-33 | when at most one locale matches, the last match is also the first match |
| `Articles.LastMatchOverridesFirst` | src/components/article/panel.jsx:29-33 | with locales `a`, `b` and title `ab` the article is tagged `b`, while the first match would be `a` |
| `Query.BuildKeywords` | src/components/article/panel.jsx:64-73 | the string built with `+=` is the quoted topic, the parenthesised OR-group of locales, or both joined by ` AND ` |
| `Query.KeywordsExample` | src/components/article/panel.jsx:64-73 | topic `election` with `Paris`, `Berlin` gives `"election" AND (Paris OR Berlin)`; topic only and locales only give the two single forms |
| `Query.ChooseEndpoint` | src/components/article/panel.jsx:92-96 | the "everything" search, carrying the keyword string, is requested exactly when there are locales or a truthy topic; otherwise the top headlines are requested |
| `Query.KeywordsEmptyIffHeadlines` | src/components/article/panel.jsx:92-96 | the search endpoint is used exactly when there are locales or a truthy topic; the keyword string is empty exactly when the headlines endpoint is used |
| `Query.KeywordsMentionLocales` | src/components/article/panel.jsx:68-73 | every locale occurs in the keyword string |
| `Query.KeywordsMentionTopic` | src/components/article/panel.jsx:65-67 | a truthy topic occurs in double quotes in the keyword string |
| `Query.SearchMentionsEveryInput` | src/components/article/panel.jsx:64-76 | a search request's query names every locale and the quoted topic |
| `Tally.TallyWeights` | src/components/article/panel.jsx:109-120 | the loop over a fresh empty map yields the weight map of the current articles' locales |
| `Tally.WeightsCountArticles` | src/components/article/panel.jsx:111-120 | a locale has a weight exactly when it is non-empty and tags at least one article, and its weight is the number of articles it tags |
| `Tally.WeightsPositive` | src/components/article/panel.jsx:113-118 | no locale is reported with weight 0 |
| `Tally.WeightsSumToTagged` | src/components/article/panel.jsx:111-120 | the weights add up to the number of articles with a truthy locale |
| `Render.RenderList` | src/components/article/panel.jsx:149-152 | one entry per article with a truthy locale, each entry an article of the list, highlighted exactly when its locale equals the selected locale |
| `Render.RenderListAppend` | src/components/article/panel.jsx:149-151 | rendering keeps the articles' order: the entries of a concatenation are the entries of each part in turn |
| `Render.RenderListComplete` | src/components/article/panel.jsx:149-152 | every article with a truthy locale is rendered, with its highlight flag |
| `Render.Render` | src/components/article/panel.jsx:148-173 | the placeholder appears exactly when the unfiltered article list is empty |
| `Render.FetchedButUntaggedRendersNothing` | src/components/article/panel.jsx:148-150 | articles fetched but none tagged: an empty list and no placeholder |
| `PanelState.Received` | src/components/article/panel.jsx:42 | a response without `articles` yields the empty list |
| `PanelState.Panel.constructor` | src/components/article/panel.jsx:11-14 | the panel starts loading with no articles |
| `PanelState.Panel.OnInputChange` | src/components/article/panel.jsx:91-100 | an input change requests the endpoint chosen for the new inputs, sets `loading` and keeps the old articles |
| `PanelState.Panel.OnFetchCompleted` | src/components/article/panel.jsx:40-51 | a completed fetch classifies every received article and replaces the state wholesale with `loading` false and the received list |
| `PanelState.Panel.ReportWeights` | src/components/article/panel.jsx:106-125 | nothing is reported while loading; afterwards the report is the weight map of the current articles, built afresh |

## Left out

- The network fetch, `res.json()` and the promise chain: the parsed response is an input of `OnFetchCompleted`. A failed fetch never reaches that method, so the panel stays loading, as in the source.
- React effect scheduling, `panelRef` scrolling, and the race between overlapping requests: these belong to the framework. `OnFetchCompleted` takes the locales of the request it answers as a parameter.
- The 14-day lookback date, the API key, `encodeURI` and the URL text: these depend on the clock, the environment and a library call. `Query.Endpoint` keeps the keyword string before encoding and the fixed parameters.
- `formatContent` and the item's title, author, content and date markup: the regular-expression stripping is JavaScript regex semantics, not panel logic.
- The heading text ("News" or the topic, and the locales joined by ", "): this is markup only.
- `propTypes`, `defaultProps` and `panel.css.js`: they hold no logic.
- `Articles.GetTopicLocale`: an absent `locales` prop is not modelled, because the first effect would already fail on `locales.length` before any fetch. An empty list is modelled.
- `Tally.TallyWeights`: does not model the source's use of a plain object as the weight map. Assigning the key `__proto__` (line 117) is ignored, so that locale is never counted. Once a locale named `hasOwnProperty` has been counted, line 117 has replaced the object's `hasOwnProperty` method with the number 1. The next article with a truthy locale then throws a TypeError at line 114, the effect aborts, and line 123 reports nothing. The model treats every locale string as an ordinary key and always reports a map.
- Non-string values in the article fields are not modelled. Each field is a string or absent.
- `Text.Includes`: Dafny strings are sequences of Unicode scalar values, while JavaScript strings are sequences of UTF-16 code units. The two agree on well-formed text, but strings with lone surrogates cannot be represented in the model.
