/** The locale weights the panel reports to its parent: how many articles of
    the settled list carry each locale (the second effect of the panel). */
module Tally {
  import opened Wrappers
  import opened Text
  import opened Articles

  /** The locale of each article, in list order. */
  function Tags(articles: seq<Article>): (tags: seq<Option<string>>)
    reads articles
    ensures |tags| == |articles|
    ensures forall i :: 0 <= i < |articles| ==> tags[i] == articles[i].locale
  {
    seq(|articles|, i reads articles requires 0 <= i < |articles| => articles[i].locale)
  }

  /** The weight map after tallying `tags` one by one: a truthy locale seen for
      the first time gets weight 1, a known one is incremented, and a missing or
      empty locale is skipped. */
  function WeightsOf(tags: seq<Option<string>>): map<string, nat>
  {
    if |tags| == 0 then map[]
    else
      var weights := WeightsOf(tags[..|tags| - 1]);
      var tag := tags[|tags| - 1];
      if !Truthy(tag) then weights
      else if tag.value in weights then weights[tag.value := weights[tag.value] + 1]
      else weights[tag.value := 1]
  }

  /** Number of entries of `tags` that are truthy locales. */
  function TaggedCount(tags: seq<Option<string>>): nat
  {
    if |tags| == 0 then 0
    else TaggedCount(tags[..|tags| - 1]) + (if Truthy(tags[|tags| - 1]) then 1 else 0)
  }

  /** A list without a truthy locale has no tagged entry. */
  lemma {:induction false} UntaggedCountsZero(tags: seq<Option<string>>)
    requires forall i :: 0 <= i < |tags| ==> !Truthy(tags[i])
    ensures TaggedCount(tags) == 0
  {
    if |tags| > 0 {
      UntaggedCountsZero(tags[..|tags| - 1]);
    }
  }

  /** The tally loop of the weight effect, over a fresh, empty map. */
  method TallyWeights(articles: seq<Article>) returns (weights: map<string, nat>)
    ensures weights == WeightsOf(Tags(articles))
  {
    weights := map[];
    ghost var tags := Tags(articles);
    for i := 0 to |articles|
      invariant weights == WeightsOf(tags[..i])
    {
      assert tags[..i + 1][..i] == tags[..i];
      var locale := articles[i].locale;
      if Truthy(locale) {
        if locale.value in weights {
          weights := weights[locale.value := weights[locale.value] + 1];
        } else {
          weights := weights[locale.value := 1];
        }
      }
    }
    assert tags[..|articles|] == tags;
  }

  /** Each locale's weight is the number of articles tagged with it, and
      exactly the non-empty locales that tag at least one article have a
      weight. */
  lemma {:induction false} WeightsCountArticles(tags: seq<Option<string>>)
    ensures forall name :: name in WeightsOf(tags) <==> name != "" && multiset(tags)[Some(name)] > 0
    ensures forall name :: name in WeightsOf(tags) ==> WeightsOf(tags)[name] == multiset(tags)[Some(name)]
  {
    if |tags| > 0 {
      var n := |tags| - 1;
      WeightsCountArticles(tags[..n]);
      assert tags == tags[..n] + [tags[n]];
      assert multiset(tags) == multiset(tags[..n]) + multiset{tags[n]};
    }
  }

  /** Every weight is at least 1. */
  lemma WeightsPositive(tags: seq<Option<string>>)
    ensures forall name :: name in WeightsOf(tags) ==> WeightsOf(tags)[name] >= 1
  {
  }

  /** Some key of a non-empty map. */
  ghost function SomeKey(m: map<string, nat>): (k: string)
    requires |m| > 0
    ensures k in m
  {
    var k :| k in m; k
  }

  /** Sum of the values of a map. */
  ghost function MapSum(m: map<string, nat>): nat
    decreases |m|
  {
    if |m| == 0 then 0
    else
      var k := SomeKey(m);
      assert |m - {k}| < |m| by {
        assert (m - {k}).Keys == m.Keys - {k};
      }
      m[k] + MapSum(m - {k})
  }

  /** Any key can be taken out of the sum first. */
  lemma {:induction false} MapSumRemove(m: map<string, nat>, k: string)
    requires k in m
    ensures MapSum(m) == m[k] + MapSum(m - {k})
    decreases |m|
  {
    var j := SomeKey(m);
    if j != k {
      var mj, mk := m - {j}, m - {k};
      assert mj.Keys == m.Keys - {j} && |mj| < |m|;
      assert mk.Keys == m.Keys - {k} && |mk| < |m|;
      MapSumRemove(mj, k);
      MapSumRemove(mk, j);
      assert mj - {k} == mk - {j};
    }
  }

  /** Setting one key replaces its old value in the sum. */
  lemma MapSumUpdate(m: map<string, nat>, k: string, v: nat)
    ensures MapSum(m[k := v]) == v + MapSum(m - {k})
    ensures k in m ==> MapSum(m) == m[k] + MapSum(m - {k})
    ensures k !in m ==> MapSum(m) == MapSum(m - {k})
  {
    MapSumRemove(m[k := v], k);
    assert m[k := v] - {k} == m - {k};
    if k in m {
      MapSumRemove(m, k);
    } else {
      assert m - {k} == m;
    }
  }

  /** The weights add up to the number of articles with a truthy locale. */
  lemma {:induction false} WeightsSumToTagged(tags: seq<Option<string>>)
    ensures MapSum(WeightsOf(tags)) == TaggedCount(tags)
  {
    if |tags| > 0 {
      var n := |tags| - 1;
      WeightsSumToTagged(tags[..n]);
      var weights := WeightsOf(tags[..n]);
      var tag := tags[n];
      if Truthy(tag) {
        var v := if tag.value in weights then weights[tag.value] + 1 else 1;
        MapSumUpdate(weights, tag.value, v);
      }
    }
  }
}
