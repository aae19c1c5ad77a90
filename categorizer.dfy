/**
 * The categoriser: `pickCategory` (first matching rule wins, with a fallback) and
 * the tag loop of the extractor (every other matching rule). The rule table is a
 * parameter; module CategoryTable holds the table the application ships with.
 */
module Categorizer {
  import opened Text

  /** One entry of the rule table: a category and the keys that select it. */
  datatype Rule = Rule(cat: string, keys: seq<string>)

  /** The category of a text that no rule matches. */
  const Fallback: string := "Прочее"

  /** `r.keys.some(k => t.includes(k))`. */
  predicate Matches(r: Rule, t: string) {
    exists k | k in r.keys :: Includes(t, k)
  }

  /** Rule `i` matches `t` and no earlier rule does. */
  predicate IsFirstMatch(rules: seq<Rule>, t: string, i: int) {
    0 <= i < |rules| && Matches(rules[i], t) && forall j :: 0 <= j < i ==> !Matches(rules[j], t)
  }

  /** No rule of the table matches `t`. */
  predicate NoneMatch(rules: seq<Rule>, t: string) {
    forall i :: 0 <= i < |rules| ==> !Matches(rules[i], t)
  }

  /** No two rules share a category. */
  predicate DistinctCats(rules: seq<Rule>) {
    forall i, j :: 0 <= i < j < |rules| ==> rules[i].cat != rules[j].cat
  }

  /** The category `pickCategory` assigns, given the normalised text. */
  function CategoryOf(rules: seq<Rule>, t: string): string
    decreases |rules|
  {
    if rules == [] then Fallback
    else if Matches(rules[0], t) then rules[0].cat
    else CategoryOf(rules[1..], t)
  }

  /** `CategoryOf` is the category of the lowest-index matching rule, and the
      fallback when no rule matches. */
  lemma {:induction false} CategoryOfIsFirstMatch(rules: seq<Rule>, t: string)
    ensures forall i :: IsFirstMatch(rules, t, i) ==> CategoryOf(rules, t) == rules[i].cat
    ensures NoneMatch(rules, t) ==> CategoryOf(rules, t) == Fallback
    decreases |rules|
  {
    if rules != [] && !Matches(rules[0], t) {
      CategoryOfIsFirstMatch(rules[1..], t);
      forall i | IsFirstMatch(rules, t, i) ensures IsFirstMatch(rules[1..], t, i - 1) {
        assert i != 0;
      }
      if NoneMatch(rules, t) {
        assert NoneMatch(rules[1..], t);
      }
    }
  }

  /** When some rule matches, a first matching rule exists. */
  lemma {:induction false} FirstMatchExists(rules: seq<Rule>, t: string)
    requires !NoneMatch(rules, t)
    ensures exists i :: IsFirstMatch(rules, t, i)
    decreases |rules|
  {
    if Matches(rules[0], t) {
      assert IsFirstMatch(rules, t, 0);
    } else {
      assert !NoneMatch(rules[1..], t);
      FirstMatchExists(rules[1..], t);
      var i :| IsFirstMatch(rules[1..], t, i);
      assert IsFirstMatch(rules, t, i + 1);
    }
  }

  /** With a table in which no rule is named like the fallback, the fallback is
      assigned exactly when no rule matches. */
  lemma FallbackExactlyWhenNoneMatch(rules: seq<Rule>, t: string)
    requires forall i :: 0 <= i < |rules| ==> rules[i].cat != Fallback
    ensures CategoryOf(rules, t) == Fallback <==> NoneMatch(rules, t)
  {
    CategoryOfIsFirstMatch(rules, t);
    if !NoneMatch(rules, t) {
      FirstMatchExists(rules, t);
    }
  }

  /** `pickCategory(plain)`: scan the table, return the first matching rule's
      category, or the fallback. */
  method PickCategory(rules: seq<Rule>, plain: string) returns (cat: string)
    ensures cat == CategoryOf(rules, Normalize(plain))
    ensures forall i :: IsFirstMatch(rules, Normalize(plain), i) ==> cat == rules[i].cat
    ensures NoneMatch(rules, Normalize(plain)) ==> cat == Fallback
  {
    CategoryOfIsFirstMatch(rules, Normalize(plain));
    var t := Normalize(plain);
    for i := 0 to |rules|
      invariant CategoryOf(rules[i..], t) == CategoryOf(rules, t)
    {
      if Matches(rules[i], t) {
        return rules[i].cat;
      }
      assert rules[i..][1..] == rules[i + 1..];
    }
    return Fallback;
  }

  /** The tags of a message: in table order, the category of every rule whose
      category is not `primary` and that matches `t`. */
  function TagsOf(rules: seq<Rule>, primary: string, t: string): seq<string>
    decreases |rules|
  {
    if rules == [] then []
    else
      var r := rules[|rules| - 1];
      TagsOf(rules[..|rules| - 1], primary, t) + (if r.cat != primary && Matches(r, t) then [r.cat] else [])
  }

  /** Appending a rule to the table appends at most its own tag. */
  lemma TagsSnoc(rules: seq<Rule>, r: Rule, primary: string, t: string)
    ensures TagsOf(rules + [r], primary, t) ==
      TagsOf(rules, primary, t) + (if r.cat != primary && Matches(r, t) then [r.cat] else [])
  {
    assert (rules + [r])[..|rules|] == rules;
  }

  /** The tag loop of the extractor (`for (const r of CATEGORY_RULES) …`). */
  method CollectTags(rules: seq<Rule>, category: string, plain: string) returns (tags: seq<string>)
    ensures tags == TagsOf(rules, category, Normalize(plain))
  {
    tags := [];
    for i := 0 to |rules|
      invariant tags == TagsOf(rules[..i], category, Normalize(plain))
    {
      assert rules[..i + 1][..i] == rules[..i];
      var r := rules[i];
      if r.cat == category {
        continue;
      }
      var t := Normalize(plain);
      if Matches(r, t) {
        tags := tags + [r.cat];
      }
    }
    assert rules[..|rules|] == rules;
  }

  /** Tags never include the primary category; every tag is the category of a
      rule that matches `t`; every other matching rule contributes its tag. */
  lemma {:induction false} TagsSoundAndComplete(rules: seq<Rule>, primary: string, t: string)
    ensures primary !in TagsOf(rules, primary, t)
    ensures forall x :: x in TagsOf(rules, primary, t) ==>
      exists i :: 0 <= i < |rules| && rules[i].cat == x && Matches(rules[i], t)
    ensures forall i :: 0 <= i < |rules| && rules[i].cat != primary && Matches(rules[i], t) ==>
      rules[i].cat in TagsOf(rules, primary, t)
    decreases |rules|
  {
    if rules != [] {
      var init := rules[..|rules| - 1];
      TagsSoundAndComplete(init, primary, t);
      forall x | x in TagsOf(init, primary, t)
        ensures exists i :: 0 <= i < |rules| && rules[i].cat == x && Matches(rules[i], t)
      {
        var i :| 0 <= i < |init| && init[i].cat == x && Matches(init[i], t);
        assert rules[i] == init[i];
      }
      forall i | 0 <= i < |rules| - 1 && rules[i].cat != primary && Matches(rules[i], t)
        ensures rules[i].cat in TagsOf(rules, primary, t)
      {
        assert init[i] == rules[i];
      }
    }
  }

  /** For each tag, the index of the table rule that produced it. */
  function TagRuleIndices(rules: seq<Rule>, primary: string, t: string): seq<int>
    decreases |rules|
  {
    if rules == [] then []
    else
      var n := |rules| - 1;
      TagRuleIndices(rules[..n], primary, t) + (if rules[n].cat != primary && Matches(rules[n], t) then [n] else [])
  }

  /** Tags appear in table order: tag `a` comes from a matching rule of index
      `TagRuleIndices(..)[a]`, and these indices strictly increase. */
  lemma {:induction false} TagsFollowTable(rules: seq<Rule>, primary: string, t: string)
    ensures |TagRuleIndices(rules, primary, t)| == |TagsOf(rules, primary, t)|
    ensures forall a :: 0 <= a < |TagRuleIndices(rules, primary, t)| ==>
      var i := TagRuleIndices(rules, primary, t)[a];
      0 <= i < |rules| && TagsOf(rules, primary, t)[a] == rules[i].cat && Matches(rules[i], t)
    ensures forall a, b :: 0 <= a < b < |TagRuleIndices(rules, primary, t)| ==>
      TagRuleIndices(rules, primary, t)[a] < TagRuleIndices(rules, primary, t)[b]
    decreases |rules|
  {
    if rules != [] {
      var n := |rules| - 1;
      TagsFollowTable(rules[..n], primary, t);
      var idx := TagRuleIndices(rules, primary, t);
      var prev := TagRuleIndices(rules[..n], primary, t);
      forall a | 0 <= a < |prev| ensures idx[a] == prev[a] && rules[idx[a]] == rules[..n][prev[a]] {
      }
    }
  }

  /** With distinct category names the tags hold no duplicates. */
  lemma TagsHaveNoDuplicates(rules: seq<Rule>, primary: string, t: string)
    requires DistinctCats(rules)
    ensures forall a, b :: 0 <= a < b < |TagsOf(rules, primary, t)| ==>
      TagsOf(rules, primary, t)[a] != TagsOf(rules, primary, t)[b]
  {
    TagsFollowTable(rules, primary, t);
    var idx := TagRuleIndices(rules, primary, t);
    var tags := TagsOf(rules, primary, t);
    forall a, b | 0 <= a < b < |tags| ensures tags[a] != tags[b] {
      assert idx[a] < idx[b];
    }
  }
}
