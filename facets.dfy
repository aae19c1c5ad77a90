/**
 * The facet lists of the knowledge base: the distinct authors and the distinct
 * categories of the indexed messages, deduplicated through a `Set` (which keeps
 * first occurrences) and sorted. Strings are ordered by code point, as a
 * stand-in for the Russian collation the application asks for.
 */
module Facets {
  import opened Extractor

  /** Lexicographic order on strings, character by character. */
  predicate Less(a: string, b: string)
    decreases |a|
  {
    if a == [] then b != []
    else if b == [] then false
    else if a[0] != b[0] then a[0] < b[0]
    else Less(a[1..], b[1..])
  }

  lemma {:induction false} LessIrreflexive(a: string)
    ensures !Less(a, a)
    decreases |a|
  {
    if a != [] {
      LessIrreflexive(a[1..]);
    }
  }

  lemma {:induction false} LessTransitive(a: string, b: string, c: string)
    requires Less(a, b) && Less(b, c)
    ensures Less(a, c)
    decreases |a|
  {
    if a != [] && b != [] && c != [] && a[0] == b[0] && b[0] == c[0] {
      LessTransitive(a[1..], b[1..], c[1..]);
    }
  }

  /** Any two different strings are ordered one way or the other. */
  lemma {:induction false} LessTotal(a: string, b: string)
    ensures a == b || Less(a, b) || Less(b, a)
    decreases |a|
  {
    if a != [] && b != [] && a[0] == b[0] {
      LessTotal(a[1..], b[1..]);
      if a[1..] == b[1..] {
        assert a == [a[0]] + a[1..] && b == [b[0]] + b[1..];
      }
    }
  }

  lemma LessAsymmetric(a: string, b: string)
    requires Less(a, b)
    ensures !Less(b, a)
  {
    if Less(b, a) {
      LessTransitive(a, b, a);
      LessIrreflexive(a);
    }
  }

  predicate StrictlySorted(s: seq<string>) {
    forall i, j :: 0 <= i < j < |s| ==> Less(s[i], s[j])
  }

  predicate Distinct(s: seq<string>) {
    forall i, j :: 0 <= i < j < |s| ==> s[i] != s[j]
  }

  /** `Array.from(new Set(xs))`: each value once, at its first occurrence. */
  function Dedupe(xs: seq<string>): seq<string>
    decreases |xs|
  {
    if xs == [] then []
    else
      var d := Dedupe(xs[..|xs| - 1]);
      var x := xs[|xs| - 1];
      if x in d then d else d + [x]
  }

  /** The `Set` keeps each value once, and keeps a value exactly when it occurs. */
  lemma {:induction false} DedupeDistinct(xs: seq<string>)
    ensures Distinct(Dedupe(xs))
    ensures forall x :: x in Dedupe(xs) <==> x in xs
    decreases |xs|
  {
    if xs != [] {
      var init := xs[..|xs| - 1];
      DedupeDistinct(init);
      assert xs == init + [xs[|xs| - 1]];
    }
  }

  /** Inserts `x` into the sorted `s` in front of the first larger value. */
  function Insert(x: string, s: seq<string>): seq<string>
    decreases |s|
  {
    if s == [] then [x]
    else if Less(x, s[0]) then [x] + s
    else [s[0]] + Insert(x, s[1..])
  }

  /** Insertion adds `x` and keeps everything else. */
  lemma {:induction false} InsertMultiset(x: string, s: seq<string>)
    ensures multiset(Insert(x, s)) == multiset(s) + multiset{x}
    decreases |s|
  {
    if s != [] && !Less(x, s[0]) {
      InsertMultiset(x, s[1..]);
      assert s == [s[0]] + s[1..];
    }
  }

  lemma {:induction false} InsertSorted(x: string, s: seq<string>)
    requires StrictlySorted(s) && x !in s
    ensures StrictlySorted(Insert(x, s))
    decreases |s|
  {
    if s != [] {
      if Less(x, s[0]) {
        forall j | 1 <= j < |[x] + s| ensures Less(x, ([x] + s)[j]) {
          if j > 1 {
            LessTransitive(x, s[0], s[j - 1]);
          }
        }
      } else {
        LessTotal(x, s[0]);
        InsertSorted(x, s[1..]);
        InsertMultiset(x, s[1..]);
        var t := Insert(x, s[1..]);
        forall y | y in t ensures Less(s[0], y) {
          assert y in multiset(t);
          assert y == x || y in s[1..];
        }
      }
    }
  }

  /** Insertion sort by `Less`. */
  function Sort(xs: seq<string>): seq<string>
    decreases |xs|
  {
    if xs == [] then [] else Insert(xs[0], Sort(xs[1..]))
  }

  /** Sorting is a permutation. */
  lemma {:induction false} SortMultiset(xs: seq<string>)
    ensures multiset(Sort(xs)) == multiset(xs)
    decreases |xs|
  {
    if xs != [] {
      SortMultiset(xs[1..]);
      InsertMultiset(xs[0], Sort(xs[1..]));
      assert xs == [xs[0]] + xs[1..];
    }
  }

  lemma {:induction false} SortSorted(xs: seq<string>)
    requires Distinct(xs)
    ensures StrictlySorted(Sort(xs))
    decreases |xs|
  {
    if xs != [] {
      var rest := xs[1..];
      assert Distinct(rest) by {
        forall i, j | 0 <= i < j < |rest| ensures rest[i] != rest[j] {
          assert rest[i] == xs[i + 1] && rest[j] == xs[j + 1];
        }
      }
      SortSorted(rest);
      SortMultiset(rest);
      assert xs[0] !in rest by {
        forall k | 0 <= k < |rest| ensures rest[k] != xs[0] {
          assert rest[k] == xs[k + 1];
        }
      }
      assert xs[0] !in multiset(Sort(rest));
      InsertSorted(xs[0], Sort(rest));
    }
  }

  /** `Array.from(new Set(xs)).sort(…)`. */
  function Facet(xs: seq<string>): seq<string> {
    Sort(Dedupe(xs))
  }

  /** The facet list is strictly increasing and holds exactly the input values. */
  lemma FacetSortedAndComplete(xs: seq<string>)
    ensures StrictlySorted(Facet(xs))
    ensures forall x :: x in Facet(xs) <==> x in xs
  {
    var d := Dedupe(xs);
    DedupeDistinct(xs);
    SortSorted(d);
    SortMultiset(d);
    forall x ensures x in Facet(xs) <==> x in d {
      assert x in Facet(xs) <==> x in multiset(Sort(d));
    }
  }

  /** The head of a strictly increasing list is below every other value in it. */
  lemma HeadIsLeast(s: seq<string>, x: string)
    requires StrictlySorted(s) && x in s && x != s[0]
    ensures Less(s[0], x)
  {
    var k :| 0 <= k < |s| && s[k] == x;
  }

  lemma SameValuesSameEmptiness(s: seq<string>, t: seq<string>)
    requires forall x :: x in s <==> x in t
    ensures s == [] <==> t == []
  {
    if s != [] {
      assert s[0] in t;
    }
    if t != [] {
      assert t[0] in s;
    }
  }

  /** A strictly increasing list is determined by its values: the facet list is
      the only strictly increasing list of the input values. */
  lemma {:induction false} SortedUnique(s: seq<string>, t: seq<string>)
    requires StrictlySorted(s) && StrictlySorted(t)
    requires forall x :: x in s <==> x in t
    ensures s == t
    decreases |s|
  {
    SameValuesSameEmptiness(s, t);
    if s != [] {
      if s[0] != t[0] {
        HeadIsLeast(s, t[0]);
        HeadIsLeast(t, s[0]);
        LessAsymmetric(s[0], t[0]);
        assert false;
      }
      forall x ensures x in s[1..] <==> x in t[1..] {
        LessIrreflexive(x);
        if x in s[1..] {
          var k :| 1 <= k < |s| && s[k] == x;
          assert Less(s[0], s[k]);
          assert x in t;
          var m :| 0 <= m < |t| && t[m] == x;
          assert m != 0 && t[1..][m - 1] == x;
        }
        if x in t[1..] {
          var k :| 1 <= k < |t| && t[k] == x;
          assert Less(t[0], t[k]);
          assert x in s;
          var m :| 0 <= m < |s| && s[m] == x;
          assert m != 0 && s[1..][m - 1] == x;
        }
      }
      SortedUnique(s[1..], t[1..]);
      assert s == [s[0]] + s[1..] && t == [t[0]] + t[1..];
    }
  }

  function Authors(items: seq<Message>): seq<string> {
    Facet(seq(|items|, i requires 0 <= i < |items| => items[i].author))
  }

  function Categories(items: seq<Message>): seq<string> {
    Facet(seq(|items|, i requires 0 <= i < |items| => items[i].category))
  }

  /** The author facet lists each author of some message once, in order. */
  lemma AuthorsFacet(items: seq<Message>)
    ensures StrictlySorted(Authors(items))
    ensures forall a :: a in Authors(items) <==> exists i :: 0 <= i < |items| && items[i].author == a
  {
    var xs := seq(|items|, i requires 0 <= i < |items| => items[i].author);
    FacetSortedAndComplete(xs);
    forall a ensures a in xs <==> exists i :: 0 <= i < |items| && items[i].author == a {
      if a in xs {
        var i :| 0 <= i < |xs| && xs[i] == a;
      }
      if exists i :: 0 <= i < |items| && items[i].author == a {
        var i :| 0 <= i < |items| && items[i].author == a;
        assert xs[i] == a;
      }
    }
  }

  /** The category facet lists each category of some message once, in order. */
  lemma CategoriesFacet(items: seq<Message>)
    ensures StrictlySorted(Categories(items))
    ensures forall c :: c in Categories(items) <==> exists i :: 0 <= i < |items| && items[i].category == c
  {
    var xs := seq(|items|, i requires 0 <= i < |items| => items[i].category);
    FacetSortedAndComplete(xs);
    forall c ensures c in xs <==> exists i :: 0 <= i < |items| && items[i].category == c {
      if c in xs {
        var i :| 0 <= i < |xs| && xs[i] == c;
      }
      if exists i :: 0 <= i < |items| && items[i].category == c {
        var i :| 0 <= i < |items| && items[i].category == c;
        assert xs[i] == c;
      }
    }
  }
}
