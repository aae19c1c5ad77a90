/**
 * The application's `state` object: the indexed messages, the current result
 * list and the two facet lists, filled by `loadTelegramExport` and updated by
 * `doSearch`. The parsed export reaches the model as a sequence of elements.
 */
module KnowledgeBase {
  import opened Extractor
  import opened Facets
  import opened Query
  import opened Categorizer
  import opened CategoryTable

  /** Every message in `items` is well formed for `rules`, and the two facet
      lists are the ones computed from `items`. */
  ghost predicate Indexed(rules: seq<Rule>, items: seq<Message>, authors: seq<string>, categories: seq<string>) {
    AllWellFormed(rules, items) && authors == Authors(items) && categories == Categories(items)
  }

  /** The extracted messages with their facets are indexed. */
  lemma IndexFacts(rules: seq<Rule>, nodes: seq<Element>)
    ensures Indexed(rules, Extracted(rules, nodes), Authors(Extracted(rules, nodes)), Categories(Extracted(rules, nodes)))
  {
    ExtractedWellFormed(rules, nodes);
  }

  /** In an indexed state the facet lists are increasing, name each value once,
      and hold exactly the authors and the categories of the messages. */
  lemma IndexedFacets(rules: seq<Rule>, items: seq<Message>, authors: seq<string>, categories: seq<string>)
    requires Indexed(rules, items, authors, categories)
    ensures StrictlySorted(authors) && StrictlySorted(categories)
    ensures forall a :: a in authors <==> exists i :: 0 <= i < |items| && items[i].author == a
    ensures forall c :: c in categories <==> exists i :: 0 <= i < |items| && items[i].category == c
  {
    AuthorsFacet(items);
    CategoriesFacet(items);
  }

  class KnowledgeBase {
    /** `CATEGORY_RULES`, which the indexing reads. */
    const rules: seq<Rule>
    var all: seq<Message>
    var filtered: seq<Message>
    var authors: seq<string>
    var categories: seq<string>
    var ready: bool

    /** Every indexed message is well formed for the shipped rule table, and the
        facet lists are the facets of the indexed messages. */
    ghost predicate Valid()
      reads this
    {
      Indexed(rules, all, authors, categories)
    }

    /** The initial `state`: nothing indexed, not ready. */
    constructor()
      ensures rules == CategoryRules
      ensures Valid()
      ensures all == [] && filtered == [] && authors == [] && categories == [] && !ready
    {
      rules := CategoryRules;
      all := [];
      filtered := [];
      authors := [];
      categories := [];
      ready := false;
    }

    /** `loadTelegramExport` after parsing: index the elements, compute the facets
        and mark the base ready. The result list is left as it was. */
    method LoadExport(nodes: seq<Element>)
      modifies this
      ensures Valid() && ready
      ensures all == Extracted(rules, nodes)
      ensures filtered == old(filtered)
      ensures StrictlySorted(authors) && StrictlySorted(categories)
      ensures forall a :: a in authors <==> exists i :: 0 <= i < |all| && all[i].author == a
      ensures forall c :: c in categories <==> exists i :: 0 <= i < |all| && all[i].category == c
    {
      var items := Extract(rules, nodes);
      IndexFacts(rules, nodes);
      IndexedFacets(rules, items, Authors(items), Categories(items));
      all := items;
      authors := Authors(items);
      categories := Categories(items);
      ready := true;
    }

    /** `doSearch` for the trimmed query `q` and the two selected facet values:
        only the result list changes. */
    method DoSearch(q: string, author: string, cat: string)
      modifies this
      ensures all == old(all) && authors == old(authors) && categories == old(categories) && ready == old(ready)
      ensures Valid() == old(Valid())
      ensures forall m :: m in filtered <==> m in all && Passes(m, author, cat, Text.Normalize(q))
      ensures multiset(filtered) == multiset(Selected(all, author, cat, Text.Normalize(q)))
      ensures SortedDesc(filtered, Key)
      ensures forall v: nat :: WithKey(filtered, Key, v) == WithKey(Selected(all, author, cat, Text.Normalize(q)), Key, v)
    {
      filtered := Search(all, q, author, cat);
    }
  }
}
