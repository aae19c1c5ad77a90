/**
 * The extraction loop of `loadTelegramExport`: one pass over the exported
 * `.message.default` elements that skips foreign ids and empty shells, carries
 * the last named author forward, and builds one indexed message per kept element.
 * The DOM is abstracted into `Element` records whose fields are what the loop
 * reads from each element.
 */
module Extractor {
  import opened Wrappers
  import opened Text
  import opened Categorizer
  import opened Dates

  /** What the loop reads from one element; a missing attribute or child is `""`
      (or `None` for the `.from_name` child), and `plain` is the element's text
      with the markup stripped. */
  datatype Element = Element(
    id: string,
    fromName: Option<string>,
    dateTitle: string,
    timeText: string,
    html: string,
    plain: string,
    imgSrcs: seq<string>,
    hrefs: seq<string>)

  /** One indexed message. */
  datatype Message = Message(
    id: string,
    author: string,
    date: string,
    htmlText: string,
    plain: string,
    links: seq<string>,
    mediaThumbs: seq<string>,
    category: string,
    tags: seq<string>)

  /** The author placeholder used before any element names one. */
  const NoAuthor: string := "—"

  /** At most this many photos are looked at per message. */
  const MaxThumbs: nat := 6

  predicate IsMessageId(id: string) {
    StartsWith(id, "message")
  }

  /** The trimmed `.from_name` text, or `""` when there is none. */
  function DeclaredName(e: Element): string {
    match e.fromName
    case None => ""
    case Some(n) => Trim(n)
  }

  /** `.filter(Boolean)` on a list of attribute values. */
  function NonEmpty(xs: seq<string>): (r: seq<string>)
    ensures |r| <= |xs|
    ensures forall k :: 0 <= k < |r| ==> r[k] != ""
  {
    if xs == [] then []
    else (if xs[0] != "" then [xs[0]] else []) + NonEmpty(xs[1..])
  }

  /** Filtering keeps exactly the non-empty values, and changes nothing when
      there is no empty value. */
  lemma {:induction false} NonEmptyKeeps(xs: seq<string>)
    ensures forall x :: x in NonEmpty(xs) <==> x in xs && x != ""
    ensures (forall k :: 0 <= k < |xs| ==> xs[k] != "") ==> NonEmpty(xs) == xs
  {
    if xs != [] {
      NonEmptyKeeps(xs[1..]);
      assert xs == [xs[0]] + xs[1..];
    }
  }

  /** Filtering keeps each non-empty value as often as it occurs. */
  lemma {:induction false} NonEmptyCounts(xs: seq<string>)
    ensures forall x :: multiset(NonEmpty(xs))[x] == if x == "" then 0 else multiset(xs)[x]
  {
    if xs != [] {
      NonEmptyCounts(xs[1..]);
      assert xs == [xs[0]] + xs[1..];
      assert multiset(xs) == multiset([xs[0]]) + multiset(xs[1..]);
    }
  }

  /** Filtering keeps the order: it filters a concatenation piece by piece. */
  lemma {:induction false} NonEmptyConcat(a: seq<string>, b: seq<string>)
    ensures NonEmpty(a + b) == NonEmpty(a) + NonEmpty(b)
    decreases |a|
  {
    if a == [] {
      assert a + b == b;
    } else {
      assert (a + b)[0] == a[0];
      assert (a + b)[1..] == a[1..] + b;
      NonEmptyConcat(a[1..], b);
    }
  }

  /** `.slice(0, 6)…filter(Boolean)`: the cap is applied before empty sources are
      dropped. */
  function Thumbs(srcs: seq<string>): (r: seq<string>)
    ensures |r| <= MaxThumbs
    ensures forall k :: 0 <= k < |r| ==> r[k] != ""
  {
    NonEmpty(srcs[..if |srcs| < MaxThumbs then |srcs| else MaxThumbs])
  }

  /** The thumbnails are the non-empty sources among the first six photos. */
  lemma ThumbsKeep(srcs: seq<string>)
    ensures forall x :: x in Thumbs(srcs) <==> exists k :: 0 <= k < |srcs| && k < MaxThumbs && srcs[k] == x && x != ""
  {
    var n := if |srcs| < MaxThumbs then |srcs| else MaxThumbs;
    NonEmptyKeeps(srcs[..n]);
    assert forall x :: x in srcs[..n] <==> exists k :: 0 <= k < n && srcs[k] == x;
  }

  /** Up to six photos, the cap changes nothing. */
  lemma ThumbsShort(srcs: seq<string>)
    requires |srcs| <= MaxThumbs
    ensures Thumbs(srcs) == NonEmpty(srcs)
  {
    assert srcs[..|srcs|] == srcs;
  }

  /** Photos after the sixth never matter, and the first six keep their order
      with the empty sources dropped. */
  lemma ThumbsCap(a: seq<string>, b: seq<string>)
    requires |a| == MaxThumbs
    ensures Thumbs(a + b) == NonEmpty(a)
    ensures forall x :: multiset(Thumbs(a + b))[x] == if x == "" then 0 else multiset(a)[x]
  {
    assert (a + b)[..MaxThumbs] == a;
    NonEmptyCounts(a);
  }

  /** A join or forward shell: no text, no photo, no link. */
  predicate IsShell(e: Element) {
    e.plain == "" && |Thumbs(e.imgSrcs)| == 0 && |NonEmpty(e.hrefs)| == 0
  }

  /** An element that becomes a message. */
  predicate Kept(e: Element) {
    IsMessageId(e.id) && !IsShell(e)
  }

  /** The author name each element contributes: the trimmed `.from_name` of an
      element with a message id, and `""` for every other element (an element
      skipped for its id is passed over before its name is read). */
  function AuthorName(e: Element): string {
    if IsMessageId(e.id) then DeclaredName(e) else ""
  }

  /** The last non-empty `name` of the elements of `els`, or the placeholder. */
  function LastNamed(name: Element -> string, els: seq<Element>): string
    decreases |els|
  {
    if els == [] then NoAuthor
    else if name(els[|els| - 1]) != "" then name(els[|els| - 1])
    else LastNamed(name, els[..|els| - 1])
  }

  /** `lastAuthor` after the loop has visited `els`. */
  function LastAuthor(els: seq<Element>): string {
    LastNamed(AuthorName, els)
  }

  /** The message built from element `e` when the carried author is `author`. */
  function Build(rules: seq<Rule>, e: Element, author: string): Message {
    var links := NonEmpty(e.hrefs);
    var category := CategoryOf(rules, Normalize(e.plain + " " + Join(links, " ")));
    Message(e.id, author, DateField(e.dateTitle, Trim(e.timeText)), Trim(e.html), e.plain,
            links, Thumbs(e.imgSrcs), category, TagsOf(rules, category, Normalize(e.plain)))
  }

  /** The items a loop pushes after visiting `els` when it builds each element
      that passes `keep` with `build` and the name carried at that element. */
  function Fold(build: (Element, string) -> Message, keep: Element -> bool, name: Element -> string,
                els: seq<Element>): seq<Message>
    decreases |els|
  {
    if els == [] then []
    else
      var e := els[|els| - 1];
      Fold(build, keep, name, els[..|els| - 1]) + (if keep(e) then [build(e, LastNamed(name, els))] else [])
  }

  /** The items of `loadTelegramExport` after visiting `els`. */
  function Extracted(rules: seq<Rule>, els: seq<Element>): seq<Message> {
    Fold((e, author) => Build(rules, e, author), Kept, AuthorName, els)
  }

  /** Visiting one more element appends at most the message built from it. */
  lemma ExtractedStep(rules: seq<Rule>, els: seq<Element>, i: nat)
    requires i < |els|
    ensures Extracted(rules, els[..i + 1]) ==
      Extracted(rules, els[..i]) + (if Kept(els[i]) then [Build(rules, els[i], LastAuthor(els[..i + 1]))] else [])
  {
    assert els[..i + 1][..i] == els[..i];
  }

  /** The loop of `loadTelegramExport` over the selected elements. */
  method Extract(rules: seq<Rule>, nodes: seq<Element>) returns (items: seq<Message>)
    ensures items == Extracted(rules, nodes)
  {
    items := [];
    var lastAuthor := NoAuthor;
    for i := 0 to |nodes|
      invariant items == Extracted(rules, nodes[..i])
      invariant lastAuthor == LastAuthor(nodes[..i])
    {
      ExtractedStep(rules, nodes, i);
      LastAuthorStep(nodes, i);
      var el := nodes[i];
      var id := el.id;
      if !StartsWith(id, "message") {
        continue;
      }
      var name := DeclaredName(el);
      if name != "" {
        lastAuthor := name;
      }
      var author := lastAuthor;
      var date := DateField(el.dateTitle, Trim(el.timeText));
      var htmlText := Trim(el.html);
      var plain := el.plain;
      var mediaThumbs := Thumbs(el.imgSrcs);
      var links := NonEmpty(el.hrefs);
      if plain == "" && |mediaThumbs| == 0 && |links| == 0 {
        continue;
      }
      var category := PickCategory(rules, plain + " " + Join(links, " "));
      var tags := CollectTags(rules, category, plain);
      items := items + [Message(id, author, date, htmlText, plain, links, mediaThumbs, category, tags)];
    }
    assert nodes[..|nodes|] == nodes;
  }

  /** No element of `els` in `[lo, hi)` has a non-empty `name`. */
  predicate Unnamed(name: Element -> string, els: seq<Element>, lo: int, hi: int) {
    forall j :: lo <= j < hi && 0 <= j < |els| ==> name(els[j]) == ""
  }

  /** Dropping elements after `hi` keeps `[lo, hi)` unnamed. */
  lemma UnnamedPrefix(name: Element -> string, els: seq<Element>, n: nat, lo: int, hi: int)
    requires hi <= n <= |els| && Unnamed(name, els, lo, hi)
    ensures Unnamed(name, els[..n], lo, hi)
  {
    forall j | lo <= j < hi && 0 <= j < n ensures name(els[..n][j]) == "" {
      assert els[..n][j] == els[j];
    }
  }

  /** The carried name is the nearest non-empty name at or before the end, and
      the placeholder when there is none. */
  lemma {:induction false} LastNamedIsNearest(name: Element -> string, els: seq<Element>)
    ensures Unnamed(name, els, 0, |els|) ==> LastNamed(name, els) == NoAuthor
    ensures forall i :: 0 <= i < |els| && name(els[i]) != "" && Unnamed(name, els, i + 1, |els|) ==>
      LastNamed(name, els) == name(els[i])
    decreases |els|
  {
    if els != [] {
      var n := |els| - 1;
      var init := els[..n];
      LastNamedIsNearest(name, init);
      if name(els[n]) == "" {
        forall i | 0 <= i < n && name(els[i]) != "" && Unnamed(name, els, i + 1, |els|)
          ensures LastNamed(name, els) == name(els[i])
        {
          assert init[i] == els[i];
          UnnamedPrefix(name, els, n, i + 1, n);
        }
        if Unnamed(name, els, 0, |els|) {
          UnnamedPrefix(name, els, n, 0, n);
        }
      }
    }
  }

  /** The name carried after element `i` is the nearest non-empty name at or
      before `i`, or the placeholder when there is none. */
  lemma LastNamedAt(name: Element -> string, els: seq<Element>, i: nat)
    requires i < |els|
    ensures Unnamed(name, els, 0, i + 1) ==> LastNamed(name, els[..i + 1]) == NoAuthor
    ensures forall j :: 0 <= j <= i && name(els[j]) != "" && Unnamed(name, els, j + 1, i + 1) ==>
      LastNamed(name, els[..i + 1]) == name(els[j])
  {
    var hi := i + 1;
    var pre := els[..hi];
    LastNamedIsNearest(name, pre);
    forall lo | 0 <= lo <= hi && Unnamed(name, els, lo, hi) ensures Unnamed(name, pre, lo, hi) {
      assert forall j :: lo <= j < hi ==> pre[j] == els[j];
    }
    forall j | 0 <= j <= i ensures pre[j] == els[j] {
    }
  }

  /** One step of the carried author. */
  lemma LastAuthorStep(els: seq<Element>, i: nat)
    requires i < |els|
    ensures LastAuthor(els[..i + 1]) == if AuthorName(els[i]) != "" then AuthorName(els[i]) else LastAuthor(els[..i])
  {
    assert els[..i + 1][..i] == els[..i];
  }

  /** The indices of the elements that pass `keep`: for each extracted message,
      the index of the element it was built from. */
  function KeptIndices(keep: Element -> bool, els: seq<Element>): seq<int>
    decreases |els|
  {
    if els == [] then []
    else
      var n := |els| - 1;
      KeptIndices(keep, els[..n]) + (if keep(els[n]) then [n] else [])
  }

  /** The kept indices are valid, in increasing order, and cover every kept
      element. */
  lemma {:induction false} KeptIndicesInOrder(keep: Element -> bool, els: seq<Element>)
    ensures forall a :: 0 <= a < |KeptIndices(keep, els)| ==>
      0 <= KeptIndices(keep, els)[a] < |els| && keep(els[KeptIndices(keep, els)[a]])
    ensures forall a, b :: 0 <= a < b < |KeptIndices(keep, els)| ==> KeptIndices(keep, els)[a] < KeptIndices(keep, els)[b]
    decreases |els|
  {
    if els != [] {
      var n := |els| - 1;
      var init := els[..n];
      KeptIndicesInOrder(keep, init);
      var idx := KeptIndices(keep, els);
      var prev := KeptIndices(keep, init);
      forall a | 0 <= a < |prev| ensures idx[a] == prev[a] && els[idx[a]] == init[prev[a]] {
      }
    }
  }

  /** A kept element has its index among the kept indices. */
  lemma {:induction false} KeptIndexIn(keep: Element -> bool, els: seq<Element>, i: int)
    requires 0 <= i < |els| && keep(els[i])
    ensures i in KeptIndices(keep, els)
    decreases |els|
  {
    var n := |els| - 1;
    var init := els[..n];
    assert KeptIndices(keep, els) == KeptIndices(keep, init) + (if keep(els[n]) then [n] else []);
    if i < n {
      assert init[i] == els[i];
      KeptIndexIn(keep, init, i);
    }
  }

  /** Every kept element has its index among the kept indices. */
  lemma KeptIndicesComplete(keep: Element -> bool, els: seq<Element>)
    ensures forall i :: 0 <= i < |els| && keep(els[i]) ==> i in KeptIndices(keep, els)
  {
    forall i | 0 <= i < |els| && keep(els[i]) ensures i in KeptIndices(keep, els) {
      KeptIndexIn(keep, els, i);
    }
  }

  /** The folded items are the kept elements, in document order, each built
      with the author carried at its position. */
  lemma {:induction false} FoldFollowsNodes(build: (Element, string) -> Message, keep: Element -> bool, name: Element -> string,
                                            els: seq<Element>)
    ensures |KeptIndices(keep, els)| == |Fold(build, keep, name, els)|
    ensures forall a :: 0 <= a < |KeptIndices(keep, els)| ==>
      0 <= KeptIndices(keep, els)[a] < |els| &&
      Fold(build, keep, name, els)[a] == build(els[KeptIndices(keep, els)[a]], LastNamed(name, els[..KeptIndices(keep, els)[a] + 1]))
    decreases |els|
  {
    KeptIndicesInOrder(keep, els);
    if els != [] {
      var n := |els| - 1;
      var init := els[..n];
      FoldFollowsNodes(build, keep, name, init);
      KeptIndicesInOrder(keep, init);
      var idx := KeptIndices(keep, els);
      var prev := KeptIndices(keep, init);
      var xs := Fold(build, keep, name, els);
      var ys := Fold(build, keep, name, init);
      assert els[..n + 1] == els;
      forall a | 0 <= a < |prev|
        ensures xs[a] == build(els[idx[a]], LastNamed(name, els[..idx[a] + 1]))
      {
        var i := prev[a];
        assert idx[a] == i && xs[a] == ys[a];
        assert init[i] == els[i];
        assert init[..i + 1] == els[..i + 1];
      }
    }
  }

  /** The extracted messages are the kept elements, in document order (see
      `KeptIndicesInOrder` and `KeptIndicesComplete`), each built with the author
      carried at its position. */
  lemma {:induction false} ExtractedFollowsNodes(rules: seq<Rule>, els: seq<Element>)
    ensures |KeptIndices(Kept, els)| == |Extracted(rules, els)|
    ensures forall a :: 0 <= a < |KeptIndices(Kept, els)| ==>
      0 <= KeptIndices(Kept, els)[a] < |els| &&
      Extracted(rules, els)[a] == Build(rules, els[KeptIndices(Kept, els)[a]], LastAuthor(els[..KeptIndices(Kept, els)[a] + 1]))
  {
    var f := (e, author) => Build(rules, e, author);
    FoldFollowsNodes(f, Kept, AuthorName, els);
  }


  /** What every built message satisfies: a message id, not a shell, at most six
      non-empty thumbnails, non-empty links, and tags that are the other rules
      matching the text alone. */
  predicate WellFormed(rules: seq<Rule>, m: Message) {
    && IsMessageId(m.id)
    && !(m.plain == "" && |m.mediaThumbs| == 0 && |m.links| == 0)
    && |m.mediaThumbs| <= MaxThumbs
    && (forall k :: 0 <= k < |m.mediaThumbs| ==> m.mediaThumbs[k] != "")
    && (forall k :: 0 <= k < |m.links| ==> m.links[k] != "")
    && m.category !in m.tags
    && (forall x :: x in m.tags ==> exists i :: 0 <= i < |rules| && rules[i].cat == x && Matches(rules[i], Normalize(m.plain)))
    && (forall i :: 0 <= i < |rules| && rules[i].cat != m.category && Matches(rules[i], Normalize(m.plain)) ==> rules[i].cat in m.tags)
  }

  lemma BuildWellFormed(rules: seq<Rule>, e: Element, author: string)
    requires Kept(e)
    ensures WellFormed(rules, Build(rules, e, author))
  {
    var m := Build(rules, e, author);
    TagsSoundAndComplete(rules, m.category, Normalize(m.plain));
  }

  /** Every message of `items` is well formed. */
  predicate AllWellFormed(rules: seq<Rule>, items: seq<Message>) {
    forall k :: 0 <= k < |items| ==> WellFormed(rules, items[k])
  }

  /** Every extracted message is well formed. */
  lemma ExtractedWellFormed(rules: seq<Rule>, els: seq<Element>)
    ensures AllWellFormed(rules, Extracted(rules, els))
  {
    ExtractedFollowsNodes(rules, els);
    KeptIndicesInOrder(Kept, els);
    var idx := KeptIndices(Kept, els);
    forall k | 0 <= k < |Extracted(rules, els)| ensures WellFormed(rules, Extracted(rules, els)[k]) {
      var i := idx[k];
      BuildWellFormed(rules, els[i], LastAuthor(els[..i + 1]));
    }
  }

  /** Each extracted message records the author carried at its element. */
  lemma ExtractedAuthorsCarried(rules: seq<Rule>, els: seq<Element>)
    ensures |KeptIndices(Kept, els)| == |Extracted(rules, els)|
    ensures forall a :: 0 <= a < |KeptIndices(Kept, els)| ==>
      0 <= KeptIndices(Kept, els)[a] < |els| && Extracted(rules, els)[a].author == LastAuthor(els[..KeptIndices(Kept, els)[a] + 1])
  {
    ExtractedFollowsNodes(rules, els);
  }

  /** Author carry-over: the author of every extracted message is the trimmed
      `.from_name` of the nearest message-id element up to and including its
      own that has one, or the placeholder when there is none. */
  lemma ExtractedAuthors(rules: seq<Rule>, els: seq<Element>)
    ensures |KeptIndices(Kept, els)| == |Extracted(rules, els)|
    ensures forall a :: 0 <= a < |KeptIndices(Kept, els)| ==>
      var i := KeptIndices(Kept, els)[a];
      (&& 0 <= i < |els|
       && (Unnamed(AuthorName, els, 0, i + 1) ==> Extracted(rules, els)[a].author == NoAuthor)
       && forall j :: 0 <= j <= i && AuthorName(els[j]) != "" && Unnamed(AuthorName, els, j + 1, i + 1) ==>
            Extracted(rules, els)[a].author == AuthorName(els[j]))
  {
    ExtractedAuthorsCarried(rules, els);
    var idx := KeptIndices(Kept, els);
    forall a | 0 <= a < |idx| {
      LastNamedAt(AuthorName, els, idx[a]);
    }
  }
}
