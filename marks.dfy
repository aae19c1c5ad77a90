/**
 * Which occurrences `highlight` wraps: the greedy left-to-right matches of the
 * query in the escaped text, each wrapped as written.
 */
module Marks {
  import opened Text
  import opened Snippet

  /** Whether the query occurs at each position of `h`. */
  function Hits(h: string, q: string): seq<bool> {
    seq(|h|, p requires 0 <= p < |h| => MatchAt(h, p, q))
  }

  /** The greedy scan of the global replace over the positions `hits` flags,
      from `i` on: the first flagged position, then the first one at least `n`
      after it, and so on. */
  function Scan(hits: seq<bool>, n: nat, i: nat): seq<nat>
    requires n > 0
    decreases |hits| - i
  {
    if i >= |hits| then []
    else if hits[i] then [i] + Scan(hits, n, i + n)
    else Scan(hits, n, i + 1)
  }

  /** The positions that the global replace of the query in `h` marks. */
  function Marks(h: string, q: string): seq<nat>
    requires q != []
  {
    Scan(Hits(h, q), |q|, 0)
  }

  /** Every flagged position leaves room for `n` characters. */
  predicate Fits(hits: seq<bool>, n: nat) {
    forall p :: 0 <= p < |hits| && hits[p] ==> p + n <= |hits|
  }

  /** `ms` are ascending, non-overlapping spans of length `n` within `len`,
      all at or after `i`. */
  predicate SpansFrom(len: nat, n: nat, i: nat, ms: seq<nat>)
    decreases |ms|
  {
    ms == [] || (i <= ms[0] && ms[0] + n <= len && SpansFrom(len, n, ms[0] + n, ms[1..]))
  }

  /** `h[i..]` with the spans `ms` of length `n` wrapped in `<mark>` tags. */
  function Wrap(h: string, n: nat, i: nat, ms: seq<nat>): string
    requires i <= |h| && SpansFrom(|h|, n, i, ms)
    decreases |ms|
  {
    if ms == [] then h[i..]
    else h[i..ms[0]] + ("<mark>" + h[ms[0]..ms[0] + n] + "</mark>" + Wrap(h, n, ms[0] + n, ms[1..]))
  }

  /** Spans in order lie within `len` from `i` on, each ending before the next begins. */
  lemma {:induction false} SpansApart(len: nat, n: nat, i: nat, ms: seq<nat>)
    requires SpansFrom(len, n, i, ms)
    ensures forall k :: 0 <= k < |ms| ==> i <= ms[k] && ms[k] + n <= len
    ensures forall k :: 0 <= k < |ms| - 1 ==> ms[k] + n <= ms[k + 1]
    decreases |ms|
  {
    if ms != [] {
      SpansApart(len, n, ms[0] + n, ms[1..]);
      forall k | 1 <= k < |ms| ensures ms[k] == ms[1..][k - 1] { }
    }
  }

  /** Occurrences of the query fit in `h`. */
  lemma HitsFit(h: string, q: string)
    ensures |Hits(h, q)| == |h| && Fits(Hits(h, q), |q|)
  {
  }

  /** One step of the scan. */
  lemma ScanStep(hits: seq<bool>, n: nat, i: nat)
    requires n > 0
    ensures i >= |hits| ==> Scan(hits, n, i) == []
    ensures i < |hits| && hits[i] ==>
      Scan(hits, n, i) != [] && Scan(hits, n, i)[0] == i && Scan(hits, n, i)[1..] == Scan(hits, n, i + n)
    ensures i < |hits| && !hits[i] ==> Scan(hits, n, i) == Scan(hits, n, i + 1)
  {
  }

  /** The scan from `i` on yields spans that lie after any `k <= i`. */
  lemma {:induction false} ScanSpans(hits: seq<bool>, n: nat, k: nat, i: nat)
    requires n > 0 && Fits(hits, n) && k <= i
    ensures SpansFrom(|hits|, n, k, Scan(hits, n, i))
    decreases |hits| - i
  {
    if i < |hits| {
      if hits[i] {
        ScanSpans(hits, n, i + n, i + n);
      } else {
        ScanSpans(hits, n, k, i + 1);
      }
    }
  }

  /** Every position the scan from `i` yields is flagged and at or after `i`. */
  lemma {:induction false} ScanHits(hits: seq<bool>, n: nat, i: nat)
    requires n > 0
    ensures forall m :: m in Scan(hits, n, i) ==> i <= m < |hits| && hits[m]
    decreases |hits| - i
  {
    if i < |hits| {
      if hits[i] {
        ScanHits(hits, n, i + n);
        assert Scan(hits, n, i) == [i] + Scan(hits, n, i + n);
      } else {
        ScanHits(hits, n, i + 1);
      }
    }
  }

  /** Every flagged position at or after `i` that no earlier yielded span
      overlaps is yielded. */
  lemma {:induction false} ScanComplete(hits: seq<bool>, n: nat, i: nat, j: nat, ms: seq<nat>)
    requires n > 0 && i <= j < |hits| && hits[j] && ms == Scan(hits, n, i)
    requires forall m :: m in ms && m < j ==> m + n <= j
    ensures j in ms
    decreases |hits| - i
  {
    ScanStep(hits, n, i);
    if hits[i] {
      if j != i {
        assert ms == [i] + ms[1..];
        assert i in ms;
        assert forall m :: m in ms[1..] ==> m in ms;
        ScanComplete(hits, n, i + n, j, ms[1..]);
      }
    } else {
      ScanComplete(hits, n, i + 1, j, ms);
    }
  }

  /** Near the end, where nothing fits, the scan yields nothing. */
  lemma {:induction false} ScanTail(hits: seq<bool>, n: nat, i: nat)
    requires n > 0 && Fits(hits, n) && i + n > |hits|
    ensures Scan(hits, n, i) == []
    decreases |hits| - i
  {
    if i < |hits| {
      ScanTail(hits, n, i + 1);
    }
  }

  /** One step of `Wrap` when there is a span left. */
  lemma WrapUnfold(h: string, n: nat, i: nat, ms: seq<nat>)
    requires ms != [] && i <= |h| && SpansFrom(|h|, n, i, ms)
    ensures Wrap(h, n, i, ms) == h[i..ms[0]] + ("<mark>" + h[ms[0]..ms[0] + n] + "</mark>" + Wrap(h, n, ms[0] + n, ms[1..]))
  {
  }

  lemma SnocSlice(h: string, k: nat, i: nat, w: string)
    requires k <= i < |h|
    ensures h[k..i] + ([h[i]] + w) == h[k..i + 1] + w
  {
    assert h[k..i + 1] == h[k..i] + [h[i]];
  }

  /** At an occurrence, `MarkAll` on the rest `t` of `h` wraps it and goes on
      after it, with `y` the text after the occurrence. */
  lemma MarkAllAt(h: string, q: string, i: nat, t: string, y: string)
    requires q != [] && MatchAt(h, i, q) && t == h[i..] && y == h[i + |q|..]
    ensures MarkAll(t, q) == "<mark>" + h[i..i + |q|] + "</mark>" + MarkAll(y, q)
  {
    assert t[0..|q|] == h[i..i + |q|];
    assert t[|q|..] == y;
  }

  /** Too close to the end for an occurrence, `MarkAll` leaves the rest as it is. */
  lemma MarkAllShort(h: string, q: string, i: nat, t: string)
    requires q != [] && i <= |h| < i + |q| && t == h[i..]
    ensures MarkAll(t, q) == t
  {
  }

  /** Where the query does not occur, `MarkAll` on the rest `t` of `h` keeps one
      character, with `y` the text after it. */
  lemma MarkAllPast(h: string, q: string, i: nat, t: string, y: string)
    requires q != [] && i + |q| <= |h| && !MatchAt(h, i, q) && t == h[i..] && y == h[i + 1..]
    ensures MarkAll(t, q) == [h[i]] + MarkAll(y, q)
  {
    assert t[0..|q|] == h[i..i + |q|];
    assert t[1..] == y;
  }

  /** `Wrap` at its first span `i`. */
  lemma WrapAt(h: string, n: nat, k: nat, i: nat, ms: seq<nat>)
    requires k <= i && ms != [] && ms[0] == i && SpansFrom(|h|, n, k, ms)
    ensures Wrap(h, n, k, ms) == h[k..i] + ("<mark>" + h[i..i + n] + "</mark>" + Wrap(h, n, i + n, ms[1..]))
  {
    WrapUnfold(h, n, k, ms);
  }

  /** The step of `MarkAllWrapsFrom` at an occurrence: the mark list `ms` starts there. */
  lemma MarkAllMatchStep(h: string, q: string, k: nat, i: nat, ms: seq<nat>, t: string, y: string)
    requires q != [] && k <= i && MatchAt(h, i, q) && t == h[i..] && y == h[i + |q|..]
    requires ms != [] && ms[0] == i && SpansFrom(|h|, |q|, k, ms)
    requires h[i + |q|..i + |q|] + MarkAll(y, q) == Wrap(h, |q|, i + |q|, ms[1..])
    ensures h[k..i] + MarkAll(t, q) == Wrap(h, |q|, k, ms)
  {
    MarkAllAt(h, q, i, t, y);
    WrapAt(h, |q|, k, i, ms);
    assert h[i + |q|..i + |q|] + MarkAll(y, q) == MarkAll(y, q);
  }

  /** The step of `MarkAllWrapsFrom` where the query does not occur. */
  lemma MarkAllSkipStep(h: string, q: string, k: nat, i: nat, ms: seq<nat>, t: string, y: string)
    requires q != [] && k <= i && i + |q| <= |h| && !MatchAt(h, i, q) && t == h[i..] && y == h[i + 1..]
    requires SpansFrom(|h|, |q|, k, ms)
    requires h[k..i + 1] + MarkAll(y, q) == Wrap(h, |q|, k, ms)
    ensures h[k..i] + MarkAll(t, q) == Wrap(h, |q|, k, ms)
  {
    MarkAllPast(h, q, i, t, y);
    SnocSlice(h, k, i, MarkAll(y, q));
  }

  /** `MarkAll` on the rest `t == h[i..]`, after the unmarked text `h[k..i]`,
      wraps exactly the spans `ms` that the scan yields from `i` on. */
  lemma {:induction false} MarkAllWrapsFrom(h: string, q: string, k: nat, i: nat, t: string, hits: seq<bool>, ms: seq<nat>)
    requires q != [] && k <= i <= |h| && t == h[i..] && hits == Hits(h, q) && ms == Scan(hits, |q|, i)
    ensures SpansFrom(|h|, |q|, k, ms)
    ensures h[k..i] + MarkAll(t, q) == Wrap(h, |q|, k, ms)
    decreases |h| - i
  {
    var n := |q|;
    HitsFit(h, q);
    ScanSpans(hits, n, k, i);
    ScanStep(hits, n, i);
    if i + n > |h| {
      ScanTail(hits, n, i);
      MarkAllShort(h, q, i, t);
      assert h[k..i] + h[i..] == h[k..];
    } else if hits[i] {
      assert MatchAt(h, i, q);
      MarkAllWrapsFrom(h, q, i + n, i + n, h[i + n..], hits, ms[1..]);
      MarkAllMatchStep(h, q, k, i, ms, t, h[i + n..]);
    } else {
      assert !MatchAt(h, i, q);
      MarkAllWrapsFrom(h, q, k, i + 1, h[i + 1..], hits, ms);
      MarkAllSkipStep(h, q, k, i, ms, t, h[i + 1..]);
    }
  }

  /** The marks are exactly the greedy left-to-right occurrences: each is an
      occurrence, they do not overlap, and every occurrence that no earlier mark
      overlaps is one of them. */
  lemma MarksSpec(h: string, q: string)
    requires q != []
    ensures forall k :: 0 <= k < |Marks(h, q)| ==> MatchAt(h, Marks(h, q)[k], q)
    ensures forall k :: 0 <= k < |Marks(h, q)| - 1 ==> Marks(h, q)[k] + |q| <= Marks(h, q)[k + 1]
    ensures forall j: nat :: MatchAt(h, j, q) && (forall m :: m in Marks(h, q) && m < j ==> m + |q| <= j) ==> j in Marks(h, q)
  {
    var hits, ms := Hits(h, q), Marks(h, q);
    HitsFit(h, q);
    ScanSpans(hits, |q|, 0, 0);
    SpansApart(|h|, |q|, 0, ms);
    ScanHits(hits, |q|, 0);
    forall k | 0 <= k < |ms| ensures MatchAt(h, ms[k], q) {
      assert ms[k] in ms;
    }
    forall j: nat | MatchAt(h, j, q) && (forall m :: m in ms && m < j ==> m + |q| <= j)
      ensures j in ms
    {
      ScanComplete(hits, |q|, 0, j, ms);
    }
  }

  /** `MarkAll` is `h` with exactly the marked spans wrapped, each as written in `h`. */
  lemma MarkAllWraps(h: string, q: string)
    requires q != []
    ensures SpansFrom(|h|, |q|, 0, Marks(h, q)) && MarkAll(h, q) == Wrap(h, |q|, 0, Marks(h, q))
  {
    assert h[0..] == h;
    MarkAllWrapsFrom(h, q, 0, 0, h, Hits(h, q), Marks(h, q));
    assert h[0..0] + MarkAll(h, q) == MarkAll(h, q);
  }

  /** `highlight` with a query wraps exactly the greedy occurrences of the query
      in the escaped text. */
  lemma HighlightWraps(text: string, q: string)
    requires q != []
    ensures SpansFrom(|EscapeHtml(text)|, |q|, 0, Marks(EscapeHtml(text), q))
    ensures Highlight(text, q) == Wrap(EscapeHtml(text), |q|, 0, Marks(EscapeHtml(text), q))
  {
    MarkAllWraps(EscapeHtml(text), q);
  }
}
