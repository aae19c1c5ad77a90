/**
 * The HTML side of the result list: `escapeHtml`, `highlight` (escape first, then
 * wrap every case-insensitive occurrence of the query in `<mark>`), and
 * `buildSnippet` (a 260-character preview, or a window around the first match of
 * the normalised query).
 */
module Snippet {
  import opened Text

  // ---------------------------------------------------------------------------
  // escapeHtml

  /** The replacement of one character. */
  function EscapeChar(c: char): string {
    if c == '&' then "&amp;"
    else if c == '<' then "&lt;"
    else if c == '>' then "&gt;"
    else if c == '"' then "&quot;"
    else if c == '\'' then "&#39;"
    else [c]
  }

  /** `escapeHtml(s)`: every `&`, `<`, `>`, `"` and `'` replaced by its entity. */
  function EscapeHtml(s: string): (r: string)
    ensures |s| <= |r|
    decreases |s|
  {
    if s == [] then [] else EscapeChar(s[0]) + EscapeHtml(s[1..])
  }

  /** One of the five entities starts at index `i`. */
  predicate EntityAt(r: string, i: nat)
    requires i <= |r|
  {
    var t := r[i..];
    StartsWith(t, "&amp;") || StartsWith(t, "&lt;") || StartsWith(t, "&gt;")
    || StartsWith(t, "&quot;") || StartsWith(t, "&#39;")
  }

  /** Safe to place inside HTML text or an attribute: no markup characters, and
      every `&` begins an entity. */
  predicate Safe(r: string) {
    forall i :: 0 <= i < |r| ==> r[i] !in "<>\"'" && (r[i] == '&' ==> EntityAt(r, i))
  }

  lemma SafeConcat(a: string, b: string)
    requires Safe(a) && Safe(b)
    ensures Safe(a + b)
  {
    var u := a + b;
    forall i | 0 <= i < |u| && u[i] == '&' ensures EntityAt(u, i) {
      if i < |a| {
        assert EntityAt(a, i);
        assert u[i..] == a[i..] + b;
      } else {
        assert u[i] == b[i - |a|];
        assert EntityAt(b, i - |a|);
        assert u[i..] == b[i - |a|..];
      }
    }
  }

  lemma EscapeCharSafe(c: char)
    ensures Safe(EscapeChar(c))
  {
    var r := EscapeChar(c);
    if c in "&<>\"'" {
      assert EntityAt(r, 0) by {
        assert r[0..] == r;
      }
    }
  }

  /** The output of `escapeHtml` contains none of `<`, `>`, `"`, `'`, and every
      `&` in it begins one of the five entities. */
  lemma {:induction false} EscapeSafe(s: string)
    ensures Safe(EscapeHtml(s))
    decreases |s|
  {
    if s != [] {
      EscapeCharSafe(s[0]);
      EscapeSafe(s[1..]);
      SafeConcat(EscapeChar(s[0]), EscapeHtml(s[1..]));
    }
  }

  /** What a browser shows for escaped text: the inverse of `EscapeHtml`. */
  function Unescape(r: string): string
    decreases |r|
  {
    if r == [] then []
    else if StartsWith(r, "&amp;") then "&" + Unescape(r[5..])
    else if StartsWith(r, "&lt;") then "<" + Unescape(r[4..])
    else if StartsWith(r, "&gt;") then ">" + Unescape(r[4..])
    else if StartsWith(r, "&quot;") then "\"" + Unescape(r[6..])
    else if StartsWith(r, "&#39;") then "'" + Unescape(r[5..])
    else [r[0]] + Unescape(r[1..])
  }

  /** A text that differs from `p` at index `k` does not start with `p`. */
  lemma DiffersAt(r: string, p: string, k: nat)
    requires k < |p| && k < |r| && r[k] != p[k]
    ensures !StartsWith(r, p)
  {
    if |p| <= |r| {
      assert r[..|p|][k] == r[k];
    }
  }

  /** Unescaping undoes the replacement of one character. */
  lemma UnescapeChar(c: char, rest: string)
    ensures Unescape(EscapeChar(c) + rest) == [c] + Unescape(rest)
  {
    var e := EscapeChar(c);
    var r := e + rest;
    assert r[..|e|] == e && r[|e|..] == rest;
    assert r[0] == e[0];
    if c == '&' {
      assert StartsWith(r, "&amp;");
    } else if c == '<' {
      assert r[1] == 'l';
      DiffersAt(r, "&amp;", 1);
      assert StartsWith(r, "&lt;");
    } else if c == '>' {
      assert r[1] == 'g';
      DiffersAt(r, "&amp;", 1);
      DiffersAt(r, "&lt;", 1);
      assert StartsWith(r, "&gt;");
    } else if c == '"' {
      assert r[1] == 'q';
      DiffersAt(r, "&amp;", 1);
      DiffersAt(r, "&lt;", 1);
      DiffersAt(r, "&gt;", 1);
      assert StartsWith(r, "&quot;");
    } else if c == '\'' {
      assert r[1] == '#';
      DiffersAt(r, "&amp;", 1);
      DiffersAt(r, "&lt;", 1);
      DiffersAt(r, "&gt;", 1);
      DiffersAt(r, "&quot;", 1);
      assert StartsWith(r, "&#39;");
    } else {
      DiffersAt(r, "&amp;", 0);
      DiffersAt(r, "&lt;", 0);
      DiffersAt(r, "&gt;", 0);
      DiffersAt(r, "&quot;", 0);
      DiffersAt(r, "&#39;", 0);
    }
  }

  /** Escaping loses nothing: the escaped text reads as the original. */
  lemma {:induction false} UnescapeEscape(s: string)
    ensures Unescape(EscapeHtml(s)) == s
    decreases |s|
  {
    if s != [] {
      UnescapeEscape(s[1..]);
      UnescapeChar(s[0], EscapeHtml(s[1..]));
      assert s == [s[0]] + s[1..];
    }
  }

  // ---------------------------------------------------------------------------
  // highlight

  /** The query matches `h` at `i` ignoring case (the `i` flag). */
  predicate MatchAt(h: string, i: nat, q: string) {
    i + |q| <= |h| && LowerStr(h[i..i + |q|]) == LowerStr(q)
  }

  /** `h.replace(/(q)/ig, "<mark>$1</mark>")` for a literal query: the leftmost
      occurrences, taken left to right without overlap, are wrapped as they are
      written in `h`. */
  function MarkAll(h: string, q: string): string
    requires q != []
    decreases |h|
  {
    if |h| < |q| then h
    else if MatchAt(h, 0, q) then "<mark>" + h[..|q|] + "</mark>" + MarkAll(h[|q|..], q)
    else [h[0]] + MarkAll(h[1..], q)
  }

  /** `highlight(text, q)`: the query is matched against the ESCAPED text. */
  function Highlight(text: string, q: string): string {
    if q == [] then EscapeHtml(text) else MarkAll(EscapeHtml(text), q)
  }

  /** Removes the `<mark>` and `</mark>` tags. */
  function StripMarks(h: string): string
    decreases |h|
  {
    if h == [] then []
    else if StartsWith(h, "<mark>") then StripMarks(h[6..])
    else if StartsWith(h, "</mark>") then StripMarks(h[7..])
    else [h[0]] + StripMarks(h[1..])
  }

  /** A text that does not start with `<` starts with no tag. */
  lemma StripPlainHead(h: string)
    requires h != [] && h[0] != '<'
    ensures StripMarks(h) == [h[0]] + StripMarks(h[1..])
  {
    DiffersAt(h, "<mark>", 0);
    DiffersAt(h, "</mark>", 0);
  }

  lemma {:induction false} StripPlain(a: string, b: string)
    requires '<' !in a
    ensures StripMarks(a + b) == a + StripMarks(b)
    decreases |a|
  {
    if a != [] {
      var u := a + b;
      assert u[0] == a[0] && a[0] in a;
      StripPlainHead(u);
      assert u[1..] == a[1..] + b;
      StripPlain(a[1..], b);
      calc {
        StripMarks(u);
        [a[0]] + StripMarks(a[1..] + b);
        [a[0]] + (a[1..] + StripMarks(b));
        { assert a == [a[0]] + a[1..]; }
        a + StripMarks(b);
      }
    } else {
      assert a + b == b;
    }
  }

  lemma StripOpenTag(w: string)
    ensures StripMarks("<mark>" + w) == StripMarks(w)
  {
    var u := "<mark>" + w;
    assert u[..6] == "<mark>" && u[6..] == w;
  }

  lemma StripCloseTag(w: string)
    ensures StripMarks("</mark>" + w) == StripMarks(w)
  {
    var u := "</mark>" + w;
    assert u[1] == '/';
    DiffersAt(u, "<mark>", 1);
    assert u[..7] == "</mark>" && u[7..] == w;
  }

  /** Stripping a marked piece leaves the piece. */
  lemma StripMarked(x: string, rest: string)
    requires '<' !in x
    ensures StripMarks("<mark>" + x + "</mark>" + rest) == x + StripMarks(rest)
  {
    var v := "</mark>" + rest;
    assert "<mark>" + x + "</mark>" + rest == "<mark>" + (x + v);
    StripOpenTag(x + v);
    StripPlain(x, v);
    StripCloseTag(rest);
  }

  /** Without the tags, the marked text is the text it was made from. */
  lemma {:induction false} StripMarkAll(h: string, q: string)
    requires q != [] && '<' !in h
    ensures StripMarks(MarkAll(h, q)) == h
    decreases |h|
  {
    if |h| < |q| {
      StripPlain(h, []);
      assert h + [] == h;
    } else if MatchAt(h, 0, q) {
      var n := |q|;
      assert '<' !in h[..n];
      assert '<' !in h[n..];
      StripMarked(h[..n], MarkAll(h[n..], q));
      StripMarkAll(h[n..], q);
      assert h == h[..n] + h[n..];
    } else {
      assert '<' !in h[1..];
      StripPlainHead(MarkAll(h, q));
      StripMarkAll(h[1..], q);
      assert h == [h[0]] + h[1..];
    }
  }

  lemma MatchShift(h: string, i: nat, q: string)
    requires h != []
    ensures MatchAt(h[1..], i, q) == MatchAt(h, i + 1, q)
  {
    if i + |q| <= |h[1..]| {
      assert h[1..][i..i + |q|] == h[i + 1..i + 1 + |q|];
    }
  }

  /** With no occurrence of the query, nothing is marked. */
  lemma {:induction false} MarkAllNoMatch(h: string, q: string)
    requires q != []
    requires forall i: nat :: !MatchAt(h, i, q)
    ensures MarkAll(h, q) == h
    decreases |h|
  {
    if |h| >= |q| {
      assert !MatchAt(h, 0, q);
      forall i: nat ensures !MatchAt(h[1..], i, q) {
        MatchShift(h, i, q);
      }
      MarkAllNoMatch(h[1..], q);
      assert h == [h[0]] + h[1..];
    }
  }

  /** Highlighting loses nothing: without the tags the result reads as `text`;
      and where the query does not occur in the escaped text it only escapes. */
  lemma HighlightSpec(text: string, q: string)
    ensures StripMarks(Highlight(text, q)) == EscapeHtml(text)
    ensures Unescape(StripMarks(Highlight(text, q))) == text
    ensures (forall i: nat :: !MatchAt(EscapeHtml(text), i, q)) ==> Highlight(text, q) == EscapeHtml(text)
  {
    var h := EscapeHtml(text);
    EscapeSafe(text);
    assert '<' !in h by {
      forall k | 0 <= k < |h| ensures h[k] != '<' {
        assert h[k] !in "<>\"'";
      }
    }
    if q == [] {
      StripPlain(h, []);
      assert h + [] == h;
    } else {
      StripMarkAll(h, q);
      if forall i: nat :: !MatchAt(h, i, q) {
        MarkAllNoMatch(h, q);
      }
    }
    UnescapeEscape(text);
  }

  lemma EscapeAmpersand()
    ensures EscapeHtml("&") == "&amp;"
  {
    assert "&"[1..] == [];
    assert EscapeHtml("&") == EscapeChar('&') + EscapeHtml([]);
  }

  lemma AmpMarked()
    ensures MarkAll("amp;", "amp") == "<mark>amp</mark>;"
  {
    var t := "amp;";
    assert MatchAt(t, 0, "amp") by {
      assert t[0..3] == "amp";
    }
    assert t[..3] == "amp" && t[3..] == ";";
    assert MarkAll(";", "amp") == ";";
  }

  lemma AmpersandNotMarked()
    ensures MarkAll("&amp;", "amp") == "&" + MarkAll("amp;", "amp")
  {
    var h := "&amp;";
    assert !MatchAt(h, 0, "amp") by {
      assert LowerStr(h[0..3])[0] == '&';
    }
    assert h[1..] == "amp;";
  }

  /** A query that spells an entity name is marked inside the entity. */
  lemma HighlightInsideEntity()
    ensures Highlight("&", "amp") == "&<mark>amp</mark>;"
  {
    EscapeAmpersand();
    AmpersandNotMarked();
    AmpMarked();
  }

  // ---------------------------------------------------------------------------
  // buildSnippet

  const PreviewLength: nat := 260
  const Before: nat := 90
  const After: nat := 140
  const Ellipsis: string := "…"

  /** The first 260 characters, escaped, and `…` when something was cut. */
  function Preview(plain: string): string {
    var n := if |plain| < PreviewLength then |plain| else PreviewLength;
    EscapeHtml(plain[..n]) + (if |plain| > PreviewLength then Ellipsis else "")
  }

  /** Where the window around a match at `idx` of length `len` starts and ends. */
  function WindowStart(idx: nat): nat {
    if idx < Before then 0 else idx - Before
  }

  function WindowEnd(n: nat, idx: nat, len: nat): nat {
    if idx + len + After < n then idx + len + After else n
  }

  /** `buildSnippet(item, q)`. The match is searched in the normalised text but
      the window is cut from the original `plain`. */
  function BuildSnippet(plain: string, q: string): string {
    var t := Normalize(plain);
    var qq := Normalize(q);
    if qq == [] then Preview(plain)
    else
      var idx := IndexOf(t, qq);
      if idx == -1 then Preview(plain)
      else
        var start := WindowStart(idx);
        var end := WindowEnd(|plain|, idx, |qq|);
        Highlight(plain[start..end], qq) + (if end < |plain| then Ellipsis else "")
  }

  /** The preview: a text of at most 260 characters is shown whole, escaped and
      without an ellipsis; a longer one shows its first 260 characters, escaped,
      and then `…`. */
  lemma PreviewSpec(plain: string)
    ensures |plain| <= PreviewLength ==> Preview(plain) == EscapeHtml(plain) && Unescape(Preview(plain)) == plain
    ensures |plain| > PreviewLength ==> Preview(plain) == EscapeHtml(plain[..PreviewLength]) + Ellipsis
  {
    if |plain| <= PreviewLength {
      assert plain[..|plain|] == plain;
      UnescapeEscape(plain);
      assert Preview(plain) == EscapeHtml(plain);
    }
  }

  /** With an empty query, or one that does not occur in the normalised text,
      the snippet is the preview. */
  lemma SnippetWithoutMatch(plain: string, q: string)
    requires Normalize(q) == [] || !Includes(Normalize(plain), Normalize(q))
    ensures BuildSnippet(plain, q) == Preview(plain)
  {
  }

  /** With a match, the snippet is the highlighted window from at most 90
      characters before the first match to at most 140 after it, followed by `…`
      exactly when the window stops short of the end of `plain`. */
  lemma SnippetWindow(plain: string, q: string)
    requires Normalize(q) != [] && Includes(Normalize(plain), Normalize(q))
    ensures exists idx: nat, start: nat, end: nat :: (
      && OccursAt(Normalize(plain), Normalize(q), idx)
      && (forall j :: 0 <= j < idx ==> !OccursAt(Normalize(plain), Normalize(q), j))
      && start <= idx && idx - start <= Before && (idx >= Before ==> idx - start == Before)
      && (idx < Before ==> start == 0)
      && idx + |Normalize(q)| <= end <= |plain|
      && end - (idx + |Normalize(q)|) <= After
      && (end < |plain| ==> end - (idx + |Normalize(q)|) == After)
      && BuildSnippet(plain, q) == Highlight(plain[start..end], Normalize(q)) + (if end < |plain| then Ellipsis else "")
      && Unescape(StripMarks(Highlight(plain[start..end], Normalize(q)))) == plain[start..end])
  {
    var t := Normalize(plain);
    var qq := Normalize(q);
    var idx := IndexOf(t, qq);
    var start := WindowStart(idx);
    var end := WindowEnd(|plain|, idx, |qq|);
    HighlightSpec(plain[start..end], qq);
    assert idx + |qq| <= end;
  }

  /** A tag cannot start inside a text and end in a trailing `…`. */
  lemma TagNotAcrossEllipsis(x: string, p: string)
    requires !StartsWith(x, p) && p != [] && '…' !in p
    ensures !StartsWith(x + Ellipsis, p)
  {
    var u := x + Ellipsis;
    if |p| <= |x| {
      assert u[..|p|] == x[..|p|];
    } else if |p| == |x| + 1 {
      assert u[|x|] == '…';
      assert p[|x|] in p;
      DiffersAt(u, p, |x|);
    }
  }

  /** Stripping the tags commutes with appending the ellipsis. */
  lemma {:induction false} StripEllipsis(x: string)
    ensures StripMarks(x + Ellipsis) == StripMarks(x) + Ellipsis
    decreases |x|
  {
    var u := x + Ellipsis;
    if x == [] {
      assert u == Ellipsis;
      StripPlainHead(u);
      assert u[1..] == [];
    } else if StartsWith(x, "<mark>") {
      assert u[..6] == x[..6];
      assert u[6..] == x[6..] + Ellipsis;
      StripEllipsis(x[6..]);
    } else if StartsWith(x, "</mark>") {
      assert x[..7][1] == '/';
      DiffersAt(u, "<mark>", 1);
      assert u[..7] == x[..7];
      assert u[7..] == x[7..] + Ellipsis;
      StripEllipsis(x[7..]);
    } else {
      TagNotAcrossEllipsis(x, "<mark>");
      TagNotAcrossEllipsis(x, "</mark>");
      assert u[0] == x[0];
      assert u[1..] == x[1..] + Ellipsis;
      StripEllipsis(x[1..]);
    }
  }

  /** The escaped slice `plain[start..end]` followed by `…` exactly when the
      slice stops before the end: safe, and read back as the slice. */
  lemma EscapedSliceSafe(plain: string, start: nat, end: nat)
    requires start <= end <= |plain|
    ensures Safe(EscapeHtml(plain[start..end]) + (if end < |plain| then Ellipsis else ""))
  {
    EscapeSafe(plain[start..end]);
    var tail := if end < |plain| then Ellipsis else "";
    assert Safe(tail) by {
      forall i | 0 <= i < |tail| ensures tail[i] == '…' { }
    }
    SafeConcat(EscapeHtml(plain[start..end]), tail);
  }

  /** Without tags, the preview is the escaped first `end` characters, then
      `…` exactly when text was cut. */
  lemma PreviewStrips(plain: string, end: nat)
    requires end == if |plain| < PreviewLength then |plain| else PreviewLength
    ensures StripMarks(Preview(plain)) == EscapeHtml(plain[0..end]) + (if end < |plain| then Ellipsis else "")
  {
    var e := EscapeHtml(plain[0..end]);
    assert plain[0..end] == plain[..end];
    EscapeSafe(plain[0..end]);
    assert '<' !in e by {
      forall k | 0 <= k < |e| ensures e[k] != '<' {
        assert e[k] !in "<>\"'";
      }
    }
    if end < |plain| {
      StripPlain(e, Ellipsis);
      StripEllipsis([]);
      assert [] + Ellipsis == Ellipsis;
    } else {
      StripPlain(e, []);
      assert e + [] == e;
    }
  }

  /** Without tags, a highlighted window followed by its tail is the escaped
      window followed by that tail. */
  lemma WindowStrips(plain: string, qq: string, start: nat, end: nat)
    requires start <= end <= |plain|
    ensures StripMarks(Highlight(plain[start..end], qq) + (if end < |plain| then Ellipsis else ""))
         == EscapeHtml(plain[start..end]) + (if end < |plain| then Ellipsis else "")
  {
    var h := Highlight(plain[start..end], qq);
    HighlightSpec(plain[start..end], qq);
    if end < |plain| {
      StripEllipsis(h);
    } else {
      assert h + "" == h;
    }
  }

  /** Without its `<mark>` tags a snippet is an escaped slice of `plain`,
      followed by `…` exactly when the slice stops before the end of `plain`. */
  lemma SnippetStripped(plain: string, q: string)
    ensures exists start: nat, end: nat :: (
      && start <= end <= |plain|
      && StripMarks(BuildSnippet(plain, q)) == EscapeHtml(plain[start..end]) + (if end < |plain| then Ellipsis else ""))
  {
    var t, qq := Normalize(plain), Normalize(q);
    if qq == [] || IndexOf(t, qq) == -1 {
      var end := if |plain| < PreviewLength then |plain| else PreviewLength;
      assert BuildSnippet(plain, q) == Preview(plain);
      PreviewStrips(plain, end);
    } else {
      var idx := IndexOf(t, qq);
      var start, end := WindowStart(idx), WindowEnd(|plain|, idx, |qq|);
      assert BuildSnippet(plain, q) == Highlight(plain[start..end], qq) + (if end < |plain| then Ellipsis else "");
      WindowStrips(plain, qq, start, end);
    }
  }

  /** Snippet safety: without its `<mark>` tags a snippet holds no `<`, `>` or
      quote, and every `&` begins an entity, so the only markup in a snippet is
      the `<mark>` tags. */
  lemma SnippetSafe(plain: string, q: string)
    ensures Safe(StripMarks(BuildSnippet(plain, q)))
  {
    SnippetStripped(plain, q);
    var start: nat, end: nat :| start <= end <= |plain|
      && StripMarks(BuildSnippet(plain, q)) == EscapeHtml(plain[start..end]) + (if end < |plain| then Ellipsis else "");
    EscapedSliceSafe(plain, start, end);
  }
}
