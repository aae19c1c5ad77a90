/**
 * The text normaliser (`normalizeText`) and the JavaScript string primitives the
 * indexing engine relies on: `trim`, `includes`, `indexOf`, `startsWith`, `join`.
 * Strings are sequences of Unicode code points.
 */
module Text {

  /** The characters of the JavaScript regular-expression class `\s`.
      `String.prototype.trim` removes exactly the same set (WhiteSpace and
      LineTerminator in ECMA-262). */
  predicate IsSpace(c: char) {
    || c == '\t' || c == '\n' || c == '\U{000B}' || c == '\U{000C}' || c == '\r' || c == ' '
    || c == '\U{00A0}' || c == '\U{1680}' || ('\U{2000}' <= c <= '\U{200A}')
    || c == '\U{2028}' || c == '\U{2029}' || c == '\U{202F}' || c == '\U{205F}'
    || c == '\U{3000}' || c == '\U{FEFF}'
  }

  /** Lower-casing of one character: the ASCII capitals and the capitals of the
      basic Cyrillic block (U+0400..U+042F); every other character is kept. */
  function Lower(c: char): char {
    if 'A' <= c <= 'Z' then (c as int + 32) as char
    else if '\U{0410}' <= c <= '\U{042F}' then (c as int + 32) as char
    else if '\U{0400}' <= c <= '\U{040F}' then (c as int + 80) as char
    else c
  }

  /** Lower-casing never turns a letter into whitespace or back, and a lower-cased
      character stays as it is. */
  lemma LowerFacts(c: char)
    ensures IsSpace(Lower(c)) == IsSpace(c)
    ensures Lower(Lower(c)) == Lower(c)
    ensures IsSpace(c) ==> Lower(c) == c
  {
  }

  /** `s.toLowerCase()`, character by character. */
  function LowerStr(s: string): string {
    seq(|s|, i requires 0 <= i < |s| => Lower(s[i]))
  }

  /** `s.trimStart()`: drops the leading whitespace run. */
  function TrimStart(s: string): (r: string)
    ensures |r| <= |s|
    ensures r == [] || !IsSpace(r[0])
  {
    if s != [] && IsSpace(s[0]) then TrimStart(s[1..]) else s
  }

  /** What `TrimStart` drops is a whitespace prefix; what it keeps is the rest. */
  lemma {:induction false} TrimStartDropsSpaces(s: string)
    ensures TrimStart(s) == s[|s| - |TrimStart(s)|..]
    ensures forall i :: 0 <= i < |s| - |TrimStart(s)| ==> IsSpace(s[i])
    decreases |s|
  {
    if s != [] && IsSpace(s[0]) {
      TrimStartDropsSpaces(s[1..]);
    }
  }

  /** `s.trimEnd()`: drops the trailing whitespace run. */
  function TrimEnd(s: string): (r: string)
    ensures |r| <= |s|
    ensures r == [] || !IsSpace(r[|r| - 1])
  {
    if s != [] && IsSpace(s[|s| - 1]) then TrimEnd(s[..|s| - 1]) else s
  }

  /** What `TrimEnd` drops is a whitespace suffix; what it keeps is the rest. */
  lemma {:induction false} TrimEndDropsSpaces(s: string)
    ensures TrimEnd(s) == s[..|TrimEnd(s)|]
    ensures forall i :: |TrimEnd(s)| <= i < |s| ==> IsSpace(s[i])
    decreases |s|
  {
    if s != [] && IsSpace(s[|s| - 1]) {
      TrimEndDropsSpaces(s[..|s| - 1]);
    }
  }

  /** `s.trim()`. */
  function Trim(s: string): string {
    TrimEnd(TrimStart(s))
  }

  /** Every whitespace character is a plain space and no two whitespace
      characters are adjacent. */
  predicate Collapsed(t: string) {
    && (forall i :: 0 <= i < |t| && IsSpace(t[i]) ==> t[i] == ' ')
    && (forall i :: 0 <= i < |t| - 1 ==> !SpacePair(t, i))
  }

  /** Indices `i` and `i + 1` of `t` both hold whitespace. */
  predicate SpacePair(t: string, i: int)
    requires 0 <= i < |t| - 1
  {
    IsSpace(t[i]) && IsSpace(t[i + 1])
  }

  /** Spacing made only of single plain spaces is collapsed. */
  lemma CollapsedFromPlainSpaces(t: string)
    requires forall i :: 0 <= i < |t| && IsSpace(t[i]) ==> t[i] == ' '
    requires forall i :: 0 <= i < |t| - 1 ==> !(t[i] == ' ' && t[i + 1] == ' ')
    ensures Collapsed(t)
  {
    forall i | 0 <= i < |t| - 1 ensures !SpacePair(t, i) {
    }
  }

  /** Neither end of `t` is whitespace. */
  predicate NoEdgeSpace(t: string) {
    t == [] || (!IsSpace(t[0]) && !IsSpace(t[|t| - 1]))
  }

  /** The shape of every output of `Normalize`. */
  predicate IsNormal(t: string) {
    && Collapsed(t)
    && NoEdgeSpace(t)
    && forall i :: 0 <= i < |t| ==> Lower(t[i]) == t[i]
  }

  /** `s.replace(/\s+/g, " ")`: each maximal whitespace run becomes one space. */
  function CollapseSpaces(s: string): (r: string)
    ensures |r| <= |s|
    ensures s != [] ==> r != [] && r[0] == (if IsSpace(s[0]) then ' ' else s[0])
    ensures Collapsed(r)
    decreases |s|
  {
    if s == [] then []
    else if IsSpace(s[0]) then
      var rest := CollapseSpaces(TrimStart(s[1..]));
      ConsCollapsed(' ', rest);
      [' '] + rest
    else
      var rest := CollapseSpaces(s[1..]);
      ConsCollapsed(s[0], rest);
      [s[0]] + rest
  }

  lemma ConsCollapsed(c: char, r: string)
    requires Collapsed(r)
    requires IsSpace(c) ==> c == ' ' && (r == [] || !IsSpace(r[0]))
    ensures Collapsed([c] + r)
  {
    var u := [c] + r;
    forall i | 0 <= i < |u| - 1 ensures !SpacePair(u, i) {
      if i > 0 {
        assert u[i] == r[i - 1] && u[i + 1] == r[i];
        assert !SpacePair(r, i - 1);
      }
    }
  }

  /** `normalizeText(s)`: collapse whitespace runs, trim, lower-case. */
  function Normalize(s: string): (r: string)
    ensures |r| <= |s|
  {
    LowerStr(Trim(CollapseSpaces(s)))
  }

  lemma CollapsedSlice(t: string, a: int, b: int)
    requires 0 <= a <= b <= |t| && Collapsed(t)
    ensures Collapsed(t[a..b])
  {
    var u := t[a..b];
    forall i | 0 <= i < |u| - 1 ensures !SpacePair(u, i) {
      assert u[i] == t[a + i] && u[i + 1] == t[a + i + 1];
      assert !SpacePair(t, a + i);
    }
  }

  /** The output of `Normalize` has no whitespace at either end, no two adjacent
      whitespace characters, only plain spaces, and only lower-case letters. */
  lemma NormalizeIsNormal(s: string)
    ensures IsNormal(Normalize(s))
  {
    var c := CollapseSpaces(s);
    var a := TrimStart(c);
    TrimStartDropsSpaces(c);
    CollapsedSlice(c, |c| - |a|, |c|);
    var b := TrimEnd(a);
    TrimEndDropsSpaces(a);
    CollapsedSlice(a, 0, |b|);
    LowerKeepsShape(b);
  }

  lemma LowerKeepsShape(b: string)
    requires Collapsed(b) && NoEdgeSpace(b)
    ensures IsNormal(LowerStr(b))
  {
    var r := LowerStr(b);
    forall i | 0 <= i < |r| ensures IsSpace(r[i]) == IsSpace(b[i]) && Lower(r[i]) == r[i] {
      LowerFacts(b[i]);
    }
    forall i | 0 <= i < |r| && IsSpace(r[i]) ensures r[i] == ' ' {
      LowerFacts(b[i]);
    }
    forall i | 0 <= i < |r| - 1 ensures !SpacePair(r, i) {
      assert !SpacePair(b, i);
    }
  }

  lemma {:induction false} CollapseFixesCollapsed(t: string)
    requires Collapsed(t)
    ensures CollapseSpaces(t) == t
    decreases |t|
  {
    if t != [] {
      var rest := t[1..];
      CollapsedSlice(t, 1, |t|);
      assert t[1..|t|] == rest;
      CollapseFixesCollapsed(rest);
      if IsSpace(t[0]) {
        assert t[0] == ' ';
        if |t| > 1 {
          assert !SpacePair(t, 0);
          assert !IsSpace(rest[0]);
        }
        assert TrimStart(rest) == rest;
        assert CollapseSpaces(t) == [' '] + CollapseSpaces(rest);
      } else {
        assert CollapseSpaces(t) == [t[0]] + CollapseSpaces(rest);
      }
      assert t == [t[0]] + rest;
    }
  }

  /** A string already in normal form is left unchanged. */
  lemma NormalizeFixesNormal(t: string)
    requires IsNormal(t)
    ensures Normalize(t) == t
  {
    CollapseFixesCollapsed(t);
    assert TrimStart(t) == t;
    assert TrimEnd(t) == t;
  }

  /** On text whose spacing is already clean, normalising only lower-cases;
      a single trailing separator space is dropped. */
  lemma NormalizeClean(s: string)
    requires Collapsed(s) && NoEdgeSpace(s)
    ensures Normalize(s) == LowerStr(s)
    ensures Normalize(s + " ") == LowerStr(s)
  {
    CollapseFixesCollapsed(s);
    assert TrimStart(s) == s && TrimEnd(s) == s;
    var u := s + " ";
    if s == [] {
      assert CollapseSpaces(u) == " ";
    } else {
      CollapsedSpaceAfter(s);
      assert TrimStart(u) == u;
      assert u[..|u| - 1] == s;
      assert TrimEnd(u) == TrimEnd(s);
    }
  }

  /** One space after clean text that ends in a word character is left alone. */
  lemma CollapsedSpaceAfter(s: string)
    requires Collapsed(s) && NoEdgeSpace(s) && s != []
    ensures CollapseSpaces(s + " ") == s + " "
  {
    var u := s + " ";
    forall i | 0 <= i < |u| - 1 ensures !SpacePair(u, i) {
      assert u[i] == s[i];
      if i < |s| - 1 {
        assert !SpacePair(s, i);
      }
    }
    CollapseFixesCollapsed(u);
  }

  /** `normalizeText` is idempotent. */
  lemma NormalizeIdempotent(s: string)
    ensures Normalize(Normalize(s)) == Normalize(s)
  {
    NormalizeIsNormal(s);
    NormalizeFixesNormal(Normalize(s));
  }

  // ---------------------------------------------------------------------------
  // What normalisation keeps

  /** `s` with every whitespace character removed. */
  function NoSpace(s: string): string
    decreases |s|
  {
    if s == [] then [] else (if IsSpace(s[0]) then [] else [s[0]]) + NoSpace(s[1..])
  }

  lemma NoSpaceCons(c: char, x: string)
    ensures NoSpace([c] + x) == (if IsSpace(c) then [] else [c]) + NoSpace(x)
  {
    assert ([c] + x)[1..] == x;
  }

  lemma {:induction false} NoSpaceConcat(a: string, b: string)
    ensures NoSpace(a + b) == NoSpace(a) + NoSpace(b)
    decreases |a|
  {
    if a == [] {
      assert a + b == b;
    } else {
      assert a + b == [a[0]] + (a[1..] + b);
      NoSpaceCons(a[0], a[1..] + b);
      NoSpaceConcat(a[1..], b);
    }
  }

  lemma {:induction false} NoSpaceTrimStart(s: string)
    ensures NoSpace(TrimStart(s)) == NoSpace(s)
    decreases |s|
  {
    if s != [] && IsSpace(s[0]) {
      NoSpaceTrimStart(s[1..]);
    }
  }

  lemma {:induction false} NoSpaceTrimEnd(s: string)
    ensures NoSpace(TrimEnd(s)) == NoSpace(s)
    decreases |s|
  {
    if s != [] && IsSpace(s[|s| - 1]) {
      var init := s[..|s| - 1];
      NoSpaceTrimEnd(init);
      assert s == init + [s[|s| - 1]];
      NoSpaceConcat(init, [s[|s| - 1]]);
      NoSpaceCons(s[|s| - 1], []);
      assert [s[|s| - 1]] + [] == [s[|s| - 1]];
    }
  }

  lemma {:induction false} NoSpaceCollapse(s: string)
    ensures NoSpace(CollapseSpaces(s)) == NoSpace(s)
    decreases |s|
  {
    if s != [] {
      NoSpaceCons(s[0], s[1..]);
      assert s == [s[0]] + s[1..];
      if IsSpace(s[0]) {
        var t := TrimStart(s[1..]);
        NoSpaceCollapse(t);
        NoSpaceTrimStart(s[1..]);
        NoSpaceCons(' ', CollapseSpaces(t));
      } else {
        NoSpaceCollapse(s[1..]);
        NoSpaceCons(s[0], CollapseSpaces(s[1..]));
      }
    }
  }

  lemma LowerConcat(a: string, b: string)
    ensures LowerStr(a + b) == LowerStr(a) + LowerStr(b)
  {
  }

  lemma {:induction false} NoSpaceLower(s: string)
    ensures NoSpace(LowerStr(s)) == LowerStr(NoSpace(s))
    decreases |s|
  {
    if s != [] {
      NoSpaceLower(s[1..]);
      LowerFacts(s[0]);
      assert s == [s[0]] + s[1..];
      LowerConcat([s[0]], s[1..]);
      NoSpaceCons(s[0], s[1..]);
      NoSpaceCons(Lower(s[0]), LowerStr(s[1..]));
      LowerConcat(if IsSpace(s[0]) then [] else [s[0]], NoSpace(s[1..]));
    }
  }

  /** Normalisation keeps every non-whitespace character, lower-cased and in
      order: only whitespace is dropped or replaced. */
  lemma NormalizeKeepsContent(s: string)
    ensures NoSpace(Normalize(s)) == LowerStr(NoSpace(s))
  {
    var c := CollapseSpaces(s);
    NoSpaceCollapse(s);
    NoSpaceTrimStart(c);
    NoSpaceTrimEnd(TrimStart(c));
    NoSpaceLower(Trim(c));
  }

  // ---------------------------------------------------------------------------
  // Normalisation of words between whitespace runs

  predicate AllSpace(e: string) {
    forall i :: 0 <= i < |e| ==> IsSpace(e[i])
  }

  /** A word: a non-empty run without whitespace. */
  predicate IsWord(w: string) {
    w != [] && forall i :: 0 <= i < |w| ==> !IsSpace(w[i])
  }

  /** The words `ws` with the whitespace run `gaps[k]` between `ws[k]` and `ws[k + 1]`. */
  function Spread(ws: seq<string>, gaps: seq<string>): string
    requires |ws| == |gaps| + 1
    decreases |gaps|
  {
    if gaps == [] then ws[0] else ws[0] + gaps[0] + Spread(ws[1..], gaps[1..])
  }

  /** Words separated by non-empty whitespace runs start and end with a word character. */
  lemma {:induction false} SpreadEdges(ws: seq<string>, gaps: seq<string>)
    requires |ws| == |gaps| + 1
    requires forall k :: 0 <= k < |ws| ==> IsWord(ws[k])
    ensures Spread(ws, gaps) != [] && !IsSpace(Spread(ws, gaps)[0])
    ensures !IsSpace(Spread(ws, gaps)[|Spread(ws, gaps)| - 1])
    decreases |gaps|
  {
    assert IsWord(ws[0]);
    if gaps != [] {
      assert IsWord(ws[1..][0]);
      SpreadEdges(ws[1..], gaps[1..]);
    }
  }

  /** Words joined by single spaces start and end with a word character. */
  lemma {:induction false} JoinEdges(ws: seq<string>)
    requires ws != [] && forall k :: 0 <= k < |ws| ==> IsWord(ws[k])
    ensures Join(ws, " ") != [] && !IsSpace(Join(ws, " ")[0])
    ensures !IsSpace(Join(ws, " ")[|Join(ws, " ")| - 1])
    decreases |ws|
  {
    assert IsWord(ws[0]);
    if |ws| > 1 {
      assert IsWord(ws[1..][0]);
      JoinEdges(ws[1..]);
    }
  }

  lemma {:induction false} TrimStartSpaces(e: string, x: string)
    requires AllSpace(e) && (x == [] || !IsSpace(x[0]))
    ensures TrimStart(e + x) == x
    decreases |e|
  {
    if e == [] {
      assert e + x == x;
    } else {
      assert (e + x)[0] == e[0];
      assert (e + x)[1..] == e[1..] + x;
      TrimStartSpaces(e[1..], x);
    }
  }

  lemma {:induction false} TrimEndSpaces(x: string, e: string)
    requires AllSpace(e) && (x == [] || !IsSpace(x[|x| - 1]))
    ensures TrimEnd(x + e) == x
    decreases |e|
  {
    if e == [] {
      assert x + e == x;
    } else {
      var u := x + e;
      assert u[|u| - 1] == e[|e| - 1];
      assert u[..|u| - 1] == x + e[..|e| - 1];
      TrimEndSpaces(x, e[..|e| - 1]);
    }
  }

  lemma {:induction false} CollapseWord(w: string, x: string)
    requires forall i :: 0 <= i < |w| ==> !IsSpace(w[i])
    ensures CollapseSpaces(w + x) == w + CollapseSpaces(x)
    decreases |w|
  {
    if w == [] {
      assert w + x == x;
    } else {
      var u := w + x;
      assert u[0] == w[0] && u[1..] == w[1..] + x;
      assert forall i :: 0 <= i < |w[1..]| ==> !IsSpace(w[1..][i]);
      CollapseWord(w[1..], x);
      var c := CollapseSpaces(x);
      assert CollapseSpaces(u) == [w[0]] + (w[1..] + c);
      assert [w[0]] + (w[1..] + c) == ([w[0]] + w[1..]) + c;
      assert w == [w[0]] + w[1..];
    }
  }

  lemma CollapseGap(e: string, x: string)
    requires AllSpace(e) && e != [] && (x == [] || !IsSpace(x[0]))
    ensures CollapseSpaces(e + x) == " " + CollapseSpaces(x)
  {
    var u := e + x;
    assert u[0] == e[0];
    assert u[1..] == e[1..] + x;
    TrimStartSpaces(e[1..], x);
  }

  /** `replace(/\s+/g, " ")` on words separated by whitespace runs and followed
      by the run `trail`: the words joined by single spaces, and one space for a
      non-empty `trail`. */
  lemma {:induction false} CollapseSpread(ws: seq<string>, gaps: seq<string>, trail: string)
    requires |ws| == |gaps| + 1
    requires forall k :: 0 <= k < |ws| ==> IsWord(ws[k])
    requires forall k :: 0 <= k < |gaps| ==> gaps[k] != [] && AllSpace(gaps[k])
    requires AllSpace(trail)
    ensures CollapseSpaces(Spread(ws, gaps) + trail) == Join(ws, " ") + (if trail == [] then "" else " ")
    decreases |gaps|
  {
    assert IsWord(ws[0]);
    if gaps == [] {
      CollapseWord(ws[0], trail);
      if trail != [] {
        CollapseGap(trail, []);
        assert trail + [] == trail;
      }
    } else {
      var tail := Spread(ws[1..], gaps[1..]);
      assert Spread(ws, gaps) + trail == ws[0] + (gaps[0] + (tail + trail));
      SpreadEdges(ws[1..], gaps[1..]);
      CollapseSpread(ws[1..], gaps[1..], trail);
      CollapseWordGap(ws[0], gaps[0], tail, trail, Join(ws[1..], " "), if trail == [] then "" else " ");
    }
  }

  /** One word and one whitespace run in front of a text that starts with a word. */
  lemma CollapseWordGap(w: string, g: string, x: string, trail: string, j: string, post: string)
    requires IsWord(w) && g != [] && AllSpace(g)
    requires x != [] && !IsSpace(x[0])
    requires CollapseSpaces(x + trail) == j + post
    ensures CollapseSpaces(w + (g + (x + trail))) == (w + " " + j) + post
  {
    var rest := x + trail;
    assert rest[0] == x[0];
    CollapseWord(w, g + rest);
    CollapseGap(g, rest);
  }

  /** `replace(/\s+/g, " ")` on words separated by whitespace runs, with optional
      whitespace before and after. */
  lemma CollapseWords(lead: string, ws: seq<string>, gaps: seq<string>, trail: string)
    requires |ws| == |gaps| + 1
    requires forall k :: 0 <= k < |ws| ==> IsWord(ws[k])
    requires forall k :: 0 <= k < |gaps| ==> gaps[k] != [] && AllSpace(gaps[k])
    requires AllSpace(lead) && AllSpace(trail)
    ensures CollapseSpaces(lead + Spread(ws, gaps) + trail)
         == (if lead == [] then "" else " ") + (Join(ws, " ") + (if trail == [] then "" else " "))
  {
    var sp := Spread(ws, gaps);
    SpreadEdges(ws, gaps);
    CollapseSpread(ws, gaps, trail);
    assert lead + sp + trail == lead + (sp + trail);
    CollapseLead(lead, sp, trail);
  }

  /** `normalizeText` on words separated by whitespace runs, with optional
      whitespace before and after: the lower-cased words joined by single spaces. */
  lemma NormalizeWords(lead: string, ws: seq<string>, gaps: seq<string>, trail: string)
    requires |ws| == |gaps| + 1
    requires forall k :: 0 <= k < |ws| ==> IsWord(ws[k])
    requires forall k :: 0 <= k < |gaps| ==> gaps[k] != [] && AllSpace(gaps[k])
    requires AllSpace(lead) && AllSpace(trail)
    ensures Normalize(lead + Spread(ws, gaps) + trail) == LowerStr(Join(ws, " "))
  {
    CollapseWords(lead, ws, gaps, trail);
    JoinEdges(ws);
    NormalizeFramed(lead + Spread(ws, gaps) + trail, if lead == [] then "" else " ",
                    Join(ws, " "), if trail == [] then "" else " ");
  }

  /** A text that collapses to a word-framed text between whitespace normalises
      to that text, lower-cased. */
  lemma NormalizeFramed(s: string, pre: string, j: string, post: string)
    requires CollapseSpaces(s) == pre + (j + post)
    requires AllSpace(pre) && AllSpace(post)
    requires j != [] && !IsSpace(j[0]) && !IsSpace(j[|j| - 1])
    ensures Normalize(s) == LowerStr(j)
  {
    TrimFramed(pre, j, post);
  }

  /** Leading whitespace before a text that starts with a word collapses to at most one space. */
  lemma CollapseLead(lead: string, x: string, trail: string)
    requires AllSpace(lead) && x != [] && !IsSpace(x[0])
    ensures CollapseSpaces(lead + (x + trail)) == (if lead == [] then "" else " ") + CollapseSpaces(x + trail)
  {
    assert (x + trail)[0] == x[0];
    if lead != [] {
      CollapseGap(lead, x + trail);
    } else {
      assert lead + (x + trail) == x + trail;
    }
  }

  /** Trimming removes whitespace framing a text with a word character at each end. */
  lemma TrimFramed(pre: string, j: string, post: string)
    requires AllSpace(pre) && AllSpace(post)
    requires j != [] && !IsSpace(j[0]) && !IsSpace(j[|j| - 1])
    ensures Trim(pre + (j + post)) == j
  {
    assert (j + post)[0] == j[0];
    TrimStartSpaces(pre, j + post);
    TrimEndSpaces(j, post);
  }

  /** A text of whitespace only normalises to the empty text. */
  lemma NormalizeBlank(e: string)
    requires AllSpace(e)
    ensures Normalize(e) == ""
  {
    if e != [] {
      CollapseGap(e, []);
      assert e + [] == e;
    }
  }

  /** `s.startsWith(p)`. */
  predicate StartsWith(s: string, p: string) {
    |p| <= |s| && s[..|p|] == p
  }

  /** `k` occurs in `t` at index `i`. */
  predicate OccursAt(t: string, k: string, i: int) {
    0 <= i && i + |k| <= |t| && t[i..i + |k|] == k
  }

  /** `t.includes(k)`. */
  predicate Includes(t: string, k: string) {
    exists i | 0 <= i <= |t| - |k| :: OccursAt(t, k, i)
  }

  /** `t.indexOf(k)`: the first index at which `k` occurs in `t`, or -1. */
  function IndexOf(t: string, k: string): (r: int)
    ensures r == -1 <==> !Includes(t, k)
    ensures r != -1 ==> OccursAt(t, k, r) && forall j :: 0 <= j < r ==> !OccursAt(t, k, j)
    decreases |t|
  {
    if |t| < |k| then -1
    else if t[..|k|] == k then (assert OccursAt(t, k, 0); 0)
    else
      ShiftOccurrence(t, k);
      var r := IndexOf(t[1..], k);
      if r == -1 then -1 else r + 1
  }

  /** An occurrence in `t[1..]` is an occurrence in `t` one index later. */
  lemma ShiftOccurrence(t: string, k: string)
    requires t != []
    ensures forall i :: 0 <= i ==> (OccursAt(t[1..], k, i) ==> OccursAt(t, k, i + 1))
    ensures forall i :: 1 <= i ==> (OccursAt(t, k, i) ==> OccursAt(t[1..], k, i - 1))
  {
    forall i | 0 <= i && OccursAt(t[1..], k, i) ensures OccursAt(t, k, i + 1) {
      assert t[1..][i..i + |k|] == t[i + 1..i + 1 + |k|];
    }
    forall i | 1 <= i && OccursAt(t, k, i) ensures OccursAt(t[1..], k, i - 1) {
      assert t[1..][i - 1..i - 1 + |k|] == t[i..i + |k|];
    }
  }

  /** A key containing a character that `t` lacks does not occur in `t`. */
  lemma AbsentCharNotIncluded(t: string, k: string, c: char)
    requires c in k && c !in t
    ensures !Includes(t, k)
  {
    var j :| 0 <= j < |k| && k[j] == c;
    forall i | 0 <= i <= |t| - |k| ensures !OccursAt(t, k, i) {
      assert t[i..i + |k|][j] == t[i + j] != c;
    }
  }

  /** A key containing a character outside the alphabet of `t` does not occur in `t`. */
  lemma OutsideAlphabetNotIncluded(t: string, letters: set<char>, k: string, c: char)
    requires forall i :: 0 <= i < |t| ==> t[i] in letters
    requires c in k && c !in letters
    ensures !Includes(t, k)
  {
    AbsentCharNotIncluded(t, k, c);
  }

  /** A key whose first two characters are never adjacent in `t` does not occur in `t`. */
  lemma AbsentPairNotIncluded(t: string, k: string)
    requires |k| >= 2
    requires forall i :: 0 <= i < |t| - 1 ==> !(t[i] == k[0] && t[i + 1] == k[1])
    ensures !Includes(t, k)
  {
    forall i | 0 <= i <= |t| - |k| ensures !OccursAt(t, k, i) {
      assert t[i..i + |k|][0] == t[i] && t[i..i + |k|][1] == t[i + 1];
    }
  }

  /** `xs.join(sep)`. */
  function Join(xs: seq<string>, sep: string): string {
    if xs == [] then ""
    else if |xs| == 1 then xs[0]
    else xs[0] + sep + Join(xs[1..], sep)
  }
}
