/**
 * The search of the knowledge base (`doSearch` without its DOM reads and the
 * rendering call): the author, category and text filters, each applied only when
 * its input is non-empty, then a stable sort that puts higher numeric message ids
 * first.
 */
module Query {
  import opened Text
  import opened Extractor

  // ---------------------------------------------------------------------------
  // The sort key: parseInt(id.replace("message", "")) || 0

  /** `s.replace(p, "")` with a string pattern: the first occurrence is removed. */
  function RemoveFirst(s: string, p: string): (r: string)
    ensures !Includes(s, p) ==> r == s
    ensures Includes(s, p) ==> |r| == |s| - |p|
    ensures Includes(s, p) ==> exists i :: OccursAt(s, p, i) && (forall j :: 0 <= j < i ==> !OccursAt(s, p, j)) && r == s[..i] + s[i + |p|..]
  {
    var i := IndexOf(s, p);
    if i == -1 then s else assert OccursAt(s, p, i); s[..i] + s[i + |p|..]
  }

  /** The number of leading decimal digits of `s`. */
  function DigitRun(s: string): (n: nat)
    ensures n <= |s|
    ensures forall k :: 0 <= k < n ==> Dates.IsDigit(s[k])
    ensures n == |s| || !Dates.IsDigit(s[n])
    decreases |s|
  {
    if s != [] && Dates.IsDigit(s[0]) then 1 + DigitRun(s[1..]) else 0
  }

  /** The value of a string of decimal digits. */
  function DigitsValue(d: string): nat
    requires forall k :: 0 <= k < |d| ==> Dates.IsDigit(d[k])
    decreases |d|
  {
    if d == [] then 0
    else
      assert Dates.IsDigit(d[|d| - 1]);
      DigitsValue(d[..|d| - 1]) * 10 + (d[|d| - 1] as int - '0' as int)
  }

  /** `parseInt(s) || 0` for a string that starts with its digits: the leading
      decimal digits, and 0 when there are none (`NaN || 0`). */
  function ParseLeading(s: string): nat {
    var n := DigitRun(s);
    DigitsValue(s[..n])
  }

  /** The numeric key a message is ranked by. */
  function Key(m: Message): nat {
    ParseLeading(RemoveFirst(m.id, "message"))
  }

  /** The decimal digits of `n`. */
  function Decimal(n: nat): (d: string)
    ensures d != [] && forall k :: 0 <= k < |d| ==> Dates.IsDigit(d[k])
  {
    var c := ('0' as int + n % 10) as char;
    if n < 10 then [c] else Decimal(n / 10) + [c]
  }

  lemma {:induction false} DecimalValue(n: nat)
    ensures DigitsValue(Decimal(n)) == n
  {
    var d := Decimal(n);
    if n >= 10 {
      DecimalValue(n / 10);
      assert d[..|d| - 1] == Decimal(n / 10);
    }
  }

  /** The digit run of a string of digits is the whole string. */
  lemma DigitRunAll(d: string)
    requires forall k :: 0 <= k < |d| ==> Dates.IsDigit(d[k])
    ensures DigitRun(d) == |d|
  {
  }

  /** For the ids Telegram writes (`message` and a decimal number) the key is that
      number. */
  lemma KeyOfTelegramId(n: nat)
    ensures ParseLeading(RemoveFirst("message" + Decimal(n), "message")) == n
  {
    var d := Decimal(n);
    var s := "message" + d;
    assert OccursAt(s, "message", 0) by {
      assert s[0..7] == "message";
    }
    assert IndexOf(s, "message") == 0;
    assert RemoveFirst(s, "message") == d by {
      assert s[..0] + s[7..] == d;
    }
    DigitRunAll(d);
    assert d[..|d|] == d;
    DecimalValue(n);
  }

  /** Without a digit after the removed prefix the key is 0. */
  lemma KeyWithoutDigits(s: string)
    requires s == [] || !Dates.IsDigit(s[0])
    ensures ParseLeading(s) == 0
  {
  }

  // ---------------------------------------------------------------------------
  // The filters

  /** `arr.filter(p)`. */
  function Keep(s: seq<Message>, p: Message -> bool): (r: seq<Message>)
    ensures forall m :: m in r <==> m in s && p(m)
    ensures |r| <= |s|
    decreases |s|
  {
    if s == [] then []
    else (if p(s[0]) then [s[0]] else []) + Keep(s[1..], p)
  }

  /** Filtering keeps a sub-multiset of its input: exactly the elements that pass. */
  lemma {:induction false} KeepMultiset(s: seq<Message>, p: Message -> bool)
    ensures forall m :: multiset(Keep(s, p))[m] == if p(m) then multiset(s)[m] else 0
    decreases |s|
  {
    if s != [] {
      KeepMultiset(s[1..], p);
      assert s == [s[0]] + s[1..];
    }
  }

  /** Filtering twice is filtering once by both conditions. */
  lemma {:induction false} KeepKeep(s: seq<Message>, p: Message -> bool, q: Message -> bool, pq: Message -> bool)
    requires forall m :: pq(m) == (p(m) && q(m))
    ensures Keep(Keep(s, p), q) == Keep(s, pq)
    decreases |s|
  {
    if s != [] {
      KeepKeep(s[1..], p, q, pq);
      var t := (if p(s[0]) then [s[0]] else []) + Keep(s[1..], p);
      if p(s[0]) {
        assert t[0] == s[0] && t[1..] == Keep(s[1..], p);
      } else {
        assert t == Keep(s[1..], p);
      }
    }
  }

  /** A filter every element passes changes nothing. */
  lemma {:induction false} KeepAll(s: seq<Message>, p: Message -> bool)
    requires forall m :: p(m)
    ensures Keep(s, p) == s
    decreases |s|
  {
    if s != [] {
      KeepAll(s[1..], p);
      assert s == [s[0]] + s[1..];
    }
  }

  /** The text a message is searched by: its plain text and its links. */
  function Haystack(m: Message): string {
    Normalize(m.plain + " " + Join(m.links, " "))
  }

  /** A message passes the search: each filter applies only when its input is
      non-empty. */
  predicate Passes(m: Message, author: string, cat: string, nq: string) {
    && (author == "" || m.author == author)
    && (cat == "" || m.category == cat)
    && (nq == "" || Includes(Haystack(m), nq))
  }

  /** The messages that pass, in their input order. */
  function Selected(all: seq<Message>, author: string, cat: string, nq: string): seq<Message> {
    Keep(all, m => Passes(m, author, cat, nq))
  }

  /** With every input empty, nothing is filtered out. */
  lemma SelectedAllWhenEmpty(all: seq<Message>)
    ensures Selected(all, "", "", "") == all
  {
    KeepAll(all, m => Passes(m, "", "", ""));
  }

  // ---------------------------------------------------------------------------
  // The sort: arr.slice().sort((a, b) => key(b) - key(a)), which is stable.
  // The key is a parameter here; `Search` sorts by `Key`.

  /** Keys do not increase along `s`. */
  predicate SortedDesc(s: seq<Message>, key: Message -> nat) {
    forall i, j :: 0 <= i < j < |s| ==> key(s[j]) <= key(s[i])
  }

  /** Inserts `x` behind every element whose key is at least its own. */
  function InsertDesc(x: Message, s: seq<Message>, key: Message -> nat): seq<Message>
    decreases |s|
  {
    if s == [] then [x]
    else if key(s[0]) < key(x) then [x] + s
    else [s[0]] + InsertDesc(x, s[1..], key)
  }

  /** Stable insertion sort, higher keys first. */
  function SortDesc(s: seq<Message>, key: Message -> nat): seq<Message>
    decreases |s|
  {
    if s == [] then []
    else InsertDesc(s[|s| - 1], SortDesc(s[..|s| - 1], key), key)
  }

  /** Insertion adds `x` and keeps everything else. */
  lemma {:induction false} InsertDescMultiset(x: Message, s: seq<Message>, key: Message -> nat)
    ensures multiset(InsertDesc(x, s, key)) == multiset(s) + multiset{x}
    decreases |s|
  {
    if s != [] && key(x) <= key(s[0]) {
      InsertDescMultiset(x, s[1..], key);
      assert s == [s[0]] + s[1..];
    }
  }

  /** The sort is a permutation. */
  lemma {:induction false} SortDescMultiset(s: seq<Message>, key: Message -> nat)
    ensures multiset(SortDesc(s, key)) == multiset(s)
    decreases |s|
  {
    if s != [] {
      SortDescMultiset(s[..|s| - 1], key);
      InsertDescMultiset(s[|s| - 1], SortDesc(s[..|s| - 1], key), key);
      assert s == s[..|s| - 1] + [s[|s| - 1]];
    }
  }

  /** The rest of a sorted list is sorted. */
  lemma SortedDescTail(s: seq<Message>, key: Message -> nat)
    requires s != [] && SortedDesc(s, key)
    ensures SortedDesc(s[1..], key)
    ensures forall i :: 0 <= i < |s| ==> key(s[i]) <= key(s[0])
  {
    forall i, j | 0 <= i < j < |s[1..]| ensures key(s[1..][j]) <= key(s[1..][i]) {
      assert s[1..][i] == s[i + 1] && s[1..][j] == s[j + 1];
    }
  }

  /** A head whose key bounds a sorted rest gives a sorted list. */
  lemma ConsSorted(h: Message, t: seq<Message>, key: Message -> nat)
    requires SortedDesc(t, key)
    requires forall k :: 0 <= k < |t| ==> key(t[k]) <= key(h)
    ensures SortedDesc([h] + t, key)
  {
    var r := [h] + t;
    forall i, j | 0 <= i < j < |r| ensures key(r[j]) <= key(r[i]) {
      assert r[j] == t[j - 1];
      if i > 0 {
        assert r[i] == t[i - 1];
      }
    }
  }

  lemma {:induction false} InsertDescSorted(x: Message, s: seq<Message>, key: Message -> nat)
    requires SortedDesc(s, key)
    ensures SortedDesc(InsertDesc(x, s, key), key)
    decreases |s|
  {
    if s == [] {
    } else if key(s[0]) < key(x) {
      SortedDescTail(s, key);
      ConsSorted(x, s, key);
    } else {
      SortedDescTail(s, key);
      InsertDescSorted(x, s[1..], key);
      var t := InsertDesc(x, s[1..], key);
      InsertDescMultiset(x, s[1..], key);
      forall k | 0 <= k < |t| ensures key(t[k]) <= key(s[0]) {
        assert t[k] in multiset(t);
        if t[k] != x {
          assert t[k] in multiset(s[1..]);
          var i :| 0 <= i < |s[1..]| && s[1..][i] == t[k];
          assert s[1..][i] == s[i + 1];
        }
      }
      ConsSorted(s[0], t, key);
    }
  }

  lemma {:induction false} SortDescSorted(s: seq<Message>, key: Message -> nat)
    ensures SortedDesc(SortDesc(s, key), key)
    decreases |s|
  {
    if s != [] {
      SortDescSorted(s[..|s| - 1], key);
      InsertDescSorted(s[|s| - 1], SortDesc(s[..|s| - 1], key), key);
    }
  }

  /** The elements of `s` whose key is `v`, in order. */
  function WithKey(s: seq<Message>, key: Message -> nat, v: nat): seq<Message>
    decreases |s|
  {
    if s == [] then [] else (if key(s[0]) == v then [s[0]] else []) + WithKey(s[1..], key, v)
  }

  lemma {:induction false} WithKeySnoc(s: seq<Message>, x: Message, key: Message -> nat, v: nat)
    ensures WithKey(s + [x], key, v) == WithKey(s, key, v) + (if key(x) == v then [x] else [])
    decreases |s|
  {
    if s != [] {
      WithKeySnoc(s[1..], x, key, v);
      assert (s + [x])[1..] == s[1..] + [x];
      assert (s + [x])[0] == s[0];
    }
  }

  lemma {:induction false} WithKeyNone(s: seq<Message>, key: Message -> nat, v: nat)
    requires forall i :: 0 <= i < |s| ==> key(s[i]) != v
    ensures WithKey(s, key, v) == []
    decreases |s|
  {
    if s != [] {
      WithKeyNone(s[1..], key, v);
    }
  }

  lemma WithKeyCons(x: Message, s: seq<Message>, key: Message -> nat, v: nat)
    ensures WithKey([x] + s, key, v) == (if key(x) == v then [x] else []) + WithKey(s, key, v)
  {
    assert ([x] + s)[0] == x && ([x] + s)[1..] == s;
  }

  /** Inserting `x` puts it behind every element of its own key. */
  lemma {:induction false} WithKeyInsert(x: Message, s: seq<Message>, key: Message -> nat, v: nat)
    requires SortedDesc(s, key)
    ensures WithKey(InsertDesc(x, s, key), key, v) == WithKey(s, key, v) + (if key(x) == v then [x] else [])
    decreases |s|
  {
    if s != [] {
      SortedDescTail(s, key);
      WithKeyCons(s[0], s[1..], key, v);
      assert [s[0]] + s[1..] == s;
      if key(s[0]) < key(x) {
        if key(x) == v {
          WithKeyNone(s, key, v);
        }
        WithKeyCons(x, s, key, v);
      } else {
        WithKeyInsert(x, s[1..], key, v);
        WithKeyCons(s[0], InsertDesc(x, s[1..], key), key, v);
      }
    }
  }

  /** Stability: messages of equal key keep their input order. */
  lemma {:induction false} SortDescStable(s: seq<Message>, key: Message -> nat, v: nat)
    ensures WithKey(SortDesc(s, key), key, v) == WithKey(s, key, v)
    decreases |s|
  {
    if s != [] {
      var init := s[..|s| - 1];
      var x := s[|s| - 1];
      SortDescStable(init, key, v);
      SortDescSorted(init, key);
      WithKeyInsert(x, SortDesc(init, key), key, v);
      WithKeySnoc(init, x, key, v);
      assert init + [x] == s;
    }
  }

  // ---------------------------------------------------------------------------
  // doSearch

  /** The three filters of `doSearch`, as predicates on messages. */
  function AuthorIs(author: string): Message -> bool {
    (x: Message) => x.author == author
  }

  function CategoryIs(cat: string): Message -> bool {
    (x: Message) => x.category == cat
  }

  function HasText(nq: string): Message -> bool {
    (x: Message) => Includes(Haystack(x), nq)
  }

  /** A filter stage that runs only when its input is non-empty. */
  function Stage(s: seq<Message>, on: bool, p: Message -> bool): seq<Message> {
    if on then Keep(s, p) else s
  }

  /** Filters that agree everywhere keep the same elements. */
  lemma {:induction false} KeepSame(s: seq<Message>, p: Message -> bool, q: Message -> bool)
    requires forall m :: p(m) == q(m)
    ensures Keep(s, p) == Keep(s, q)
    decreases |s|
  {
    if s != [] {
      KeepSame(s[1..], p, q);
    }
  }

  /** An optional stage is a filter by "switched off, or passes". */
  lemma StageAsKeep(s: seq<Message>, on: bool, p: Message -> bool, gate: Message -> bool)
    requires forall x :: gate(x) == (!on || p(x))
    ensures Stage(s, on, p) == Keep(s, gate)
  {
    if on {
      KeepSame(s, p, gate);
    } else {
      KeepAll(s, gate);
    }
  }

  /** An optional stage after a filter is one combined filter. */
  lemma StageAfterKeep(s: seq<Message>, f: Message -> bool, on: bool, p: Message -> bool, g: Message -> bool)
    requires forall x :: g(x) == (f(x) && (!on || p(x)))
    ensures Stage(Keep(s, f), on, p) == Keep(s, g)
  {
    var gate := (x: Message) => !on || p(x);
    StageAsKeep(Keep(s, f), on, p, gate);
    KeepKeep(s, f, gate, g);
  }

  /** Three optional filter stages keep exactly what passes all three switched-on
      filters, in input order. */
  lemma ThreeStages(all: seq<Message>, a: bool, pa: Message -> bool, c: bool, pc: Message -> bool,
                    t: bool, pt: Message -> bool, passes: Message -> bool)
    requires forall x :: passes(x) == ((!a || pa(x)) && (!c || pc(x)) && (!t || pt(x)))
    ensures Stage(Stage(Stage(all, a, pa), c, pc), t, pt) == Keep(all, passes)
  {
    var byA := (x: Message) => !a || pa(x);
    var both := (x: Message) => byA(x) && (!c || pc(x));
    StageAsKeep(all, a, pa, byA);
    StageAfterKeep(all, byA, c, pc, both);
    StageAfterKeep(all, both, t, pt, passes);
  }

  /** Running the three stages of `doSearch` one after the other keeps exactly the
      messages that pass, in input order. */
  lemma StagesSelect(all: seq<Message>, author: string, cat: string, nq: string)
    ensures Stage(Stage(Stage(all, author != "", AuthorIs(author)), cat != "", CategoryIs(cat)), nq != "", HasText(nq))
      == Selected(all, author, cat, nq)
  {
    ThreeStages(all, author != "", AuthorIs(author), cat != "", CategoryIs(cat), nq != "", HasText(nq),
                m => Passes(m, author, cat, nq));
  }

  /** The selected messages are exactly those of `all` that pass. */
  lemma SelectedMembers(all: seq<Message>, author: string, cat: string, nq: string)
    ensures forall m :: m in Selected(all, author, cat, nq) <==> m in all && Passes(m, author, cat, nq)
  {
  }

  /** The sort is a stable permutation into non-increasing key order. */
  lemma SortDescSpec(s: seq<Message>, key: Message -> nat)
    ensures multiset(SortDesc(s, key)) == multiset(s)
    ensures forall m :: m in SortDesc(s, key) <==> m in s
    ensures SortedDesc(SortDesc(s, key), key)
    ensures forall v: nat :: WithKey(SortDesc(s, key), key, v) == WithKey(s, key, v)
  {
    SortDescSorted(s, key);
    SortDescMultiset(s, key);
    forall v: nat ensures WithKey(SortDesc(s, key), key, v) == WithKey(s, key, v) {
      SortDescStable(s, key, v);
    }
    forall m ensures m in SortDesc(s, key) <==> m in s {
      assert m in SortDesc(s, key) <==> m in multiset(SortDesc(s, key));
    }
  }

  /** The filter and sort stages of `doSearch`; `q` is the trimmed query text. */
  method Search(all: seq<Message>, q: string, author: string, cat: string) returns (arr: seq<Message>)
    ensures forall m :: m in arr <==> m in all && Passes(m, author, cat, Normalize(q))
    ensures multiset(arr) == multiset(Selected(all, author, cat, Normalize(q)))
    ensures SortedDesc(arr, Key)
    ensures forall v: nat :: WithKey(arr, Key, v) == WithKey(Selected(all, author, cat, Normalize(q)), Key, v)
    ensures author == "" && cat == "" && Normalize(q) == "" ==> multiset(arr) == multiset(all)
  {
    var nq := Normalize(q);
    arr := all;
    if author != "" {
      arr := Keep(arr, AuthorIs(author));
    }
    if cat != "" {
      arr := Keep(arr, CategoryIs(cat));
    }
    if nq != "" {
      arr := Keep(arr, HasText(nq));
    }
    StagesSelect(all, author, cat, nq);
    SelectedMembers(all, author, cat, nq);
    SortDescSpec(arr, Key);
    if author == "" && cat == "" && nq == "" {
      SelectedAllWhenEmpty(all);
    }
    arr := SortDesc(arr, Key);
  }
}
