/**
 * `fmtDate`: find the first `DD.MM.YYYY<whitespace>HH:MM` in a Telegram date
 * title and reduce it to `DD.MM.YYYY HH:MM`; anything without such a match is
 * returned as it is. Also the `date` field of an extracted message, which falls
 * back to the visible time text when the title yields nothing.
 */
module Dates {
  import opened Wrappers
  import opened Text

  /** `\d` of a JavaScript regular expression without the `u` flag. */
  predicate IsDigit(c: char) {
    '0' <= c <= '9'
  }

  /** `(\d{2})\.(\d{2})\.(\d{4})` starts at index `i`. */
  predicate DayAt(s: string, i: nat) {
    i + 10 <= |s|
    && IsDigit(s[i]) && IsDigit(s[i + 1]) && s[i + 2] == '.'
    && IsDigit(s[i + 3]) && IsDigit(s[i + 4]) && s[i + 5] == '.'
    && IsDigit(s[i + 6]) && IsDigit(s[i + 7]) && IsDigit(s[i + 8]) && IsDigit(s[i + 9])
  }

  /** `(\d{2}:\d{2})` starts at index `j`. */
  predicate ClockAt(s: string, j: nat) {
    j + 5 <= |s|
    && IsDigit(s[j]) && IsDigit(s[j + 1]) && s[j + 2] == ':' && IsDigit(s[j + 3]) && IsDigit(s[j + 4])
  }

  /** Where the whitespace run starting at `j` ends. */
  function SpaceRunEnd(s: string, j: nat): (r: nat)
    requires j <= |s|
    ensures j <= r <= |s|
    ensures forall k :: j <= k < r ==> IsSpace(s[k])
    ensures r == |s| || !IsSpace(s[r])
    decreases |s| - j
  {
    if j < |s| && IsSpace(s[j]) then SpaceRunEnd(s, j + 1) else j
  }

  /** The end of a whitespace run is the only index that closes the run. */
  lemma SpaceRunEndUnique(s: string, j: nat, e: nat)
    requires j <= e <= |s|
    requires forall k :: j <= k < e ==> IsSpace(s[k])
    requires e == |s| || !IsSpace(s[e])
    ensures SpaceRunEnd(s, j) == e
  {
  }

  /** The whole pattern matches at `i`. Since `\s+` is greedy and a digit is never
      whitespace, the clock must start right after the whole whitespace run. */
  predicate MatchAt(s: string, i: nat) {
    DayAt(s, i) && SpaceRunEnd(s, i + 10) > i + 10 && ClockAt(s, SpaceRunEnd(s, i + 10))
  }

  /** The leftmost match at or after `from`, as the regex engine finds it. */
  function FirstMatchFrom(s: string, from: nat): (r: Option<nat>)
    ensures r.Some? ==> (&& from <= r.value && MatchAt(s, r.value)
                         && forall j :: from <= j < r.value ==> !MatchAt(s, j))
    ensures r.None? ==> forall j :: from <= j ==> !MatchAt(s, j)
    decreases |s| - from
  {
    if from + 10 > |s| then None
    else if MatchAt(s, from) then Some(from)
    else FirstMatchFrom(s, from + 1)
  }

  /** The text emitted for a match at `i`: `m[1].m[2].m[3] m[4]`. */
  function Rendered(s: string, i: nat): string
    requires MatchAt(s, i)
  {
    var e := SpaceRunEnd(s, i + 10);
    s[i..i + 10] + " " + s[e..e + 5]
  }

  /** The `DD.MM.YYYY HH:MM` shape of every formatted date. */
  predicate IsFormatted(r: string) {
    |r| == 16 && DayAt(r, 0) && r[10] == ' ' && ClockAt(r, 11)
  }

  /** `fmtDate(isoOrTitle)`. A missing attribute reaches the model as `""`, which
      has no match and stays `""`. */
  function FmtDate(s: string): string {
    match FirstMatchFrom(s, 0)
    case None => s
    case Some(i) => Rendered(s, i)
  }

  /** A rendered match has the `DD.MM.YYYY HH:MM` shape. */
  lemma RenderedFormatted(s: string, i: nat)
    requires MatchAt(s, i)
    ensures IsFormatted(Rendered(s, i))
  {
    var e := SpaceRunEnd(s, i + 10);
    var r := Rendered(s, i);
    assert forall k :: 0 <= k < 10 ==> r[k] == s[i + k];
    assert r[10] == ' ';
    assert forall k :: 11 <= k < 16 ==> r[k] == s[e + k - 11];
  }

  /** Without a match the input comes back unchanged; otherwise the result has
      the `DD.MM.YYYY HH:MM` shape and is rendered from the leftmost match. */
  lemma FmtDateSpec(s: string)
    ensures (forall i :: 0 <= i ==> !MatchAt(s, i)) ==> FmtDate(s) == s
    ensures (exists i :: 0 <= i && MatchAt(s, i)) ==>
      IsFormatted(FmtDate(s)) && exists i :: (&& 0 <= i && MatchAt(s, i) && FmtDate(s) == Rendered(s, i)
                                              && forall j :: 0 <= j < i ==> !MatchAt(s, j))
  {
    match FirstMatchFrom(s, 0)
    case None =>
    case Some(i) =>
      RenderedFormatted(s, i);
  }

  /** A formatted date is its own first match. */
  lemma FormattedMatchesItself(r: string)
    requires IsFormatted(r)
    ensures MatchAt(r, 0) && Rendered(r, 0) == r
  {
    SpaceRunEndUnique(r, 10, 11);
    assert r == r[0..10] + " " + r[11..16];
  }

  /** Formatting a formatted date changes nothing, and neither does formatting
      an unmatched one twice. */
  lemma FmtDateIdempotent(s: string)
    ensures FmtDate(FmtDate(s)) == FmtDate(s)
  {
    FmtDateSpec(s);
    var r := FmtDate(s);
    if exists i :: 0 <= i && MatchAt(s, i) {
      FormattedMatchesItself(r);
      assert FirstMatchFrom(r, 0) == Some(0);
    }
  }

  /** `fmtDate` yields `""` exactly for the empty title. */
  lemma FmtDateEmptyIff(s: string)
    ensures FmtDate(s) == "" <==> s == ""
  {
    FmtDateSpec(s);
  }

  /** `fmtDate(dateTitle) || timeText`. */
  function DateField(title: string, timeText: string): (r: string)
    ensures title == "" ==> r == timeText
    ensures title != "" ==> r == FmtDate(title)
  {
    FmtDateEmptyIff(title);
    var f := FmtDate(title);
    if f != "" then f else timeText
  }

  const TelegramTitle: string := "06.09.2024 11:08:21 UTC+06:00"

  /** The title format Telegram writes: seconds and time zone are dropped. */
  lemma TelegramTitleDay()
    ensures DayAt(TelegramTitle, 0)
  {
  }

  lemma TelegramTitleClock()
    ensures ClockAt(TelegramTitle, 11)
  {
  }

  /** The whitespace run after the day is the single space at index 10. */
  lemma TelegramTitleSpaceRun()
    ensures SpaceRunEnd(TelegramTitle, 10) == 11
  {
    SpaceRunEndUnique(TelegramTitle, 10, 11);
  }

  lemma TelegramTitleMatches()
    ensures SpaceRunEnd(TelegramTitle, 10) == 11 && MatchAt(TelegramTitle, 0)
  {
    TelegramTitleDay();
    TelegramTitleClock();
    TelegramTitleSpaceRun();
  }

  lemma TelegramTitleFormatted()
    ensures FmtDate(TelegramTitle) == "06.09.2024 11:08"
  {
    var s := TelegramTitle;
    TelegramTitleMatches();
    assert FirstMatchFrom(s, 0) == Some(0);
    assert s[0..10] == "06.09.2024" && s[11..16] == "11:08";
  }
}
