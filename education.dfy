/** The education matcher: every match of
    `(.+?),\s*(.+?),\s*(\d{4})\s*[â€“-]\s*(\d{4})`, as `re.findall` returns
    them, turned into degree, institution and year entries. */
module EducationMatcher {
  import opened Text

  /** `[â€“-]`: the pattern's en-dash as it reads after UTF-8 bytes were
      decoded as Windows-1252, so four separate characters. */
  predicate IsDash(c: char) {
    c == '\U{E2}' || c == '\U{20AC}' || c == '\U{201C}' || c == '-'
  }

  /** Four `\d` starting at `i`. */
  predicate DigitsAt(t: string, i: nat) {
    i + 4 <= |t| && forall j :: i <= j < i + 4 ==> IsDigit(t[j])
  }

  predicate IsYear(y: string) {
    |y| == 4 && forall i :: 0 <= i < 4 ==> IsDigit(y[i])
  }

  /** The four groups of one match, and the index where the match ends. */
  datatype Groups = Groups(degree: string, institution: string, start: string, finish: string, end: nat)

  /** What every match has: both text groups are non-empty and on one line,
      both year groups are four digits, and the match ends after `from`. */
  predicate Shaped(g: Groups, from: nat, t: string) {
    && g.degree != [] && '\n' !in g.degree
    && g.institution != [] && '\n' !in g.institution
    && IsYear(g.start) && IsYear(g.finish)
    && from < g.end <= |t|
  }

  // The search below follows the order in which the regular-expression
  // engine backtracks: a lazy `.+?` first tries to stop after one more
  // character, a greedy `\s*` first takes the whole whitespace run and then
  // gives back one character at a time, and the first success wins.

  /** The last `\s*(\d{4})`, the whitespace run from `p` being cut at `k`. */
  function FinishYear(t: string, g1: string, g2: string, y1: string, p: nat, k: nat): (r: Option<Groups>)
    requires p <= k <= |t|
    ensures r.Some? ==> r.value.degree == g1 && r.value.institution == g2 && r.value.start == y1
    ensures r.Some? ==> IsYear(r.value.finish) && p < r.value.end <= |t|
    decreases k
  {
    if DigitsAt(t, k) then Some(Groups(g1, g2, y1, t[k..k + 4], k + 4))
    else if k > p then FinishYear(t, g1, g2, y1, p, k - 1)
    else None
  }

  /** `\s*[â€“-]\s*`, the whitespace run from `p` being cut at `k`. */
  function Dash(t: string, g1: string, g2: string, y1: string, p: nat, k: nat): (r: Option<Groups>)
    requires p <= k <= |t|
    ensures r.Some? ==> r.value.degree == g1 && r.value.institution == g2 && r.value.start == y1
    ensures r.Some? ==> IsYear(r.value.finish) && p < r.value.end <= |t|
    decreases k
  {
    var r := if k < |t| && IsDash(t[k]) then FinishYear(t, g1, g2, y1, k + 1, WsEnd(t, k + 1)) else None;
    if r.Some? then r
    else if k > p then Dash(t, g1, g2, y1, p, k - 1)
    else None
  }

  /** `\s*(\d{4})` after the second comma, the run from `p` being cut at `k`. */
  function StartYear(t: string, g1: string, g2: string, p: nat, k: nat): (r: Option<Groups>)
    requires p <= k <= |t|
    ensures r.Some? ==> r.value.degree == g1 && r.value.institution == g2
    ensures r.Some? ==> IsYear(r.value.start) && IsYear(r.value.finish) && p < r.value.end <= |t|
    decreases k
  {
    var r := if DigitsAt(t, k) then Dash(t, g1, g2, t[k..k + 4], k + 4, WsEnd(t, k + 4)) else None;
    if r.Some? then r
    else if k > p then StartYear(t, g1, g2, p, k - 1)
    else None
  }

  /** The lazy second group `(.+?)`, currently `t[q..b]`, then `,`. */
  function Institution(t: string, g1: string, q: nat, b: nat): (r: Option<Groups>)
    requires q < b <= |t| && '\n' !in t[q..b]
    ensures r.Some? ==> r.value.degree == g1 && r.value.institution != [] && '\n' !in r.value.institution
    ensures r.Some? ==> IsYear(r.value.start) && IsYear(r.value.finish) && b < r.value.end <= |t|
    decreases |t| - b
  {
    var r := if b < |t| && t[b] == ',' then StartYear(t, g1, t[q..b], b + 1, WsEnd(t, b + 1)) else None;
    if r.Some? then r
    else if b < |t| && t[b] != '\n' then
      assert t[q..b + 1] == t[q..b] + [t[b]];
      Institution(t, g1, q, b + 1)
    else None
  }

  /** `\s*` after the first comma, the run from `p` being cut at `k`, then the
      first character of the second group. */
  function AfterFirstComma(t: string, g1: string, p: nat, k: nat): (r: Option<Groups>)
    requires p <= k <= |t|
    ensures r.Some? ==> r.value.degree == g1 && r.value.institution != [] && '\n' !in r.value.institution
    ensures r.Some? ==> IsYear(r.value.start) && IsYear(r.value.finish) && p < r.value.end <= |t|
    decreases k
  {
    var r := if k < |t| && t[k] != '\n' then Institution(t, g1, k, k + 1) else None;
    if r.Some? then r
    else if k > p then AfterFirstComma(t, g1, p, k - 1)
    else None
  }

  /** The lazy first group `(.+?)`, currently `t[s..a]`, then `,`. */
  function Degree(t: string, s: nat, a: nat): (r: Option<Groups>)
    requires s < a <= |t| && '\n' !in t[s..a]
    ensures r.Some? ==> Shaped(r.value, a, t)
    decreases |t| - a
  {
    var r := if a < |t| && t[a] == ',' then AfterFirstComma(t, t[s..a], a + 1, WsEnd(t, a + 1)) else None;
    if r.Some? then r
    else if a < |t| && t[a] != '\n' then
      assert t[s..a + 1] == t[s..a] + [t[a]];
      Degree(t, s, a + 1)
    else None
  }

  /** The match starting at `s`, if any. */
  function MatchAt(t: string, s: nat): (r: Option<Groups>)
    ensures r.Some? ==> Shaped(r.value, s, t)
  {
    if s < |t| && t[s] != '\n' then
      assert t[s..s + 1] == [t[s]];
      Degree(t, s, s + 1)
    else None
  }

  /** `re.findall` from `s` on: each match is followed by a search from
      where it ended, a failed position by one from the next character. */
  function FindAll(t: string, s: nat): (r: seq<Groups>)
    requires s <= |t|
    ensures forall k :: 0 <= k < |r| ==> Shaped(r[k], s, t)
    decreases |t| - s
  {
    if s == |t| then []
    else
      match MatchAt(t, s)
      case Some(g) => [g] + FindAll(t, g.end)
      case None => FindAll(t, s + 1)
  }

  datatype EducationEntry = EducationEntry(degree: string, institution: string, year: string)

  /** One entry of `edu_list`, built from one tuple of `findall`. */
  function ToEntry(g: Groups): EducationEntry {
    EducationEntry(Strip(g.degree), Strip(g.institution), Strip(g.start) + " - " + Strip(g.finish))
  }

  /** `DDDD - DDDD` */
  predicate IsYearRange(y: string) {
    |y| == 11 && IsYear(y[..4]) && y[4..7] == " - " && IsYear(y[7..])
  }

  /** What every entry has: a `DDDD - DDDD` year, and a degree and an
      institution that are stripped and on one line. */
  predicate WellFormed(e: EducationEntry) {
    && IsYearRange(e.year)
    && StrippedBy(e.degree, IsSpace) && '\n' !in e.degree
    && StrippedBy(e.institution, IsSpace) && '\n' !in e.institution
  }

  /** A four-digit year survives `strip()` unchanged. */
  lemma StripYear(y: string)
    requires IsYear(y)
    ensures Strip(y) == y
  {
    StripStable(y, IsSpace);
  }

  /** Every entry built from a match is well formed; its year is the two
      year groups around ` - `. */
  lemma ToEntryWellFormed(g: Groups, from: nat, t: string)
    requires Shaped(g, from, t)
    ensures WellFormed(ToEntry(g))
    ensures ToEntry(g).year == g.start + " - " + g.finish
  {
    StripYear(g.start);
    StripYear(g.finish);
    var y := ToEntry(g).year;
    assert y[..4] == g.start && y[7..] == g.finish;
  }

  /** The education entries of `t`, in match order. */
  function Entries(t: string): seq<EducationEntry> {
    MapSeq(FindAll(t, 0), ToEntry)
  }

  /** Every education entry of every text is well formed. */
  lemma EntriesWellFormed(t: string)
    ensures forall e :: e in Entries(t) ==> WellFormed(e)
  {
    var gs := FindAll(t, 0);
    forall e | e in Entries(t) ensures WellFormed(e) {
      var i :| 0 <= i < |gs| && e == ToEntry(gs[i]);
      ToEntryWellFormed(gs[i], 0, t);
    }
  }
}
