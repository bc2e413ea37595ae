/** The single-match patterns of the field extractor: the e-mail address
    `[\w\.-]+@[\w\.-]+`, the phone number `\b\d{10}\b` and the two profile
    links, each written as an explicit scan of the text that finds what
    `re.search` finds. */
module Patterns {
  import opened Text

  /** `[\w\.-]` */
  predicate IsEmailChar(c: char) { IsWordChar(c) || c == '.' || c == '-' }

  /** The end of the match of `[\w\.-]+@[\w\.-]+` starting at `s`, if there is
      one. The first greedy run cannot give back characters to reach an `@`,
      since `@` is not in the class, so its maximal run must end at the `@`. */
  function EmailEndAt(t: string, s: nat): (r: Option<nat>)
    ensures r.Some? ==> s < r.value <= |t|
  {
    if s > |t| then None
    else
      var e := RunEnd(t, s, IsEmailChar);
      if s < e && e + 1 < |t| && t[e] == '@' && IsEmailChar(t[e + 1])
      then Some(RunEnd(t, e + 1, IsEmailChar))
      else None
  }

  /** `t[s..f]` is `local@domain` with both parts non-empty runs of `[\w\.-]`,
      and the domain run cannot be extended. */
  predicate IsEmailSpan(t: string, s: nat, at: nat, f: nat) {
    && s < at && at + 1 < f <= |t| && t[at] == '@'
    && (forall i :: s <= i < at ==> IsEmailChar(t[i]))
    && (forall i :: at < i < f ==> IsEmailChar(t[i]))
    && (f == |t| || !IsEmailChar(t[f]))
  }

  /** The scan at `s` agrees with the declarative shape, in both directions. */
  lemma EmailEndAtSpec(t: string, s: nat, f: nat)
    ensures EmailEndAt(t, s) == Some(f) <==> exists at :: IsEmailSpan(t, s, at, f)
  {
    if EmailEndAt(t, s) == Some(f) {
      assert IsEmailSpan(t, s, RunEnd(t, s, IsEmailChar), f);
    }
    if at: nat :| IsEmailSpan(t, s, at, f) {
      RunEndAt(t, s, at, IsEmailChar);
      RunEndAt(t, at + 1, f, IsEmailChar);
    }
  }

  /** A run of `p` from `i` that stops at `j` ends at `j`. */
  lemma {:induction false} RunEndAt(t: string, i: nat, j: nat, p: char -> bool)
    requires i <= j <= |t|
    requires forall k :: i <= k < j ==> p(t[k])
    requires j == |t| || !p(t[j])
    ensures RunEnd(t, i, p) == j
    decreases j - i
  {
    if i < j {
      RunEndAt(t, i + 1, j, p);
    }
  }

  /** A match can be started one character earlier when that character is
      in the class, so the leftmost match is never preceded by one. */
  lemma EmailEndAtShift(t: string, s: nat)
    requires EmailEndAt(t, s).Some?
    ensures 0 < s && IsEmailChar(t[s - 1]) ==> EmailEndAt(t, s - 1) == EmailEndAt(t, s)
  {
  }

  /** The leftmost start of an e-mail match. */
  function EmailStart(t: string): Option<nat> {
    FirstFrom(0, |t|, (s: nat) => EmailEndAt(t, s).Some?)
  }

  /** `re.search(r'[\w\.-]+@[\w\.-]+', text).group(0)`, if any. */
  function FindEmail(t: string): (r: Option<string>)
    ensures r.Some? ==> r.value != []
  {
    match EmailStart(t)
    case None => None
    case Some(s) => Some(t[s..EmailEndAt(t, s).value])
  }

  /** The e-mail found is a whole `local@domain` span: the run before it and
      the run after it cannot be extended, and no earlier position starts a
      match. Nothing is found exactly when no position starts a match. */
  lemma FindEmailSpec(t: string)
    ensures FindEmail(t).Some? ==>
      exists s: nat, at: nat, f: nat :: && IsEmailSpan(t, s, at, f) && FindEmail(t).value == t[s..f]
                         && (s == 0 || !IsEmailChar(t[s - 1]))
                         && forall j: nat, at': nat, f': nat :: j < s ==> !IsEmailSpan(t, j, at', f')
    ensures FindEmail(t).None? <==> forall s: nat, at: nat, f: nat :: !IsEmailSpan(t, s, at, f)
  {
    var P := (s: nat) => EmailEndAt(t, s).Some?;
    assert EmailStart(t) == FirstFrom(0, |t|, P);
    match EmailStart(t)
    case None =>
      forall s: nat, at: nat, f: nat ensures !IsEmailSpan(t, s, at, f) {
        EmailEndAtSpec(t, s, f);
        if s <= |t| {
          assert !P(s);
        }
      }
    case Some(s) =>
      var f := EmailEndAt(t, s).value;
      EmailEndAtSpec(t, s, f);
      var at: nat :| IsEmailSpan(t, s, at, f);
      EmailEndAtShift(t, s);
      assert s > 0 ==> !P(s - 1);
      forall j: nat, at': nat, f': nat | j < s ensures !IsEmailSpan(t, j, at', f') {
        EmailEndAtSpec(t, j, f');
        assert !P(j);
      }
  }

  /** `\b\d{10}\b` matches at `i`. */
  predicate PhoneAt(t: string, i: nat) {
    && i + 10 <= |t|
    && (forall j :: i <= j < i + 10 ==> IsDigit(t[j]))
    && IsBoundary(t, i) && IsBoundary(t, i + 10)
  }

  /** The leftmost phone match. */
  function PhoneStart(t: string): Option<nat> {
    FirstFrom(0, |t|, (i: nat) => PhoneAt(t, i))
  }

  /** `re.search(r'\b\d{10}\b', text).group(0)`, if any. */
  function FindPhone(t: string): (r: Option<string>)
    ensures r.Some? ==> |r.value| == 10
  {
    match PhoneStart(t)
    case None => None
    case Some(i) => Some(t[i..i + 10])
  }

  /** The phone found is ten digits flanked by non-word characters or the
      ends of the text, and no earlier position has one; nothing is found
      exactly when no position has one. */
  lemma FindPhoneSpec(t: string)
    ensures FindPhone(t).Some? ==>
      exists i: nat :: && PhoneAt(t, i) && FindPhone(t).value == t[i..i + 10]
                  && (forall j :: 0 <= j < 10 ==> IsDigit(FindPhone(t).value[j]))
                  && (i == 0 || !IsWordChar(t[i - 1]))
                  && (i + 10 == |t| || !IsWordChar(t[i + 10]))
                  && forall j: nat :: j < i ==> !PhoneAt(t, j)
    ensures FindPhone(t).None? <==> forall i: nat :: !PhoneAt(t, i)
  {
    var P := (i: nat) => PhoneAt(t, i);
    assert PhoneStart(t) == FirstFrom(0, |t|, P);
    match PhoneStart(t)
    case None =>
      forall i: nat ensures !PhoneAt(t, i) {
        if i <= |t| {
          assert !P(i);
        }
      }
    case Some(i) =>
      assert P(i);
      assert IsWordChar(t[i]) && IsWordChar(t[i + 9]);
      assert forall j :: 0 <= j < 10 ==> FindPhone(t).value[j] == t[i + j];
      forall j: nat | j < i ensures !PhoneAt(t, j) {
        assert !P(j);
      }
  }

  /** One position of a fixed-width pattern: a literal, or `.` without re.S. */
  datatype Atom = Char(c: char) | AnyButNewline

  predicate Accepts(a: Atom, c: char) {
    match a
    case Char(x) => c == x
    case AnyButNewline => c != '\n'
  }

  /** A run of literal characters. */
  function Lits(s: string): seq<Atom> {
    seq(|s|, i requires 0 <= i < |s| => Char(s[i]))
  }

  predicate AtomsAt(t: string, i: nat, pat: seq<Atom>) {
    i + |pat| <= |t| && forall j :: 0 <= j < |pat| ==> Accepts(pat[j], t[i + j])
  }

  /** `://www\.linkedin\.com/in/` */
  function LinkedInTail(): seq<Atom> { Lits("://www.linkedin.com/in/") }

  /** `://github.com/`, whose unescaped dot accepts any character but a newline. */
  function GitHubTail(): seq<Atom> { Lits("://github") + [AnyButNewline] + Lits("com/") }

  /** The end of the match of `https?` + `tail` + `[^\s]+` starting at `s`, if
      any: `s?` is tried with the `s` first, then without it. */
  function UrlEndAt(t: string, s: nat, tail: seq<Atom>): (r: Option<nat>)
    ensures r.Some? ==> s < r.value <= |t|
  {
    var long := Lits("https") + tail;
    var short := Lits("http") + tail;
    if AtomsAt(t, s, long) && s + |long| < |t| && NotSpace(t[s + |long|])
    then Some(RunEnd(t, s + |long|, NotSpace))
    else if AtomsAt(t, s, short) && s + |short| < |t| && NotSpace(t[s + |short|])
    then Some(RunEnd(t, s + |short|, NotSpace))
    else None
  }

  function UrlStart(t: string, tail: seq<Atom>): Option<nat> {
    FirstFrom(0, |t|, (s: nat) => UrlEndAt(t, s, tail).Some?)
  }

  /** `re.search(r'https?://' + ..., text).group(0)`, if any. */
  function FindUrl(t: string, tail: seq<Atom>): (r: Option<string>)
    ensures r.Some? ==> r.value != []
  {
    match UrlStart(t, tail)
    case None => None
    case Some(s) => Some(t[s..UrlEndAt(t, s, tail).value])
  }

  /** `t[s..f]` is `scheme`, then `tail`, then a maximal non-empty run of
      non-whitespace characters. */
  predicate IsSchemeSpan(t: string, s: nat, f: nat, tail: seq<Atom>, scheme: string) {
    && AtomsAt(t, s, Lits(scheme) + tail)
    && s + |scheme| + |tail| < f <= |t|
    && (forall i :: s + |scheme| + |tail| <= i < f ==> !IsSpace(t[i]))
    && (f == |t| || IsSpace(t[f]))
  }

  /** `t[s..f]` is a whole `http` or `https` link with the given tail. */
  predicate IsUrlSpan(t: string, s: nat, f: nat, tail: seq<Atom>) {
    IsSchemeSpan(t, s, f, tail, "https") || IsSchemeSpan(t, s, f, tail, "http")
  }

  /** A URL match at `s` ends at `f` exactly when `t[s..f]` has the shape;
      the scan tries `https` first, and a tail starting with `:` cannot match
      both ways, so the two agree. */
  lemma UrlEndAtSpec(t: string, s: nat, f: nat, tail: seq<Atom>)
    requires tail != [] && tail[0] == Char(':')
    ensures UrlEndAt(t, s, tail) == Some(f) <==> IsUrlSpan(t, s, f, tail)
  {
    var long := Lits("https") + tail;
    var short := Lits("http") + tail;
    assert long[5] == tail[0] && short[4] == tail[0] && long[4] == Char('s');
    if UrlEndAt(t, s, tail) == Some(f) {
      if AtomsAt(t, s, long) && s + |long| < |t| && NotSpace(t[s + |long|]) {
        assert IsSchemeSpan(t, s, f, tail, "https");
      } else {
        assert IsSchemeSpan(t, s, f, tail, "http");
      }
    }
    if IsSchemeSpan(t, s, f, tail, "https") {
      RunEndAt(t, s + 5 + |tail|, f, NotSpace);
    } else if IsSchemeSpan(t, s, f, tail, "http") {
      RunEndAt(t, s + 4 + |tail|, f, NotSpace);
      assert Accepts(short[4], t[s + 4]);
      assert !AtomsAt(t, s, long) by {
        assert !Accepts(long[4], t[s + 4]);
      }
    }
  }

  /** The link found is a whole URL span, no earlier position starts one, and
      nothing is found exactly when no position starts one. */
  lemma FindUrlSpec(t: string, tail: seq<Atom>)
    requires tail != [] && tail[0] == Char(':')
    ensures FindUrl(t, tail).Some? ==>
      exists s: nat, f: nat :: && IsUrlSpan(t, s, f, tail) && FindUrl(t, tail).value == t[s..f]
                     && forall j: nat, f': nat :: j < s ==> !IsUrlSpan(t, j, f', tail)
    ensures FindUrl(t, tail).None? <==> forall s: nat, f: nat :: !IsUrlSpan(t, s, f, tail)
  {
    var P := (s: nat) => UrlEndAt(t, s, tail).Some?;
    assert UrlStart(t, tail) == FirstFrom(0, |t|, P);
    match UrlStart(t, tail)
    case None =>
      forall s: nat, f: nat ensures !IsUrlSpan(t, s, f, tail) {
        if s <= |t| {
          assert !P(s);
        }
        UrlNoneAt(t, s, f, tail);
      }
    case Some(s) =>
      var f := UrlEndAt(t, s, tail).value;
      UrlEndAtSpec(t, s, f, tail);
      forall j: nat, f': nat | j < s ensures !IsUrlSpan(t, j, f', tail) {
        assert !P(j);
        UrlNoneAt(t, j, f', tail);
      }
  }

  lemma UrlNoneAt(t: string, s: nat, f: nat, tail: seq<Atom>)
    requires tail != [] && tail[0] == Char(':')
    requires UrlEndAt(t, s, tail).None?
    ensures !IsUrlSpan(t, s, f, tail)
  {
    UrlEndAtSpec(t, s, f, tail);
  }
}
