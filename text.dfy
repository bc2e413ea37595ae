/** Characters, stripping, splitting and first-match search, as Python's str
    methods and its `re` module see them, restricted to what the résumé
    parser uses. */
module Text {

  datatype Option<T> = None | Some(value: T)

  /** Python's str.isspace(); `\s` in a str pattern matches exactly these. */
  predicate IsSpace(c: char) {
    var n := c as int;
    n == 0x20 || 0x09 <= n <= 0x0D || 0x1C <= n <= 0x1F || n == 0x85 || n == 0xA0
    || n == 0x1680 || 0x2000 <= n <= 0x200A || n == 0x2028 || n == 0x2029
    || n == 0x202F || n == 0x205F || n == 0x3000
  }

  /** `[^\s]` */
  predicate NotSpace(c: char) { !IsSpace(c) }

  /** `\d`, restricted to the ASCII digits. */
  predicate IsDigit(c: char) { '0' <= c <= '9' }

  predicate IsUpper(c: char) { 'A' <= c <= 'Z' }

  /** `\w`, restricted to ASCII letters, digits and the underscore. */
  predicate IsWordChar(c: char) { 'a' <= c <= 'z' || IsUpper(c) || IsDigit(c) || c == '_' }

  /** ASCII case folding, standing in for re.IGNORECASE. */
  function Fold(c: char): char {
    if IsUpper(c) then (c as int + 32) as char else c
  }

  /** `w` occurs in `t` at position `i`, letter case ignored. */
  predicate OccursCiAt(t: string, i: nat, w: string) {
    i + |w| <= |t| && forall j :: 0 <= j < |w| ==> Fold(t[i + j]) == Fold(w[j])
  }

  predicate WordBefore(t: string, p: nat) { 0 < p <= |t| && IsWordChar(t[p - 1]) }

  predicate WordAfter(t: string, p: nat) { p < |t| && IsWordChar(t[p]) }

  /** `\b` at position p: a word character on exactly one side of p, the
      ends of the text counting as non-word. */
  predicate IsBoundary(t: string, p: nat) { WordBefore(t, p) != WordAfter(t, p) }

  /** The index where the run of characters satisfying `p` that starts at
      `i` ends: what a greedy `[...]*` starting at `i` consumes first. */
  function RunEnd(t: string, i: nat, p: char -> bool): (j: nat)
    requires i <= |t|
    ensures i <= j <= |t|
    ensures forall k :: i <= k < j ==> p(t[k])
    ensures j == |t| || !p(t[j])
    decreases |t| - i
  {
    if i < |t| && p(t[i]) then RunEnd(t, i + 1, p) else i
  }

  /** The end of the whitespace run `\s*` that starts at `i`. */
  function WsEnd(t: string, i: nat): (j: nat)
    requires i <= |t|
    ensures i <= j <= |t|
  {
    RunEnd(t, i, IsSpace)
  }

  /** The least position in `from..limit` satisfying `P`: how `re.search`
      picks the leftmost starting position. */
  function FirstFrom(from: nat, limit: nat, P: nat -> bool): (r: Option<nat>)
    ensures r.Some? ==> from <= r.value <= limit && P(r.value)
    ensures r.Some? ==> forall j :: from <= j < r.value ==> !P(j)
    ensures r.None? ==> forall j :: from <= j <= limit ==> !P(j)
    decreases limit + 1 - from
  {
    if from > limit then None
    else if P(from) then Some(from)
    else FirstFrom(from + 1, limit, P)
  }

  /** Python's `s.lstrip(chars)`, `chars` being the characters satisfying
      `p`: `s` without its leading such characters. */
  function TrimStart(s: string, p: char -> bool): string {
    if s != [] && p(s[0]) then TrimStart(s[1..], p) else s
  }

  /** Python's `s.rstrip(chars)`: `s` without its trailing characters
      satisfying `p`. */
  function TrimEnd(s: string, p: char -> bool): string {
    if s != [] && p(s[|s| - 1]) then TrimEnd(s[..|s| - 1], p) else s
  }

  /** `lstrip` keeps a suffix that does not start with a character of `p`,
      having removed only such characters. */
  lemma {:induction false} TrimStartShape(s: string, p: char -> bool)
    ensures var r := TrimStart(s, p);
      && |r| <= |s| && r == s[|s| - |r|..] && (r == [] || !p(r[0]))
      && forall i :: 0 <= i < |s| - |r| ==> p(s[i])
    decreases |s|
  {
    if s != [] && p(s[0]) {
      TrimStartShape(s[1..], p);
    }
  }

  /** `rstrip` keeps a prefix that does not end with a character of `p`,
      having removed only such characters. */
  lemma {:induction false} TrimEndShape(s: string, p: char -> bool)
    ensures var r := TrimEnd(s, p);
      && |r| <= |s| && r == s[..|r|] && (r == [] || !p(r[|r| - 1]))
      && forall i :: |r| <= i < |s| ==> p(s[i])
    decreases |s|
  {
    if s != [] && p(s[|s| - 1]) {
      TrimEndShape(s[..|s| - 1], p);
    }
  }

  /** Neither end of `s` is a character satisfying `p`. */
  predicate StrippedBy(s: string, p: char -> bool) {
    s == [] || (!p(s[0]) && !p(s[|s| - 1]))
  }

  /** Python's `s.strip(chars)`: both the leading and the trailing
      characters satisfying `p` removed. What is left is empty exactly when
      every character satisfies `p`. */
  function StripBy(s: string, p: char -> bool): (r: string)
    ensures StrippedBy(r, p)
    ensures r == [] <==> forall i :: 0 <= i < |s| ==> p(s[i])
  {
    var x := TrimStart(s, p);
    TrimStartShape(s, p);
    TrimEndShape(x, p);
    var r := TrimEnd(x, p);
    assert r != [] ==> r[0] == x[0];
    assert x == [] ==> forall i :: 0 <= i < |s| ==> p(s[i]);
    assert x != [] ==> !p(x[0]);
    r
  }

  /** What `strip(chars)` keeps comes from the string. */
  lemma StripByFrom(s: string, p: char -> bool)
    ensures forall c :: c in StripBy(s, p) ==> c in s
  {
    var x := TrimStart(s, p);
    var r := TrimEnd(x, p);
    TrimStartShape(s, p);
    TrimEndShape(x, p);
    forall c | c in r ensures c in s {
      var i :| 0 <= i < |r| && r[i] == c;
      assert x[i] == c;
      assert s[|s| - |x| + i] == c;
    }
  }

  /** A string not starting with a character of `p` starts what
      `strip(chars)` keeps. */
  lemma StripByFirst(s: string, p: char -> bool)
    requires s != [] && !p(s[0])
    ensures StripBy(s, p) != [] && StripBy(s, p)[0] == s[0]
  {
    assert TrimStart(s, p) == s;
    TrimEndShape(s, p);
  }

  /** Python's `s.strip()`. */
  function Strip(s: string): (r: string)
    ensures StrippedBy(r, IsSpace)
    ensures r == [] <==> forall i :: 0 <= i < |s| ==> IsSpace(s[i])
    ensures forall c :: c in r ==> c in s
  {
    StripByFrom(s, IsSpace);
    StripBy(s, IsSpace)
  }

  /** Stripping a stripped string changes nothing, so `strip()` is idempotent. */
  lemma StripStable(s: string, p: char -> bool)
    requires StrippedBy(s, p)
    ensures StripBy(s, p) == s
  {
    assert TrimStart(s, p) == s;
    assert TrimEnd(s, p) == s;
  }

  lemma StripIdempotent(s: string)
    ensures Strip(Strip(s)) == Strip(s)
  {
    StripStable(Strip(s), IsSpace);
  }

  /** Leading characters satisfying `p` are all removed by `lstrip`. */
  lemma {:induction false} TrimStartPad(w: string, s: string, p: char -> bool)
    requires forall i :: 0 <= i < |w| ==> p(w[i])
    ensures TrimStart(w + s, p) == TrimStart(s, p)
    decreases |w|
  {
    if w != [] {
      assert (w + s)[0] == w[0];
      assert (w + s)[1..] == w[1..] + s;
      TrimStartPad(w[1..], s, p);
    } else {
      assert w + s == s;
    }
  }

  /** Trailing characters satisfying `p` are all removed by `rstrip`. */
  lemma {:induction false} TrimEndPad(s: string, w: string, p: char -> bool)
    requires forall i :: 0 <= i < |w| ==> p(w[i])
    ensures TrimEnd(s + w, p) == TrimEnd(s, p)
    decreases |w|
  {
    if w != [] {
      assert (s + w)[|s + w| - 1] == w[|w| - 1];
      assert (s + w)[..|s + w| - 1] == s + w[..|w| - 1];
      TrimEndPad(s, w[..|w| - 1], p);
    } else {
      assert s + w == s;
    }
  }

  /** `lstrip` of a string holding a character outside `p` stops inside it,
      so what follows is kept whole. */
  lemma {:induction false} TrimStartAppend(s: string, w: string, p: char -> bool, k: nat)
    requires k < |s| && !p(s[k])
    ensures TrimStart(s + w, p) == TrimStart(s, p) + w
    decreases |s|
  {
    assert (s + w)[0] == s[0];
    if p(s[0]) {
      assert (s + w)[1..] == s[1..] + w;
      TrimStartAppend(s[1..], w, p, k - 1);
    }
  }

  /** Whitespace in front of a string does not change what `strip()` keeps. */
  lemma StripFront(w: string, s: string)
    requires forall i :: 0 <= i < |w| ==> IsSpace(w[i])
    ensures Strip(w + s) == Strip(s)
  {
    TrimStartPad(w, s, IsSpace);
  }

  /** Whitespace behind a string does not change what `strip()` keeps. */
  lemma StripBack(s: string, w: string)
    requires forall i :: 0 <= i < |w| ==> IsSpace(w[i])
    ensures Strip(s + w) == Strip(s)
  {
    if k :| 0 <= k < |s| && !IsSpace(s[k]) {
      TrimStartAppend(s, w, IsSpace, k);
      TrimEndPad(TrimStart(s, IsSpace), w, IsSpace);
    } else {
      assert forall i :: 0 <= i < |s + w| ==> IsSpace((s + w)[i]) by {
        forall i | 0 <= i < |s + w| ensures IsSpace((s + w)[i]) {
          if i >= |s| {
            assert (s + w)[i] == w[i - |s|];
          }
        }
      }
    }
  }

  /** Whitespace around a string does not change what `strip()` keeps. */
  lemma StripPadded(w1: string, s: string, w2: string)
    requires forall i :: 0 <= i < |w1| ==> IsSpace(w1[i])
    requires forall i :: 0 <= i < |w2| ==> IsSpace(w2[i])
    ensures Strip(w1 + s + w2) == Strip(s)
  {
    assert w1 + s + w2 == w1 + (s + w2);
    StripFront(w1, s + w2);
    StripBack(s, w2);
  }

  /** Python's `s.split(sep)` for a one-character separator. */
  function Split(s: string, sep: char): (r: seq<string>)
    ensures |r| >= 1
    ensures forall k :: 0 <= k < |r| ==> sep !in r[k]
    decreases |s|
  {
    if s == [] then [[]]
    else
      var rest := Split(s[1..], sep);
      if s[0] == sep then [[]] + rest else [[s[0]] + rest[0]] + rest[1..]
  }

  /** Python's `sep.join(parts)` for a one-character separator. */
  function Join(parts: seq<string>, sep: char): string {
    if parts == [] then []
    else if |parts| == 1 then parts[0]
    else parts[0] + [sep] + Join(parts[1..], sep)
  }

  /** Joining the pieces of a split gives back the text. */
  lemma {:induction false} JoinSplit(s: string, sep: char)
    ensures Join(Split(s, sep), sep) == s
    decreases |s|
  {
    if s != [] {
      JoinSplit(s[1..], sep);
      var rest := Split(s[1..], sep);
      if s[0] == sep {
        assert Split(s, sep) == [[]] + rest;
        assert [s[0]] + s[1..] == s;
      } else {
        var r := Split(s, sep);
        assert r == [[s[0]] + rest[0]] + rest[1..];
        if |rest| == 1 {
          assert Join(rest, sep) == rest[0];
        } else {
          assert Join(rest, sep) == rest[0] + [sep] + Join(rest[1..], sep);
          assert r[1..] == rest[1..];
        }
      }
    }
  }

  /** Joining pieces none of which holds `c`, with a separator other than
      `c`, gives a text without `c`. */
  lemma {:induction false} JoinAvoids(parts: seq<string>, sep: char, c: char)
    requires c != sep
    requires forall k :: 0 <= k < |parts| ==> c !in parts[k]
    ensures c !in Join(parts, sep)
  {
    if |parts| > 1 {
      JoinAvoids(parts[1..], sep, c);
    }
  }

  /** `[line.strip() for line in lines]` */
  function StripAll(lines: seq<string>): (r: seq<string>)
    ensures |r| == |lines| && forall i :: 0 <= i < |lines| ==> r[i] == Strip(lines[i])
  {
    if lines == [] then [] else [Strip(lines[0])] + StripAll(lines[1..])
  }

  /** `[line.strip() for line in lines if line.strip()]` */
  function StrippedNonBlank(lines: seq<string>): (r: seq<string>)
    ensures |r| <= |lines|
    ensures forall k :: 0 <= k < |r| ==> r[k] != [] && StrippedBy(r[k], IsSpace)
  {
    if lines == [] then []
    else
      var s := Strip(lines[0]);
      var rest := StrippedNonBlank(lines[1..]);
      if s != [] then [s] + rest else rest
  }

  /** The indices from `i` on of the lines that are not blank, in
      increasing order. */
  function NonBlankFrom(lines: seq<string>, i: nat): (idx: seq<nat>)
    requires i <= |lines|
    ensures forall k :: 0 <= k < |idx| ==> i <= idx[k] < |lines|
    decreases |lines| - i
  {
    if i == |lines| then []
    else if Strip(lines[i]) != [] then [i] + NonBlankFrom(lines, i + 1)
    else NonBlankFrom(lines, i + 1)
  }

  /** The indices listed are those of the non-blank lines from `i` on,
      each once and in increasing order. */
  lemma {:induction false} NonBlankFromSpec(lines: seq<string>, i: nat)
    requires i <= |lines|
    ensures forall k :: 0 <= k < |NonBlankFrom(lines, i)| ==> Strip(lines[NonBlankFrom(lines, i)[k]]) != []
    ensures forall k, m :: 0 <= k < m < |NonBlankFrom(lines, i)| ==> NonBlankFrom(lines, i)[k] < NonBlankFrom(lines, i)[m]
    ensures forall j :: i <= j < |lines| && Strip(lines[j]) != [] ==> j in NonBlankFrom(lines, i)
    decreases |lines| - i
  {
    if i < |lines| {
      NonBlankFromSpec(lines, i + 1);
      NonBlankFromStep(lines, i, NonBlankFrom(lines, i + 1));
    }
  }

  /** The step of `NonBlankFromSpec` at line `i`. */
  lemma NonBlankFromStep(lines: seq<string>, i: nat, later: seq<nat>)
    requires i < |lines| && later == NonBlankFrom(lines, i + 1)
    requires forall k :: 0 <= k < |later| ==> Strip(lines[later[k]]) != []
    requires forall k, m :: 0 <= k < m < |later| ==> later[k] < later[m]
    requires forall j :: i + 1 <= j < |lines| && Strip(lines[j]) != [] ==> j in later
    ensures forall k :: 0 <= k < |NonBlankFrom(lines, i)| ==> Strip(lines[NonBlankFrom(lines, i)[k]]) != []
    ensures forall k, m :: 0 <= k < m < |NonBlankFrom(lines, i)| ==> NonBlankFrom(lines, i)[k] < NonBlankFrom(lines, i)[m]
    ensures forall j :: i <= j < |lines| && Strip(lines[j]) != [] ==> j in NonBlankFrom(lines, i)
  {
    if Strip(lines[i]) != [] {
      assert NonBlankFrom(lines, i) == [i] + later;
      ConsIndices(i, later, NonBlankFrom(lines, i));
    } else {
      assert NonBlankFrom(lines, i) == later;
    }
  }

  /** Putting `i` in front of a list of larger indices keeps it increasing,
      and an element of the result is `i` or an element of the list. */
  lemma ConsIndices(i: nat, later: seq<nat>, idx: seq<nat>)
    requires idx == [i] + later
    requires forall k :: 0 <= k < |later| ==> i < later[k]
    requires forall k, m :: 0 <= k < m < |later| ==> later[k] < later[m]
    ensures forall k, m :: 0 <= k < m < |idx| ==> idx[k] < idx[m]
    ensures forall k :: 0 <= k < |idx| ==> idx[k] == i || idx[k] in later
    ensures i in idx && forall j :: j in later ==> j in idx
  {
    assert forall k :: 1 <= k < |idx| ==> idx[k] == later[k - 1];
  }

  /** From `i` on, the filtered list is the strip of each non-blank line,
      in the order of the lines. */
  lemma {:induction false} StrippedNonBlankFrom(lines: seq<string>, i: nat)
    requires i <= |lines|
    ensures |StrippedNonBlank(lines[i..])| == |NonBlankFrom(lines, i)|
    ensures forall k :: 0 <= k < |NonBlankFrom(lines, i)| ==>
      StrippedNonBlank(lines[i..])[k] == Strip(lines[NonBlankFrom(lines, i)[k]])
    decreases |lines| - i
  {
    if i < |lines| {
      StrippedNonBlankFrom(lines, i + 1);
      StrippedNonBlankStep(lines, i);
      var rest := StrippedNonBlank(lines[i + 1..]);
      var later := NonBlankFrom(lines, i + 1);
      if Strip(lines[i]) != [] {
        assert forall k :: 1 <= k <= |later| ==> ([i] + later)[k] == later[k - 1];
        assert forall k :: 1 <= k <= |rest| ==> ([Strip(lines[i])] + rest)[k] == rest[k - 1];
      }
    }
  }

  /** One step of the filter and of the index list, at line `i`. */
  lemma StrippedNonBlankStep(lines: seq<string>, i: nat)
    requires i < |lines|
    ensures Strip(lines[i]) != [] ==>
      && StrippedNonBlank(lines[i..]) == [Strip(lines[i])] + StrippedNonBlank(lines[i + 1..])
      && NonBlankFrom(lines, i) == [i] + NonBlankFrom(lines, i + 1)
    ensures Strip(lines[i]) == [] ==>
      && StrippedNonBlank(lines[i..]) == StrippedNonBlank(lines[i + 1..])
      && NonBlankFrom(lines, i) == NonBlankFrom(lines, i + 1)
  {
    assert lines[i..][1..] == lines[i + 1..];
  }

  /** The filtered list is exactly the non-blank lines, stripped, in order:
      its k-th element is the strip of the k-th non-blank line, and every
      non-blank line is in it. */
  lemma StrippedNonBlankInOrder(lines: seq<string>)
    ensures |StrippedNonBlank(lines)| == |NonBlankFrom(lines, 0)|
    ensures forall k :: 0 <= k < |NonBlankFrom(lines, 0)| ==>
      StrippedNonBlank(lines)[k] == Strip(lines[NonBlankFrom(lines, 0)[k]])
    ensures forall i :: 0 <= i < |lines| && Strip(lines[i]) != [] ==> Strip(lines[i]) in StrippedNonBlank(lines)
  {
    StrippedNonBlankFrom(lines, 0);
    NonBlankFromSpec(lines, 0);
    assert lines[0..] == lines;
    var idx := NonBlankFrom(lines, 0);
    forall i | 0 <= i < |lines| && Strip(lines[i]) != [] ensures Strip(lines[i]) in StrippedNonBlank(lines) {
      var k :| 0 <= k < |idx| && idx[k] == i;
      assert StrippedNonBlank(lines)[k] == Strip(lines[i]);
    }
  }

  /** Every element is the strip of one of the lines. */
  lemma StrippedNonBlankOrigins(lines: seq<string>)
    ensures forall k :: 0 <= k < |StrippedNonBlank(lines)| ==> StrippedNonBlank(lines)[k] in StripAll(lines)
  {
    StrippedNonBlankInOrder(lines);
    var idx := NonBlankFrom(lines, 0);
    forall k | 0 <= k < |StrippedNonBlank(lines)| ensures StrippedNonBlank(lines)[k] in StripAll(lines) {
      assert StripAll(lines)[idx[k]] == StrippedNonBlank(lines)[k];
    }
  }

  /** Lines without `c` give stripped lines without `c`. */
  lemma {:induction false} StrippedNonBlankAvoids(lines: seq<string>, c: char)
    requires forall k :: 0 <= k < |lines| ==> c !in lines[k]
    ensures forall k :: 0 <= k < |StrippedNonBlank(lines)| ==> c !in StrippedNonBlank(lines)[k]
  {
    StrippedNonBlankOrigins(lines);
    forall k | 0 <= k < |StrippedNonBlank(lines)| ensures c !in StrippedNonBlank(lines)[k] {
      var i :| 0 <= i < |lines| && StripAll(lines)[i] == StrippedNonBlank(lines)[k];
    }
  }

  /** The list is empty exactly when every line is blank. */
  lemma {:induction false} StrippedNonBlankEmpty(lines: seq<string>)
    ensures StrippedNonBlank(lines) == [] <==> forall i :: 0 <= i < |lines| ==> Strip(lines[i]) == []
  {
    if lines != [] {
      StrippedNonBlankEmpty(lines[1..]);
      assert forall i :: 1 <= i < |lines| ==> lines[1..][i - 1] == lines[i];
    }
  }

  /** Its first element is the stripped first non-blank line. */
  lemma {:induction false} StrippedNonBlankFirst(lines: seq<string>, i: nat)
    requires i < |lines| && Strip(lines[i]) != []
    requires forall j :: 0 <= j < i ==> Strip(lines[j]) == []
    ensures StrippedNonBlank(lines) != [] && StrippedNonBlank(lines)[0] == Strip(lines[i])
  {
    if i > 0 {
      StrippedNonBlankFirst(lines[1..], i - 1);
    }
  }

  /** `[f(x) for x in xs]` */
  function MapSeq<A, B>(xs: seq<A>, f: A -> B): (r: seq<B>)
    ensures |r| == |xs| && forall i :: 0 <= i < |xs| ==> r[i] == f(xs[i])
  {
    seq(|xs|, i requires 0 <= i < |xs| => f(xs[i]))
  }

  /** Mapping the first `i` elements, and one more. */
  lemma MapSeqPrefix<A, B>(xs: seq<A>, f: A -> B, i: nat)
    requires i <= |xs|
    ensures i == |xs| ==> MapSeq(xs, f)[..i] == MapSeq(xs, f)
    ensures i < |xs| ==> MapSeq(xs, f)[..i + 1] == MapSeq(xs, f)[..i] + [f(xs[i])]
  {
    var ys := MapSeq(xs, f);
    if i < |xs| {
      assert ys[..i + 1] == ys[..i] + [ys[i]];
    }
  }
}
