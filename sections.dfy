/** The two section matchers: the certifications list, cut from the first
    "Certifications" to the first following "Projects" or "Skills", and the
    project blocks, everything after the first "Projects" split before each
    line that looks like a title. Both searches ignore letter case and match
    anywhere in the text, not only at the start of a line. */
module SectionMatcher {
  import opened Text

  /** `(Projects|Skills|$)` matches at `c`, letter case ignored. Without
      re.M, `$` matches at the end of the text and just before a final
      newline. */
  predicate StopsAt(t: string, c: nat) {
    OccursCiAt(t, c, "projects") || OccursCiAt(t, c, "skills")
    || c == |t| || (c + 1 == |t| && t[c] == '\n')
  }

  /** Where the lazy `(.*?)` starting at `q` stops: the first position from
      `q` on where the alternation matches, which the end of the text always
      does, so the greedy `\s*` before it never has to give anything back. */
  function StopFrom(t: string, q: nat): (c: nat)
    requires q <= |t|
    ensures q <= c <= |t| && StopsAt(t, c)
    ensures forall j :: q <= j < c ==> !StopsAt(t, j)
    decreases |t| - q
  {
    if StopsAt(t, q) then q else StopFrom(t, q + 1)
  }

  /** The first position where `w` occurs, letter case ignored. */
  function FindCi(t: string, w: string): (r: Option<nat>)
    ensures r.Some? ==> OccursCiAt(t, r.value, w) && forall j: nat :: j < r.value ==> !OccursCiAt(t, j, w)
    ensures r.None? <==> forall j: nat :: !OccursCiAt(t, j, w)
  {
    var P := (i: nat) => OccursCiAt(t, i, w);
    var r := FirstFrom(0, |t|, P);
    assert r.None? ==> forall j: nat :: !OccursCiAt(t, j, w) by {
      if r.None? {
        forall j: nat ensures !OccursCiAt(t, j, w) {
          if j <= |t| {
            assert !P(j);
          }
        }
      }
    }
    assert r.Some? ==> forall j: nat :: j < r.value ==> !OccursCiAt(t, j, w) by {
      if r.Some? {
        forall j: nat | j < r.value ensures !OccursCiAt(t, j, w) {
          assert !P(j);
        }
      }
    }
    r
  }

  /** `group(1)` of `re.search(r'Certifications\s*(.*?)(Projects|Skills|$)', t, re.S | re.I)`. */
  function CertificationsSection(t: string): Option<string> {
    match FindCi(t, "certifications")
    case None => None
    case Some(s) =>
      var q := WsEnd(t, s + 14);
      Some(t[q..StopFrom(t, q)])
  }

  /** `[line.strip() for line in section.split('\n') if line.strip()]` */
  function Certifications(section: string): seq<string> {
    StrippedNonBlank(Split(section, '\n'))
  }

  /** "certifications" first occurs at `s`, and `section` runs from the end
      of the whitespace after it to `c`, the first position from there
      where "projects" or "skills" occurs, or `$` matches: the end of the
      text, or just before a final newline. */
  ghost predicate SectionBetween(t: string, s: nat, c: nat, section: string) {
    && OccursCiAt(t, s, "certifications")
    && (forall j: nat :: j < s ==> !OccursCiAt(t, j, "certifications"))
    && WsEnd(t, s + 14) <= c <= |t| && StopsAt(t, c)
    && section == t[WsEnd(t, s + 14)..c]
    && forall j :: WsEnd(t, s + 14) <= j < c ==> !StopsAt(t, j)
  }

  /** The section is there exactly when "certifications" occurs, and it is
      then the text between the first occurrence and the first following
      "projects", "skills" or match of `$`. */
  lemma CertificationsSectionSpec(t: string)
    ensures CertificationsSection(t).None? <==> forall j: nat :: !OccursCiAt(t, j, "certifications")
    ensures CertificationsSection(t).Some? ==>
      exists s: nat, c: nat :: SectionBetween(t, s, c, CertificationsSection(t).value)
  {
    match FindCi(t, "certifications")
    case None =>
    case Some(s) =>
      var c := StopFrom(t, WsEnd(t, s + 14));
      CertificationsSectionAt(t, s);
      assert SectionBetween(t, s, c, CertificationsSection(t).value);
  }

  /** A final newline is not part of the section: `$` matches before it. */
  lemma CertificationsBeforeFinalNewline()
    ensures CertificationsSection("Certifications\nA\n") == Some("A")
  {
    var t := "Certifications\nA\n";
    assert OccursCiAt(t, 0, "certifications");
    assert FindCi(t, "certifications") == Some(0);
    assert WsEnd(t, 14) == 15;
    assert !StopsAt(t, 15);
    assert StopFrom(t, 15) == 16;
    assert t[15..16] == "A";
  }

  lemma CertificationsSectionAt(t: string, s: nat)
    requires FindCi(t, "certifications") == Some(s)
    ensures SectionBetween(t, s, StopFrom(t, WsEnd(t, s + 14)), CertificationsSection(t).value)
  {
  }

  /** Every certification is a non-empty stripped line. */
  lemma CertificationsAreLines(section: string)
    ensures forall k :: 0 <= k < |Certifications(section)| ==>
      var c := Certifications(section)[k]; c != [] && StrippedBy(c, IsSpace) && '\n' !in c
  {
    StrippedNonBlankAvoids(Split(section, '\n'), '\n');
  }

  /** The certifications are the non-blank lines of the section, each
      stripped, in the order of the lines, and no non-blank line is
      dropped. */
  lemma CertificationsInOrder(section: string)
    ensures var lines := Split(section, '\n'); var idx := NonBlankFrom(lines, 0);
      && |Certifications(section)| == |idx|
      && (forall k :: 0 <= k < |idx| ==> Certifications(section)[k] == Strip(lines[idx[k]]))
      && forall i :: 0 <= i < |lines| && Strip(lines[i]) != [] ==> Strip(lines[i]) in Certifications(section)
  {
    StrippedNonBlankInOrder(Split(section, '\n'));
  }

  /** `group(1)` of `re.search(r'Projects\s*(.*)', t, re.S | re.I)`: the
      rest of the text after the first "projects" and its whitespace. */
  function ProjectsSection(t: string): Option<string> {
    match FindCi(t, "projects")
    case None => None
    case Some(s) => Some(t[WsEnd(t, s + 8)..])
  }

  /** The section is there exactly when "projects" occurs in any letter
      case, and it is then the whole rest of the text from the end of the
      whitespace after the first occurrence. */
  lemma ProjectsSectionSpec(t: string)
    ensures ProjectsSection(t).None? <==> forall j: nat :: !OccursCiAt(t, j, "projects")
    ensures ProjectsSection(t).Some? ==> exists s: nat :: ProjectsAfter(t, s, ProjectsSection(t).value)
  {
    match FindCi(t, "projects")
    case None =>
    case Some(s) =>
      var q := WsEnd(t, s + 8);
      assert q == |t| || !IsSpace(t[q]);
      assert ProjectsAfter(t, s, ProjectsSection(t).value);
  }

  /** "projects" first occurs at `s`, and `section` is the text after it
      with the whitespace that follows removed, up to the end. */
  ghost predicate ProjectsAfter(t: string, s: nat, section: string) {
    && OccursCiAt(t, s, "projects")
    && (forall j: nat :: j < s ==> !OccursCiAt(t, j, "projects"))
    && s + 8 <= |t| - |section|
    && section == t[|t| - |section|..]
    && (forall j :: s + 8 <= j < |t| - |section| ==> IsSpace(t[j]))
    && (section == [] || !IsSpace(section[0]))
  }

  /** The lookahead `(?=[A-Z][^\n]{3,100}:)` succeeds at `p`: an ASCII
      capital, then 3 to 100 characters on the same line, then a colon. */
  predicate TitleAhead(u: string, p: nat) {
    p < |u| && IsUpper(u[p])
    && exists c :: p + 4 <= c <= p + 101 && c < |u| && u[c] == ':' && '\n' !in u[p + 1..c]
  }

  /** `re.split(r'\n(?=[A-Z][^\n]{3,100}:)', u)` from index `i`, the current
      block having started at `start`. */
  function BlocksFrom(u: string, start: nat, i: nat): (r: seq<string>)
    requires start <= i <= |u|
    ensures |r| >= 1
    ensures start + |r[0]| <= |u| && |r[0]| >= i - start && r[0] == u[start..start + |r[0]|]
    ensures start + |r[0]| == |u| || u[start + |r[0]|] == '\n'
    ensures forall k :: 1 <= k < |r| ==> r[k] != [] && IsUpper(r[k][0])
    decreases |u| - i
  {
    if i == |u| then [u[start..]]
    else if u[i] == '\n' && TitleAhead(u, i + 1) then
      var rest := BlocksFrom(u, i + 1, i + 1);
      assert rest[0] != [] && rest[0][0] == u[i + 1];
      [u[start..i]] + rest
    else BlocksFrom(u, start, i + 1)
  }

  function Blocks(u: string): (r: seq<string>)
    ensures |r| >= 1
    ensures forall k :: 1 <= k < |r| ==> r[k] != [] && IsUpper(r[k][0])
  {
    BlocksFrom(u, 0, 0)
  }

  /** The blocks joined by newlines give back the section: the split loses
      only the newlines it splits at. */
  lemma {:induction false} BlocksFromJoin(u: string, start: nat, i: nat)
    requires start <= i <= |u|
    ensures Join(BlocksFrom(u, start, i), '\n') == u[start..]
    decreases |u| - i
  {
    if i < |u| {
      if u[i] == '\n' && TitleAhead(u, i + 1) {
        BlocksFromJoin(u, i + 1, i + 1);
        BlocksFromSplit(u, start, i);
        JoinAtSplit(u, start, i, BlocksFrom(u, i + 1, i + 1));
      } else {
        BlocksFromJoin(u, start, i + 1);
        BlocksFromSkip(u, start, i);
      }
    }
  }

  /** `'\n'.join(re.split(r'\n(?=...)', u)) == u`: splitting into blocks
      loses nothing but the newlines split at. */
  lemma BlocksJoin(u: string)
    ensures Join(Blocks(u), '\n') == u
  {
    BlocksFromJoin(u, 0, 0);
  }

  /** `re.split` cuts at `i`: a newline followed by a title line. */
  predicate CutAt(u: string, i: nat) {
    i < |u| && u[i] == '\n' && TitleAhead(u, i + 1)
  }

  /** No position of `b` is one where the split would cut. */
  predicate Uncut(b: string) {
    forall j :: 0 <= j < |b| ==> !CutAt(b, j)
  }

  /** Where the section is cut: no block holds a newline followed by a
      title line, and every block after the first starts with a title
      line. Together with `BlocksJoin` this fixes the blocks completely. */
  lemma BlocksCuts(u: string)
    ensures forall k :: 0 <= k < |Blocks(u)| ==> Uncut(Blocks(u)[k])
    ensures forall k :: 1 <= k < |Blocks(u)| ==> TitleAhead(Blocks(u)[k], 0)
  {
    BlocksFromCuts(u, 0, 0);
  }

  lemma {:induction false} BlocksFromCuts(u: string, start: nat, i: nat)
    requires start <= i <= |u|
    requires forall j :: start <= j < i ==> !CutAt(u, j)
    ensures forall k :: 0 <= k < |BlocksFrom(u, start, i)| ==> Uncut(BlocksFrom(u, start, i)[k])
    ensures forall k :: 1 <= k < |BlocksFrom(u, start, i)| ==> TitleAhead(BlocksFrom(u, start, i)[k], 0)
    decreases |u| - i
  {
    if i == |u| {
      BlocksCutsAtEnd(u, start);
    } else if CutAt(u, i) {
      BlocksFromCuts(u, i + 1, i + 1);
      BlocksCutsAtSplit(u, start, i, BlocksFrom(u, i + 1, i + 1));
    } else {
      BlocksFromCuts(u, start, i + 1);
      BlocksCutsAtSkip(u, start, i, BlocksFrom(u, start, i + 1));
    }
  }

  /** The step of `BlocksFromCuts` at the end of the section. */
  lemma BlocksCutsAtEnd(u: string, start: nat)
    requires start <= |u|
    requires forall j :: start <= j < |u| ==> !CutAt(u, j)
    ensures BlocksFrom(u, start, |u|) == [u[start..]] && Uncut(u[start..])
  {
    UncutBlock(u, start, |u|);
  }

  /** The step of `BlocksFromCuts` where the scan moves past `i`. */
  lemma BlocksCutsAtSkip(u: string, start: nat, i: nat, r: seq<string>)
    requires start <= i < |u| && !CutAt(u, i)
    requires r == BlocksFrom(u, start, i + 1)
    requires forall k :: 0 <= k < |r| ==> Uncut(r[k])
    requires forall k :: 1 <= k < |r| ==> TitleAhead(r[k], 0)
    ensures forall k :: 0 <= k < |BlocksFrom(u, start, i)| ==> Uncut(BlocksFrom(u, start, i)[k])
    ensures forall k :: 1 <= k < |BlocksFrom(u, start, i)| ==> TitleAhead(BlocksFrom(u, start, i)[k], 0)
  {
    BlocksFromSkip(u, start, i);
  }

  /** The step of `BlocksFromCuts` where the scan cuts at `i`. */
  lemma BlocksCutsAtSplit(u: string, start: nat, i: nat, rest: seq<string>)
    requires start <= i < |u| && CutAt(u, i)
    requires forall j :: start <= j < i ==> !CutAt(u, j)
    requires rest == BlocksFrom(u, i + 1, i + 1)
    requires forall k :: 0 <= k < |rest| ==> Uncut(rest[k])
    requires forall k :: 1 <= k < |rest| ==> TitleAhead(rest[k], 0)
    ensures forall k :: 0 <= k < |BlocksFrom(u, start, i)| ==> Uncut(BlocksFrom(u, start, i)[k])
    ensures forall k :: 1 <= k < |BlocksFrom(u, start, i)| ==> TitleAhead(BlocksFrom(u, start, i)[k], 0)
  {
    BlocksFromSplit(u, start, i);
    UncutBlock(u, start, i);
    TitleAheadIn(u, i + 1, i + 1 + |rest[0]|, i + 1);
    var r := [u[start..i]] + rest;
    assert forall k :: 1 <= k < |r| ==> r[k] == rest[k - 1];
  }

  /** A slice up to a newline or the end of the text, with no cut in it in
      the text, has no cut of its own. */
  lemma UncutBlock(u: string, a: nat, e: nat)
    requires a <= e <= |u| && (e == |u| || u[e] == '\n')
    requires forall j :: a <= j < e ==> !CutAt(u, j)
    ensures Uncut(u[a..e])
  {
    forall j | 0 <= j < e - a ensures !CutAt(u[a..e], j) {
      assert !CutAt(u, a + j);
      TitleAheadIn(u, a, e, a + j + 1);
    }
  }

  /** A title line ahead at `p` ends before the next newline, so a slice
      running to a newline or to the end of the text sees it the same way. */
  lemma TitleAheadIn(u: string, a: nat, e: nat, p: nat)
    requires a <= p <= e <= |u| && (e == |u| || u[e] == '\n')
    ensures TitleAhead(u[a..e], p - a) <==> TitleAhead(u, p)
  {
    if TitleAhead(u, p) {
      TitleAheadToSlice(u, a, e, p);
    }
    if TitleAhead(u[a..e], p - a) {
      TitleAheadFromSlice(u, a, e, p);
    }
  }

  lemma TitleAheadToSlice(u: string, a: nat, e: nat, p: nat)
    requires a <= p <= e <= |u| && (e == |u| || u[e] == '\n')
    requires TitleAhead(u, p)
    ensures TitleAhead(u[a..e], p - a)
  {
    var b := u[a..e];
    var c :| p + 4 <= c <= p + 101 && c < |u| && u[c] == ':' && '\n' !in u[p + 1..c];
    assert c < e;
    assert b[p - a] == u[p];
    var w := b[p - a + 1..c - a];
    forall x | 0 <= x < |w| ensures w[x] != '\n' {
      assert w[x] == u[p + 1..c][x];
    }
    assert b[c - a] == ':';
    assert p - a + 4 <= c - a <= p - a + 101 && c - a < |b| && '\n' !in w;
  }

  lemma TitleAheadFromSlice(u: string, a: nat, e: nat, p: nat)
    requires a <= p <= e <= |u| && (e == |u| || u[e] == '\n')
    requires TitleAhead(u[a..e], p - a)
    ensures TitleAhead(u, p)
  {
    var b := u[a..e];
    var c :| p - a + 4 <= c <= p - a + 101 && c < |b| && b[c] == ':' && '\n' !in b[p - a + 1..c];
    assert b[p - a] == u[p];
    var w := u[p + 1..c + a];
    forall x | 0 <= x < |w| ensures w[x] != '\n' {
      assert w[x] == b[p - a + 1..c][x];
    }
    assert u[c + a] == b[c];
    assert p + 4 <= c + a <= p + 101 && c + a < |u| && '\n' !in w;
  }

  lemma BlocksFromSplit(u: string, start: nat, i: nat)
    requires start <= i < |u| && u[i] == '\n' && TitleAhead(u, i + 1)
    ensures BlocksFrom(u, start, i) == [u[start..i]] + BlocksFrom(u, i + 1, i + 1)
  {
  }

  lemma BlocksFromSkip(u: string, start: nat, i: nat)
    requires start <= i < |u| && !(u[i] == '\n' && TitleAhead(u, i + 1))
    ensures BlocksFrom(u, start, i) == BlocksFrom(u, start, i + 1)
  {
  }

  /** Joining the block before a split newline to the blocks after it. */
  lemma JoinAtSplit(u: string, start: nat, i: nat, rest: seq<string>)
    requires start <= i < |u| && u[i] == '\n' && rest != []
    requires Join(rest, '\n') == u[i + 1..]
    ensures Join([u[start..i]] + rest, '\n') == u[start..]
  {
    JoinCons(u[start..i], rest, '\n');
    assert u[start..] == u[start..i] + [u[i]] + u[i + 1..];
  }

  lemma JoinCons(x: string, rest: seq<string>, sep: char)
    requires rest != []
    ensures Join([x] + rest, sep) == x + [sep] + Join(rest, sep)
  {
    assert ([x] + rest)[1..] == rest;
  }

  datatype ProjectEntry = ProjectEntry(title: string, description: string)

  /** The characters of `strip(': ')`. */
  predicate IsColonOrSpace(c: char) { c == ':' || c == ' ' }

  /** One project: the first line of the stripped block without surrounding
      colons and spaces is the title, the remaining lines joined by spaces
      and stripped are the description. The split always yields at least one
      line, so the source's `if project_lines` never fails. */
  function ToProject(block: string): ProjectEntry {
    var lines := Split(Strip(block), '\n');
    ProjectEntry(StripBy(lines[0], IsColonOrSpace), Strip(Join(lines[1..], ' ')))
  }

  /** A title neither starts nor ends with a colon or a space, a description
      is stripped, and neither holds a newline. */
  lemma ToProjectShape(block: string)
    ensures var p := ToProject(block);
      && StrippedBy(p.title, IsColonOrSpace) && '\n' !in p.title
      && StrippedBy(p.description, IsSpace) && '\n' !in p.description
  {
    var lines := Split(Strip(block), '\n');
    JoinAvoids(lines[1..], ' ', '\n');
    StripByFrom(lines[0], IsColonOrSpace);
  }

  /** A block beginning with a capital gives a title beginning with it. */
  lemma ToProjectTitle(block: string)
    requires block != [] && IsUpper(block[0])
    ensures ToProject(block).title != [] && ToProject(block).title[0] == block[0]
  {
    var s := Strip(block);
    StripByFirst(block, IsSpace);
    SplitFirst(s, '\n');
    StripByFirst(Split(s, '\n')[0], IsColonOrSpace);
  }

  /** A text not starting with the separator starts its first piece. */
  lemma SplitFirst(s: string, sep: char)
    requires s != [] && s[0] != sep
    ensures Split(s, sep)[0] != [] && Split(s, sep)[0][0] == s[0]
  {
  }

  /** The project entries of a section, one per block. */
  function Projects(section: string): (r: seq<ProjectEntry>)
    ensures |r| >= 1
  {
    MapSeq(Blocks(section), ToProject)
  }

  /** The projects list is never empty, and every entry after the first has
      a title starting with a capital letter. */
  lemma ProjectsShape(section: string)
    ensures |Projects(section)| == |Blocks(section)| >= 1
    ensures forall k :: 0 <= k < |Projects(section)| ==>
      StrippedBy(Projects(section)[k].title, IsColonOrSpace) && StrippedBy(Projects(section)[k].description, IsSpace)
    ensures forall k :: 1 <= k < |Projects(section)| ==>
      Projects(section)[k].title != [] && IsUpper(Projects(section)[k].title[0])
  {
    var bs := Blocks(section);
    forall k | 0 <= k < |bs| ensures
      && StrippedBy(Projects(section)[k].title, IsColonOrSpace) && StrippedBy(Projects(section)[k].description, IsSpace)
      && (k >= 1 ==> Projects(section)[k].title != [] && IsUpper(Projects(section)[k].title[0]))
    {
      ToProjectShape(bs[k]);
      if k >= 1 {
        ToProjectTitle(bs[k]);
      }
    }
  }
}
