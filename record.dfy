/** `extract_resume_data`: the dictionary of ten fields, each a value and a
    confidence, seeded with defaults, overwritten by the independent
    matchers, and finally normalised so that every missing field reads
    `(None, 0)`. */
module Record {
  import opened Text
  import Patterns
  import SkillMatcher
  import EducationMatcher
  import SectionMatcher

  /** The values a field can hold: Python's None, a string, a list of
      strings, or a list of education or project records. */
  datatype Value =
    | Null
    | Str(s: string)
    | StrList(items: seq<string>)
    | EduList(degrees: seq<EducationMatcher.EducationEntry>)
    | ProjList(projects: seq<SectionMatcher.ProjectEntry>)

  /** Python's `not value` on these values. */
  predicate IsFalsy(v: Value) {
    match v
    case Null => true
    case Str(s) => s == []
    case StrList(items) => items == []
    case EduList(degrees) => degrees == []
    case ProjList(projects) => projects == []
  }

  /** One entry of the dictionary: a `(value, confidence)` pair. */
  datatype Scored = Scored(value: Value, confidence: int)

  /** `(None, 0)` */
  const Missing := Scored(Null, 0)

  /** The ten keys of the dictionary. */
  datatype Key =
    | Name | Email | Phone | LinkedIn | GitHub
    | Skills | Education | Experience | Certifications | Projects

  /** The key as the dictionary spells it; note the capitals of `GitHub`. */
  function KeyName(k: Key): string {
    match k
    case Name => "name"
    case Email => "email"
    case Phone => "phone"
    case LinkedIn => "linkedin"
    case GitHub => "GitHub"
    case Skills => "skills"
    case Education => "education"
    case Experience => "experience"
    case Certifications => "certifications"
    case Projects => "projects"
  }

  /** The keys in the order the seed inserts them, which is also the order
      of the output, since overwriting a key keeps its place. */
  const FieldOrder: seq<Key> := [
    Name, Email, Phone, LinkedIn, GitHub, Skills, Education, Experience, Certifications, Projects
  ]

  /** Where a key stands in the dictionary's order. */
  function Position(k: Key): (p: nat)
    ensures p < |FieldOrder| && FieldOrder[p] == k
    ensures forall j :: 0 <= j < |FieldOrder| && FieldOrder[j] == k ==> j == p
  {
    match k
    case Name => 0
    case Email => 1
    case Phone => 2
    case LinkedIn => 3
    case GitHub => 4
    case Skills => 5
    case Education => 6
    case Experience => 7
    case Certifications => 8
    case Projects => 9
  }

  /** The dictionary before any matcher runs. */
  function Seed(): map<Key, Scored> {
    map[
      Name := Missing, Email := Missing, Phone := Missing, LinkedIn := Missing, GitHub := Missing,
      Skills := Scored(StrList([]), 0), Education := Scored(EduList([]), 0),
      Experience := Scored(StrList([]), 0), Certifications := Scored(StrList([]), 0),
      Projects := Scored(ProjList([]), 0)
    ]
  }

  /** The seed value of `k`: `(None, 0)` for the five single values,
      `([], 0)` for the five lists. */
  function Default(k: Key): Scored {
    match k
    case Skills => Scored(StrList([]), 0)
    case Education => Scored(EduList([]), 0)
    case Experience => Scored(StrList([]), 0)
    case Certifications => Scored(StrList([]), 0)
    case Projects => Scored(ProjList([]), 0)
    case _ => Missing
  }

  /** The seed holds every key, each with its default value. */
  lemma SeedKeys()
    ensures forall k: Key :: k in Seed() && Seed()[k] == Default(k)
  {
    forall k: Key ensures k in Seed() && Seed()[k] == Default(k) {
      match k {
        case Name => case Email => case Phone => case LinkedIn => case GitHub =>
        case Skills => case Education => case Experience => case Certifications => case Projects =>
      }
    }
  }

  // What each matcher finds. `None` stands for "the source's `if` fails
  // and the entry keeps its seed value".

  /** The first non-blank line, stripped. */
  function NameHit(t: string): Option<Value> {
    var lines := StrippedNonBlank(Split(t, '\n'));
    if lines != [] then Some(Str(lines[0])) else None
  }

  /** The group of a single-match pattern, as a string value. */
  function StrHit(m: Option<string>): Option<Value> {
    match m
    case None => None
    case Some(s) => Some(Str(s))
  }

  /** The vocabulary words mentioned, when there are any. */
  function SkillsHit(t: string): Option<Value> {
    var skills := SkillMatcher.SkillsFound(t, SkillMatcher.Vocabulary);
    if skills != [] then Some(StrList(skills)) else None
  }

  /** The education entries, when the pattern matches at all. */
  function EducationHit(t: string): Option<Value> {
    if EducationMatcher.FindAll(t, 0) != [] then Some(EduList(EducationMatcher.Entries(t))) else None
  }

  /** The non-blank lines of the certifications section, when it exists and
      has any. */
  function CertificationsHit(t: string): Option<Value> {
    match SectionMatcher.CertificationsSection(t)
    case None => None
    case Some(g) =>
      var certs := SectionMatcher.Certifications(g);
      if certs != [] then Some(StrList(certs)) else None
  }

  /** One project per block of the projects section, when it exists. */
  function ProjectsHit(t: string): Option<Value> {
    match SectionMatcher.ProjectsSection(t)
    case None => None
    case Some(u) => Some(ProjList(SectionMatcher.Projects(u)))
  }

  /** What the nine matchers find, one slot per matcher. */
  datatype Hits = Hits(
    name: Option<Value>, email: Option<Value>, phone: Option<Value>,
    linkedin: Option<Value>, github: Option<Value>, skills: Option<Value>,
    education: Option<Value>, certifications: Option<Value>, projects: Option<Value>)

  /** What the matchers find in `t`. */
  function Found(t: string): Hits {
    Hits(
      NameHit(t),
      StrHit(Patterns.FindEmail(t)),
      StrHit(Patterns.FindPhone(t)),
      StrHit(Patterns.FindUrl(t, Patterns.LinkedInTail())),
      StrHit(Patterns.FindUrl(t, Patterns.GitHubTail())),
      SkillsHit(t),
      EducationHit(t),
      CertificationsHit(t),
      ProjectsHit(t))
  }

  /** The matcher result for `k`; `experience` has no matcher. */
  function HitFor(h: Hits, k: Key): Option<Value> {
    match k
    case Name => h.name
    case Email => h.email
    case Phone => h.phone
    case LinkedIn => h.linkedin
    case GitHub => h.github
    case Skills => h.skills
    case Education => h.education
    case Experience => None
    case Certifications => h.certifications
    case Projects => h.projects
  }

  /** `(v, 1)` for a hit `v`, otherwise `e`. */
  function Keep(hit: Option<Value>, e: Scored): Scored {
    match hit
    case Some(v) => Scored(v, 1)
    case None => e
  }

  /** One matcher's step: a hit `v` overwrites the entry with `(v, 1)`,
      otherwise the entry keeps its value. */
  function Apply(fields: map<Key, Scored>, key: Key, hit: Option<Value>): map<Key, Scored>
    requires key in fields
  {
    fields[key := Keep(hit, fields[key])]
  }

  /** The dictionary after the nine matchers have run on the seed, in the
      source's order. */
  function Fill(h: Hits): map<Key, Scored> {
    var f1 := Apply(Seed(), Name, h.name);
    var f2 := Apply(f1, Email, h.email);
    var f3 := Apply(f2, Phone, h.phone);
    var f4 := Apply(f3, LinkedIn, h.linkedin);
    var f5 := Apply(f4, GitHub, h.github);
    var f6 := Apply(f5, Skills, h.skills);
    var f7 := Apply(f6, Education, h.education);
    var f8 := Apply(f7, Certifications, h.certifications);
    Apply(f8, Projects, h.projects)
  }

  /** Each matcher writes only its own key, so every key ends up with its
      own matcher's result over its seed value, and `experience`, which has
      no matcher, keeps its seed value. */
  lemma FillAt(h: Hits, k: Key)
    ensures k in Fill(h) && Fill(h)[k] == Keep(HitFor(h, k), Default(k))
  {
    match k {
      case Name => case Email => case Phone => case LinkedIn => case GitHub =>
      case Skills => case Education => case Experience => case Certifications => case Projects =>
    }
  }

  /** The dictionary once every matcher has run on `t`, before the post-pass. */
  function Matched(t: string): map<Key, Scored> {
    Fill(Found(t))
  }

  /** The post-pass on one entry: a falsy value becomes `(None, 0)`. */
  function Normalize(e: Scored): Scored {
    if IsFalsy(e.value) then Missing else e
  }

  /** The post-pass on the whole dictionary. */
  function Normalized(m: map<Key, Scored>): map<Key, Scored> {
    map k | k in m :: Normalize(m[k])
  }

  /** The dictionary built from the matchers' results `h`. */
  function Report(h: Hits): map<Key, Scored> {
    Normalized(Fill(h))
  }

  /** What `extract_resume_data(t)` returns. */
  function ResumeRecord(t: string): map<Key, Scored> {
    Report(Found(t))
  }

  /** `extract_resume_data`: seeds the dictionary, lets each matcher
      overwrite its entry, then rewrites every falsy entry to `(None, 0)`. */
  method ExtractResumeData(text: string) returns (fields: map<Key, Scored>)
    ensures fields == ResumeRecord(text)
  {
    fields := Seed();
    fields := NameStep(text, fields);
    fields := PatternStep(fields, Email, Patterns.FindEmail(text));
    fields := PatternStep(fields, Phone, Patterns.FindPhone(text));
    fields := PatternStep(fields, LinkedIn, Patterns.FindUrl(text, Patterns.LinkedInTail()));
    fields := PatternStep(fields, GitHub, Patterns.FindUrl(text, Patterns.GitHubTail()));
    fields := SkillsStep(text, fields);
    fields := EducationStep(text, fields);
    fields := CertificationsStep(text, fields);
    fields := ProjectsStep(text, fields);
    assert fields == Matched(text);
    forall k: Key ensures k in fields {
      FillAt(Found(text), k);
    }
    fields := MissingFields(fields);
  }

  /** The post-pass: in key order, every entry whose value is falsy becomes
      `(None, 0)`; the others stay. */
  method MissingFields(matched: map<Key, Scored>) returns (fields: map<Key, Scored>)
    requires forall k: Key :: k in matched
    ensures fields == Normalized(matched)
  {
    fields := matched;
    NormalizedAll(matched);
    for i := 0 to |FieldOrder|
      invariant fields == NormalizedBefore(matched, i)
    {
      var key := FieldOrder[i];
      NormalizedStep(matched, i);
      if IsFalsy(fields[key].value) {
        fields := fields[key := Missing];
      }
    }
  }

  /** The dictionary once the post-pass has visited the first `i` keys. */
  function NormalizedBefore(m: map<Key, Scored>, i: nat): map<Key, Scored> {
    map k | k in m :: if Position(k) < i then Normalize(m[k]) else m[k]
  }

  /** Visiting key `i` normalises its entry and leaves the others alone. */
  lemma NormalizedStep(m: map<Key, Scored>, i: nat)
    requires i < |FieldOrder| && FieldOrder[i] in m
    ensures var key := FieldOrder[i];
      && NormalizedBefore(m, i)[key] == m[key]
      && NormalizedBefore(m, i + 1) == NormalizedBefore(m, i)[key := Normalize(m[key])]
  {
    var key := FieldOrder[i];
    assert Position(key) == i;
  }

  /** Once every key is visited, the dictionary is normalised; before any
      is, it is untouched. */
  lemma NormalizedAll(m: map<Key, Scored>)
    ensures NormalizedBefore(m, |FieldOrder|) == Normalized(m)
    ensures NormalizedBefore(m, 0) == m
  {
  }

  /** Step 1: the first non-blank line, stripped, is the name. */
  method NameStep(text: string, fields: map<Key, Scored>) returns (r: map<Key, Scored>)
    requires Name in fields
    ensures r == Apply(fields, Name, NameHit(text))
  {
    r := fields;
    var lines := StrippedNonBlank(Split(text, '\n'));
    if lines != [] {
      r := r[Name := Scored(Str(lines[0]), 1)];
    }
  }

  /** Steps 2 to 5: the match of a single-match pattern, if any. */
  method PatternStep(fields: map<Key, Scored>, key: Key, m: Option<string>) returns (r: map<Key, Scored>)
    requires key in fields
    ensures r == Apply(fields, key, StrHit(m))
  {
    r := fields;
    if m.Some? {
      r := r[key := Scored(Str(m.value), 1)];
    }
  }

  /** Step 6: the vocabulary words the text mentions, if any. */
  method SkillsStep(text: string, fields: map<Key, Scored>) returns (r: map<Key, Scored>)
    requires Skills in fields
    ensures r == Apply(fields, Skills, SkillsHit(text))
  {
    r := fields;
    var extractedSkills := SkillMatcher.ExtractSkills(text, SkillMatcher.Vocabulary);
    if extractedSkills != [] {
      r := r[Skills := Scored(StrList(extractedSkills), 1)];
    }
  }

  /** Step 7: one entry per education match, if there is a match. */
  method EducationStep(text: string, fields: map<Key, Scored>) returns (r: map<Key, Scored>)
    requires Education in fields
    ensures r == Apply(fields, Education, EducationHit(text))
  {
    r := fields;
    var educationEntries := EducationMatcher.FindAll(text, 0);
    if educationEntries != [] {
      var eduList := EducationList(text);
      r := r[Education := Scored(EduList(eduList), 1)];
    }
  }

  /** Step 8: the lines of the certifications section, if it has any. */
  method CertificationsStep(text: string, fields: map<Key, Scored>) returns (r: map<Key, Scored>)
    requires Certifications in fields
    ensures r == Apply(fields, Certifications, CertificationsHit(text))
  {
    r := fields;
    var certificationsSection := SectionMatcher.CertificationsSection(text);
    if certificationsSection.Some? {
      var certs := SectionMatcher.Certifications(certificationsSection.value);
      if certs != [] {
        r := r[Certifications := Scored(StrList(certs), 1)];
      }
    }
  }

  /** Step 9: the project blocks, if there is a projects section. A block
      always yields at least one line and there is always at least one
      block, so the source's `if project_lines` and `if projects` hold. */
  method ProjectsStep(text: string, fields: map<Key, Scored>) returns (r: map<Key, Scored>)
    requires Projects in fields
    ensures r == Apply(fields, Projects, ProjectsHit(text))
  {
    r := fields;
    var projectsSection := SectionMatcher.ProjectsSection(text);
    if projectsSection.Some? {
      var projects := ProjectList(projectsSection.value);
      r := r[Projects := Scored(ProjList(projects), 1)];
    }
  }

  /** The education loop: one entry per match of the pattern, each group
      stripped and the years joined by ` - `. */
  method EducationList(text: string) returns (eduList: seq<EducationMatcher.EducationEntry>)
    ensures eduList == EducationMatcher.Entries(text)
    ensures forall e :: e in eduList ==> EducationMatcher.WellFormed(e)
  {
    var educationEntries := EducationMatcher.FindAll(text, 0);
    eduList := [];
    for i := 0 to |educationEntries|
      invariant eduList == MapSeq(educationEntries, EducationMatcher.ToEntry)[..i]
    {
      var entry := educationEntries[i];
      var degree := Strip(entry.degree);
      var institution := Strip(entry.institution);
      var startYear := Strip(entry.start);
      var endYear := Strip(entry.finish);
      MapSeqPrefix(educationEntries, EducationMatcher.ToEntry, i);
      eduList := eduList + [EducationMatcher.EducationEntry(degree, institution, startYear + " - " + endYear)];
    }
    MapSeqPrefix(educationEntries, EducationMatcher.ToEntry, |educationEntries|);
    EducationMatcher.EntriesWellFormed(text);
  }

  /** The projects loop: the section split into blocks, one entry per block. */
  method ProjectList(section: string) returns (projects: seq<SectionMatcher.ProjectEntry>)
    ensures projects == SectionMatcher.Projects(section)
    ensures projects != []
  {
    var projectBlocks := SectionMatcher.Blocks(section);
    projects := [];
    for i := 0 to |projectBlocks|
      invariant projects == MapSeq(projectBlocks, SectionMatcher.ToProject)[..i]
    {
      var projectLines := Split(Strip(projectBlocks[i]), '\n');
      var title := StripBy(projectLines[0], SectionMatcher.IsColonOrSpace);
      var description := Strip(Join(projectLines[1..], ' '));
      MapSeqPrefix(projectBlocks, SectionMatcher.ToProject, i);
      projects := projects + [SectionMatcher.ProjectEntry(title, description)];
    }
    MapSeqPrefix(projectBlocks, SectionMatcher.ToProject, |projectBlocks|);
  }
}
