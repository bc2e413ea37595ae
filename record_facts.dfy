/** What the dictionary returned by `extract_resume_data` holds, field by
    field, stated against the matchers' own specifications. */
module RecordFacts {
  import opened Text
  import Patterns
  import SkillMatcher
  import EducationMatcher
  import SectionMatcher
  import opened Record

  /** A hit, when there is one, is truthy. */
  predicate TruthyHit(hit: Option<Value>) {
    hit.Some? ==> !IsFalsy(hit.value)
  }

  /** Every hit a matcher reports is truthy, so the post-pass never clears
      an entry a matcher wrote. */
  predicate Truthy(h: Hits) {
    && TruthyHit(h.name) && TruthyHit(h.email) && TruthyHit(h.phone)
    && TruthyHit(h.linkedin) && TruthyHit(h.github) && TruthyHit(h.skills)
    && TruthyHit(h.education) && TruthyHit(h.certifications) && TruthyHit(h.projects)
  }

  /** The entry a hit ends up as once the post-pass has run. */
  function Reported(hit: Option<Value>): Scored {
    match hit
    case Some(v) => Scored(v, 1)
    case None => Missing
  }

  /** Whatever the matchers find, as long as every hit is truthy, each key
      ends up as its hit with confidence 1, or as `(None, 0)`: the seed's
      `([], 0)` defaults are all cleared by the post-pass. */
  lemma ReportAt(h: Hits, k: Key)
    requires Truthy(h)
    ensures k in Report(h) && Report(h)[k] == Reported(HitFor(h, k))
  {
    FillAt(h, k);
    assert IsFalsy(Default(k).value);
    assert TruthyHit(HitFor(h, k)) by {
      match k {
        case Name => case Email => case Phone => case LinkedIn => case GitHub =>
        case Skills => case Education => case Experience => case Certifications => case Projects =>
      }
    }
  }

  lemma NameTruthy(t: string)
    ensures TruthyHit(NameHit(t))
  {
  }

  lemma EmailTruthy(t: string)
    ensures TruthyHit(StrHit(Patterns.FindEmail(t)))
  {
  }

  lemma PhoneTruthy(t: string)
    ensures TruthyHit(StrHit(Patterns.FindPhone(t)))
  {
  }

  lemma LinkTruthy(t: string, tail: seq<Patterns.Atom>)
    ensures TruthyHit(StrHit(Patterns.FindUrl(t, tail)))
  {
  }

  lemma SkillsTruthy(t: string)
    ensures TruthyHit(SkillsHit(t))
  {
  }

  lemma EducationTruthy(t: string)
    ensures TruthyHit(EducationHit(t))
  {
    var gs := EducationMatcher.FindAll(t, 0);
    if gs != [] {
      assert |EducationMatcher.Entries(t)| == |gs|;
    }
  }

  lemma CertificationsTruthy(t: string)
    ensures TruthyHit(CertificationsHit(t))
  {
  }

  lemma ProjectsTruthy(t: string)
    ensures TruthyHit(ProjectsHit(t))
  {
  }

  /** Every matcher reports only truthy values: the name is a non-blank
      line, the patterns never match the empty string, and the lists are
      tested for emptiness or, for projects, never empty. */
  lemma FoundTruthy(t: string)
    ensures Truthy(Found(t))
  {
    NameTruthy(t);
    EmailTruthy(t);
    PhoneTruthy(t);
    LinkTruthy(t, Patterns.LinkedInTail());
    LinkTruthy(t, Patterns.GitHubTail());
    SkillsTruthy(t);
    EducationTruthy(t);
    CertificationsTruthy(t);
    ProjectsTruthy(t);
  }

  /** Every key of the result holds `(v, 1)` when its matcher found `v`, and
      `(None, 0)` otherwise. */
  lemma RecordAt(t: string, k: Key)
    ensures k in ResumeRecord(t) && ResumeRecord(t)[k] == Reported(HitFor(Found(t), k))
  {
    FoundTruthy(t);
    ReportAt(Found(t), k);
  }

  /** The dictionary holds exactly the ten keys. */
  lemma ReportKeys(h: Hits)
    ensures Report(h).Keys == set i | 0 <= i < |FieldOrder| :: FieldOrder[i]
  {
    forall k: Key ensures k in Report(h) {
      FillAt(h, k);
    }
    forall k | k in Report(h) ensures k in set i | 0 <= i < |FieldOrder| :: FieldOrder[i] {
      assert FieldOrder[Position(k)] == k;
    }
  }

  /** Every key is present whatever the matchers find. */
  lemma AllKeys(h: Hits)
    ensures forall k: Key :: k in Report(h)
  {
    forall k: Key ensures k in Report(h) {
      FillAt(h, k);
    }
  }

  /** The result has exactly the ten keys, in the seed's order. */
  lemma KeySet(t: string)
    ensures ResumeRecord(t).Keys == set i | 0 <= i < |FieldOrder| :: FieldOrder[i]
  {
    ReportKeys(Found(t));
  }

  /** The ten keys are spelled `name`, `email`, `phone`, `linkedin`,
      `GitHub`, `skills`, `education`, `experience`, `certifications` and
      `projects`, in that order, and no two keys share a spelling. */
  lemma KeyNames()
    ensures |FieldOrder| == 10
    ensures forall i, j :: 0 <= i < j < |FieldOrder| ==> KeyName(FieldOrder[i]) != KeyName(FieldOrder[j])
    ensures seq(|FieldOrder|, i requires 0 <= i < |FieldOrder| => KeyName(FieldOrder[i]))
      == ["name", "email", "phone", "linkedin", "GitHub", "skills",
          "education", "experience", "certifications", "projects"]
  {
  }

  /** A confidence is 1 exactly when the value is truthy; a falsy value only
      ever appears as `(None, 0)`. */
  lemma ReportConfidence(h: Hits, k: Key)
    requires Truthy(h)
    ensures k in Report(h)
    ensures Report(h)[k].confidence == 1 <==> !IsFalsy(Report(h)[k].value)
    ensures Report(h)[k].confidence == 0 <==> Report(h)[k] == Missing
    ensures IsFalsy(Report(h)[k].value) ==> Report(h)[k] == Missing
  {
    ReportAt(h, k);
    assert TruthyHit(HitFor(h, k)) by {
      match k {
        case Name => case Email => case Phone => case LinkedIn => case GitHub =>
        case Skills => case Education => case Experience => case Certifications => case Projects =>
      }
    }
  }

  /** The same, for the result of `extract_resume_data`. */
  lemma Confidence(t: string, k: Key)
    ensures k in ResumeRecord(t)
    ensures ResumeRecord(t)[k].confidence == 1 <==> !IsFalsy(ResumeRecord(t)[k].value)
    ensures ResumeRecord(t)[k].confidence == 0 <==> ResumeRecord(t)[k] == Missing
    ensures IsFalsy(ResumeRecord(t)[k].value) ==> ResumeRecord(t)[k] == Missing
  {
    FoundTruthy(t);
    ReportConfidence(Found(t), k);
  }

  /** `ReportAt` spelled out key by key. */
  lemma ReportFields(h: Hits)
    requires Truthy(h)
    ensures forall k: Key :: k in Report(h)
    ensures && Report(h)[Name] == Reported(h.name)
            && Report(h)[Email] == Reported(h.email)
            && Report(h)[Phone] == Reported(h.phone)
            && Report(h)[LinkedIn] == Reported(h.linkedin)
            && Report(h)[GitHub] == Reported(h.github)
            && Report(h)[Skills] == Reported(h.skills)
            && Report(h)[Education] == Reported(h.education)
            && Report(h)[Experience] == Missing
            && Report(h)[Certifications] == Reported(h.certifications)
            && Report(h)[Projects] == Reported(h.projects)
  {
    AllKeys(h);
    ReportAt(h, Name);
    ReportAt(h, Email);
    ReportAt(h, Phone);
    ReportAt(h, LinkedIn);
    ReportAt(h, GitHub);
    ReportAt(h, Skills);
    ReportAt(h, Education);
    ReportAt(h, Experience);
    ReportAt(h, Certifications);
    ReportAt(h, Projects);
  }

  /** Each field of the result is what its own matcher found, reported with
      confidence 1, or `(None, 0)`; `experience` is always `(None, 0)`. */
  lemma RecordFields(t: string)
    ensures forall k: Key :: k in ResumeRecord(t)
    ensures && ResumeRecord(t)[Name] == Reported(NameHit(t))
            && ResumeRecord(t)[Email] == Reported(StrHit(Patterns.FindEmail(t)))
            && ResumeRecord(t)[Phone] == Reported(StrHit(Patterns.FindPhone(t)))
            && ResumeRecord(t)[LinkedIn] == Reported(StrHit(Patterns.FindUrl(t, Patterns.LinkedInTail())))
            && ResumeRecord(t)[GitHub] == Reported(StrHit(Patterns.FindUrl(t, Patterns.GitHubTail())))
            && ResumeRecord(t)[Skills] == Reported(SkillsHit(t))
            && ResumeRecord(t)[Education] == Reported(EducationHit(t))
            && ResumeRecord(t)[Experience] == Missing
            && ResumeRecord(t)[Certifications] == Reported(CertificationsHit(t))
            && ResumeRecord(t)[Projects] == Reported(ProjectsHit(t))
  {
    FoundTruthy(t);
    ReportFields(Found(t));
  }

  /** No matcher fills the experience field. */
  lemma ExperienceMissing(t: string)
    ensures Experience in ResumeRecord(t) && ResumeRecord(t)[Experience] == Missing
  {
    RecordFields(t);
  }

  /** The name field of `e` is the first line of `t` that is not blank,
      stripped, with confidence 1; it is missing exactly when every line is
      blank. */
  ghost predicate NameIs(t: string, e: Scored) {
    var lines := Split(t, '\n');
    && (e == Missing <==> forall i :: 0 <= i < |lines| ==> Strip(lines[i]) == [])
    && forall i :: 0 <= i < |lines| && Strip(lines[i]) != [] && (forall j :: 0 <= j < i ==> Strip(lines[j]) == [])
         ==> e == Scored(Str(Strip(lines[i])), 1)
  }

  lemma NameHitIs(t: string)
    ensures NameIs(t, Reported(NameHit(t)))
  {
    var lines := Split(t, '\n');
    StrippedNonBlankEmpty(lines);
    forall i | 0 <= i < |lines| && Strip(lines[i]) != [] && (forall j :: 0 <= j < i ==> Strip(lines[j]) == [])
      ensures Reported(NameHit(t)) == Scored(Str(Strip(lines[i])), 1)
    {
      StrippedNonBlankFirst(lines, i);
    }
  }

  lemma NameReported(t: string)
    ensures Name in ResumeRecord(t) && NameIs(t, ResumeRecord(t)[Name])
  {
    RecordFields(t);
    NameHitIs(t);
  }

  /** The e-mail field of `e` is the leftmost `local@domain` span of `t`,
      taken from the start of its run of address characters, with
      confidence 1; it is missing exactly when `t` has no such span. */
  ghost predicate EmailIs(t: string, e: Scored) {
    && (e == Missing <==> forall s: nat, at: nat, f: nat :: !Patterns.IsEmailSpan(t, s, at, f))
    && (e != Missing ==>
      exists s: nat, at: nat, f: nat :: && Patterns.IsEmailSpan(t, s, at, f)
                         && e == Scored(Str(t[s..f]), 1)
                         && (s == 0 || !Patterns.IsEmailChar(t[s - 1]))
                         && forall j: nat, at': nat, f': nat :: j < s ==> !Patterns.IsEmailSpan(t, j, at', f'))
  }

  lemma EmailHitIs(t: string)
    ensures EmailIs(t, Reported(StrHit(Patterns.FindEmail(t))))
  {
    Patterns.FindEmailSpec(t);
  }

  lemma EmailReported(t: string)
    ensures Email in ResumeRecord(t) && EmailIs(t, ResumeRecord(t)[Email])
  {
    RecordFields(t);
    EmailHitIs(t);
  }

  /** The phone field of `e` is the leftmost run of ten digits of `t` with
      no word character on either side, with confidence 1; it is missing
      exactly when there is none. */
  ghost predicate PhoneIs(t: string, e: Scored) {
    && (e == Missing <==> forall i: nat :: !Patterns.PhoneAt(t, i))
    && (e != Missing ==>
      exists i: nat :: && Patterns.PhoneAt(t, i)
                  && e == Scored(Str(t[i..i + 10]), 1)
                  && (forall j :: i <= j < i + 10 ==> IsDigit(t[j]))
                  && (i == 0 || !IsWordChar(t[i - 1]))
                  && (i + 10 == |t| || !IsWordChar(t[i + 10]))
                  && forall j: nat :: j < i ==> !Patterns.PhoneAt(t, j))
  }

  lemma PhoneHitIs(t: string)
    ensures PhoneIs(t, Reported(StrHit(Patterns.FindPhone(t))))
  {
    Patterns.FindPhoneSpec(t);
  }

  lemma PhoneReported(t: string)
    ensures Phone in ResumeRecord(t) && PhoneIs(t, ResumeRecord(t)[Phone])
  {
    RecordFields(t);
    PhoneHitIs(t);
  }

  /** A link field of `e` is the leftmost whole link of `t` with the given
      tail, up to the next whitespace, with confidence 1; it is missing
      exactly when there is none. */
  ghost predicate LinkIs(t: string, e: Scored, tail: seq<Patterns.Atom>) {
    && (e == Missing <==> forall s: nat, f: nat :: !Patterns.IsUrlSpan(t, s, f, tail))
    && (e != Missing ==>
      exists s: nat, f: nat :: && Patterns.IsUrlSpan(t, s, f, tail)
                     && e == Scored(Str(t[s..f]), 1)
                     && forall j: nat, f': nat :: j < s ==> !Patterns.IsUrlSpan(t, j, f', tail))
  }

  lemma LinkHitIs(t: string, tail: seq<Patterns.Atom>)
    requires tail != [] && tail[0] == Patterns.Char(':')
    ensures LinkIs(t, Reported(StrHit(Patterns.FindUrl(t, tail))), tail)
  {
    Patterns.FindUrlSpec(t, tail);
  }

  /** The LinkedIn field is the leftmost `http(s)://www.linkedin.com/in/` link. */
  lemma LinkedInReported(t: string)
    ensures LinkedIn in ResumeRecord(t) && LinkIs(t, ResumeRecord(t)[LinkedIn], Patterns.LinkedInTail())
  {
    RecordFields(t);
    assert Patterns.LinkedInTail()[0] == Patterns.Char(':');
    LinkHitIs(t, Patterns.LinkedInTail());
  }

  /** The GitHub field is the leftmost `http(s)://github?com/` link, the `?`
      being any character but a newline. */
  lemma GitHubReported(t: string)
    ensures GitHub in ResumeRecord(t) && LinkIs(t, ResumeRecord(t)[GitHub], Patterns.GitHubTail())
  {
    RecordFields(t);
    assert Patterns.GitHubTail()[0] == Patterns.Char(':');
    LinkHitIs(t, Patterns.GitHubTail());
  }

  /** The skills field of `e` lists vocabulary words without repeats, a
      word being among them exactly when `t` holds it as a whole word,
      letter case ignored; it is missing exactly when no vocabulary word
      occurs. */
  ghost predicate SkillsAre(t: string, e: Scored) {
    && (e == Missing <==>
         forall w :: w in SkillMatcher.Vocabulary ==> forall i: nat :: !SkillMatcher.WholeWordAt(t, i, w))
    && (e != Missing ==>
         && e.confidence == 1 && e.value.StrList?
         && SkillMatcher.NoDuplicates(e.value.items)
         && |e.value.items| <= |SkillMatcher.Vocabulary|
         && forall w :: w in e.value.items <==>
              w in SkillMatcher.Vocabulary && exists i: nat :: SkillMatcher.WholeWordAt(t, i, w))
  }

  lemma SkillsHitAre(t: string)
    ensures SkillsAre(t, Reported(SkillsHit(t)))
  {
    SkillMatcher.VocabularySkills(t);
    var found := SkillMatcher.SkillsFound(t, SkillMatcher.Vocabulary);
    if found == [] {
      forall w | w in SkillMatcher.Vocabulary ensures forall i: nat :: !SkillMatcher.WholeWordAt(t, i, w) {
        assert w !in found;
      }
    } else {
      assert found[0] in found;
    }
  }

  lemma SkillsReported(t: string)
    ensures Skills in ResumeRecord(t) && SkillsAre(t, ResumeRecord(t)[Skills])
  {
    RecordFields(t);
    SkillsHitAre(t);
  }

  /** The education field of `e` is one well-formed entry per match of the
      pattern in `t`, in order, with confidence 1; it is missing exactly
      when the pattern never matches. */
  ghost predicate EducationIs(t: string, e: Scored) {
    && (e == Missing <==> EducationMatcher.FindAll(t, 0) == [])
    && (e != Missing ==>
         && e == Scored(EduList(EducationMatcher.Entries(t)), 1)
         && |e.value.degrees| == |EducationMatcher.FindAll(t, 0)|
         && forall d :: d in e.value.degrees ==> EducationMatcher.WellFormed(d))
  }

  lemma EducationHitIs(t: string)
    ensures EducationIs(t, Reported(EducationHit(t)))
  {
    EducationMatcher.EntriesWellFormed(t);
  }

  lemma EducationReported(t: string)
    ensures Education in ResumeRecord(t) && EducationIs(t, ResumeRecord(t)[Education])
  {
    RecordFields(t);
    EducationHitIs(t);
  }

  /** The certifications field of `e` lists the non-blank lines of the
      certifications section of `t`, each stripped, all of them and in
      order, with confidence 1; it is missing exactly when there is no
      section or every line of it is blank. */
  ghost predicate CertificationsAre(t: string, e: Scored) {
    var sec := SectionMatcher.CertificationsSection(t);
    && (e == Missing <==>
         sec.None? || forall i :: 0 <= i < |Split(sec.value, '\n')| ==> Strip(Split(sec.value, '\n')[i]) == [])
    && (e != Missing ==>
         && sec.Some? && e.confidence == 1 && e.value.StrList? && e.value.items != []
         && forall k :: 0 <= k < |e.value.items| ==>
              e.value.items[k] != [] && StrippedBy(e.value.items[k], IsSpace) && '\n' !in e.value.items[k])
    && (e != Missing ==>
         var lines := Split(sec.value, '\n'); var idx := NonBlankFrom(lines, 0);
         && |e.value.items| == |idx|
         && (forall k :: 0 <= k < |idx| ==> e.value.items[k] == Strip(lines[idx[k]]))
         && forall i :: 0 <= i < |lines| && Strip(lines[i]) != [] ==> Strip(lines[i]) in e.value.items)
  }

  lemma CertificationsHitAre(t: string)
    ensures CertificationsAre(t, Reported(CertificationsHit(t)))
  {
    var sec := SectionMatcher.CertificationsSection(t);
    if sec.Some? {
      StrippedNonBlankEmpty(Split(sec.value, '\n'));
      SectionMatcher.CertificationsAreLines(sec.value);
      SectionMatcher.CertificationsInOrder(sec.value);
    }
  }

  lemma CertificationsReported(t: string)
    ensures Certifications in ResumeRecord(t) && CertificationsAre(t, ResumeRecord(t)[Certifications])
  {
    RecordFields(t);
    CertificationsHitAre(t);
  }

  /** The projects field of `e` is present exactly when "projects" occurs
      in `t` in any letter case; it then holds one entry per block of the
      section, at least one, each title and description stripped. */
  ghost predicate ProjectsAre(t: string, e: Scored) {
    && (e == Missing <==> forall j: nat :: !OccursCiAt(t, j, "projects"))
    && (e != Missing ==>
         && e.confidence == 1 && e.value.ProjList? && e.value.projects != []
         && SectionMatcher.ProjectsSection(t).Some?
         && |e.value.projects| == |SectionMatcher.Blocks(SectionMatcher.ProjectsSection(t).value)|
         && e.value.projects == SectionMatcher.Projects(SectionMatcher.ProjectsSection(t).value)
         && forall k :: 0 <= k < |e.value.projects| ==>
              && StrippedBy(e.value.projects[k].title, SectionMatcher.IsColonOrSpace)
              && StrippedBy(e.value.projects[k].description, IsSpace))
  }

  lemma ProjectsHitAre(t: string)
    ensures ProjectsAre(t, Reported(ProjectsHit(t)))
  {
    var sec := SectionMatcher.ProjectsSection(t);
    if sec.Some? {
      SectionMatcher.ProjectsShape(sec.value);
    }
  }

  lemma ProjectsReported(t: string)
    ensures Projects in ResumeRecord(t) && ProjectsAre(t, ResumeRecord(t)[Projects])
  {
    RecordFields(t);
    ProjectsHitAre(t);
  }

  /** Running the post-pass a second time changes nothing. */
  lemma NormalizedIdempotent(m: map<Key, Scored>)
    ensures Normalized(Normalized(m)) == Normalized(m)
  {
    forall k | k in m ensures Normalize(Normalize(m[k])) == Normalize(m[k]) {
    }
  }

  /** An empty text yields `(None, 0)` for every field. */
  lemma EmptyText(k: Key)
    ensures k in ResumeRecord("") && ResumeRecord("")[k] == Missing
  {
    RecordAt("", k);
    assert Split("", '\n') == [""];
    assert StrippedNonBlank([""]) == [];
    assert SectionMatcher.FindCi("", "certifications").None? by {
      assert !OccursCiAt("", 0, "certifications");
    }
    assert SectionMatcher.FindCi("", "projects").None? by {
      assert !OccursCiAt("", 0, "projects");
    }
    SkillsEmpty();
  }

  lemma SkillsEmpty()
    ensures SkillMatcher.SkillsFound("", SkillMatcher.Vocabulary) == []
  {
    SkillMatcher.EmptyMentionsNothing(SkillMatcher.Vocabulary);
  }
}
