/** The skill matcher: a case-insensitive whole-word search of each entry of
    a fixed vocabulary, the hits deduplicated. */
module SkillMatcher {
  import opened Text

  /** The vocabulary the field extractor searches for. */
  const Vocabulary: seq<string> := [
    "python", "java", "c++", "javascript", "machine learning", "data analysis", "sql",
    "html", "css", "excel", "pandas", "numpy", "matplotlib", "scikit-learn",
    "postgresql", "mongodb", "streamlit", "easyocr", "nltk", "llms", "communication"
  ]

  predicate NoDuplicates(s: seq<string>) {
    forall i, j :: 0 <= i < j < |s| ==> s[i] != s[j]
  }

  /** `\b` + `re.escape(w)` + `\b` matches at `i`, letter case ignored. The
      boundaries are positional, so after a word ending in a non-word
      character, such as `c++`, the next character must be a word character. */
  predicate WholeWordAt(t: string, i: nat, w: string) {
    IsBoundary(t, i) && OccursCiAt(t, i, w) && IsBoundary(t, i + |w|)
  }

  /** `re.search(r'\b' + re.escape(w) + r'\b', t, re.IGNORECASE)` succeeds. */
  predicate Mentions(t: string, w: string) {
    FirstFrom(0, |t|, (i: nat) => WholeWordAt(t, i, w)).Some?
  }

  /** The search succeeds exactly when some position holds a whole-word
      occurrence. */
  lemma MentionsSpec(t: string, w: string)
    ensures Mentions(t, w) <==> exists i: nat :: WholeWordAt(t, i, w)
  {
    var P := (i: nat) => WholeWordAt(t, i, w);
    if Mentions(t, w) {
      var i := FirstFrom(0, |t|, P).value;
      assert P(i);
    } else {
      forall i: nat ensures !WholeWordAt(t, i, w) {
        if i <= |t| {
          assert !P(i);
        }
      }
    }
  }

  /** The entries of `skillList` that `t` mentions, in list order: what the
      loop of the source appends to `found_skills`. */
  function Mentioned(t: string, skillList: seq<string>): (r: seq<string>)
    ensures forall w :: w in r <==> w in skillList && Mentions(t, w)
  {
    if skillList == [] then []
    else
      var init := skillList[..|skillList| - 1];
      var last := skillList[|skillList| - 1];
      assert skillList == init + [last];
      Mentioned(t, init) + (if Mentions(t, last) then [last] else [])
  }

  /** `list(set(s))` with the set's order fixed: one copy of each element. */
  function Distinct(s: seq<string>): (r: seq<string>)
    ensures forall w :: w in r <==> w in s
    ensures NoDuplicates(r)
  {
    if s == [] then []
    else
      var rest := Distinct(s[1..]);
      if s[0] in rest then rest else [s[0]] + rest
  }

  /** `extract_skills` as a function: the found skills, without duplicates. */
  function SkillsFound(t: string, skillList: seq<string>): seq<string> {
    Distinct(Mentioned(t, skillList))
  }

  /** `extract_skills`: one search per vocabulary entry, appending the hits,
      then dropping duplicates. The source returns `list(set(...))`, whose
      order is unspecified; the result here is one admissible order. */
  method ExtractSkills(text: string, skillList: seq<string>) returns (skills: seq<string>)
    ensures skills == SkillsFound(text, skillList)
    ensures NoDuplicates(skills)
    ensures forall w :: w in skills <==> w in skillList && exists i: nat :: WholeWordAt(text, i, w)
  {
    var foundSkills: seq<string> := [];
    for k := 0 to |skillList|
      invariant foundSkills == Mentioned(text, skillList[..k])
    {
      assert skillList[..k + 1][..k] == skillList[..k];
      if Mentions(text, skillList[k]) {
        foundSkills := foundSkills + [skillList[k]];
      }
    }
    assert skillList[..|skillList|] == skillList;
    skills := Distinct(foundSkills);
    forall w ensures w in skills <==> w in skillList && exists i: nat :: WholeWordAt(text, i, w) {
      MentionsSpec(text, w);
    }
  }

  /** Against the fixed vocabulary: the skills are vocabulary words, each
      once, and a word is among them exactly when the text holds it as a
      whole word, letter case ignored. */
  lemma VocabularySkills(t: string)
    ensures NoDuplicates(SkillsFound(t, Vocabulary))
    ensures forall w :: w in SkillsFound(t, Vocabulary) <==>
      w in Vocabulary && exists i: nat :: WholeWordAt(t, i, w)
    ensures |SkillsFound(t, Vocabulary)| <= |Vocabulary|
  {
    forall w ensures w in SkillsFound(t, Vocabulary) <==> w in Vocabulary && exists i: nat :: WholeWordAt(t, i, w) {
      MentionsSpec(t, w);
    }
    DistinctSubsetBound(SkillsFound(t, Vocabulary), Vocabulary);
  }

  /** A duplicate-free sequence drawn from `s` is no longer than the set of
      elements of `s`. */
  lemma DistinctSubsetBound(r: seq<string>, s: seq<string>)
    requires NoDuplicates(r)
    requires forall w :: w in r ==> w in s
    ensures |r| <= |s|
  {
    var rs := set w | w in r;
    var ss := set w | w in s;
    assert rs <= ss;
    DistinctCard(r);
    SeqSetCard(s);
    assert ss == rs + (ss - rs);
    assert rs * (ss - rs) == {};
  }

  lemma {:induction false} DistinctCard(r: seq<string>)
    requires NoDuplicates(r)
    ensures |set w | w in r| == |r|
  {
    if r != [] {
      DistinctCard(r[1..]);
      assert (set w | w in r) == (set w | w in r[1..]) + {r[0]};
    }
  }

  lemma {:induction false} SeqSetCard(s: seq<string>)
    ensures |set w | w in s| <= |s|
  {
    if s != [] {
      SeqSetCard(s[1..]);
      assert (set w | w in s) == (set w | w in s[1..]) + {s[0]};
    }
  }

  /** The empty text mentions no non-empty word. */
  lemma {:induction false} EmptyMentionsNothing(skillList: seq<string>)
    requires forall k :: 0 <= k < |skillList| ==> skillList[k] != []
    ensures Mentioned("", skillList) == []
    decreases |skillList|
  {
    if skillList != [] {
      var init := skillList[..|skillList| - 1];
      var last := skillList[|skillList| - 1];
      EmptyMentionsNothing(init);
      MentionsSpec("", last);
      forall i: nat ensures !WholeWordAt("", i, last) {
      }
    }
  }

  /** `c++` followed by a space is not a whole word: the boundary after `+`
      needs a word character next, so "C++ and Java" never yields `c++`. */
  lemma CppBeforeSpaceIsMissed()
    ensures !Mentions("C++ and Java", "c++")
  {
    var t := "C++ and Java";
    forall i: nat ensures !WholeWordAt(t, i, "c++") {
      if OccursCiAt(t, i, "c++") {
        assert Fold(t[i + 0]) == Fold("c++"[0]);
        assert i == 0;
        assert !IsBoundary(t, 3);
      }
    }
    MentionsSpec(t, "c++");
  }
}
