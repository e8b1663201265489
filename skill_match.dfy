/**
 * Skill extraction of the backend (`extract_skills` over `SKILLS_DB`): a
 * listed skill is found in a text when the pattern `\b<skill>\b`, with the
 * skill escaped and the match case-insensitive, occurs somewhere in it.
 * Word characters and case folding are ASCII only.
 */
module SkillMatch {
  import opened Wrappers
  import opened Text
  import opened Sorting

  /** `SKILLS_DB`, the fixed list of skills searched for, in the source's order. */
  const SkillsDb: seq<string> := [
    "Python", "Java", "C++", "C#", "JavaScript", "TypeScript", "HTML", "CSS", "SQL", "NoSQL",
    "React", "Angular", "Vue.js", "Node.js", "Express.js", "Django", "Flask", "Spring Boot",
    "Ruby on Rails", "ASP.NET", "PHP", "Laravel",
    "Git", "Docker", "Kubernetes", "Jenkins", "CI/CD", "Agile", "Scrum",
    "AWS", "Azure", "Google Cloud Platform (GCP)",
    "TensorFlow", "PyTorch", "scikit-learn", "Pandas", "NumPy", "Machine Learning", "Deep Learning",
    "Data Analysis", "Data Visualization", "Natural Language Processing (NLP)",
    "PostgreSQL", "MySQL", "MongoDB", "Redis", "SQLite",
    "Linux", "Unix", "Windows Server", "Cybersecurity", "Network Security"
  ]

  /** Position `k` of `s` holds a word character; positions outside `s` do not. */
  predicate WordAt(s: string, k: int) {
    0 <= k < |s| && IsWordChar(s[k])
  }

  /** The regex assertion `\b` at position `k` (between `s[k-1]` and `s[k]`). */
  predicate Boundary(s: string, k: int) {
    WordAt(s, k - 1) != WordAt(s, k)
  }

  /** `\b<skill>\b`, ignoring case, matches `text` starting at position `i`. */
  predicate MatchAt(text: string, skill: string, i: int) {
    && 0 <= i && i + |skill| <= |text|
    && Boundary(text, i)
    && Boundary(text, i + |skill|)
    && LowerStr(text[i..i + |skill|]) == LowerStr(skill)
  }

  /** The skill occurs in the text as a whole word, in any ASCII case. */
  ghost predicate Occurs(text: string, skill: string): (b: bool)
    ensures b ==> |skill| <= |text|
  {
    exists i :: MatchAt(text, skill, i)
  }

  /** Only the skill's lower-cased spelling matters for whether it occurs. */
  lemma OccursIgnoresSkillCase(text: string, skill: string)
    ensures Occurs(text, skill) <==> Occurs(text, LowerStr(skill))
  {
    var lowered := LowerStr(skill);
    LowerStrIdempotent(skill);
    if Occurs(text, skill) {
      var i :| MatchAt(text, skill, i);
      MatchAtSameLower(text, skill, lowered, i);
    }
    if Occurs(text, lowered) {
      var i :| MatchAt(text, lowered, i);
      MatchAtSameLower(text, lowered, skill, i);
    }
  }

  lemma MatchAtSameLower(text: string, a: string, b: string, i: int)
    requires MatchAt(text, a, i) && LowerStr(a) == LowerStr(b)
    ensures MatchAt(text, b, i)
  {
    assert |LowerStr(a)| == |LowerStr(b)|;
  }

  /** The leftmost match at or after position `from`, as `re.search` scans. */
  function SearchFrom(text: string, skill: string, from: nat): (r: Option<nat>)
    decreases |text| + 1 - from
    ensures r.Some? ==> from <= r.value && MatchAt(text, skill, r.value)
    ensures r.Some? ==> forall j :: from <= j < r.value ==> !MatchAt(text, skill, j)
    ensures r.None? ==> forall j :: from <= j ==> !MatchAt(text, skill, j)
  {
    if from + |skill| > |text| then None
    else if MatchAt(text, skill, from) then Some(from)
    else SearchFrom(text, skill, from + 1)
  }

  /** `re.search(r'\b' + re.escape(skill) + r'\b', text, re.IGNORECASE)`. */
  function Search(text: string, skill: string): (r: Option<nat>)
    ensures r.Some? <==> Occurs(text, skill)
    ensures r.Some? ==> MatchAt(text, skill, r.value)
    ensures r.Some? ==> forall j :: 0 <= j < r.value ==> !MatchAt(text, skill, j)
  {
    SearchFrom(text, skill, 0)
  }

  /**
   * `list(set)`: the elements of a set, each once, in an order the source
   * leaves unspecified (here: whichever element the choice picks next).
   */
  method ListOf(s: set<string>) returns (r: seq<string>)
    ensures forall x :: x in r <==> x in s
    ensures NoDuplicates(r)
    ensures |r| == |s|
  {
    r := [];
    var rest := s;
    while rest != {}
      invariant rest <= s
      invariant forall x :: x in r <==> x in s && x !in rest
      invariant NoDuplicates(r)
      invariant |r| + |rest| == |s|
      decreases |rest|
    {
      var x :| x in rest;
      r := r + [x];
      rest := rest - {x};
    }
  }

  /**
   * `extract_skills(text, skills_db)`: the listed skills that occur in the
   * text, each once, spelled as in the list.
   */
  method ExtractSkills(text: string, db: seq<string>) returns (found: seq<string>)
    ensures forall s :: s in found <==> s in db && Occurs(text, s)
    ensures NoDuplicates(found)
  {
    var foundSet: set<string> := {};
    for k := 0 to |db|
      invariant foundSet == set j | 0 <= j < k && Occurs(text, db[j]) :: db[j]
    {
      if Search(text, db[k]).Some? {
        foundSet := foundSet + {db[k]};
      }
    }
    found := ListOf(foundSet);
  }

  /**
   * A skill that ends in a non-word character (`C++`, `C#`, `... (GCP)`)
   * only matches where a word character follows it in the text.
   */
  lemma TrailingNonWordNeedsWordAfter(text: string, skill: string, i: int)
    requires MatchAt(text, skill, i)
    requires skill != [] && !IsWordChar(skill[|skill| - 1])
    ensures i + |skill| < |text| && IsWordChar(text[i + |skill|])
  {
    var e := i + |skill|;
    assert LowerStr(text[i..e])[|skill| - 1] == LowerStr(skill)[|skill| - 1];
    assert text[i..e][|skill| - 1] == text[e - 1];
    assert !WordAt(text, e - 1);
  }

  /** A skill that starts with a word character needs a non-word character (or the start) before it. */
  lemma LeadingWordNeedsNonWordBefore(text: string, skill: string, i: int)
    requires MatchAt(text, skill, i)
    requires skill != [] && IsWordChar(skill[0])
    ensures i == 0 || !IsWordChar(text[i - 1])
  {
    assert LowerStr(text[i..i + |skill|])[0] == LowerStr(skill)[0];
    assert text[i..i + |skill|][0] == text[i];
    assert WordAt(text, i);
  }

  /** `C++` followed by a space is not found: the closing `\b` sits between two non-word characters. */
  lemma CppBeforeSpaceNotFound()
    ensures !Occurs("C++ ", "C++")
  {
    forall i | MatchAt("C++ ", "C++", i) ensures false {
      TrailingNonWordNeedsWordAfter("C++ ", "C++", i);
    }
  }

  /** `C++` directly followed by a word character is found. */
  lemma CppBeforeWordFound()
    ensures Occurs("C++x", "C++")
  {
    assert MatchAt("C++x", "C++", 0);
  }

  /** A lower-case mention is found under the list's own spelling. */
  lemma LowerCaseMentionFound()
    ensures Occurs("knows python well", "Python")
  {
    assert "knows python well"[6..12] == "python";
    assert MatchAt("knows python well", "Python", 6);
  }
}
