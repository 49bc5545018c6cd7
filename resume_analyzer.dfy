/**
 * The candidate scorer and ranker: three component scores in [0, 1]
 * (skills similarity, experience, education), their weighted total, the
 * exact-match skill list, and the stable ranking of a batch of resumes.
 */
module ResumeAnalyzer {
  import opened Wrappers
  import opened Strings
  import opened Config
  import opened Rounding
  import opened StableSort

  /**
   * The text-similarity model: given the two lower-cased, space-joined
   * pseudo-documents it yields their cosine similarity, or None when
   * vectorisation raises. Cosine similarity of non-negative TF-IDF vectors
   * lies in [0, 1].
   */
  type Vectorizer = f: (string, string) -> Option<real>
    | forall a, b :: f(a, b).Some? ==> 0.0 <= f(a, b).value <= 1.0
    witness (a: string, b: string) => None

  /** A candidate record as the extractor hands it over; any key may be missing. */
  datatype ResumeData = ResumeData(
    name: Option<string>,
    skills: Option<seq<string>>,
    educationLevel: Option<string>,
    yearsExperience: Option<int>)

  /** The recruiter's search criteria; any key may be missing. */
  datatype Criteria = Criteria(
    requiredSkills: Option<seq<string>>,
    requiredYears: Option<int>,
    requiredEducation: Option<string>)

  /**
   * The per-resume result. Scores are percentages rounded to hundredths;
   * `rank` is absent until the ranking step writes it.
   */
  datatype Analysis = Analysis(
    name: string,
    skillsScore: real,
    experienceScore: real,
    educationScore: real,
    totalScore: real,
    skillsMatched: seq<string>,
    yearsExperience: int,
    educationLevel: string,
    allSkills: seq<string>,
    rank: Option<nat>)

  /** Skills similarity: 0 when either list is empty or vectorisation fails, else the model's value. */
  function SkillsMatch(required: seq<string>, candidate: seq<string>, vec: Vectorizer): (r: real)
    ensures 0.0 <= r <= 1.0
    ensures required == [] || candidate == [] ==> r == 0.0
    ensures required != [] && candidate != [] ==>
              r == match vec(Lower(Join(required, " ")), Lower(Join(candidate, " ")))
                   case None => 0.0
                   case Some(v) => v
  {
    if required == [] || candidate == [] then 0.0
    else
      match vec(Lower(Join(required, " ")), Lower(Join(candidate, " ")))
      case None => 0.0
      case Some(v) => v
  }

  /** Experience: full credit without a requirement, none without experience, else the capped ratio. */
  function ExperienceScore(requiredYears: int, candidateYears: int): (r: real)
    ensures 0.0 <= r <= 1.0
    ensures requiredYears <= 0 ==> r == 1.0
    ensures requiredYears > 0 && candidateYears <= 0 ==> r == 0.0
    ensures requiredYears > 0 && 0 < candidateYears < requiredYears ==>
              r == candidateYears as real / requiredYears as real
    ensures r == 1.0 <==> requiredYears <= 0 || candidateYears >= requiredYears
  {
    if requiredYears <= 0 then 1.0
    else if candidateYears <= 0 then 0.0
    else
      var ratio := candidateYears as real / requiredYears as real;
      if 1.0 <= ratio then 1.0 else ratio
  }

  /** More experience never lowers the experience score. */
  lemma ExperienceScoreMonotone(requiredYears: int, c1: int, c2: int)
    requires c1 <= c2
    ensures ExperienceScore(requiredYears, c1) <= ExperienceScore(requiredYears, c2)
  {
    if requiredYears > 0 && 0 < c1 {
      var r := requiredYears as real;
      assert c1 as real / r <= c2 as real / r by {
        assert c1 as real / r * r == c1 as real;
        assert c2 as real / r * r == c2 as real;
      }
    }
  }

  /** The ordinal of an education label: a case-insensitive table lookup, 0 when unknown. */
  function Ordinal(level: string): (r: int)
    ensures r >= 0
    ensures r > 0 <==> Lower(level) in EducationLevels
    ensures Lower(level) in EducationLevels ==> r == EducationLevels[Lower(level)]
  {
    EducationOrdinalsPositive();
    if Lower(level) in EducationLevels then EducationLevels[Lower(level)] else 0
  }

  /** Education: full credit for an unknown requirement, none for an unknown degree, else the capped ratio. */
  function EducationScore(requiredLevel: string, candidateLevel: string): (r: real)
    ensures 0.0 <= r <= 1.0
    ensures Ordinal(requiredLevel) == 0 ==> r == 1.0
    ensures Ordinal(requiredLevel) > 0 && Ordinal(candidateLevel) == 0 ==> r == 0.0
    ensures Ordinal(requiredLevel) > 0 && 0 < Ordinal(candidateLevel) < Ordinal(requiredLevel) ==>
              r == Ordinal(candidateLevel) as real / Ordinal(requiredLevel) as real
    ensures r == 1.0 <==> Ordinal(requiredLevel) == 0 || Ordinal(candidateLevel) >= Ordinal(requiredLevel)
  {
    var requiredScore := Ordinal(requiredLevel);
    var candidateScore := Ordinal(candidateLevel);
    if requiredScore <= 0 then 1.0
    else if candidateScore <= 0 then 0.0
    else
      var ratio := candidateScore as real / requiredScore as real;
      if 1.0 <= ratio then 1.0 else ratio
  }

  /** The weighted sum of the three component scores. */
  function WeightedTotal(skills: real, experience: real, education: real): (r: real)
    ensures 0.0 <= skills <= 1.0 && 0.0 <= experience <= 1.0 && 0.0 <= education <= 1.0 ==> 0.0 <= r <= 1.0
    ensures skills == experience == education ==> r == skills
  {
    WeightsSumToOne();
    skills * Weights["skills"] + experience * Weights["experience"] + education * Weights["education"]
  }

  /** The lower-cased forms of the candidate's skills. */
  function LowerAll(skills: seq<string>): (r: seq<string>)
    ensures |r| == |skills|
    ensures forall i :: 0 <= i < |skills| ==> r[i] == Lower(skills[i])
  {
    seq(|skills|, i requires 0 <= i < |skills| => Lower(skills[i]))
  }

  /** Some candidate skill equals `skill` ignoring case. */
  predicate HasSkill(candidate: seq<string>, skill: string)
  {
    Lower(skill) in LowerAll(candidate)
  }

  lemma HasSkillMeans(candidate: seq<string>, skill: string)
    ensures HasSkill(candidate, skill) <==> exists i :: 0 <= i < |candidate| && Lower(candidate[i]) == Lower(skill)
  {
    if HasSkill(candidate, skill) {
      var i :| 0 <= i < |LowerAll(candidate)| && LowerAll(candidate)[i] == Lower(skill);
      assert Lower(candidate[i]) == Lower(skill);
    }
  }

  /**
   * The required skills that some candidate skill equals ignoring case, in
   * the requirement's order and with its duplicates.
   */
  function MatchedSkills(required: seq<string>, candidate: seq<string>): (r: seq<string>)
    ensures forall s :: s in r <==> s in required && HasSkill(candidate, s)
    ensures forall s :: multiset(r)[s] == if HasSkill(candidate, s) then multiset(required)[s] else 0
  {
    if required == [] then []
    else
      assert required == [required[0]] + required[1..];
      (if HasSkill(candidate, required[0]) then [required[0]] else []) + MatchedSkills(required[1..], candidate)
  }

  /** `a` is obtained from `b` by deleting elements. */
  predicate IsSubsequence<T(==)>(a: seq<T>, b: seq<T>)
  {
    if a == [] then true
    else if b == [] then false
    else if a[0] == b[0] then IsSubsequence(a[1..], b[1..])
    else IsSubsequence(a, b[1..])
  }

  lemma {:induction false} SubsequenceOfTail<T>(a: seq<T>, b: seq<T>)
    requires b != [] && IsSubsequence(a, b[1..])
    ensures IsSubsequence(a, b)
  {
    if a != [] && a[0] == b[0] {
      // a[0] can be matched at b[0] instead of further right
      SubsequenceDropHead(a, b[1..]);
    }
  }

  lemma {:induction false} SubsequenceDropHead<T>(a: seq<T>, b: seq<T>)
    requires a != [] && IsSubsequence(a, b)
    ensures IsSubsequence(a[1..], b)
  {
    assert b != [];
    if a[0] == b[0] {
      SubsequenceOfTail(a[1..], b);
    } else {
      SubsequenceDropHead(a, b[1..]);
      SubsequenceOfTail(a[1..], b);
    }
  }

  /** `skills_matched` is a subsequence of `required_skills`. */
  lemma {:induction false} MatchedSkillsSubsequence(required: seq<string>, candidate: seq<string>)
    ensures IsSubsequence(MatchedSkills(required, candidate), required)
  {
    if required != [] {
      var rest := MatchedSkills(required[1..], candidate);
      MatchedSkillsSubsequence(required[1..], candidate);
      if HasSkill(candidate, required[0]) {
        assert ([required[0]] + rest)[1..] == rest;
      } else {
        assert MatchedSkills(required, candidate) == rest;
        SubsequenceOfTail(rest, required);
      }
    }
  }

  /**
   * The rounded total percentage is within 0.01 of the weighted sum of the
   * rounded component percentages.
   */
  lemma RoundedTotalTracksComponents(skills: real, experience: real, education: real)
    ensures var weighted := 0.5 * Round2(skills * 100.0) + 0.3 * Round2(experience * 100.0)
                            + 0.2 * Round2(education * 100.0);
            var total := Round2(WeightedTotal(skills, experience, education) * 100.0);
            weighted - 0.01 <= total <= weighted + 0.01
  {
    WeightsSumToOne();
    var t := WeightedTotal(skills, experience, education);
    assert t * 100.0 == 0.5 * (skills * 100.0) + 0.3 * (experience * 100.0) + 0.2 * (education * 100.0);
  }

  /** Scores one resume against the criteria, substituting the defaults for missing keys. */
  function AnalyzeResume(resume: ResumeData, criteria: Criteria, vec: Vectorizer): (r: Analysis)
    ensures 0.0 <= r.skillsScore <= 100.0 && 0.0 <= r.experienceScore <= 100.0
    ensures 0.0 <= r.educationScore <= 100.0 && 0.0 <= r.totalScore <= 100.0
    ensures IsSubsequence(r.skillsMatched, criteria.requiredSkills.GetOr([]))
    ensures r.rank == None
    ensures var weighted := 0.5 * r.skillsScore + 0.3 * r.experienceScore + 0.2 * r.educationScore;
            weighted - 0.01 <= r.totalScore <= weighted + 0.01
  {
    var required := criteria.requiredSkills.GetOr([]);
    var skills := resume.skills.GetOr([]);
    var skillsScore := SkillsMatch(required, skills, vec);
    var experienceScore := ExperienceScore(criteria.requiredYears.GetOr(0), resume.yearsExperience.GetOr(0));
    var educationScore := EducationScore(criteria.requiredEducation.GetOr(""), resume.educationLevel.GetOr(""));
    var total := WeightedTotal(skillsScore, experienceScore, educationScore);
    Round2Bounds(skillsScore * 100.0);
    Round2Bounds(experienceScore * 100.0);
    Round2Bounds(educationScore * 100.0);
    Round2Bounds(total * 100.0);
    MatchedSkillsSubsequence(required, skills);
    RoundedTotalTracksComponents(skillsScore, experienceScore, educationScore);
    Analysis(
      name := resume.name.GetOr("Unknown"),
      skillsScore := Round2(skillsScore * 100.0),
      experienceScore := Round2(experienceScore * 100.0),
      educationScore := Round2(educationScore * 100.0),
      totalScore := Round2(total * 100.0),
      skillsMatched := MatchedSkills(required, skills),
      yearsExperience := resume.yearsExperience.GetOr(0),
      educationLevel := resume.educationLevel.GetOr("Unknown"),
      allSkills := skills,
      rank := None)
  }

  /** A higher candidate ordinal never lowers the education score. */
  lemma EducationScoreMonotone(requiredLevel: string, c1: string, c2: string)
    requires Ordinal(c1) <= Ordinal(c2)
    ensures EducationScore(requiredLevel, c1) <= EducationScore(requiredLevel, c2)
  {
    var q := Ordinal(requiredLevel);
    if q > 0 && 0 < Ordinal(c1) {
      var r := q as real;
      assert Ordinal(c1) as real / r <= Ordinal(c2) as real / r by {
        assert Ordinal(c1) as real / r * r == Ordinal(c1) as real;
        assert Ordinal(c2) as real / r * r == Ordinal(c2) as real;
      }
    }
  }

  /** A bachelor requirement met by a doctorate scores 1; a master requirement met by an associate degree scores 1/2. */
  lemma EducationScoreExamples()
    ensures EducationScore("bachelor", "phd") == 1.0
    ensures EducationScore("master", "associate") == 0.5
  {
    LowerFixesLowerCase("bachelor");
    LowerFixesLowerCase("phd");
    LowerFixesLowerCase("master");
    LowerFixesLowerCase("associate");
  }

  /**
   * A missing education level is read as '' when scoring and reported as
   * 'Unknown'; both resolve to ordinal 0, so either reading scores the same.
   */
  lemma MissingEducationDefaultsAgree(requiredLevel: string)
    ensures Ordinal("") == 0 && Ordinal("Unknown") == 0
    ensures EducationScore(requiredLevel, "") == EducationScore(requiredLevel, "Unknown")
  {
    var u := Lower("Unknown");
    assert u[0] == 'u';
    assert EducationLevels.Keys == {"high school", "associate", "bachelor", "master", "phd", "doctorate"};
    assert u != "high school" && u != "associate" && u != "bachelor" && u != "master" && u != "phd" && u != "doctorate" by {
      assert |u| == 7;
      assert u[1] == 'n';
    }
  }

  /** With no required skills every candidate scores 0 on skills and matches nothing. */
  lemma NoRequiredSkillsScoresZero(resume: ResumeData, criteria: Criteria, vec: Vectorizer)
    requires criteria.requiredSkills.GetOr([]) == []
    ensures AnalyzeResume(resume, criteria, vec).skillsScore == 0.0
    ensures AnalyzeResume(resume, criteria, vec).skillsMatched == []
  {
    RoundHalfEvenOfInt(0);
  }

  /** A record with every key missing: the documented defaults, and no skills credit. */
  lemma EmptyResumeDefaults(criteria: Criteria, vec: Vectorizer)
    ensures var r := AnalyzeResume(ResumeData(None, None, None, None), criteria, vec);
            && r.name == "Unknown" && r.yearsExperience == 0 && r.educationLevel == "Unknown"
            && r.allSkills == [] && r.skillsMatched == [] && r.skillsScore == 0.0
            && (r.experienceScore == 100.0 <==> criteria.requiredYears.GetOr(0) <= 0)
  {
    RoundHalfEvenOfInt(0);
    RoundHalfEvenOfInt(10000);
    var q := criteria.requiredYears.GetOr(0);
    if q > 0 {
      assert ExperienceScore(q, 0) == 0.0;
    }
  }

  /** Present record fields are reported unchanged; missing ones take their output defaults. */
  lemma ReportedFields(resume: ResumeData, criteria: Criteria, vec: Vectorizer)
    ensures var r := AnalyzeResume(resume, criteria, vec);
            && (resume.name.Some? ==> r.name == resume.name.value)
            && (resume.name.None? ==> r.name == "Unknown")
            && (resume.yearsExperience.Some? ==> r.yearsExperience == resume.yearsExperience.value)
            && (resume.yearsExperience.None? ==> r.yearsExperience == 0)
            && (resume.educationLevel.Some? ==> r.educationLevel == resume.educationLevel.value)
            && (resume.educationLevel.None? ==> r.educationLevel == "Unknown")
            && (resume.skills.Some? ==> r.allSkills == resume.skills.value)
            && (resume.skills.None? ==> r.allSkills == [])
  {
  }

  /**
   * Reported percentages: 10 years held against 5 required scores 100;
   * a doctorate against a bachelor requirement scores 100; an associate
   * degree against a master requirement scores 50.
   */
  lemma ReportedScoreExamples(name: Option<string>, skills: Option<seq<string>>,
                              requiredSkills: Option<seq<string>>, vec: Vectorizer)
    ensures AnalyzeResume(ResumeData(name, skills, Some("phd"), Some(10)),
                          Criteria(requiredSkills, Some(5), Some("bachelor")), vec).experienceScore == 100.0
    ensures AnalyzeResume(ResumeData(name, skills, Some("phd"), Some(10)),
                          Criteria(requiredSkills, Some(5), Some("bachelor")), vec).educationScore == 100.0
    ensures AnalyzeResume(ResumeData(name, skills, Some("associate"), None),
                          Criteria(requiredSkills, None, Some("master")), vec).educationScore == 50.0
  {
    EducationScoreExamples();
    RoundHalfEvenOfInt(10000);
    RoundHalfEvenOfInt(5000);
  }

  /** Required ["Python", "SQL"] against held ["python", "Java"] matches exactly ["Python"]. */
  lemma MatchedSkillsExample()
    ensures MatchedSkills(["Python", "SQL"], ["python", "Java"]) == ["Python"]
  {
    var lowered := LowerAll(["python", "Java"]);
    LowerFixesLowerCase("python");
    assert Lower("Python") == "python";
    assert lowered[0] == "python";
    assert HasSkill(["python", "Java"], "Python");
    var sql := Lower("SQL");
    assert sql[0] == 's';
    assert Lower("Java")[0] == 'j';
    assert sql != lowered[0] && sql != lowered[1];
    assert !HasSkill(["python", "Java"], "SQL");
    assert ["Python", "SQL"][1..] == ["SQL"];
    assert ["SQL"][1..] == [];
  }

  /** The sort key: the rounded total score. */
  function TotalScore(a: Analysis): real
  {
    a.totalScore
  }

  /** Every resume analysed, in input order. */
  function AnalyzeAll(resumes: seq<ResumeData>, criteria: Criteria, vec: Vectorizer): (r: seq<Analysis>)
    ensures |r| == |resumes|
    ensures forall i :: 0 <= i < |r| ==> r[i] == AnalyzeResume(resumes[i], criteria, vec)
  {
    seq(|resumes|, i requires 0 <= i < |resumes| => AnalyzeResume(resumes[i], criteria, vec))
  }

  /** The analysis with `rank` set and every other field kept. */
  function WithRank(a: Analysis, rank: nat): (r: Analysis)
    ensures r.rank == Some(rank)
  {
    a.(rank := Some(rank))
  }

  /** The analyses with the rank key removed again. */
  function Unranked(results: seq<Analysis>): (r: seq<Analysis>)
    ensures |r| == |results|
    ensures forall i :: 0 <= i < |r| ==> r[i] == results[i].(rank := None)
  {
    seq(|results|, i requires 0 <= i < |results| => results[i].(rank := None))
  }

  /** Sorting analyses that carry no rank yields analyses that carry no rank. */
  lemma SortDescKeepsUnranked(analyzed: seq<Analysis>)
    requires forall j :: 0 <= j < |analyzed| ==> analyzed[j].rank == None
    ensures forall j :: 0 <= j < |analyzed| ==> SortDesc(analyzed, TotalScore)[j].rank == None
  {
    var sorted := SortDesc(analyzed, TotalScore);
    forall j | 0 <= j < |sorted|
      ensures sorted[j].rank == None
    {
      assert sorted[j] in multiset(analyzed);
    }
  }

  /**
   * Writing ranks 1..N into a stable descending sort of unranked analyses
   * gives a ranking that is sorted, stable, a permutation, and changes no
   * other field.
   */
  lemma RanksWritten(analyzed: seq<Analysis>, ranked: seq<Analysis>)
    requires forall j :: 0 <= j < |analyzed| ==> analyzed[j].rank == None
    requires |ranked| == |analyzed|
    requires forall j :: 0 <= j < |ranked| ==>
               ranked[j] == WithRank(SortDesc(analyzed, TotalScore)[j], j + 1)
    ensures Unranked(ranked) == SortDesc(analyzed, TotalScore)
    ensures multiset(Unranked(ranked)) == multiset(analyzed)
    ensures forall i, j :: 0 <= i < j < |ranked| ==> ranked[i].totalScore >= ranked[j].totalScore
    ensures forall k :: WithKey(Unranked(ranked), TotalScore, k) == WithKey(analyzed, TotalScore, k)
  {
    var sorted := SortDesc(analyzed, TotalScore);
    SortDescKeepsUnranked(analyzed);
    assert Unranked(ranked) == sorted;
    SortDescNonIncreasing(analyzed, TotalScore);
    var unranked := Unranked(ranked);
    assert unranked == sorted;
    forall k ensures WithKey(unranked, TotalScore, k) == WithKey(analyzed, TotalScore, k) {
      SortDescStable(analyzed, TotalScore, k);
    }
    assert multiset(unranked) == multiset(analyzed);
  }

  /** Two analyses with equal total scores are ranked in their input order. */
  lemma TiedPairKeepsInputOrder(first: Analysis, second: Analysis)
    requires first.totalScore == second.totalScore
    ensures SortDesc([first, second], TotalScore) == [first, second]
  {
    assert [first, second][1..] == [second];
    assert [second][1..] == [];
  }

  /** The loop that collects one analysis per resume, in input order. */
  method AnalyzeEach(resumes: seq<ResumeData>, criteria: Criteria, vec: Vectorizer) returns (analyzed: seq<Analysis>)
    ensures analyzed == AnalyzeAll(resumes, criteria, vec)
  {
    analyzed := [];
    for n := 0 to |resumes|
      invariant |analyzed| == n
      invariant forall j :: 0 <= j < n ==> analyzed[j] == AnalyzeResume(resumes[j], criteria, vec)
    {
      var analysis := AnalyzeResume(resumes[n], criteria, vec);
      analyzed := analyzed + [analysis];
    }
  }

  /**
   * Sorts the analyses by rounded total score, highest first and stable on
   * ties, then writes the 1-based rank into each one in place.
   */
  method SortAndRank(analyzed: seq<Analysis>) returns (ranked: seq<Analysis>)
    requires forall j :: 0 <= j < |analyzed| ==> analyzed[j].rank == None
    ensures |ranked| == |analyzed|
    ensures forall i :: 0 <= i < |ranked| ==> ranked[i].rank == Some(i + 1)
    ensures Unranked(ranked) == SortDesc(analyzed, TotalScore)
    ensures multiset(Unranked(ranked)) == multiset(analyzed)
    ensures forall i, j :: 0 <= i < j < |ranked| ==> ranked[i].totalScore >= ranked[j].totalScore
    ensures forall k :: WithKey(Unranked(ranked), TotalScore, k) == WithKey(analyzed, TotalScore, k)
  {
    var sorted := SortDesc(analyzed, TotalScore);
    var results := new Analysis[|sorted|](j requires 0 <= j < |sorted| => sorted[j]);
    for n := 0 to results.Length
      invariant forall j :: 0 <= j < n ==> results[j] == WithRank(sorted[j], j + 1)
      invariant forall j :: n <= j < results.Length ==> results[j] == sorted[j]
    {
      results[n] := WithRank(results[n], n + 1);
    }
    ranked := results[..];
    RanksWritten(analyzed, ranked);
  }

  /**
   * `rank_resumes`: analyses every resume in input order, then sorts and
   * ranks the analyses.
   */
  method RankResumes(resumes: seq<ResumeData>, criteria: Criteria, vec: Vectorizer) returns (ranked: seq<Analysis>)
    ensures |ranked| == |resumes|
    ensures forall i :: 0 <= i < |ranked| ==> ranked[i].rank == Some(i + 1)
    ensures Unranked(ranked) == SortDesc(AnalyzeAll(resumes, criteria, vec), TotalScore)
    ensures multiset(Unranked(ranked)) == multiset(AnalyzeAll(resumes, criteria, vec))
    ensures forall i, j :: 0 <= i < j < |ranked| ==> ranked[i].totalScore >= ranked[j].totalScore
    ensures forall k :: WithKey(Unranked(ranked), TotalScore, k) == WithKey(AnalyzeAll(resumes, criteria, vec), TotalScore, k)
  {
    var analyzed := AnalyzeEach(resumes, criteria, vec);
    ranked := SortAndRank(analyzed);
  }
}
