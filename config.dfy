/**
 * The static configuration the scorer and the upload validator read:
 * the scoring weights, the education ordinal table, the accepted file
 * extensions and the upload size limit.
 */
module Config {
  import opened Strings

  /** Accepted upload extensions, lower-case and with the leading dot. */
  const AllowedExtensions: set<string> := {".pdf", ".docx"}

  /** Upload size limit in bytes: 10 MiB. */
  const MaxFileSize: int := 10 * 1024 * 1024

  /** Weight of each component score in the total. */
  const Weights: map<string, real> := map["skills" := 0.5, "experience" := 0.3, "education" := 0.2]

  /** Education key to seniority ordinal; two labels may share an ordinal. */
  const EducationLevels: map<string, int> := map[
    "high school" := 1,
    "associate" := 2,
    "bachelor" := 3,
    "master" := 4,
    "phd" := 5,
    "doctorate" := 5
  ]

  lemma WeightsSumToOne()
    ensures Weights.Keys == {"skills", "experience", "education"}
    ensures Weights["skills"] == 0.5 && Weights["experience"] == 0.3 && Weights["education"] == 0.2
    ensures Weights["skills"] + Weights["experience"] + Weights["education"] == 1.0
  {
  }

  lemma EducationOrdinalsPositive()
    ensures forall key :: key in EducationLevels ==> EducationLevels[key] > 0
  {
  }

  lemma EducationOrdinalsIncrease()
    ensures EducationLevels["high school"] < EducationLevels["associate"] < EducationLevels["bachelor"]
            < EducationLevels["master"] < EducationLevels["phd"]
  {
  }

  lemma DoctorateIsPhd()
    ensures EducationLevels["phd"] == EducationLevels["doctorate"] == 5
  {
  }

  /** Every key is already lower-case, so a lookup of `key.lower()` can reach every entry. */
  lemma EducationKeysLowerCase()
    ensures forall key :: key in EducationLevels ==> IsLowerCase(key) && Lower(key) == key
  {
    assert EducationLevels.Keys == {"high school", "associate", "bachelor", "master", "phd", "doctorate"};
    forall key | key in EducationLevels
      ensures IsLowerCase(key) && Lower(key) == key
    {
      LowerFixesLowerCase(key);
    }
  }

  lemma UploadLimits()
    ensures AllowedExtensions == {".pdf", ".docx"}
    ensures MaxFileSize == 10485760
    ensures MaxFileSize / (1024 * 1024) == 10
  {
  }
}
