# Resume scorer and ranker, modelled in Dafny

This project models the scoring and ranking core of a resume-analysis
application. A candidate record (name, skills, education label, years of
experience) is scored against recruiter criteria. There are three component
scores in [0, 1]:

- **skills**: the text similarity of the two skill lists;
- **experience**: the capped ratio of held to required years;
- **education**: the capped ratio of held to required degree ordinals.

The total is the weighted sum (0.5, 0.3, 0.2) of the three. Every score is
reported as a percentage rounded to hundredths. The ranker analyses every
record in input order and sorts the analyses by rounded total score, highest
first and stable on ties. It then writes the 1-based rank into each analysis
in place.

The model also covers the static configuration the scorer reads (weights,
education ordinals, upload limits). It covers three pure helpers as well:
upload validation, a guarded percentage and the display form of a skill list.

Files and modules:

- `wrappers.dfy` (`Wrappers`): `Option`, used for dictionary keys that may be missing.
- `strings.dfy` (`Strings`): lower-casing, `join`, and the code-point order on strings.
- `config.dfy` (`Config`): the constants of `config.py` and their properties.
- `rounding.dfy` (`Rounding`): `round(x, 2)` on exact rationals, with its bounds and monotonicity.
- `stable_sort.dfy` (`StableSort`): `sorted(..., key=..., reverse=True)` as a stable descending insertion sort.
- `resume_analyzer.dfy` (`ResumeAnalyzer`): the component scores, `analyze_resume` and `rank_resumes`.
- `utils.dfy` (`Utils`): `validate_file`, `calculate_percentage`, `format_skills`.

Scores are Dafny `real` values, which are exact rationals. All ratios in the
source come from integers, so no floating point is needed. The TF-IDF/cosine
similarity is a parameter `vec` of type `Vectorizer`. It takes the two
lower-cased, space-joined pseudo-documents and returns `Some(v)` with
`0 <= v <= 1`, or `None` when vectorisation raises; the scorer maps `None`
to 0.

A missing dictionary key is `None`; `.get(key, default)` is `GetOr(default)`.
`.get('name', 'Unknown')` (resume_analyzer.py:85) replaces only a missing
key, so a present empty name is reported as the empty string; the model does
the same.

`RankResumes` runs in two steps. `AnalyzeEach` is the append loop that
analyses every resume. `SortAndRank` is the stable sort followed by the loop
that writes `rank` into each element of an array of analyses, in place.

Stability of the sort is stated as follows: for every key value `k`, the
elements whose key is `k` appear in the output in exactly their input order
(`StableSort.WithKey`).

## Model

| member | source | states |
|---|---|---|
| `ResumeAnalyzer.SkillsMatch` | resume_analyzer.py:10-27 | 0 when either list is empty or vectorisation fails, otherwise the similarity of the lower-cased space-joined lists; always in [0, 1] |
| `ResumeAnalyzer.ExperienceScore` | resume_analyzer.py:29-40 | 1 without a requirement; 0 for no experience; c/r below the requirement; in [0, 1]; equal to 1 exactly when there is no requirement or c >= r |
| `ResumeAnalyzer.ExperienceScoreMonotone` | resume_analyzer.py:33-40 | more candidate years never lower the experience score |
| `ResumeAnalyzer.Ordinal` | resume_analyzer.py:46-47 | case-insensitive table lookup; positive exactly when the lower-cased label is a key, 0 for an unknown label |
| `ResumeAnalyzer.EducationScore` | resume_analyzer.py:42-55 | 1 for an unknown requirement; 0 for an unknown degree; the ordinal ratio below the requirement; in [0, 1]; equal to 1 exactly when the requirement is unknown or met |
| `ResumeAnalyzer.EducationScoreMonotone` | resume_analyzer.py:49-55 | a higher candidate ordinal never lowers the education score |
| `ResumeAnalyzer.EducationScoreExamples` | resume_analyzer.py:42-55 | bachelor required with phd held scores 1; master required with associate held scores 1/2 |
| `ResumeAnalyzer.WeightedTotal` | resume_analyzer.py:78-82 | the weighted total lies in [0, 1] when the components do, and equals a common component value (weights sum to 1) |
| `ResumeAnalyzer.HasSkillMeans` | resume_analyzer.py:91 | a required skill is held exactly when some candidate skill equals it after lower-casing both |
| `ResumeAnalyzer.MatchedSkills` | resume_analyzer.py:90-91 | `skills_matched` holds exactly the required skills held ignoring case, each with its multiplicity in the requirement |
| `ResumeAnalyzer.MatchedSkillsSubsequence` | resume_analyzer.py:90-91 | `skills_matched` keeps the requirement's order: it is a subsequence of `required_skills` |
| `ResumeAnalyzer.MatchedSkillsExample` | resume_analyzer.py:90-91 | required Python and SQL against held python and Java matches exactly Python |
| `ResumeAnalyzer.RoundedTotalTracksComponents` | resume_analyzer.py:78-89 | the rounded total percentage is within 0.01 of 0.5/0.3/0.2 times the rounded component percentages |
| `ResumeAnalyzer.AnalyzeResume` | resume_analyzer.py:57-95 | all four reported percentages lie in [0, 100]; the total agrees with the weighted components to 0.01; `skills_matched` is a subsequence of the requirement; no rank yet |
| `ResumeAnalyzer.MissingEducationDefaultsAgree` | resume_analyzer.py:72-93 | the scoring default '' and the output default 'Unknown' both have ordinal 0 and give the same education score |
| `ResumeAnalyzer.NoRequiredSkillsScoresZero` | resume_analyzer.py:62-91 | with no required skills every candidate's skills score is 0 and nothing is matched |
| `ResumeAnalyzer.ReportedFields` | resume_analyzer.py:85-94 | present name, years, education and skills are reported unchanged; missing ones become 'Unknown', 0, 'Unknown' and [] |
| `ResumeAnalyzer.ReportedScoreExamples` | resume_analyzer.py:67-88 | 10 years against 5 required reports 100; phd against bachelor reports 100; associate against master reports 50 |
| `ResumeAnalyzer.EmptyResumeDefaults` | resume_analyzer.py:63-94 | a record with every key missing is named 'Unknown', has 0 years, education 'Unknown', no skills, skills score 0, and full experience credit exactly when nothing is required |
| `ResumeAnalyzer.AnalyzeEach` | resume_analyzer.py:101-104 | the append loop yields the analysis of every resume in input order |
| `ResumeAnalyzer.RanksWritten` | resume_analyzer.py:107-117 | writing ranks into the stable sort gives a non-increasing, stable permutation of the analyses with no other field changed |
| `ResumeAnalyzer.TiedPairKeepsInputOrder` | resume_analyzer.py:107-111 | two analyses with equal total score stay in input order |
| `ResumeAnalyzer.SortAndRank` | resume_analyzer.py:107-117 | same length; element i has rank i+1; apart from rank the output is the stable descending sort of the input; permutation; non-increasing totals; stable on ties |
| `ResumeAnalyzer.RankResumes` | resume_analyzer.py:97-117 | the ranking has one entry per resume, dense ranks 1..N in order, non-increasing rounded totals, and is a stable permutation of the per-resume analyses |
| `StableSort.Insert` | resume_analyzer.py:107-111 | insertion adds exactly one element and keeps the rest |
| `StableSort.SortDesc` | resume_analyzer.py:107-111 | the sort returns a permutation of its input |
| `StableSort.InsertNonIncreasing` | resume_analyzer.py:107-111 | inserting into a non-increasing sequence keeps it non-increasing |
| `StableSort.SortDescNonIncreasing` | resume_analyzer.py:107-111 | sorted output has non-increasing keys |
| `StableSort.InsertWithKey` | resume_analyzer.py:107-111 | the inserted element goes before every element with its key |
| `StableSort.SortDescStable` | resume_analyzer.py:107-111 | for every key, the elements carrying it keep their input order |
| `Rounding.RoundHalfEven` | resume_analyzer.py:86-89 | the nearest integer, with a tie going to the even one |
| `Rounding.Round2` | resume_analyzer.py:86-89 | `round(p, 2)` is within 0.005 of p |
| `Rounding.Round2Monotone` | resume_analyzer.py:89 | rounding never reverses the order of two totals; it can only merge them into a tie |
| `Rounding.Round2Bounds` | resume_analyzer.py:86-89 | a percentage in [0, 100] rounds to a value in [0, 100] |
| `Strings.Lower` | resume_analyzer.py:46-47 | `lower()` keeps the length and lower-cases each character |
| `Strings.LowerIdempotent` | resume_analyzer.py:46-47 | lower-casing twice is lower-casing once |
| `Strings.Join` | resume_analyzer.py:18-19 | joining no parts gives the empty string and one part gives that part |
| `Strings.LessTransitive` | utils.py:51 | the string order used by `sorted` is transitive |
| `Strings.LessTotal` | utils.py:51 | two different strings are ordered one way or the other |
| `Config.WeightsSumToOne` | config.py:15-19 | the weights are 0.5, 0.3 and 0.2 under exactly three keys, and sum to 1 |
| `Config.EducationOrdinalsPositive` | config.py:22-29 | every education ordinal is positive |
| `Config.EducationOrdinalsIncrease` | config.py:23-27 | high school < associate < bachelor < master < phd |
| `Config.DoctorateIsPhd` | config.py:27-28 | phd and doctorate share ordinal 5 |
| `Config.EducationKeysLowerCase` | config.py:22-29 | every key is lower-case, so the lower-cased lookup reaches every entry |
| `Config.UploadLimits` | config.py:11-12 | allowed extensions are .pdf and .docx; the limit is 10485760 bytes, 10 whole MiB |
| `Utils.RFind` | utils.py:14 | the last index holding the character, or -1 when there is none |
| `Utils.BaseName` | utils.py:14 | the result contains no separator |
| `Utils.BaseNameIsFinalComponent` | utils.py:14 | the base name is the final component of the path with trailing separators removed: a tail of it, preceded by a separator unless it is the whole trimmed path |
| `Utils.Suffix` | utils.py:14 | empty, or a dot-led tail of the name that is not the whole name and has no further dot |
| `Utils.ExtensionIgnoresCase` | utils.py:14 | the lower-cased suffix is the same whatever the case of the file name |
| `Utils.ValidateFile` | utils.py:7-21 | no file fails as NoFile; a bad extension fails first, whatever the size; then a size above the limit fails; valid exactly when present, allowed extension and size <= limit |
| `Utils.ValidateFileIgnoresCase` | utils.py:14-21 | a file name and its lower-cased form get the same verdict, so `.PDF` is accepted like `.pdf` |
| `Utils.Message` | utils.py:11-21 | the bad-extension message is only the fixed text that introduces the allowed formats (the list after it is left out); the size message names the limit in whole MiB (10) |
| `Utils.ValidateFileMessages` | utils.py:11-21 | no file gives `(False, "No file uploaded")`; a file that passes gives `(True, "File is valid")` |
| `Utils.ExtensionOfStem` | utils.py:14 | a separator-free stem followed by a dot-led ending without further dots has that ending, lower-cased, as its extension |
| `Utils.ValidateFileSizeExamples` | utils.py:14-21 | a `.PDF` name of exactly the limit is valid; one byte more is too large |
| `Utils.ValidateFileExtensionExample` | utils.py:14-16 | a `.txt` name is refused for its extension whatever its size |
| `Utils.Percentage` | utils.py:39-45 | 0 for a zero maximum; otherwise the result times the maximum is 100 times the score |
| `Utils.PercentageOfMax` | utils.py:43-45 | a score equal to a non-zero maximum is 100 percent |
| `Utils.InsertDistinct` | utils.py:51 | adding a skill to the distinct list adds exactly that skill |
| `Utils.InsertDistinctAscending` | utils.py:51 | adding a skill keeps the list strictly ascending |
| `Utils.SortedDistinct` | utils.py:51 | `sorted(set(xs))` holds exactly the elements of xs, strictly ascending |
| `Utils.AscendingIsDistinct` | utils.py:51 | a strictly ascending list has no repeats |
| `Utils.FormatSkills` | utils.py:47-51 | an empty skill list formats as the empty string |
| `Utils.FormatSkillsOnce` | utils.py:51 | each distinct skill appears exactly once in the formatted list |

## Left out

- TF-IDF vectorisation and cosine similarity (scikit-learn) are not modelled. The similarity is the parameter `vec`, assumed to lie in [0, 1]; a float cosine slightly above 1 is not modelled.
- The vectoriser object built by the analyser's constructor is that parameter; the class holds no other state, so there is no class in the model.
- Float arithmetic and float `round` are not modelled: scores are exact rationals and `round(x, 2)` is exact half-even rounding. Ties the float representation would break differently are not captured.
- `Strings.Lower`: only ASCII letters are lower-cased; Python's Unicode case mapping is not modelled.
- A key present with a `None` value, or years given as a string, is not modelled: the model's fields are typed and cannot hold these values. In most of these cases the source reports the value instead of raising: a `None` name is reported as `None` (resume_analyzer.py:85); a `None` years value is reported and scores 1.0 when the requirement is 0 or less (resume_analyzer.py:33-34); a `None` skills list scores 0.0 (resume_analyzer.py:14) and is iterated only when skills are required (resume_analyzer.py:91). Only a `None` education level always raises (`None.lower()`, resume_analyzer.py:47).
- `ResumeAnalyzer.SortAndRank`: the analyses are values in an array, and the rank loop updates that array in place. Python instead mutates dictionaries shared by two lists. That sharing is not modelled; the unsorted list is local and never read again.
- `Utils.BaseName`: only '/' separators and trailing separators are handled; Windows separators and '.' components are not.
- `Utils.Message`: the bad-extension text ends with the allowed set joined in Python's set order, which is unspecified, so only its fixed start is stated.
- `Utils.FormatSkills`: no lemma splits the joined string back into skills, since a skill may itself contain ", ".
- Excluded as I/O or foreign libraries: text extraction, OCR, the language-model call and pattern extraction (`resume_processor.py`); the Streamlit UI and session state (`app.py`); CSV/JSON export and temp-directory handling (utils.py:23-37, 53-71); environment and API-key loading, the prompt template and regex patterns (config.py:1-8, 32-55).
