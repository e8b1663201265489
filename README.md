# PathUp skill-gap analysis, modelled in Dafny

PathUp compares a resume with a job description. The backend route
`POST /api/analyze` takes an uploaded resume (PDF or image) and a `jd` text.
It checks the request and picks a text extractor by file extension. It then
finds which skills of a fixed list occur in each text and reports the job
skills the resume lacks, with one course link per missing skill. The React
frontend holds the form state, validates a submit, posts the form and stores
either the report or an error message. Its `Results` component lists the
report.

This project models both pieces:

- `wrappers.dfy` (`Wrappers`): an `Option` type.
- `contract.dfy` (`Contract`): the JSON reply of the route, either an error with a status or the four-list report.
- `text.dfy` (`Text`): ASCII word characters and lower-casing, `endswith`, and Python's code-point order on strings, proved a total order.
- `sorting.dfy` (`Sorting`): `sorted` as an insertion sort. It returns an ordered permutation, strictly ascending for duplicate-free input. A strictly ascending list is fixed by its elements.
- `skill_match.dfy` (`SkillMatch`): `SKILLS_DB`, the `\b<skill>\b` case-insensitive match, the leftmost search, `list(set)` and `extract_skills`.
- `analyzer.dfy` (`Analyzer`): `analyze_resume`. This covers the ordered checks, extension dispatch, the gap set, recommendations and the sorted reply.
- `submission.dfy` (`Submission`): the form as a class with the five state fields. `Submit` is the synchronous part of `handleSubmit` and `Complete` its continuation once the request settles. Two client methods trace scenarios: a stale report kept beside a validation error, and a whitespace-only job description that passes the check.
- `results.dfy` (`Results`): the `Results` projection into display groups, and a proof that the report can be read back from it.

Two behaviours of the frontend are worth knowing:

- A validation error does not clear an earlier `analysis`, so a report and an error can be held together (`Submission.StaleReportAfterInvalidResubmit`).
- An empty server `error` string also gives the generic message, because the code chooses the message with `||` (`Submission.FailureMessage`).

## Model

| member | source | states |
|---|---|---|
| `SkillMatch.ExtractSkills` | pathup/backend/app.py:50-57 | a skill is returned iff it is in the list and occurs in the text as a whole word in any case; it is returned in the list's spelling, and no skill twice |
| `SkillMatch.Search` | pathup/backend/app.py:55 | the search succeeds iff the skill occurs; the position found is a match and no match starts before it |
| `SkillMatch.SearchFrom` | pathup/backend/app.py:55 | scanning from a position finds the leftmost match at or after it, or proves there is none |
| `SkillMatch.ListOf` | pathup/backend/app.py:57 | `list(set)` lists exactly the set's elements, each once, in some order |
| `SkillMatch.TrailingNonWordNeedsWordAfter` | pathup/backend/app.py:55 | a skill ending in a non-word character (`C++`, `C#`, `(GCP)`) matches only where a word character follows it |
| `SkillMatch.LeadingWordNeedsNonWordBefore` | pathup/backend/app.py:55 | a skill starting with a word character matches only at the start or after a non-word character |
| `SkillMatch.Occurs` | pathup/backend/app.py:55 | a skill occurs when `\b<skill>\b` matches, ignoring case, at some position (`MatchAt`: a `\b` boundary before and after, and the slice equal to the skill once both are lower-cased); an occurrence needs a text at least as long as the skill |
| `SkillMatch.OccursIgnoresSkillCase` | pathup/backend/app.py:55 | whether a skill occurs depends only on its lower-cased spelling (`re.IGNORECASE`) |
| `SkillMatch.CppBeforeSpaceNotFound` | pathup/backend/app.py:55 | `C++` is not found in `C++ ` (a trailing space closes no word) |
| `SkillMatch.CppBeforeWordFound` | pathup/backend/app.py:55 | `C++` is found in `C++x` |
| `SkillMatch.LowerCaseMentionFound` | pathup/backend/app.py:53-56 | the listed `Python` is found in a text that writes `python` |
| `Text.Lower` | pathup/backend/app.py:55 | an upper-case ASCII letter becomes its own lower-case letter (code point plus 32), every other character is unchanged, and word characters stay word characters |
| `Text.LowerStrIdempotent` | pathup/backend/app.py:55 | lower-casing a string twice is lower-casing it once |
| `Text.LessEqReflexive` | pathup/backend/app.py:107-109 | the string order `sorted` uses is reflexive |
| `Text.LessEqAntisymmetric` | pathup/backend/app.py:107-109 | it is antisymmetric |
| `Text.LessEqTransitive` | pathup/backend/app.py:107-109 | it is transitive |
| `Text.LessEqTotal` | pathup/backend/app.py:107-109 | it is total |
| `Sorting.Insert` | pathup/backend/app.py:107-109 | inserting into an ascending list keeps it ascending and adds exactly one copy of the element |
| `Sorting.Sort` | pathup/backend/app.py:107-109 | `sorted` returns an ascending permutation of its input |
| `Sorting.SortStrict` | pathup/backend/app.py:107-109 | sorting a duplicate-free list gives a strictly ascending list |
| `Sorting.StrictlyAscendingUnique` | pathup/backend/app.py:107-109 | two strictly ascending lists with the same elements are equal |
| `Analyzer.AnalyzeResume` | pathup/backend/app.py:61-111 | the checks apply in order: no `resume` part gives 400, an empty file name 400, an unsupported extension 400, no extracted text 500, an empty `jd` 400; otherwise the reply is a report whose lists are sorted, duplicate-free and exact, and whose missing skills are the job skills absent from the resume, with one recommendation each |
| `Analyzer.KindOf` | pathup/backend/app.py:74-81 | the extension test on the lower-cased name; an accepted name is at least four characters long and contains a dot |
| `Analyzer.ExtractedText` | pathup/backend/app.py:74-81 | the text is the PDF reader's for a PDF, OCR's for an image, and empty for an unsupported name, so non-empty text means a supported name |
| `Analyzer.KindPdfSuffix` | pathup/backend/app.py:75 | whatever the stem, a name ending in `.pdf` in any case selects the PDF reader |
| `Analyzer.KindImageSuffix` | pathup/backend/app.py:77 | whatever the stem, a name ending in `.png`, `.jpg` or `.jpeg` in any case selects OCR |
| `Analyzer.AcceptedNameEnding` | pathup/backend/app.py:75-81 | an accepted name ends in `f` or `g`, in either case |
| `Analyzer.PdfUpperCaseAccepted` | pathup/backend/app.py:75 | `resume.PDF` goes to the PDF reader |
| `Analyzer.JpegMixedCaseAccepted` | pathup/backend/app.py:77 | `scan.Jpeg` goes to OCR |
| `Analyzer.InnerExtensionIgnored` | pathup/backend/app.py:75-81 | `cv.pdf.docx` is rejected: only the last extension counts |
| `Analyzer.MissingSet` | pathup/backend/app.py:98 | a skill is missing iff it is a job skill and not a resume skill |
| `Analyzer.GapPartition` | pathup/backend/app.py:98 | missing skills plus shared skills number exactly the job skills |
| `Analyzer.ReplaceChar` | pathup/backend/app.py:102 | `replace` of one character by another: every occurrence is replaced and every other character is kept in place |
| `Analyzer.ReplaceSpacesRoundTrip` | pathup/backend/app.py:102 | for a skill without `+`, reading `+` back as a space restores the skill |
| `Analyzer.PlusInSkillIsAmbiguous` | pathup/backend/app.py:102 | `C++` and `C` followed by two spaces give the same query text, so the link is not a faithful encoding |
| `Analyzer.Recommend` | pathup/backend/app.py:102 | the title is `Course for ` then the skill; the URL is the search prefix then the skill with the same length and no space left in the query |
| `Analyzer.RecommendNamesSkill` | pathup/backend/app.py:101-104 | stripping `Course for ` from the title gives the skill back, and stripping the fixed search prefix from the URL gives the skill with spaces turned into `+` |
| `Analyzer.Recommendations` | pathup/backend/app.py:101-104 | one recommendation per missing skill, in the order of the unsorted missing list |
| `Analyzer.RecommendationsDistinct` | pathup/backend/app.py:101-104 | distinct missing skills get recommendations with distinct titles |
| `Analyzer.BuildReport` | pathup/backend/app.py:93-111 | the skills of both texts, the missing skills and their recommendations form a report: each skill list is sorted, duplicate-free and exact for its text, the missing skills are the job skills absent from the resume, with one recommendation each |
| `Analyzer.SortDistinct` | pathup/backend/app.py:107-109 | each sorted reply list is strictly ascending with the same elements as the unsorted list |
| `Analyzer.SkillListUnique` | pathup/backend/app.py:107-108 | the reply's skill lists depend only on the text, not on set iteration order |
| `Submission.FailureMessage` | pathup/frontend/src/App.js:39 | the shown error is the server's `error` when it is a non-empty string, else the generic message; it is never empty |
| `Submission.FormData` | pathup/frontend/src/App.js:23-25 | the form has exactly two fields: `resume` with the file, then `jd` with the text |
| `Submission.StaleReportAfterInvalidResubmit` | pathup/frontend/src/App.js:18-41 | after a successful analysis, clearing the job description and submitting again shows the validation error next to the old report |
| `Submission.WhitespaceJobDescriptionIsSent` | pathup/frontend/src/App.js:18-41 | a job description of spaces passes the check and is posted as it is; a failure with an empty `error` shows the generic message |
| `Submission.SubmissionForm.constructor` | pathup/frontend/src/App.js:6-10 | no file, empty text, no report, not loading, no error |
| `Submission.SubmissionForm.ChooseFiles` | pathup/frontend/src/App.js:12-14 | only the first chosen file is stored, or none if nothing is chosen; nothing else changes |
| `Submission.SubmissionForm.EditJobDescription` | pathup/frontend/src/App.js:59 | the text is stored verbatim; nothing else changes |
| `Submission.SubmissionForm.Submit` | pathup/frontend/src/App.js:16-29 | without a file or with empty text: no request, the fixed error, and report and loading unchanged; otherwise the form data is returned, loading is set, and error and report are cleared |
| `Submission.SubmissionForm.Complete` | pathup/frontend/src/App.js:31-41 | on success the report is stored and the error stays empty; on failure the report stays empty and the error is the failure message; loading ends on both paths |
| `Results.SkillItems` | pathup/frontend/src/App.js:80-96 | one entry per skill, in order |
| `Results.CourseLinks` | pathup/frontend/src/App.js:104-110 | one link per recommendation, labelled with its title and pointing at its URL |
| `Results.Render` | pathup/frontend/src/App.js:73-116 | two to four groups; only the resume and job skill groups can be empty |
| `Results.RenderGroups` | pathup/frontend/src/App.js:73-116 | resume and job skill groups are always first; the missing-skills group is shown iff that list is non-empty, and likewise the recommendations group; no group appears twice |
| `Results.RenderRoundTrip` | pathup/frontend/src/App.js:73-116 | reading the rendered groups back gives the report |
| `Results.SingleGapScenario` | pathup/frontend/src/App.js:73-116 | a report with one resume skill, two job skills, one gap and one course shows 1, 2 and 1 entries and one link labelled `SQL 101` |

## Left out

- Text extraction with PyMuPDF, Tesseract and PIL (app.py:34-48) calls foreign libraries. An upload carries the text each extractor would return for the file; their exceptions turn into "", which the model covers.
- File-system work is I/O and is not modelled: the upload folder, `save` and `os.remove`. On the empty-`jd` path the saved file is not removed. `save` runs before the extension check (app.py:72 before 75), so a name that cannot be saved (under a missing sub-folder, or `.`) gets Flask's 500 instead of the modelled reply.
- Flask is not modelled: app setup, CORS, the route decorator, `jsonify` and `app.run`. A reply is an error status and message, or the report (status 200).
- A `resume` part whose `filename` is None is not modelled. A file part counts as missing exactly when its name is empty, which is when werkzeug's `FileStorage` is falsy.
- The axios POST, multipart encoding and the endpoint URL are not modelled. `Submit` returns the form data and `Complete` takes the settled outcome as input.
- Markup, CSS, headings, the loading and error banners, and React's hook batching are presentation.
- SkillMatch.Search: `\w` and case-insensitive matching are ASCII only; Python's Unicode word characters and case folding (e.g. the Kelvin sign matching `k`) are not modelled.
- Analyzer.KindOf: `str.lower` is ASCII lower-casing here, not full Unicode.
- Analyzer.AnalyzeResume: states which recommendations appear, not their order, because they follow `list(set(...))`, whose order Python leaves unspecified.
- The recommendation URL is built as plain text without percent-encoding, as the source builds it; URL correctness is not claimed.
- Submission.SubmissionForm.Submit: requires the Analyze button to be enabled (`!loading`), since that disabled button (App.js:61) is the form's only submit control.
- Submission.SubmissionForm.Complete: requires `loading`, since it only runs as the continuation of a valid submit.
- Two submits racing each other, and a request that never settles, are not modelled: the disabled button allows one request at a time.
