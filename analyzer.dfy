/**
 * The decision logic of the backend route `analyze_resume`: the ordered
 * request checks with their HTTP status and message, the case-insensitive
 * dispatch on the file extension, the gap between the skills of the job
 * description and those of the resume, one course recommendation per
 * missing skill, and the sorted lists of the response.
 *
 * Text extraction is not modelled: an upload carries the text that the PDF
 * reader and the OCR engine would return for the saved file ("" when they
 * fail), and the extension decides which of the two is used.
 */
module Analyzer {
  import opened Wrappers
  import opened Text
  import opened Sorting
  import opened SkillMatch
  import opened Contract

  /** The uploaded `resume` file part, with what each extractor yields for it. */
  datatype Upload = Upload(filename: string, pdfText: string, imageText: string)

  /** The multipart request: the `resume` file part and the `jd` form field, each possibly absent. */
  datatype Request = Request(resume: Option<Upload>, jd: Option<string>)

  /** Which extractor a file name selects. */
  datatype FileKind = Pdf | Image | Unsupported

  const NoResumeMessage := "No resume file provided"
  const NoSelectedFileMessage := "No selected file"
  const UnsupportedMessage := "Unsupported file type. Please upload a PDF, PNG, or JPG file."
  const NoTextMessage := "Could not extract text from the resume."
  const NoJobDescriptionMessage := "No job description provided"

  const TitlePrefix := "Course for "
  const SearchPrefix := "https://www.google.com/search?q=online+course+for+"

  /** The extension test on the lower-cased file name: `.pdf`, else `.png`/`.jpg`/`.jpeg`. */
  function KindOf(filename: string): (k: FileKind)
    ensures k != Unsupported ==> 4 <= |filename| && '.' in filename
  {
    var lower := LowerStr(filename);
    if EndsWith(lower, ".pdf") then
      DotOfLoweredSuffix(filename, ".pdf");
      Pdf
    else if EndsWith(lower, ".png") || EndsWith(lower, ".jpg") || EndsWith(lower, ".jpeg") then
      if EndsWith(lower, ".png") then DotOfLoweredSuffix(filename, ".png"); Image
      else if EndsWith(lower, ".jpg") then DotOfLoweredSuffix(filename, ".jpg"); Image
      else DotOfLoweredSuffix(filename, ".jpeg"); Image
    else Unsupported
  }

  /** A name whose lower-cased form ends in an extension has the extension's dot itself. */
  lemma DotOfLoweredSuffix(filename: string, ext: string)
    requires EndsWith(LowerStr(filename), ext) && ext != [] && ext[0] == '.'
    ensures '.' in filename
  {
    var k := |filename| - |ext|;
    assert LowerStr(filename)[k] == '.';
    assert filename[k] == '.';
  }

  lemma LowerStrAppend(a: string, b: string)
    ensures LowerStr(a + b) == LowerStr(a) + LowerStr(b)
  {
    assert forall i :: 0 <= i < |a + b| ==> LowerStr(a + b)[i] == (LowerStr(a) + LowerStr(b))[i];
  }

  /** Lower-casing a name keeps the lower-cased extension at its end. */
  lemma LowerKeepsSuffix(stem: string, ext: string)
    ensures EndsWith(LowerStr(stem + ext), LowerStr(ext))
  {
    LowerStrAppend(stem, ext);
    var lower := LowerStr(stem) + LowerStr(ext);
    assert lower[|lower| - |ext|..] == LowerStr(ext);
  }

  /** Whatever the stem, `.pdf` in any case selects the PDF reader. */
  lemma KindPdfSuffix(stem: string, ext: string)
    requires LowerStr(ext) == ".pdf"
    ensures KindOf(stem + ext) == Pdf
  {
    LowerKeepsSuffix(stem, ext);
  }

  /** Whatever the stem, `.png`, `.jpg` or `.jpeg` in any case selects the OCR engine. */
  lemma KindImageSuffix(stem: string, ext: string)
    requires LowerStr(ext) == ".png" || LowerStr(ext) == ".jpg" || LowerStr(ext) == ".jpeg"
    ensures KindOf(stem + ext) == Image
  {
    LowerKeepsSuffix(stem, ext);
    var lower := LowerStr(stem + ext);
    var e := LowerStr(ext);
    assert e[|e| - 1] == 'g';
    assert lower[|lower| - |e|..][|e| - 1] == lower[|lower| - 1];
    NotEndsWithByLast(lower, ".pdf");
  }

  lemma NotEndsWithByLast(s: string, suffix: string)
    requires suffix != [] && (s == [] || s[|s| - 1] != suffix[|suffix| - 1])
    ensures !EndsWith(s, suffix)
  {
    if |suffix| <= |s| {
      assert s[|s| - |suffix|..][|suffix| - 1] == s[|s| - 1];
    }
  }

  /** Only a name whose last character is `f` or `g`, in either case, can be accepted. */
  lemma AcceptedNameEnding(filename: string)
    requires KindOf(filename) != Unsupported
    ensures filename != [] && Lower(filename[|filename| - 1]) in "fg"
  {
    var lower := LowerStr(filename);
    assert lower[|lower| - 1] == Lower(filename[|filename| - 1]);
  }

  lemma PdfUpperCaseAccepted()
    ensures KindOf("resume.PDF") == Pdf
  {
    LowerDotPdf();
    KindPdfSuffix("resume", ".PDF");
    assert "resume" + ".PDF" == "resume.PDF";
  }

  lemma JpegMixedCaseAccepted()
    ensures KindOf("scan.Jpeg") == Image
  {
    LowerDotJpeg();
    KindImageSuffix("scan", ".Jpeg");
    assert "scan" + ".Jpeg" == "scan.Jpeg";
  }

  lemma LowerDotPdf()
    ensures LowerStr(".PDF") == ".pdf"
  {
    var l := LowerStr(".PDF");
    assert l[0] == '.' && l[1] == 'p' && l[2] == 'd' && l[3] == 'f';
  }

  lemma LowerDotJpeg()
    ensures LowerStr(".Jpeg") == ".jpeg"
  {
    var l := LowerStr(".Jpeg");
    assert l[0] == '.' && l[1] == 'j' && l[2] == 'p' && l[3] == 'e' && l[4] == 'g';
  }

  /** The last extension decides: `cv.pdf.docx` is rejected. */
  lemma InnerExtensionIgnored()
    ensures KindOf("cv.pdf.docx") == Unsupported
  {
    if KindOf("cv.pdf.docx") != Unsupported {
      AcceptedNameEnding("cv.pdf.docx");
    }
  }

  /** The text the selected extractor yields; "" when the extension is not supported. */
  function ExtractedText(u: Upload): (t: string)
    ensures t != "" ==> KindOf(u.filename) != Unsupported
    ensures t == u.pdfText || t == u.imageText || t == ""
  {
    match KindOf(u.filename)
    case Pdf => u.pdfText
    case Image => u.imageText
    case Unsupported => ""
  }

  /** `set(jd_skills) - set(resume_skills)`. */
  function MissingSet(jd: seq<string>, resume: seq<string>): (m: set<string>)
    ensures forall s :: s in m <==> s in jd && s !in resume
  {
    (set s | s in jd) - (set s | s in resume)
  }

  /**
   * Every job skill is either missing or shared with the resume, never both:
   * the missing count plus the shared count is the job-skill count.
   */
  lemma GapPartition(jd: seq<string>, resume: seq<string>)
    requires NoDuplicates(jd)
    ensures |MissingSet(jd, resume)| + |set s | s in jd && s in resume| == |jd|
  {
    var m := MissingSet(jd, resume);
    var shared := set s | s in jd && s in resume;
    assert (set s | s in jd) == m + shared;
    assert m !! shared;
    DistinctCount(jd);
  }

  /** `s.replace(target, replacement)` for single characters: `skill.replace(' ', '+')` builds the query. */
  function ReplaceChar(s: string, target: char, replacement: char): (r: string)
    ensures |r| == |s|
    ensures forall i :: 0 <= i < |s| ==> r[i] == (if s[i] == target then replacement else s[i])
  {
    if s == [] then [] else [if s[0] == target then replacement else s[0]] + ReplaceChar(s[1..], target, replacement)
  }

  /**
   * The query part of a link gives back the skill when the skill has no
   * `+` of its own (for `C++` it does not: see the next lemma).
   */
  lemma ReplaceSpacesRoundTrip(skill: string)
    requires '+' !in skill
    ensures ReplaceChar(ReplaceChar(skill, ' ', '+'), '+', ' ') == skill
  {
    var r := ReplaceChar(ReplaceChar(skill, ' ', '+'), '+', ' ');
    forall i | 0 <= i < |skill| ensures r[i] == skill[i] {
      assert skill[i] != '+';
    }
  }

  lemma PlusInSkillIsAmbiguous()
    ensures ReplaceChar("C++", ' ', '+') == ReplaceChar("C  ", ' ', '+')
  {
  }

  /** The recommendation for one missing skill. */
  function Recommend(skill: string): (r: Recommendation)
    ensures |r.title| == |TitlePrefix| + |skill| && r.title[|TitlePrefix|..] == skill
    ensures |r.url| == |SearchPrefix| + |skill|
    ensures ' ' !in r.url[|SearchPrefix|..]
  {
    Recommendation(TitlePrefix + skill, SearchPrefix + ReplaceChar(skill, ' ', '+'))
  }

  /** The rest of `s` after `prefix`, or None when `s` does not start with it. */
  function StripPrefix(prefix: string, s: string): (r: Option<string>)
    ensures r.Some? ==> s == prefix + r.value
  {
    if |prefix| <= |s| && s[..|prefix|] == prefix then Some(s[|prefix|..]) else None
  }

  lemma StripPrefixOfConcat(prefix: string, s: string)
    ensures StripPrefix(prefix, prefix + s) == Some(s)
  {
    assert (prefix + s)[..|prefix|] == prefix;
    assert (prefix + s)[|prefix|..] == s;
  }

  /** The skill a recommendation title names, or None when the title is not a course title. */
  function SkillOfTitle(title: string): (r: Option<string>)
    ensures r.Some? ==> title == TitlePrefix + r.value
  {
    StripPrefix(TitlePrefix, title)
  }

  /**
   * A recommendation names its skill in full: the title gives it back, and
   * the link is the fixed search prefix followed by the skill with its
   * spaces, and only those, turned into `+`.
   */
  lemma RecommendNamesSkill(skill: string)
    ensures SkillOfTitle(Recommend(skill).title) == Some(skill)
    ensures StripPrefix(SearchPrefix, Recommend(skill).url) == Some(ReplaceChar(skill, ' ', '+'))
  {
    StripPrefixOfConcat(TitlePrefix, skill);
    StripPrefixOfConcat(SearchPrefix, ReplaceChar(skill, ' ', '+'));
  }

  /** The comprehension over the missing list: one recommendation per skill, in that list's order. */
  function Recommendations(missing: seq<string>): (recs: seq<Recommendation>)
    ensures |recs| == |missing|
    ensures forall k :: 0 <= k < |missing| ==> recs[k] == Recommend(missing[k])
  {
    seq(|missing|, k requires 0 <= k < |missing| => Recommend(missing[k]))
  }

  /** Distinct skills get distinct recommendations, so none is listed twice. */
  lemma RecommendationsDistinct(missing: seq<string>)
    requires NoDuplicates(missing)
    ensures forall i, j :: 0 <= i < j < |missing| ==>
      Recommendations(missing)[i].title != Recommendations(missing)[j].title
  {
    var recs := Recommendations(missing);
    forall i, j | 0 <= i < j < |missing| ensures recs[i].title != recs[j].title {
      RecommendNamesSkill(missing[i]);
      RecommendNamesSkill(missing[j]);
    }
  }

  /** The recommendations of a list are those of any reordering of it. */
  lemma RecommendationsCover(missing: seq<string>, listed: seq<string>)
    requires forall s :: s in listed <==> s in missing
    ensures forall s :: s in listed ==> Recommend(s) in Recommendations(missing)
    ensures forall x :: x in Recommendations(missing) ==> exists s :: s in listed && x == Recommend(s)
  {
    var recs := Recommendations(missing);
    forall x | x in recs ensures exists s :: s in listed && x == Recommend(s) {
      var k :| 0 <= k < |recs| && recs[k] == x;
      assert missing[k] in listed;
    }
    forall s | s in listed ensures Recommend(s) in recs {
      var k :| 0 <= k < |missing| && missing[k] == s;
      assert recs[k] == Recommend(s);
    }
  }

  /** A reply list of the skills of `db` found in `text`: sorted, each once, spelled as listed. */
  ghost predicate IsSkillList(l: seq<string>, text: string, db: seq<string>) {
    StrictlyAscending(l) && forall s :: s in l <==> s in db && Occurs(text, s)
  }

  /** That list is determined by the text alone, whatever order the set was listed in. */
  lemma SkillListUnique(a: seq<string>, b: seq<string>, text: string, db: seq<string>)
    requires IsSkillList(a, text, db) && IsSkillList(b, text, db)
    ensures a == b
  {
    StrictlyAscendingUnique(a, b);
  }

  lemma SortedSkillList(found: seq<string>, text: string, db: seq<string>)
    requires NoDuplicates(found)
    requires forall s :: s in found <==> s in db && Occurs(text, s)
    ensures IsSkillList(Sort(found), text, db)
  {
    SortDistinct(found);
  }

  lemma SortedMissing(missing: seq<string>, jd: seq<string>, resume: seq<string>)
    requires NoDuplicates(missing)
    requires forall s :: s in missing <==> s in MissingSet(jd, resume)
    ensures StrictlyAscending(Sort(missing))
    ensures forall s :: s in Sort(missing) <==> s in Sort(jd) && s !in Sort(resume)
  {
    SortDistinct(missing);
    SortSameElements(jd);
    SortSameElements(resume);
  }

  /** What a report for resume text `text` and job description `jd` contains. */
  ghost predicate IsReportFor(r: Report, text: string, jd: string, db: seq<string>) {
    && IsSkillList(r.resumeSkills, text, db)
    && IsSkillList(r.jdSkills, jd, db)
    && StrictlyAscending(r.missingSkills)
    && (forall s :: s in r.missingSkills <==> s in r.jdSkills && s !in r.resumeSkills)
    && |r.recommendations| == |r.missingSkills|
    && (forall s :: s in r.missingSkills ==> Recommend(s) in r.recommendations)
    && (forall x :: x in r.recommendations ==> exists s :: s in r.missingSkills && x == Recommend(s))
  }

  lemma SortSameElements(xs: seq<string>)
    ensures forall s :: s in Sort(xs) <==> s in xs
  {
    var r := Sort(xs);
    forall s ensures s in r <==> s in xs {
      assert s in r <==> s in multiset(r);
      assert s in xs <==> s in multiset(xs);
    }
  }

  /** `sorted(xs)` of a duplicate-free list: strictly ascending, same elements. */
  lemma SortDistinct(xs: seq<string>)
    requires NoDuplicates(xs)
    ensures StrictlyAscending(Sort(xs))
    ensures forall s :: s in Sort(xs) <==> s in xs
  {
    SortStrict(xs);
    SortSameElements(xs);
  }

  /**
   * The success path of `analyze_resume`: skills of both texts, the gap,
   * one recommendation per missing skill, and the three sorted lists.
   */
  method BuildReport(resumeText: string, jdText: string, db: seq<string>) returns (report: Report)
    ensures IsReportFor(report, resumeText, jdText, db)
  {
    var resumeSkills := ExtractSkills(resumeText, db);
    var jdSkills := ExtractSkills(jdText, db);
    var missing := ListOf(MissingSet(jdSkills, resumeSkills));
    var recommendations := Recommendations(missing);
    report := Report(Sort(resumeSkills), Sort(jdSkills), Sort(missing), recommendations);
    SortedSkillList(resumeSkills, resumeText, db);
    SortedSkillList(jdSkills, jdText, db);
    SortedMissing(missing, jdSkills, resumeSkills);
    RecommendationsCover(missing, report.missingSkills);
  }

  /**
   * `analyze_resume`: the first failing check, in source order, decides the
   * error status and message; when all pass the report is built from the
   * text the file's extension selects and the job description.
   */
  method AnalyzeResume(req: Request) returns (resp: Response)
    ensures req.resume.None? ==> resp == ErrorResponse(400, NoResumeMessage)
    ensures req.resume.Some? && req.resume.value.filename == "" ==>
      resp == ErrorResponse(400, NoSelectedFileMessage)
    ensures (req.resume.Some? && req.resume.value.filename != "" &&
             KindOf(req.resume.value.filename) == Unsupported) ==>
      resp == ErrorResponse(400, UnsupportedMessage)
    ensures (req.resume.Some? && req.resume.value.filename != "" &&
             KindOf(req.resume.value.filename) != Unsupported &&
             ExtractedText(req.resume.value) == "") ==>
      resp == ErrorResponse(500, NoTextMessage)
    ensures (req.resume.Some? && req.resume.value.filename != "" &&
             ExtractedText(req.resume.value) != "" && req.jd.GetOr("") == "") ==>
      resp == ErrorResponse(400, NoJobDescriptionMessage)
    ensures resp.ReportResponse? <==>
      (req.resume.Some? && req.resume.value.filename != "" &&
       ExtractedText(req.resume.value) != "" && req.jd.GetOr("") != "")
    ensures resp.ReportResponse? ==>
      IsReportFor(resp.report, ExtractedText(req.resume.value), req.jd.GetOr(""), SkillsDb)
  {
    if req.resume.None? {
      return ErrorResponse(400, NoResumeMessage);
    }
    var upload := req.resume.value;
    var jdText := req.jd.GetOr("");
    if upload.filename == "" {
      return ErrorResponse(400, NoSelectedFileMessage);
    }
    var resumeText := "";
    match KindOf(upload.filename) {
      case Pdf =>
        resumeText := upload.pdfText;
      case Image =>
        resumeText := upload.imageText;
      case Unsupported =>
        return ErrorResponse(400, UnsupportedMessage);
    }
    if resumeText == "" {
      return ErrorResponse(500, NoTextMessage);
    }
    if jdText == "" {
      return ErrorResponse(400, NoJobDescriptionMessage);
    }
    var report := BuildReport(resumeText, jdText, SkillsDb);
    return ReportResponse(report);
  }
}
