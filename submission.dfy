/**
 * The frontend form (`App`): five pieces of state, updated by choosing a
 * file, editing the job description, submitting, and the settling of the
 * request that a valid submit sends. The request itself is not modelled:
 * `Submit` returns the form data it would post, and `Complete` receives how
 * the request settled.
 */
module Submission {
  import opened Wrappers
  import opened Contract

  newtype byte = x: int | 0 <= x < 256

  /** A file chosen in the file picker. */
  datatype ResumeFile = ResumeFile(name: string, content: seq<byte>)

  /** One field of the outbound multipart form. */
  datatype FormValue = FilePart(file: ResumeFile) | TextPart(text: string)
  datatype FormEntry = FormEntry(name: string, value: FormValue)

  /**
   * How the request settled: resolved with the response data, or rejected,
   * carrying `err.response?.data?.error` (None when there is no response,
   * no body or no such field).
   */
  datatype Outcome = Resolved(data: Report) | Rejected(errorField: Option<string>)

  const MissingInputMessage := "Please provide both a resume file and a job description."
  const GenericErrorMessage := "An unexpected error occurred."

  /** `err.response?.data?.error || 'An unexpected error occurred.'` */
  function FailureMessage(errorField: Option<string>): (m: string)
    ensures m != ""
    ensures errorField.Some? && errorField.value != "" ==> m == errorField.value
    ensures errorField == Some("") ==> m == GenericErrorMessage
    ensures errorField.None? ==> m == GenericErrorMessage
  {
    if errorField.Some? && errorField.value != "" then errorField.value else GenericErrorMessage
  }

  /** The form data a valid submit posts: `resume`, then `jd`. */
  function FormData(file: ResumeFile, jd: string): (form: seq<FormEntry>)
    ensures |form| == 2
    ensures form[0].name == "resume" && form[0].value == FilePart(file)
    ensures form[1].name == "jd" && form[1].value == TextPart(jd)
  {
    [FormEntry("resume", FilePart(file)), FormEntry("jd", TextPart(jd))]
  }

  class SubmissionForm {
    var resumeFile: Option<ResumeFile>
    var jdText: string
    var analysis: Option<Report>
    var loading: bool
    var error: string

    /** While a request is pending the form holds neither a report nor an error. */
    predicate Valid()
      reads this
    {
      loading ==> analysis.None? && error == ""
    }

    /** The Analyze button is enabled, so the form can be submitted. */
    predicate CanSubmit()
      reads this
    {
      !loading
    }

    /** The initial state of the five `useState` hooks. */
    constructor ()
      ensures Valid() && CanSubmit()
      ensures resumeFile.None? && jdText == "" && analysis.None? && error == ""
    {
      resumeFile := None;
      jdText := "";
      analysis := None;
      loading := false;
      error := "";
    }

    /** `handleFileChange`: keeps the first chosen file; an empty choice leaves no file. */
    method ChooseFiles(files: seq<ResumeFile>)
      requires Valid()
      modifies this`resumeFile
      ensures Valid()
      ensures resumeFile == (if |files| > 0 then Some(files[0]) else None)
    {
      if |files| > 0 {
        resumeFile := Some(files[0]);
      } else {
        resumeFile := None;
      }
    }

    /** The text area's `onChange`: stores the text verbatim. */
    method EditJobDescription(text: string)
      requires Valid()
      modifies this`jdText
      ensures Valid()
      ensures jdText == text
    {
      jdText := text;
    }

    /**
     * `handleSubmit` up to the request. Without a file or with an empty job
     * description it only sets the error, leaving a previous report and the
     * loading flag as they were; otherwise it clears the report and the
     * error, sets loading, and yields the form data to post.
     */
    method Submit() returns (request: Option<seq<FormEntry>>)
      requires Valid() && CanSubmit()
      modifies this`analysis, this`loading, this`error
      ensures Valid()
      ensures (resumeFile.None? || jdText == "") ==>
        && request.None?
        && error == MissingInputMessage
        && analysis == old(analysis)
        && loading == old(loading)
      ensures (resumeFile.Some? && jdText != "") ==>
        && request == Some(FormData(resumeFile.value, jdText))
        && loading && !CanSubmit()
        && error == ""
        && analysis.None?
    {
      if resumeFile.None? || jdText == "" {
        error := MissingInputMessage;
        return None;
      }
      request := Some(FormData(resumeFile.value, jdText));
      loading := true;
      error := "";
      analysis := None;
    }

    /**
     * The rest of `handleSubmit`, once the request settles: the response
     * data becomes the report, or the server's error (else the generic
     * message) becomes the error; loading ends either way.
     */
    method Complete(outcome: Outcome)
      requires Valid() && loading
      modifies this`analysis, this`loading, this`error
      ensures Valid() && CanSubmit()
      ensures outcome.Resolved? ==> analysis == Some(outcome.data) && error == ""
      ensures outcome.Rejected? ==> analysis.None? && error == FailureMessage(outcome.errorField)
    {
      match outcome {
        case Resolved(data) =>
          analysis := Some(data);
        case Rejected(errorField) =>
          error := FailureMessage(errorField);
      }
      loading := false;
    }
  }

  /**
   * A report and a validation error can be held together: after a
   * successful analysis, clearing the job description and submitting again
   * sets the error but keeps the old report.
   */
  method StaleReportAfterInvalidResubmit(file: ResumeFile, jd: string, report: Report)
      returns (shownError: string, shownReport: Option<Report>)
    requires jd != ""
    ensures shownError == MissingInputMessage && shownReport == Some(report)
  {
    var form := new SubmissionForm();
    form.ChooseFiles([file]);
    form.EditJobDescription(jd);
    var request := form.Submit();
    assert request == Some(FormData(file, jd));
    form.Complete(Resolved(report));
    form.EditJobDescription("");
    request := form.Submit();
    assert request.None?;
    shownError, shownReport := form.error, form.analysis;
  }

  /** A whitespace-only job description passes the check and is posted as it is. */
  method WhitespaceJobDescriptionIsSent(file: ResumeFile)
      returns (sent: Option<seq<FormEntry>>, shownError: string)
    ensures sent == Some(FormData(file, "   ")) && shownError == GenericErrorMessage
  {
    var form := new SubmissionForm();
    form.ChooseFiles([file]);
    form.EditJobDescription("   ");
    sent := form.Submit();
    form.Complete(Rejected(Some("")));
    shownError := form.error;
  }
}
