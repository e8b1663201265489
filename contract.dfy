/**
 * The JSON document that `POST /api/analyze` answers with, as the backend
 * builds it and the frontend reads it: either an error object with an HTTP
 * status, or the four lists of the skill-gap report.
 */
module Contract {

  /** One entry of `recommendations`: a course title and a search link. */
  datatype Recommendation = Recommendation(title: string, url: string)

  /** The success body: `resume_skills`, `jd_skills`, `missing_skills`, `recommendations`. */
  datatype Report = Report(
    resumeSkills: seq<string>,
    jdSkills: seq<string>,
    missingSkills: seq<string>,
    recommendations: seq<Recommendation>)

  /** What the route returns: `({'error': message}, status)` or the report with status 200. */
  datatype Response =
    | ErrorResponse(status: int, message: string)
    | ReportResponse(report: Report)
}
