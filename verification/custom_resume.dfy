/**
 * `generate_resume` of Custom_Resume.py: extract the resume text, ask the
 * model (a parameter here) for the optimized resume and score the generated
 * text against the job description.
 */
module CustomResume {
  import opened Text
  import opened Analyzer
  import opened Documents

  /** `generate_resume(job_description, current_resume, llm)`. */
  function GenerateResume(
    jobDescription: string,
    chunks: seq<string>,
    writeResume: (string, string) -> string): (r: (string, Metrics))
    ensures r.0 == writeResume(jobDescription, ExtractResumeText(chunks))
    ensures r.1 == Analyze(jobDescription, r.0)
    ensures r.1.matched <= r.1.total && 0.0 <= r.1.percentage <= 100.0
  {
    var response := writeResume(jobDescription, ExtractResumeText(chunks));
    (response, Analyze(jobDescription, response))
  }
}
