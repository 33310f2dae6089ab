/**
 * `generate_resume` of app.py: extract the resume text, ask the model for
 * keyword suggestions and parse them, ask the model for the optimized resume
 * with the suggested keywords, re-score the generated text, and pack the
 * original and final metrics with the two keyword lists.
 *
 * The two model calls are parameters: `suggestKeywords` maps the job
 * description and resume text to the raw reply, `writeResume` maps the three
 * prompt fields to the generated resume.
 */
module App {
  import opened Text
  import opened Analyzer
  import opened Documents
  import opened KeywordParser

  /** The fields interpolated into the resume prompt. */
  datatype ResumeRequest = ResumeRequest(jobDescription: string, currentResume: string, suggestedKeywords: string)

  /** The `combined_analysis` dictionary. */
  datatype CombinedAnalysis = CombinedAnalysis(
    originalMetrics: Metrics,
    finalMetrics: Metrics,
    topKeywords: seq<string>,
    additionalKeywords: seq<string>)

  /** `", ".join(top_22_keywords + additional_10_keywords)`. */
  function SuggestedKeywords(analysis: KeywordAnalysis): (s: string)
    requires |analysis.top| >= 1 && |analysis.additional| >= 1
    ensures s == Join(ListSeparator, analysis.top) + ListSeparator + Join(ListSeparator, analysis.additional)
  {
    JoinAppend(ListSeparator, analysis.top, analysis.additional);
    Join(ListSeparator, analysis.top + analysis.additional)
  }

  /** `generate_resume(job_description, current_resume, llm)`. */
  method GenerateResume(
    jobDescription: string,
    chunks: seq<string>,
    suggestKeywords: (string, string) -> string,
    writeResume: ResumeRequest -> string)
    returns (response: string, combined: CombinedAnalysis)
    ensures var resumeText := ExtractResumeText(chunks);
      var keywords := ParseReply(suggestKeywords(jobDescription, resumeText), jobDescription, resumeText);
      && response == writeResume(ResumeRequest(jobDescription, resumeText, SuggestedKeywords(keywords)))
      && combined.originalMetrics == keywords.original
      && combined.topKeywords == keywords.top
      && combined.additionalKeywords == keywords.additional
    ensures combined.finalMetrics == Analyze(jobDescription, response)
    ensures combined.originalMetrics == NoMetrics
         || combined.originalMetrics == Analyze(jobDescription, ExtractResumeText(chunks))
    ensures |combined.topKeywords| >= 1 && |combined.additionalKeywords| >= 1
    ensures (combined.originalMetrics == Analyze(jobDescription, ExtractResumeText(chunks))
             && Contains(Lower(response), Lower(ExtractResumeText(chunks)))) ==>
      combined.originalMetrics.matched <= combined.finalMetrics.matched
      && combined.originalMetrics.percentage <= combined.finalMetrics.percentage
  {
    var resumeText := ExtractResumeText(chunks);
    var keywordAnalysis := ExtractAndSuggestKeywords(suggestKeywords(jobDescription, resumeText), jobDescription, resumeText);
    response := writeResume(ResumeRequest(jobDescription, resumeText, SuggestedKeywords(keywordAnalysis)));
    var finalAnalysis := Analyze(jobDescription, response);
    combined := CombinedAnalysis(keywordAnalysis.original, finalAnalysis, keywordAnalysis.top, keywordAnalysis.additional);
    if Contains(Lower(response), Lower(resumeText)) {
      LargerTextScoresAtLeast(jobDescription, resumeText, response);
    }
  }

  /** When the keyword reply cannot be parsed, the model is still asked for a
      resume, steered by the two error markers. */
  lemma FallbackSteering()
    ensures SuggestedKeywords(Fallback) == ParseError + ", " + ParseError
  {
  }

  /** On a successful parse the steering string is the two keyword lines, each
      stripped, joined by ", ". */
  lemma SteeringIsKeywordLines(reply: string, jobDescription: string, resumeText: string)
    requires exists i :: 0 <= i < |Sections(reply)| && IsTopSection(Sections(reply)[i])
    requires exists i :: 0 <= i < |Sections(reply)| && IsAdditionalSection(Sections(reply)[i])
    ensures exists t, a ::
      && LastTop(Sections(reply), t)
      && LastAdditional(Sections(reply), a)
      && AfterFirst(Sections(reply)[t], ':').Some?
      && AfterFirst(Sections(reply)[a], ':').Some?
      && SuggestedKeywords(ParseReply(reply, jobDescription, resumeText))
           == Strip(AfterFirst(Sections(reply)[t], ':').value) + ", "
              + Strip(AfterFirst(Sections(reply)[a], ':').value)
  {
    ListsRoundTrip(reply, jobDescription, resumeText);
  }
}
