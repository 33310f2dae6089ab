/**
 * The parsing half of `extract_and_suggest_keywords` (app.py): the language
 * model's reply is cut into sections separated by two consecutive line feeds,
 * cutting at the leftmost pair each time; the last section
 * holding the heading `Top 22 Keywords:` gives the top list, the last section
 * that holds `Additional 10 Keywords:` but not `Top 22 Keywords:` gives the
 * additional list, each
 * list being the text after the section's first colon, stripped and split on
 * `", "`. A missing heading yields a fixed fallback record.
 */
module KeywordParser {
  import opened Wrappers
  import opened Text
  import opened Analyzer

  const TopHeading := "Top 22 Keywords:"
  const AdditionalHeading := "Additional 10 Keywords:"
  const SectionBreak := "\n\n"
  const ListSeparator := ", "

  /** The marker both lists hold when the reply cannot be parsed. */
  const ParseError := "Error parsing keywords"

  /** What `str(e)` gives for the IndexError of `section.split(':', 1)[1]`. */
  const IndexErrorMessage := "list index out of range"

  /** The record returned: `original_*` metrics and the two keyword lists. */
  datatype KeywordAnalysis = KeywordAnalysis(original: Metrics, top: seq<string>, additional: seq<string>)

  /** The record returned when a heading is missing. */
  const Fallback := KeywordAnalysis(NoMetrics, [ParseError], [ParseError])

  /** The record returned by the `except` branch. */
  function ExceptionFallback(message: string): (a: KeywordAnalysis)
    ensures a.original == NoMetrics && a.top == a.additional == [ParseError + ": " + message]
  {
    var marker := ParseError + ": " + message;
    KeywordAnalysis(NoMetrics, [marker], [marker])
  }

  predicate IsTopSection(section: string) {
    Contains(section, TopHeading)
  }

  /** The `elif`: a section with both headings only ever counts as a top section. */
  predicate IsAdditionalSection(section: string) {
    !Contains(section, TopHeading) && Contains(section, AdditionalHeading)
  }

  /** `response.strip().split('\n\n')`. */
  function Sections(reply: string): (sections: seq<string>)
    ensures |sections| >= 1 && Join(SectionBreak, sections) == Strip(reply)
    ensures forall k :: 0 <= k < |sections| ==> !Contains(sections[k], SectionBreak)
  {
    JoinSplitOn(Strip(reply), SectionBreak);
    SplitOn(Strip(reply), SectionBreak)
  }

  /** The reply is cut at the leftmost `"\n\n"` each time: no break starts
      inside the first section; a single section is the whole stripped reply;
      otherwise a break follows the first section and the other sections are
      the split of the text after that break. */
  lemma SectionsCutAtFirstBreak(reply: string)
    ensures var sections, text := Sections(reply), Strip(reply);
      && (forall j :: 0 <= j < |sections[0]| ==> !OccursAt(text, SectionBreak, j))
      && (|sections| == 1 <==> sections[0] == text)
      && (|sections| > 1 ==>
            |sections[0]| + |SectionBreak| <= |text|
            && OccursAt(text, SectionBreak, |sections[0]|)
            && sections[1..] == SplitOn(text[|sections[0]| + |SectionBreak|..], SectionBreak))
  {
    SplitOnNoEarlierCut(Strip(reply), SectionBreak);
    SplitOnSinglePiece(Strip(reply), SectionBreak);
    SplitOnCut(Strip(reply), SectionBreak);
  }

  /** The values of `top_keywords_section` and `additional_keywords_section`. */
  datatype Found = Found(top: Option<string>, additional: Option<string>)

  /** One turn of the `for section in sections` loop. */
  function ScanStep(found: Found, section: string): (next: Found)
    ensures IsTopSection(section) ==> next == found.(top := Some(section))
    ensures IsAdditionalSection(section) ==> next == found.(additional := Some(section))
    ensures !IsTopSection(section) && !IsAdditionalSection(section) ==> next == found
  {
    if IsTopSection(section) then found.(top := Some(section))
    else if IsAdditionalSection(section) then found.(additional := Some(section))
    else found
  }

  /** The loop over `sections`, as a function of the sections seen so far. */
  function Scan(sections: seq<string>): (found: Found)
    ensures found.top.Some? ==> found.top.value in sections && IsTopSection(found.top.value)
    ensures found.additional.Some? ==>
      found.additional.value in sections && IsAdditionalSection(found.additional.value)
    decreases |sections|
  {
    if |sections| == 0 then Found(None, None)
    else ScanStep(Scan(sections[..|sections| - 1]), sections[|sections| - 1])
  }

  /** Python truthiness of a section variable: neither `None` nor empty. */
  predicate Truthy(section: Option<string>)
    ensures Truthy(section) <==> section != None && section != Some("")
  {
    section.Some? && section.value != ""
  }

  /** `rest.strip().split(', ')`: a keyword list, in the reply's order. */
  function KeywordList(rest: string): (keywords: seq<string>)
    ensures |keywords| >= 1
    ensures Join(ListSeparator, keywords) == Strip(rest)
    ensures forall k :: 0 <= k < |keywords| ==> !Contains(keywords[k], ListSeparator)
  {
    JoinSplitOn(Strip(rest), ListSeparator);
    SplitOn(Strip(rest), ListSeparator)
  }

  /** The whole parse, as a function of the reply and the two texts. */
  function ParseReply(reply: string, jobDescription: string, resumeText: string): (a: KeywordAnalysis)
    ensures |a.top| >= 1 && |a.additional| >= 1
    ensures a.original == NoMetrics || a.original == Analyze(jobDescription, resumeText)
  {
    var found := Scan(Sections(reply));
    if !Truthy(found.top) || !Truthy(found.additional) then Fallback
    else match AfterFirst(found.top.value, ':')
      case None => ExceptionFallback(IndexErrorMessage)
      case Some(topRest) =>
        match AfterFirst(found.additional.value, ':')
        case None => ExceptionFallback(IndexErrorMessage)
        case Some(additionalRest) =>
          KeywordAnalysis(Analyze(jobDescription, resumeText), KeywordList(topRest), KeywordList(additionalRest))
  }

  /** `extract_and_suggest_keywords` after the model call, which is replaced by its `reply`. */
  method ExtractAndSuggestKeywords(reply: string, jobDescription: string, resumeText: string)
    returns (result: KeywordAnalysis)
    ensures result == ParseReply(reply, jobDescription, resumeText)
  {
    var sections := Sections(reply);
    var topSection: Option<string> := None;
    var additionalSection: Option<string> := None;
    for i := 0 to |sections|
      invariant Found(topSection, additionalSection) == Scan(sections[..i])
    {
      var section := sections[i];
      ScanSnoc(sections, i);
      if Contains(section, TopHeading) {
        topSection := Some(section);
      } else if Contains(section, AdditionalHeading) {
        additionalSection := Some(section);
      }
    }
    assert sections[..|sections|] == sections;
    if !Truthy(topSection) || !Truthy(additionalSection) {
      return Fallback;
    }
    var topRest := AfterFirst(topSection.value, ':');
    if topRest.None? {
      return ExceptionFallback(IndexErrorMessage);
    }
    var additionalRest := AfterFirst(additionalSection.value, ':');
    if additionalRest.None? {
      return ExceptionFallback(IndexErrorMessage);
    }
    var top := KeywordList(topRest.value);
    var additional := KeywordList(additionalRest.value);
    result := KeywordAnalysis(Analyze(jobDescription, resumeText), top, additional);
  }

  /** One more turn of the loop is one more `ScanStep`. */
  lemma ScanSnoc(sections: seq<string>, i: nat)
    requires i < |sections|
    ensures Scan(sections[..i + 1]) == ScanStep(Scan(sections[..i]), sections[i])
  {
    assert sections[..i + 1][..i] == sections[..i];
  }

  // ---------------------------------------------------------------------
  // Which sections the scan keeps
  // ---------------------------------------------------------------------

  /** Section `i` is the last one holding the top heading. */
  predicate LastTop(sections: seq<string>, i: int) {
    0 <= i < |sections| && IsTopSection(sections[i])
    && forall j :: i < j < |sections| ==> !IsTopSection(sections[j])
  }

  /** Section `i` is the last one the `elif` takes as the additional section. */
  predicate LastAdditional(sections: seq<string>, i: int) {
    0 <= i < |sections| && IsAdditionalSection(sections[i])
    && forall j :: i < j < |sections| ==> !IsAdditionalSection(sections[j])
  }

  /** The scan keeps the last top section, and none exactly when there is none. */
  lemma {:induction false} ScanKeepsLastTop(sections: seq<string>)
    ensures Scan(sections).top.None? <==> forall i :: 0 <= i < |sections| ==> !IsTopSection(sections[i])
    ensures Scan(sections).top.Some? ==>
      exists i :: LastTop(sections, i) && Scan(sections).top.value == sections[i]
    decreases |sections|
  {
    if |sections| > 0 {
      var n := |sections| - 1;
      var prefix := sections[..n];
      ScanKeepsLastTop(prefix);
      assert Scan(sections) == ScanStep(Scan(prefix), sections[n]);
      assert forall i :: 0 <= i < n ==> sections[i] == prefix[i];
      if IsTopSection(sections[n]) {
        assert LastTop(sections, n);
      } else {
        assert Scan(sections).top == Scan(prefix).top;
        if Scan(prefix).top.Some? {
          var i :| LastTop(prefix, i) && Scan(prefix).top.value == prefix[i];
          assert LastTop(sections, i);
        }
      }
    }
  }

  /** The scan keeps the last additional section, and none exactly when there is none. */
  lemma {:induction false} ScanKeepsLastAdditional(sections: seq<string>)
    ensures Scan(sections).additional.None? <==>
      forall i :: 0 <= i < |sections| ==> !IsAdditionalSection(sections[i])
    ensures Scan(sections).additional.Some? ==>
      exists i :: LastAdditional(sections, i) && Scan(sections).additional.value == sections[i]
    decreases |sections|
  {
    if |sections| > 0 {
      var n := |sections| - 1;
      var prefix := sections[..n];
      ScanKeepsLastAdditional(prefix);
      assert Scan(sections) == ScanStep(Scan(prefix), sections[n]);
      assert forall i :: 0 <= i < n ==> sections[i] == prefix[i];
      if IsAdditionalSection(sections[n]) {
        assert LastAdditional(sections, n);
      } else {
        assert Scan(sections).additional == Scan(prefix).additional;
        if Scan(prefix).additional.Some? {
          var i :| LastAdditional(prefix, i) && Scan(prefix).additional.value == prefix[i];
          assert LastAdditional(sections, i);
        }
      }
    }
  }

  /** A later matching section overrides an earlier one. */
  lemma LaterSectionOverrides(sections: seq<string>, section: string)
    ensures IsTopSection(section) ==>
      Scan(sections + [section]) == Scan(sections).(top := Some(section))
    ensures IsAdditionalSection(section) ==>
      Scan(sections + [section]) == Scan(sections).(additional := Some(section))
  {
    assert (sections + [section])[..|sections|] == sections;
  }

  /** A section holding both headings sets only the top list. */
  lemma BothHeadingsSetOnlyTop(sections: seq<string>, section: string)
    requires Contains(section, TopHeading) && Contains(section, AdditionalHeading)
    ensures Scan(sections + [section]).top == Some(section)
    ensures Scan(sections + [section]).additional == Scan(sections).additional
  {
    assert (sections + [section])[..|sections|] == sections;
  }

  // ---------------------------------------------------------------------
  // The parse result
  // ---------------------------------------------------------------------

  /** Without a top section or without an additional section the result is the fallback. */
  lemma MissingHeadingGivesFallback(reply: string, jobDescription: string, resumeText: string)
    requires (forall i :: 0 <= i < |Sections(reply)| ==> !IsTopSection(Sections(reply)[i]))
          || (forall i :: 0 <= i < |Sections(reply)| ==> !IsAdditionalSection(Sections(reply)[i]))
    ensures ParseReply(reply, jobDescription, resumeText) == Fallback
    ensures ParseReply(reply, jobDescription, resumeText).original == Metrics(0, 0, 0.0)
    ensures ParseReply(reply, jobDescription, resumeText).top == [ParseError]
    ensures ParseReply(reply, jobDescription, resumeText).additional == [ParseError]
  {
    ScanKeepsLastTop(Sections(reply));
    ScanKeepsLastAdditional(Sections(reply));
  }

  /** A section holding a heading is non-empty and holds a colon. */
  lemma HeadingSectionHasColon(section: string, heading: string)
    requires Contains(section, heading) && ':' in heading
    ensures section != "" && AfterFirst(section, ':').Some?
  {
    ContainsChar(section, heading, ':');
  }

  /** The scan only ever keeps heading sections, which are never empty, so
      the `not section` test fails exactly when no section was kept. */
  lemma KeptSectionsAreTruthy(sections: seq<string>)
    ensures Truthy(Scan(sections).top) <==> Scan(sections).top.Some?
    ensures Truthy(Scan(sections).additional) <==> Scan(sections).additional.Some?
  {
    var found := Scan(sections);
    if found.top.Some? {
      HeadingSectionHasColon(found.top.value, TopHeading);
    }
    if found.additional.Some? {
      HeadingSectionHasColon(found.additional.value, AdditionalHeading);
    }
  }

  /** With both headings present the parse succeeds: the original metrics are
      `analyze_keywords` of the job description and resume, and each list is
      the text after the first colon of the last matching section, stripped
      and split on ", ". The `except` branch is never taken. */
  lemma BothHeadingsParse(reply: string, jobDescription: string, resumeText: string)
    requires exists i :: 0 <= i < |Sections(reply)| && IsTopSection(Sections(reply)[i])
    requires exists i :: 0 <= i < |Sections(reply)| && IsAdditionalSection(Sections(reply)[i])
    ensures exists t, a ::
      && LastTop(Sections(reply), t)
      && LastAdditional(Sections(reply), a)
      && AfterFirst(Sections(reply)[t], ':').Some?
      && AfterFirst(Sections(reply)[a], ':').Some?
      && ParseReply(reply, jobDescription, resumeText) == KeywordAnalysis(
           Analyze(jobDescription, resumeText),
           KeywordList(AfterFirst(Sections(reply)[t], ':').value),
           KeywordList(AfterFirst(Sections(reply)[a], ':').value))
  {
    var sections := Sections(reply);
    ScanKeepsLastTop(sections);
    ScanKeepsLastAdditional(sections);
    var t :| LastTop(sections, t) && Scan(sections).top.value == sections[t];
    var a :| LastAdditional(sections, a) && Scan(sections).additional.value == sections[a];
    HeadingSectionHasColon(sections[t], TopHeading);
    HeadingSectionHasColon(sections[a], AdditionalHeading);
    var found := Scan(sections);
    assert Truthy(found.top) && Truthy(found.additional);
    var topRest, additionalRest := AfterFirst(sections[t], ':').value, AfterFirst(sections[a], ':').value;
    assert ParseReply(reply, jobDescription, resumeText) == KeywordAnalysis(
      Analyze(jobDescription, resumeText), KeywordList(topRest), KeywordList(additionalRest));
  }

  /** On success, joining each list with ", " restores the stripped text after the colon. */
  lemma ListsRoundTrip(reply: string, jobDescription: string, resumeText: string)
    requires exists i :: 0 <= i < |Sections(reply)| && IsTopSection(Sections(reply)[i])
    requires exists i :: 0 <= i < |Sections(reply)| && IsAdditionalSection(Sections(reply)[i])
    ensures exists t, a ::
      && LastTop(Sections(reply), t)
      && LastAdditional(Sections(reply), a)
      && AfterFirst(Sections(reply)[t], ':').Some?
      && AfterFirst(Sections(reply)[a], ':').Some?
      && Join(ListSeparator, ParseReply(reply, jobDescription, resumeText).top)
           == Strip(AfterFirst(Sections(reply)[t], ':').value)
      && Join(ListSeparator, ParseReply(reply, jobDescription, resumeText).additional)
           == Strip(AfterFirst(Sections(reply)[a], ':').value)
  {
    BothHeadingsParse(reply, jobDescription, resumeText);
  }
}
