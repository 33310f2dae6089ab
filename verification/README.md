# Resume optimizer: keyword analysis model

A Dafny model of the local logic of a resume-optimization assistant. The
assistant asks a language model for missing keywords and for a rewritten
resume. The code around those calls is modelled here:

- **Keyword-overlap analyzer** (`analyze_keywords`). It lower-cases both texts and
  splits the job description on whitespace. It keeps the distinct tokens longer
  than three characters. A token counts as matched when it is a plain substring
  of the lower-cased candidate text. The analyzer reports the total, the matched
  count and the percentage.
- **Keyword-reply parser** (the parsing half of `extract_and_suggest_keywords`).
  It cuts the model's reply into sections separated by two consecutive line
  feeds, cutting at the leftmost pair each time. The last section holding
  `Top 22 Keywords:` gives the top list. The last section that holds
  `Additional 10 Keywords:` but not `Top 22 Keywords:` gives the additional
  list. Each list is the text after the section's first colon, stripped and
  split on `", "`. If either
  heading is missing, the result is a fixed fallback record.
- **Chunk joiner** (`extract_resume_text`): joins the document chunks with line feeds.
- **Resume generation** (`generate_resume` in both variants). app.py's
  `generate_resume` builds the steering string `", ".join(top + additional)` and
  asks the model for a resume. It then re-scores the generated text and packs
  the original and final metrics. Custom_Resume.py's `generate_resume` builds no
  steering string: it asks the model for a resume from the job description and
  the current resume only, and returns the metrics of the generated text.

Modules: `Wrappers` (Option), `Text` (the Python string built-ins used:
`lower`, `split()`, `split(sep)`, `split(c, 1)`, `strip`, `join`,
substring `in`; `IsSpace` is the whitespace set that `split()` and `strip()`
cut on), `Analyzer`, `Documents`, `KeywordParser`, `App` (app.py's
`generate_resume`) and `CustomResume` (Custom_Resume.py's `generate_resume`).
`analyze_keywords` and `extract_resume_text` are identical code in app.py and
Custom_Resume.py (Custom_Resume.py only adds comments). Each is defined once here.

Modelling choices:

- Strings are `seq<char>`. Lower-casing maps `A`–`Z` only. Whitespace is Python's
  ASCII whitespace: tab, line feed, vertical tab, form feed, carriage return,
  0x1C–0x1F and space.
- The percentage is the exact real `matched / total * 100`, or `0` when there
  are no keywords.
- The keyword parser is a method with a loop over the sections, as in the
  source. It is proved equal to the function `ParseReply`, and the lemmas are
  stated about that function.
- The parser's `except` branch is modelled: `str(e)` of the `IndexError`
  raised by `split(':', 1)[1]` is `"list index out of range"`. It is proved
  unreachable (`BothHeadingsParse`), because every heading contains a colon.
- Each model call is a function parameter. The keyword call is
  `(job_description, resume_text) -> reply`. The resume call is
  `ResumeRequest -> resume`, where `ResumeRequest` holds the three prompt
  fields. This exposes the steering string the resume call receives.

Some behaviour of the code differs from what its names and prompts suggest.
The model follows the code:

- Punctuation stays attached to tokens. So `"aws,"` (four characters) and
  `"python,"` are keywords, and `"aws,"` does not match a resume saying `aws`.
  Take the job description "Requires Python, AWS, and Docker experience for
  backend development" and the resume "I have years of experience with backend
  development". One might expect 6 keywords with 3 matched. The code counts
  7 keywords with 3 matched.
- The keyword lists are neither lower-cased nor checked to have the 22 and 10
  entries their headings name.
- On the fallback path the original metrics are all zero, even though the job
  description and resume text are at hand.
- The keyword model call sits outside the `try`, so its failures propagate. Only
  parsing failures become the fallback.

## Model

| member | source | states |
|---|---|---|
| `Text.WhitespaceCharacters` | app.py:222 | the whitespace `split()` and `strip()` cut on is exactly space, tab, line feed, carriage return, vertical tab, form feed and the separators 28 to 31 |
| `Text.Contains` | app.py:225-226 | Python's `needle in hay`: the empty string occurs in every text, and an occurring needle is never longer than the text |
| `Text.Join` | app.py:213 | `sep.join(parts)`: `""` for no parts, and the result starts with the first part |
| `Text.Lower` | app.py:219-220 | every character is lower-cased pointwise; the length is kept |
| `Text.Words` | app.py:222 | `str.split()` yields non-empty, whitespace-free tokens |
| `Text.WordsSkipSpace` | app.py:222 | leading whitespace produces no token: the tokens of a whitespace run followed by `s` are the tokens of `s` |
| `Text.WordsFront` | app.py:222 | a whitespace-free, non-empty word followed by whitespace or the end is the first token, followed by the tokens of the rest |
| `Text.WordsOfJoin` | app.py:222 | splitting a space-joined list of whitespace-free words gives the same list back |
| `Text.StripAllWords` | app.py:222-223 | `word.strip()` leaves every `split()` token unchanged |
| `Text.Strip` | app.py:80 | the result is a slice of the input with only whitespace removed on either side, and it neither starts nor ends with whitespace |
| `Text.SplitOn` | app.py:60 | `str.split(sep)` yields at least one piece, the first piece is a prefix of the text, and no piece contains the separator |
| `Text.SplitOnNoEarlierCut` | app.py:60 | `str.split(sep)` cuts at the leftmost occurrence: no occurrence of the separator starts inside the first piece |
| `Text.SplitOnSinglePiece` | app.py:60 | the split has one piece exactly when that piece is the whole text |
| `Text.SplitOnCut` | app.py:60 | with more than one piece, the separator occurs right after the first piece and the other pieces are the split of the text after it |
| `Text.JoinSplitOn` | app.py:80-81 | joining the pieces of `s.split(sep)` with `sep` restores `s` |
| `Text.SplitOnJoin` | app.py:213 | for a one-character separator that occurs in no part, splitting the join on it gives the parts back |
| `Text.AfterFirst` | app.py:80 | `split(':', 1)[1]` exists exactly when the colon occurs, and is the text after its first occurrence |
| `Analyzer.KeywordsOf` | app.py:222-223 | a string is a keyword exactly when it is one of the tokens and is longer than three characters |
| `Analyzer.JobKeywords` | Custom_Resume.py:146-151 | the keywords are exactly the lower-cased whitespace tokens of the job description longer than three characters |
| `Analyzer.MatchedKeywords` | app.py:225-226 | the matched keywords are exactly the keywords that occur in the lower-cased candidate text |
| `Analyzer.Analyze` | app.py:215-232 | total is the number of distinct keywords; matched is the number of matched ones and never exceeds total; the percentage is 0 without keywords and lies in [0, 100] |
| `Analyzer.Percentage` | Custom_Resume.py:160 | 0 when total is 0, otherwise `p * total == 100 * matched`; always within [0, 100]; 100 when every keyword matched |
| `Analyzer.PercentageMonotone` | app.py:231 | more matches over the same total never give a lower percentage |
| `Analyzer.MatchedExactly` | Custom_Resume.py:154-155 | a keyword counts exactly when it is a long job token occurring anywhere in the candidate text |
| `Analyzer.WordInText` | app.py:222 | every whitespace token occurs in the text it came from |
| `Analyzer.FragmentMatches` | app.py:225-226 | a keyword that is only part of a longer word of the candidate still matches |
| `Analyzer.CaseInsensitive` | Custom_Resume.py:146-147 | inputs that differ only in letter case give the same analysis |
| `Analyzer.LowerCasedInputs` | app.py:219-220 | analysing the lower-cased texts gives the same analysis |
| `Analyzer.SameKeywordsSameAnalysis` | app.py:222-231 | two job descriptions with the same keyword set give the same analysis |
| `Analyzer.JobKeywordsOfWords` | app.py:219-223 | the keywords of a space-joined word list are its lower-cased words longer than three characters |
| `Analyzer.SameTokensSameAnalysis` | app.py:219-223 | two job descriptions whose lower-cased texts have the same `split()` tokens, in any layout, order or repetition, give the same analysis |
| `Analyzer.TokenOrderIrrelevant` | app.py:222-223 | reordering or repeating the words of a space-separated job description does not change the analysis |
| `Analyzer.MatchWithinOneWord` | app.py:225-226 | against a resume of space-separated words, a matched keyword lies inside one lower-cased word, never across a space |
| `Analyzer.LargerTextScoresAtLeast` | app.py:225-231 | a candidate text containing another one has at least its match count and percentage |
| `Analyzer.AppendScoresAtLeast` | Custom_Resume.py:154-160 | appending text to a resume never lowers its match count or percentage |
| `Analyzer.AllKeywordsPresent` | Custom_Resume.py:154-160 | a text containing every keyword matches all of them, scoring 100 when there are keywords |
| `Documents.ExtractResumeText` | app.py:209-213 | no chunks give `""`; the length is the chunks' total plus one line feed between neighbours; every chunk occurs in the text |
| `Documents.ExtractSingle` | app.py:209-213 | a single chunk is extracted unchanged |
| `Documents.ExtractAppend` | app.py:209-213 | the chunks keep their order: the text of `a + b` is the text of `a`, a line feed, then the text of `b` |
| `Documents.JoinLength` | Custom_Resume.py:139 | the joined text is as long as the chunks plus the separators |
| `Documents.ChunksRecoverable` | Custom_Resume.py:135-139 | chunks free of line feeds are recovered, in order, by splitting the text on line feeds |
| `Documents.LinesRejoin` | app.py:213 | joining the lines of any text gives the text back |
| `KeywordParser.Sections` | app.py:60 | the sections of a reply hold no `"\n\n"`, and joined by `"\n\n"` they give the stripped reply back |
| `KeywordParser.SectionsCutAtFirstBreak` | app.py:60 | the stripped reply is cut at its leftmost `"\n\n"`: none starts inside the first section, one section means the whole reply, and otherwise the first break follows the first section and the rest are the sections of the text after it |
| `KeywordParser.KeywordList` | app.py:80-81 | a keyword list always has at least one entry, no entry contains ", ", and joining it with ", " gives the stripped text back |
| `KeywordParser.ScanStep` | app.py:66-69 | a top section replaces only the kept top section; otherwise an additional section replaces only the kept additional section; any other section changes nothing |
| `KeywordParser.Scan` | app.py:62-69 | a kept top section is one of the sections and holds the top heading; a kept additional section is one of the sections and holds only the additional heading |
| `KeywordParser.ScanSnoc` | app.py:65-69 | one more turn of the loop is one more step of the scan |
| `KeywordParser.Truthy` | app.py:71 | `not section` is false exactly for a section that is neither `None` nor `""` |
| `KeywordParser.KeptSectionsAreTruthy` | app.py:71 | kept sections hold a heading and so are never empty: the `not section` test fails exactly when no section was kept |
| `KeywordParser.ExceptionFallback` | app.py:99-106 | the `except` record has zero metrics and the error marker with the message in both lists |
| `KeywordParser.ParseReply` | app.py:59-106 | both lists are non-empty; the original metrics are all zero or equal `analyze_keywords` of the job description and resume |
| `KeywordParser.ExtractAndSuggestKeywords` | app.py:59-97 | the loop over the sections computes exactly `ParseReply` |
| `KeywordParser.ScanKeepsLastTop` | app.py:65-67 | the top section kept is the last section holding the top heading, or none when no section holds it |
| `KeywordParser.ScanKeepsLastAdditional` | app.py:65-69 | the additional section kept is the last section holding the additional heading but not the top heading, or none when there is no such section |
| `KeywordParser.LaterSectionOverrides` | app.py:65-69 | a later matching section replaces an earlier one |
| `KeywordParser.BothHeadingsSetOnlyTop` | app.py:66-69 | a section holding both headings sets only the top section (the `elif`) |
| `KeywordParser.MissingHeadingGivesFallback` | app.py:71-78 | without a top section or without an additional section the result is the fallback: both lists `["Error parsing keywords"]`, all metrics 0 |
| `KeywordParser.HeadingSectionHasColon` | app.py:80-81 | a section holding a heading is non-empty and has a colon, so `split(':', 1)[1]` cannot raise |
| `KeywordParser.BothHeadingsParse` | app.py:80-97 | with both headings present, the original metrics are `analyze_keywords(job_description, resume_text)` and each list is the split text after the first colon of the last matching section |
| `KeywordParser.ListsRoundTrip` | app.py:80-81 | on success, each list joined with ", " is the stripped text after its section's first colon |
| `App.SuggestedKeywords` | app.py:299 | the steering string is the top list joined with ", ", then ", ", then the additional list joined with ", " |
| `App.GenerateResume` | app.py:285-315 | the response is the model's resume for the job description, the extracted resume text and the steering string; the original metrics and lists are copied from the parse; the final metrics are `analyze_keywords` of the generated text; after a successful parse, a generated resume containing the original text has at least the original match count and percentage |
| `App.FallbackSteering` | app.py:296-300 | after a failed parse the resume call is steered by the two error markers |
| `App.SteeringIsKeywordLines` | app.py:299 | after a successful parse the steering string is the two stripped keyword lines joined by ", " |
| `CustomResume.GenerateResume` | Custom_Resume.py:163-181 | the response is the model's resume for the extracted text; the metrics are `analyze_keywords` of the response, with matched at most total and a percentage in [0, 100] |

## Left out

- Streamlit UI, file upload, temporary-file handling and `os.unlink` (app.py:318-439, Custom_Resume.py:183-286): presentation and I/O. This includes the `if split_docs` check that reports an empty extraction. The temporary file is not removed on the exception path (app.py:432-435).
- PDF loading and `RecursiveCharacterTextSplitter` chunking (app.py:348-356): third-party code. The model takes the chunk texts as a given sequence.
- All model invocations (`LLMChain.run`, `ChatGroq`, `Ollama`) and the prompt templates. The calls are function parameters: the model does not capture that a completion call may answer differently each time, may fail, or may hang.
- `generate_cover_letter` (app.py:271-283): a single model call returned verbatim, with no local logic.
- chatbot.py: a prompt template, one model call and UI.
- Environment variables and API keys (app.py:23-28, Custom_Resume.py:16-20): process configuration.
- `round(..., 2)` (app.py:94, app.py:231, Custom_Resume.py:160): floating-point rounding. The percentage is the exact ratio.
- Full Unicode behaviour of `str.lower()`, `str.split()` and `str.strip()`: only ASCII letters and ASCII whitespace are modelled.
- The text of the `except` message for exceptions other than the `IndexError` of `split(':', 1)[1]`: nothing else in the `try` block can raise on string inputs.
