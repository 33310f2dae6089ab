/**
 * The keyword-overlap analyzer, `analyze_keywords` (app.py and
 * Custom_Resume.py carry the same definition): the distinct lower-cased
 * whitespace-separated tokens of the job description that are longer than
 * three characters, and how many of them occur as substrings of the
 * lower-cased candidate text.
 */
module Analyzer {
  import opened Text

  /** The metrics record `{total_keywords, matched_keywords, match_percentage}`;
      the percentage is the exact ratio, before Python's `round(..., 2)`. */
  datatype Metrics = Metrics(total: nat, matched: nat, percentage: real)

  /** The all-zero metrics the keyword parser falls back to. */
  const NoMetrics := Metrics(0, 0, 0.0)

  /** `set([w.strip() for w in tokens if len(w.strip()) > 3])` for the tokens
      of `str.split()`, which are whitespace-free, so `strip` keeps them as they are. */
  function KeywordsOf(tokens: seq<string>): (ks: set<string>)
    requires forall k :: 0 <= k < |tokens| ==> IsWord(tokens[k])
    ensures forall w :: w in ks <==> w in tokens && |w| > 3
  {
    StripAllWords(tokens);
    set w | w in StripAll(tokens) && |w| > 3
  }

  /** The distinct keywords of a job description. */
  function JobKeywords(jobDescription: string): (ks: set<string>)
    ensures forall w :: w in ks <==> w in Words(Lower(jobDescription)) && |w| > 3
  {
    KeywordsOf(Words(Lower(jobDescription)))
  }

  /** The job keywords that occur, as plain substrings, in the lower-cased candidate text. */
  function MatchedKeywords(jobDescription: string, candidate: string): (ms: set<string>)
    ensures ms <= JobKeywords(jobDescription)
    ensures forall k :: k in ms <==> k in JobKeywords(jobDescription) && Contains(Lower(candidate), k)
  {
    set k | k in JobKeywords(jobDescription) && Contains(Lower(candidate), k)
  }

  lemma SubsetCardinality(a: set<string>, b: set<string>)
    requires a <= b
    ensures |a| <= |b|
  {
    assert b == a + (b - a);
  }

  /** `analyze_keywords(job_description, resume_text)`. */
  function Analyze(jobDescription: string, candidate: string): (m: Metrics)
    ensures m.total == |JobKeywords(jobDescription)|
    ensures m.matched == |MatchedKeywords(jobDescription, candidate)|
    ensures m.matched <= m.total
    ensures m.percentage == Percentage(m.matched, m.total)
    ensures m.total == 0 ==> m.percentage == 0.0
    ensures 0.0 <= m.percentage <= 100.0
  {
    var keywords := JobKeywords(jobDescription);
    var matched := MatchedKeywords(jobDescription, candidate);
    SubsetCardinality(matched, keywords);
    Metrics(|keywords|, |matched|, Percentage(|matched|, |keywords|))
  }

  /** `(matched / total) * 100 if total else 0`, as an exact ratio. */
  function Percentage(matched: nat, total: nat): (p: real)
    requires matched <= total
    ensures total == 0 ==> p == 0.0
    ensures total > 0 ==> p * total as real == 100.0 * matched as real
    ensures 0.0 <= p <= 100.0
    ensures 0 < matched == total ==> p == 100.0
  {
    if total == 0 then 0.0
    else
      var p := (matched as real * (1.0 / total as real)) * 100.0;
      assert matched as real * (1.0 / total as real) <= 1.0;
      p
  }

  // ---------------------------------------------------------------------
  // Properties of the analysis
  // ---------------------------------------------------------------------

  /** A keyword counts as matched exactly when it is a job-description token
      longer than three characters that occurs anywhere in the candidate text,
      including inside a longer word. */
  lemma MatchedExactly(jobDescription: string, candidate: string, k: string)
    ensures k in MatchedKeywords(jobDescription, candidate)
        <==> k in Words(Lower(jobDescription)) && |k| > 3 && Contains(Lower(candidate), k)
  {
  }

  /** A keyword that is only a fragment of a longer word of the candidate still matches. */
  lemma FragmentMatches(jobDescription: string, candidate: string, k: string, word: string)
    requires k in JobKeywords(jobDescription)
    requires word in Words(Lower(candidate)) && Contains(word, k)
    ensures k in MatchedKeywords(jobDescription, candidate)
  {
    WordInText(Lower(candidate), word);
    ContainsTransitive(Lower(candidate), word, k);
  }

  /** Every token of `str.split()` occurs in the text it was taken from. */
  lemma {:induction false} WordInText(s: string, w: string)
    requires w in Words(s)
    ensures Contains(s, w)
    decreases |s|
  {
    if IsSpace(s[0]) {
      WordInText(s[1..], w);
      ContainsRight([s[0]], s[1..]);
      assert [s[0]] + s[1..] == s;
      ContainsTransitive(s, s[1..], w);
    } else {
      var t := TakeWord(s);
      if w == t {
        ContainsLeft(t, s[|t|..]);
        assert t + s[|t|..] == s;
      } else {
        WordInText(s[|t|..], w);
        ContainsRight(t, s[|t|..]);
        assert t + s[|t|..] == s;
        ContainsTransitive(s, s[|t|..], w);
      }
    }
  }

  /** Two texts that differ only in the case of their ASCII letters. */
  predicate SameIgnoringCase(a: string, b: string) {
    |a| == |b| && forall i :: 0 <= i < |a| ==> LowerChar(a[i]) == LowerChar(b[i])
  }

  /** Changing the letter case of either input does not change the analysis. */
  lemma CaseInsensitive(jd1: string, jd2: string, c1: string, c2: string)
    requires SameIgnoringCase(jd1, jd2) && SameIgnoringCase(c1, c2)
    ensures Analyze(jd1, c1) == Analyze(jd2, c2)
  {
    assert Lower(jd1) == Lower(jd2);
    assert Lower(c1) == Lower(c2);
  }

  /** In particular, analysing the lower-cased texts gives the same result. */
  lemma LowerCasedInputs(jobDescription: string, candidate: string)
    ensures Analyze(Lower(jobDescription), Lower(candidate)) == Analyze(jobDescription, candidate)
  {
    LowerIdempotent(jobDescription);
    LowerIdempotent(candidate);
  }

  /** The keywords of a job description written as space-separated words are
      the lower-cased words longer than three characters. */
  lemma JobKeywordsOfWords(ws: seq<string>)
    requires forall k :: 0 <= k < |ws| ==> IsWord(ws[k])
    ensures JobKeywords(Join(" ", ws)) == KeywordsOf(LowerAll(ws))
  {
    var lws := LowerAll(ws);
    LowerJoin(ws);
    WordsOfJoin(lws);
    assert Words(Lower(Join(" ", ws))) == lws;
  }

  /** The analysis sees the job description only through its set of keywords. */
  lemma SameKeywordsSameAnalysis(jd1: string, jd2: string, candidate: string)
    requires JobKeywords(jd1) == JobKeywords(jd2)
    ensures Analyze(jd1, candidate) == Analyze(jd2, candidate)
  {
    var m1, m2 := MatchedKeywords(jd1, candidate), MatchedKeywords(jd2, candidate);
    forall k ensures k in m1 <==> k in m2 {
      assert k in m1 <==> k in JobKeywords(jd1) && Contains(Lower(candidate), k);
    }
    assert m1 == m2;
  }

  lemma SameElementsLowerAll(ws1: seq<string>, ws2: seq<string>)
    requires forall w :: w in ws1 <==> w in ws2
    ensures forall w :: w in LowerAll(ws1) <==> w in LowerAll(ws2)
  {
    forall w | w in LowerAll(ws1) ensures w in LowerAll(ws2) {
      var i :| 0 <= i < |ws1| && LowerAll(ws1)[i] == w;
      assert ws1[i] in ws2;
      var j :| 0 <= j < |ws2| && ws2[j] == ws1[i];
      assert LowerAll(ws2)[j] == w;
    }
    forall w | w in LowerAll(ws2) ensures w in LowerAll(ws1) {
      var i :| 0 <= i < |ws2| && LowerAll(ws2)[i] == w;
      assert ws2[i] in ws1;
      var j :| 0 <= j < |ws1| && ws1[j] == ws2[i];
      assert LowerAll(ws1)[j] == w;
    }
  }

  /** Only the set of `split()` tokens of the lower-cased job description
      matters: any layout of the same words, separated by spaces, tabs or
      line breaks, in any order and with any repetitions, gives the same analysis. */
  lemma SameTokensSameAnalysis(jd1: string, jd2: string, candidate: string)
    requires forall w :: w in Words(Lower(jd1)) <==> w in Words(Lower(jd2))
    ensures Analyze(jd1, candidate) == Analyze(jd2, candidate)
  {
    assert JobKeywords(jd1) == JobKeywords(jd2);
    SameKeywordsSameAnalysis(jd1, jd2, candidate);
  }

  /** In particular, reordering or repeating the words of a space-separated
      job description leaves the analysis unchanged. */
  lemma TokenOrderIrrelevant(ws1: seq<string>, ws2: seq<string>, candidate: string)
    requires forall k :: 0 <= k < |ws1| ==> IsWord(ws1[k])
    requires forall k :: 0 <= k < |ws2| ==> IsWord(ws2[k])
    requires forall w :: w in ws1 <==> w in ws2
    ensures Analyze(Join(" ", ws1), candidate) == Analyze(Join(" ", ws2), candidate)
  {
    LowerJoin(ws1);
    WordsOfJoin(LowerAll(ws1));
    LowerJoin(ws2);
    WordsOfJoin(LowerAll(ws2));
    SameElementsLowerAll(ws1, ws2);
    SameTokensSameAnalysis(Join(" ", ws1), Join(" ", ws2), candidate);
  }

  /** Keywords hold no whitespace, so against a resume of space-separated
      words a keyword matches only inside one of those words, never across
      the space between two of them. */
  lemma MatchWithinOneWord(jobDescription: string, ws: seq<string>, k: string) returns (i: nat)
    requires k in MatchedKeywords(jobDescription, Join(" ", ws))
    ensures i < |ws| && Contains(Lower(ws[i]), k)
  {
    assert IsWord(k) && Contains(Lower(Join(" ", ws)), k) by {
      var tokens := Words(Lower(jobDescription));
      assert k in tokens;
      var j :| 0 <= j < |tokens| && tokens[j] == k;
    }
    i := WordInLoweredJoin(ws, k);
  }

  /** A candidate text that contains another one scores at least as well:
      adding text to a resume never loses a match. */
  lemma LargerTextScoresAtLeast(jobDescription: string, smaller: string, larger: string)
    requires Contains(Lower(larger), Lower(smaller))
    ensures Analyze(jobDescription, smaller).matched <= Analyze(jobDescription, larger).matched
    ensures Analyze(jobDescription, smaller).percentage <= Analyze(jobDescription, larger).percentage
  {
    var small := MatchedKeywords(jobDescription, smaller);
    var large := MatchedKeywords(jobDescription, larger);
    forall k | k in small ensures k in large {
      assert Contains(Lower(smaller), k);
      ContainsTransitive(Lower(larger), Lower(smaller), k);
    }
    SubsetCardinality(small, large);
    var before, after := Analyze(jobDescription, smaller), Analyze(jobDescription, larger);
    assert before.matched <= after.matched;
    PercentageMonotone(before.matched, after.matched, before.total);
  }

  lemma PercentageMonotone(m1: nat, m2: nat, total: nat)
    requires m1 <= m2 <= total
    ensures Percentage(m1, total) <= Percentage(m2, total)
  {
    if total > 0 {
      var inverse := 1.0 / total as real;
      ScaleMonotone(m1 as real, m2 as real, inverse);
      ScaleMonotone(m1 as real * inverse, m2 as real * inverse, 100.0);
    }
  }

  lemma ScaleMonotone(a: real, b: real, c: real)
    requires a <= b && 0.0 <= c
    ensures a * c <= b * c
  {
  }

  /** Appending to a resume never lowers its score. */
  lemma AppendScoresAtLeast(jobDescription: string, resume: string, extra: string)
    ensures Analyze(jobDescription, resume).matched <= Analyze(jobDescription, resume + extra).matched
    ensures Analyze(jobDescription, resume).percentage <= Analyze(jobDescription, resume + extra).percentage
  {
    LowerConcat(resume, extra);
    ContainsLeft(Lower(resume), Lower(extra));
    LargerTextScoresAtLeast(jobDescription, resume, resume + extra);
  }

  /** A text that contains every keyword scores 100 percent (when there are keywords). */
  lemma AllKeywordsPresent(jobDescription: string, candidate: string)
    requires forall k :: k in JobKeywords(jobDescription) ==> Contains(Lower(candidate), k)
    ensures Analyze(jobDescription, candidate).matched == Analyze(jobDescription, candidate).total
    ensures |JobKeywords(jobDescription)| > 0 ==> Analyze(jobDescription, candidate).percentage == 100.0
  {
    var ks := JobKeywords(jobDescription);
    var ms := MatchedKeywords(jobDescription, candidate);
    forall k | k in ks ensures k in ms {
    }
    assert ms == ks;
  }
}
