/**
 * ATS scoring (`calculate_ats` in resume_app/app.py): the job description's keywords
 * are split into those the resume also has and those it lacks, and the score is the
 * rounded percentage of the former.
 */
module Ats {
  import opened TextUtil
  import opened Seqs
  import opened KeywordExtraction

  /** The dictionary `{"score": ..., "matched": ..., "missing": ...}`. */
  datatype AtsResult = AtsResult(score: nat, matched: seq<string>, missing: seq<string>)

  const EMPTY_RESULT := AtsResult(0, [], [])

  /**
   * `round(num / den)` with ties to the even neighbour (Python's `round`), computed
   * on the exact ratio.
   */
  function RoundHalfEven(num: nat, den: nat): (r: nat)
    requires den > 0
    ensures -(den as int) <= 2 * (r * den - num) <= den
    ensures num % den == 0 ==> r * den == num
  {
    var q := num / den;
    var rem := num % den;
    assert num == q * den + rem;
    if 2 * rem < den then q
    else if 2 * rem > den then q + 1
    else if q % 2 == 0 then q
    else q + 1
  }

  function Max(a: int, b: int): int {
    if a < b then b else a
  }

  /**
   * The body of `calculate_ats` past its two short circuits: split the job
   * description's keywords by membership in the set of resume keywords, de-duplicate,
   * and score.
   */
  function MatchKeywords(jdKeys: seq<string>, resumeKeys: seq<string>): (r: AtsResult)
    ensures forall k :: k in r.matched <==> k in jdKeys && k in resumeKeys
    ensures forall k :: k in r.missing <==> k in jdKeys && k !in resumeKeys
    ensures NoDup(r.matched)
    ensures NoDup(jdKeys) ==> NoDup(r.missing)
  {
    var resumeSet := Elems(resumeKeys);
    var matched := FilterIn(jdKeys, resumeSet, true);
    var missing := FilterIn(jdKeys, resumeSet, false);
    var uniqueJd := Dedup(jdKeys);
    var uniqueMatched := Dedup(matched);
    var score := RoundHalfEven(100 * |uniqueMatched|, Max(1, |uniqueJd|));
    AtsResult(score, uniqueMatched, missing)
  }

  /**
   * `calculate_ats(resume_text, job_description)`: whatever the inputs, `matched`
   * holds the job description's keywords that the resume has, `missing` those it
   * lacks, neither repeats a keyword, and the score is at most 100.
   */
  function CalculateAts(resumeText: string, jobDescription: string): (r: AtsResult)
    ensures forall k :: k in r.matched <==> k in Keywords(jobDescription) && k in Keywords(resumeText)
    ensures forall k :: k in r.missing <==> k in Keywords(jobDescription) && k !in Keywords(resumeText)
    ensures NoDup(r.matched) && NoDup(r.missing)
    ensures r.score <= 100
  {
    KeywordsNoDup(jobDescription);
    if IsBlank(jobDescription) then
      KeywordsOfBlank(jobDescription);
      EMPTY_RESULT
    else
      var jdKeys := Keywords(jobDescription);
      if jdKeys == [] then EMPTY_RESULT
      else
        MatchKeywordsSpec(jdKeys, Keywords(resumeText));
        MatchKeywords(jdKeys, Keywords(resumeText))
  }

  /**
   * On duplicate-free job-description keywords, `matched` and `missing` split them
   * exactly: each keyword lands in exactly one of them, both keep the keywords' order
   * and have no repeats, every matched keyword is a resume keyword and no missing one
   * is; the score is within one half of 100·|matched|/|keywords|, and lies in [0, 100].
   */
  lemma MatchKeywordsSpec(jdKeys: seq<string>, resumeKeys: seq<string>)
    requires NoDup(jdKeys) && jdKeys != []
    ensures var r := MatchKeywords(jdKeys, resumeKeys);
            && (forall k :: k in jdKeys ==> (k in r.matched <==> k !in r.missing))
            && (forall k :: k in r.matched || k in r.missing ==> k in jdKeys)
            && |r.matched| + |r.missing| == |jdKeys|
            && IsSubsequence(r.matched, jdKeys) && IsSubsequence(r.missing, jdKeys)
            && NoDup(r.matched) && NoDup(r.missing)
            && (forall k :: k in r.matched ==> k in resumeKeys)
            && (forall k :: k in r.missing ==> k !in resumeKeys)
            && -|jdKeys| <= 2 * (r.score * |jdKeys| - 100 * |r.matched|) <= |jdKeys|
            && r.score <= 100
            && (r.missing == [] ==> r.score == 100)
            && (r.matched == [] ==> r.score == 0)
  {
    var resumeSet := Elems(resumeKeys);
    var matched := FilterIn(jdKeys, resumeSet, true);
    DedupOfNoDup(matched);
    DedupOfNoDup(jdKeys);
    FilterInSplit(jdKeys, resumeSet);
    PercentBounds(|matched|, |jdKeys|);
  }

  /**
   * A blank job description, or one without keywords, scores 0 with nothing matched
   * and nothing missing, whatever the resume.
   */
  lemma AtsShortCircuit(resumeText: string, jobDescription: string)
    requires IsBlank(jobDescription) || Keywords(jobDescription) == []
    ensures CalculateAts(resumeText, jobDescription) == AtsResult(0, [], [])
  {
  }

  /** Blank job descriptions have no keywords, so the first short circuit is subsumed by the second. */
  lemma AtsBlankHasNoKeywords(jobDescription: string)
    requires IsBlank(jobDescription)
    ensures Keywords(jobDescription) == []
  {
    KeywordsOfBlank(jobDescription);
  }

  /**
   * Past the short circuits, `calculate_ats` splits the job description's keywords
   * exactly into matched and missing (in order, without repeats, by membership among
   * the resume's keywords) and scores within one half of the matched percentage.
   */
  lemma AtsSpec(resumeText: string, jobDescription: string)
    requires !IsBlank(jobDescription) && Keywords(jobDescription) != []
    ensures var r := CalculateAts(resumeText, jobDescription);
            var jdKeys := Keywords(jobDescription);
            && (forall k :: k in jdKeys ==> (k in r.matched <==> k !in r.missing))
            && (forall k :: k in r.matched || k in r.missing ==> k in jdKeys)
            && |r.matched| + |r.missing| == |jdKeys|
            && IsSubsequence(r.matched, jdKeys) && IsSubsequence(r.missing, jdKeys)
            && NoDup(r.matched) && NoDup(r.missing)
            && (forall k :: k in r.matched ==> k in Keywords(resumeText))
            && (forall k :: k in r.missing ==> k !in Keywords(resumeText))
            && -|jdKeys| <= 2 * (r.score * |jdKeys| - 100 * |r.matched|) <= |jdKeys|
            && r.score <= 100
            && (r.missing == [] ==> r.score == 100)
            && (r.matched == [] ==> r.score == 0)
  {
    KeywordsNoDup(jobDescription);
    MatchKeywordsSpec(Keywords(jobDescription), Keywords(resumeText));
  }

  /** A resume holding every keyword of the job description scores 100 with nothing missing. */
  lemma AtsFullCoverage(resumeText: string, jobDescription: string)
    requires !IsBlank(jobDescription) && Keywords(jobDescription) != []
    requires forall k :: k in Keywords(jobDescription) ==> k in Keywords(resumeText)
    ensures CalculateAts(resumeText, jobDescription).score == 100
    ensures CalculateAts(resumeText, jobDescription).matched == Keywords(jobDescription)
    ensures CalculateAts(resumeText, jobDescription).missing == []
  {
    var jdKeys := Keywords(jobDescription);
    var resumeKeys := Keywords(resumeText);
    FilterInAll(jdKeys, Elems(resumeKeys), true);
    KeywordsNoDup(jobDescription);
    DedupOfNoDup(jdKeys);
    MatchKeywordsSpec(jdKeys, resumeKeys);
  }

  /**
   * A resume sharing no keyword with the job description scores 0, matches nothing
   * and misses every job-description keyword, in order.
   */
  lemma AtsNoOverlap(resumeText: string, jobDescription: string)
    requires !IsBlank(jobDescription) && Keywords(jobDescription) != []
    requires forall k :: k in Keywords(jobDescription) ==> k !in Keywords(resumeText)
    ensures CalculateAts(resumeText, jobDescription).score == 0
    ensures CalculateAts(resumeText, jobDescription).matched == []
    ensures CalculateAts(resumeText, jobDescription).missing == Keywords(jobDescription)
  {
    var jdKeys := Keywords(jobDescription);
    var resumeKeys := Keywords(resumeText);
    FilterInAll(jdKeys, Elems(resumeKeys), false);
    KeywordsNoDup(jobDescription);
    MatchKeywordsSpec(jdKeys, resumeKeys);
  }

  /**
   * The rounded percentage of m out of n lies in [0, 100], is 100 when m == n and
   * 0 when m == 0.
   */
  lemma PercentBounds(m: nat, n: nat)
    requires 0 < n && m <= n
    ensures RoundHalfEven(100 * m, n) <= 100
    ensures m == n ==> RoundHalfEven(100 * m, n) == 100
    ensures m == 0 ==> RoundHalfEven(100 * m, n) == 0
  {
    var r := RoundHalfEven(100 * m, n);
    if r > 100 {
      // r * n >= 101 * n, so 2 * (r * n - 100 * m) >= 2 * n > n
      MulStep(r, 100, n);
    }
    if m == n {
      ExactRounding(r, n, 100);
    }
    if m == 0 {
      ExactRounding(r, n, 0);
    }
  }

  lemma MulStep(a: int, k: int, n: int)
    requires n >= 0 && a >= k + 1
    ensures a * n >= k * n + n
  {
    var d := a - k - 1;
    assert d * n >= 0;
    assert a * n == d * n + k * n + n;
  }

  /** A value within one half of the whole number k is k. */
  lemma ExactRounding(r: int, n: int, k: int)
    requires n > 0 && -n <= 2 * (r * n - k * n) <= n
    ensures r == k
  {
    if r > k {
      MulStep(r, k, n);
    } else if r < k {
      MulStep(k, r, n);
    }
  }
}
