/**
 * The keyword-overlap scorer `calculateAtsScore`: both texts are lower-cased
 * and split into word tokens (`/\b\w+\b/g`); the resume's tokens form a set,
 * the job description's tokens are de-duplicated in first-occurrence order,
 * the matches are the job tokens the resume contains, and the score is the
 * rounded percentage of job tokens matched.
 */
module AtsScore {
  import opened Text
  import opened Sequences

  /** A non-empty run of word characters. */
  predicate IsWord(w: string)
  {
    w != [] && forall i :: 0 <= i < |w| ==> IsWordChar(w[i])
  }

  /** Length of the run of word characters that starts `s`. */
  function WordRunLength(s: string): (n: nat)
    ensures n <= |s|
    ensures forall i :: 0 <= i < n ==> IsWordChar(s[i])
    ensures n < |s| ==> !IsWordChar(s[n])
  {
    if s == [] || !IsWordChar(s[0]) then 0 else 1 + WordRunLength(s[1..])
  }

  /**
   * `s.match(/\b\w+\b/g) || []`: scanning left to right, a match starts at a
   * word character preceded by a non-word character (or the start) and, being
   * greedy, runs to the next non-word character (or the end).
   */
  function Words(s: string): (r: seq<string>)
    ensures forall i :: 0 <= i < |r| ==> IsWord(r[i])
    decreases |s|
  {
    if s == [] then []
    else if !IsWordChar(s[0]) then Words(s[1..])
    else
      var n := WordRunLength(s);
      [s[..n]] + Words(s[n..])
  }

  /** A run of word characters that stops at the end of `a` stops there also when `a` is extended. */
  lemma {:induction false} WordRunLengthAppend(a: string, b: string)
    requires WordRunLength(a) < |a| || b == [] || !IsWordChar(b[0])
    ensures WordRunLength(a + b) == WordRunLength(a)
  {
    if a != [] && IsWordChar(a[0]) {
      assert (a + b)[1..] == a[1..] + b;
      WordRunLengthAppend(a[1..], b);
    }
  }

  /** A non-word character separates tokens: the tokens of `a`, a separator and `b` are those of `a` then those of `b`. */
  lemma {:induction false} WordsAroundSeparator(a: string, c: char, b: string)
    requires !IsWordChar(c)
    ensures Words(a + [c] + b) == Words(a) + Words(b)
    decreases |a|
  {
    var s := a + [c] + b;
    if a == [] {
      assert s[1..] == b;
    } else if !IsWordChar(a[0]) {
      assert s[1..] == a[1..] + [c] + b;
      WordsAroundSeparator(a[1..], c, b);
    } else {
      var n := WordRunLength(a);
      WordRunLengthAppend(a, [c] + b);
      assert s == a + ([c] + b);
      assert s[..n] == a[..n];
      assert s[n..] == a[n..] + [c] + b;
      WordsAroundSeparator(a[n..], c, b);
    }
  }

  /** A string that is one word is one token. */
  lemma WordsOfWord(w: string)
    requires IsWord(w)
    ensures Words(w) == [w]
  {
    var n := WordRunLength(w);
    assert n == |w|;
    assert w[..n] == w && w[n..] == [];
  }

  /** The resume's token set (`new Set(resumeText.toLowerCase().match(...))`). */
  function ResumeWords(resumeText: string): set<string>
  {
    Elements(Words(Lower(resumeText)))
  }

  /** The job description's tokens, lower-cased, with repetitions. */
  function JobWords(jobDescription: string): seq<string>
  {
    Words(Lower(jobDescription))
  }

  /** `[...new Set(jobWords)]`. */
  function UniqueJobWords(jobDescription: string): (r: seq<string>)
    ensures NoDuplicates(r)
    ensures forall w :: w in r <==> w in JobWords(jobDescription)
    ensures InFirstOccurrenceOrder(r, JobWords(jobDescription))
    ensures |r| == |Elements(JobWords(jobDescription))|
  {
    var r := Dedup(JobWords(jobDescription));
    DistinctCardinality(r);
    assert Elements(r) == Elements(JobWords(jobDescription));
    r
  }

  /** `Math.round` of a percentage, or the NaN of `0 / 0`. */
  datatype Score = Rounded(percent: nat) | NaN

  /**
   * `Math.round(m / t * 100)` for `t > 0`, in exact arithmetic: the integer
   * nearest to `100 * m / t`, halves rounding up.
   */
  function RoundPercent(m: nat, t: nat): (r: nat)
    requires t > 0
    ensures t * (2 * r - 1) <= 200 * m < t * (2 * r + 1)
  {
    var q := (200 * m + t) / (2 * t);
    assert 200 * m + t == 2 * t * q + (200 * m + t) % (2 * t);
    q
  }

  /** For a ratio in [0, 1] the percentage is in [0, 100]; it is 100 exactly when under half a percent is missing, 0 exactly when under half a percent matched. */
  lemma RoundPercentRange(m: nat, t: nat)
    requires 0 < t && m <= t
    ensures RoundPercent(m, t) <= 100
    ensures RoundPercent(m, t) == 100 <==> 200 * (t - m) <= t
    ensures RoundPercent(m, t) == 0 <==> 200 * m < t
  {
    var r := RoundPercent(m, t);
    if r > 100 {
      MultiplyMonotone(t, 201, 2 * r - 1);
    } else if r < 100 {
      MultiplyMonotone(t, 2 * r + 1, 199);
    }
    if r > 0 {
      MultiplyMonotone(t, 1, 2 * r - 1);
    }
  }

  lemma MultiplyMonotone(t: nat, x: int, y: int)
    requires x <= y
    ensures t * x <= t * y
  {
  }

  /** More matches never give a lower percentage. */
  lemma RoundPercentMonotone(m1: nat, m2: nat, t: nat)
    requires 0 < t && m1 <= m2
    ensures RoundPercent(m1, t) <= RoundPercent(m2, t)
  {
    var r1, r2 := RoundPercent(m1, t), RoundPercent(m2, t);
    if r1 > r2 {
      MultiplyMonotone(t, 2 * r2 + 1, 2 * r1 - 1);
    }
  }

  /** What `calculateAtsScore` returns. */
  datatype AtsResult = AtsResult(score: Score, matchCount: nat, totalKeywords: nat, matches: seq<string>)

  /** `calculateAtsScore(resumeText, jobDescription)`. */
  function CalculateAtsScore(resumeText: string, jobDescription: string): (r: AtsResult)
    ensures r.totalKeywords == |Elements(JobWords(jobDescription))|
    ensures r.matchCount == |r.matches| <= r.totalKeywords
    ensures forall w :: w in r.matches <==> w in JobWords(jobDescription) && w in ResumeWords(resumeText)
    ensures IsSubsequence(r.matches, UniqueJobWords(jobDescription))
    ensures NoDuplicates(r.matches)
    ensures InFirstOccurrenceOrder(r.matches, JobWords(jobDescription))
    ensures r.matchCount == |Elements(JobWords(jobDescription)) * ResumeWords(resumeText)|
    ensures r.score == NaN <==> r.totalKeywords == 0
    ensures r.totalKeywords > 0 ==> r.score == Rounded(RoundPercent(r.matchCount, r.totalKeywords))
  {
    var resumeWords := ResumeWords(resumeText);
    var uniqueJobWords := UniqueJobWords(jobDescription);
    var matches := Filter(uniqueJobWords, (w: string) => w in resumeWords);
    MatchesAreOverlap(matches, uniqueJobWords, JobWords(jobDescription), resumeWords);
    var score := if |uniqueJobWords| == 0 then NaN
                 else Rounded(RoundPercent(|matches|, |uniqueJobWords|));
    AtsResult(score, |matches|, |uniqueJobWords|, matches)
  }

  /** The matches kept from the distinct job words are exactly the overlap of the two token sets, without repetition, in job order. */
  lemma MatchesAreOverlap(matches: seq<string>, unique: seq<string>, job: seq<string>, known: set<string>)
    requires IsSubsequence(matches, unique)
    requires forall w :: w in matches <==> w in unique && w in known
    requires NoDuplicates(unique) && InFirstOccurrenceOrder(unique, job)
    requires forall w :: w in unique <==> w in job
    ensures NoDuplicates(matches)
    ensures InFirstOccurrenceOrder(matches, job)
    ensures |matches| == |Elements(job) * known|
  {
    SubsequenceNoDuplicates(matches, unique);
    SubsequenceKeepsOrder(matches, unique, job);
    DistinctCardinality(matches);
    assert Elements(matches) == Elements(job) * known;
  }

  /** Whenever the job description has a token, the score is a percentage between 0 and 100. */
  lemma ScoreIsPercentage(resumeText: string, jobDescription: string)
    requires JobWords(jobDescription) != []
    ensures var r := CalculateAtsScore(resumeText, jobDescription);
      r.score.Rounded? && r.score.percent <= 100
  {
    var r := CalculateAtsScore(resumeText, jobDescription);
    assert JobWords(jobDescription)[0] in Elements(JobWords(jobDescription));
    RoundPercentRange(r.matchCount, r.totalKeywords);
  }

  /** A job description without tokens gives no keywords, no matches and the NaN of `0 / 0`. */
  lemma NoJobTokensGivesNaN(resumeText: string, jobDescription: string)
    requires JobWords(jobDescription) == []
    ensures CalculateAtsScore(resumeText, jobDescription) == AtsResult(NaN, 0, 0, [])
  {
    assert Elements(JobWords(jobDescription)) == {};
  }

  /** A resume that contains every job token scores 100. */
  lemma AllKeywordsGiveFullScore(resumeText: string, jobDescription: string)
    requires JobWords(jobDescription) != []
    requires forall w :: w in JobWords(jobDescription) ==> w in ResumeWords(resumeText)
    ensures CalculateAtsScore(resumeText, jobDescription).score == Rounded(100)
  {
    var r := CalculateAtsScore(resumeText, jobDescription);
    var jobSet := Elements(JobWords(jobDescription));
    assert jobSet * ResumeWords(resumeText) == jobSet;
    assert JobWords(jobDescription)[0] in jobSet;
    RoundPercentRange(r.matchCount, r.totalKeywords);
  }

  /** A resume that shares no token with the job description scores 0. */
  lemma NoKeywordsGiveZeroScore(resumeText: string, jobDescription: string)
    requires JobWords(jobDescription) != []
    requires forall w :: w in JobWords(jobDescription) ==> w !in ResumeWords(resumeText)
    ensures CalculateAtsScore(resumeText, jobDescription).score == Rounded(0)
  {
    var r := CalculateAtsScore(resumeText, jobDescription);
    var jobSet := Elements(JobWords(jobDescription));
    assert jobSet * ResumeWords(resumeText) == {};
    assert JobWords(jobDescription)[0] in jobSet;
    RoundPercentRange(r.matchCount, r.totalKeywords);
  }

  /** Matching is case-insensitive: scoring the lower-cased texts gives the same result. */
  lemma ScoringIgnoresCase(resumeText: string, jobDescription: string)
    ensures CalculateAtsScore(Lower(resumeText), Lower(jobDescription))
         == CalculateAtsScore(resumeText, jobDescription)
  {
    LowerIdempotent(resumeText);
    LowerIdempotent(jobDescription);
  }

  /** Swapping two parts of the resume joined by a non-word character does not change the result. */
  lemma ResumeOrderIsIrrelevant(a: string, c: char, b: string, jobDescription: string)
    requires !IsWordChar(c)
    ensures CalculateAtsScore(a + [c] + b, jobDescription) == CalculateAtsScore(b + [c] + a, jobDescription)
  {
    ResumeSeparatorWords(a, c, b);
    ResumeSeparatorWords(b, c, a);
    assert ResumeWords(a + [c] + b) == ResumeWords(b + [c] + a);
  }

  /** The resume repeated after a non-word character gives the same result as the resume alone. */
  lemma ResumeRepetitionIsIrrelevant(a: string, c: char, jobDescription: string)
    requires !IsWordChar(c)
    ensures CalculateAtsScore(a + [c] + a, jobDescription) == CalculateAtsScore(a, jobDescription)
  {
    ResumeSeparatorWords(a, c, a);
    assert ResumeWords(a + [c] + a) == ResumeWords(a);
  }

  /**
   * Text appended to a resume after a non-word character never lowers its
   * score. Without the separator the last token could change and the score drop.
   */
  lemma ExtendingResumeNeverLowersScore(a: string, c: char, b: string, jobDescription: string)
    requires !IsWordChar(c) && JobWords(jobDescription) != []
    ensures CalculateAtsScore(a, jobDescription).score.percent
         <= CalculateAtsScore(a + [c] + b, jobDescription).score.percent
  {
    ResumeSeparatorWords(a, c, b);
    var jobSet := Elements(JobWords(jobDescription));
    var before := CalculateAtsScore(a, jobDescription);
    var after := CalculateAtsScore(a + [c] + b, jobDescription);
    assert JobWords(jobDescription)[0] in jobSet;
    assert jobSet * ResumeWords(a) <= jobSet * ResumeWords(a + [c] + b);
    SubsetCardinality(jobSet * ResumeWords(a), jobSet * ResumeWords(a + [c] + b));
    RoundPercentMonotone(before.matchCount, after.matchCount, before.totalKeywords);
  }

  lemma SubsetCardinality(x: set<string>, y: set<string>)
    requires x <= y
    ensures |x| <= |y|
  {
    assert y == x + (y - x);
  }

  /** The resume token set of two parts joined by a separator is the union of theirs. */
  lemma ResumeSeparatorWords(a: string, c: char, b: string)
    requires !IsWordChar(c)
    ensures ResumeWords(a + [c] + b) == ResumeWords(a) + ResumeWords(b)
  {
    LowerAppend(a + [c], b);
    LowerAppend(a, [c]);
    assert Lower([c]) == [c];
    WordsAroundSeparator(Lower(a), c, Lower(b));
  }

  /** Words joined by single spaces. */
  function Spaced(ws: seq<string>): string
  {
    if ws == [] then [] else if |ws| == 1 then ws[0] else ws[0] + [' '] + Spaced(ws[1..])
  }

  /** Tokenising words joined by spaces gives back exactly those words. */
  lemma {:induction false} WordsOfSpaced(ws: seq<string>)
    requires forall i :: 0 <= i < |ws| ==> IsWord(ws[i])
    ensures Words(Spaced(ws)) == ws
  {
    if |ws| == 1 {
      WordsOfWord(ws[0]);
    } else if |ws| > 1 {
      WordsAroundSeparator(ws[0], ' ', Spaced(ws[1..]));
      WordsOfWord(ws[0]);
      WordsOfSpaced(ws[1..]);
    }
  }
}
