/** The results page of `src/pages/Results.jsx`: score, rounded percentage,
    the four-tier message and colours, the high score, and the review with
    tick, cross and correct-answer lines. */
module Report {
  import opened Wrappers
  import opened Quiz
  import opened Scoring
  import HighScore

  /** A JavaScript number as the percentage can take it: `0 / 0` is `NaN`. */
  datatype Percent = NaN | Pct(value: int)

  /** `Math.round((score / total) * 100)`, in exact arithmetic: the nearest
      integer to `100 * score / total`, halves rounded up. */
  function Percentage(score: nat, total: nat): (p: Percent)
    ensures p == NaN <==> total == 0
    ensures p.Pct? ==> 2 * total * p.value - total <= 200 * score < 2 * total * p.value + total
    ensures p.Pct? && score <= total ==> 0 <= p.value <= 100
  {
    if total == 0 then NaN
    else
      var q := (200 * score + total) / (2 * total);
      DivBounds(200 * score + total, 2 * total);
      if score <= total && q > 100 then
        MulMonotone(2 * total, 101, q);
        Pct(q)
      else
        Pct(q)
  }

  /** Euclidean division brackets its dividend. */
  lemma DivBounds(a: nat, d: nat)
    requires d > 0
    ensures d * (a / d) <= a < d * (a / d) + d
  {
  }

  /** All answers correct gives 100%. With fewer than 200 questions, 100%
      also means all answers correct; from 200 on, `total - 1` correct
      answers round up to 100% as well. */
  lemma FullMarksIffAllCorrect(score: nat, total: nat)
    requires 0 < total && score <= total
    ensures score == total ==> Percentage(score, total) == Pct(100)
    ensures total < 200 ==> (Percentage(score, total) == Pct(100) <==> score == total)
  {
    var p := Percentage(score, total).value;
    if score == total {
      assert 2 * total * 99 < 2 * total * p by {
        assert 200 * total < 2 * total * p + total;
      }
      assert 2 * total * p < 2 * total * 101 by {
        assert 2 * total * p - total <= 200 * total;
      }
      MulCancel(2 * total, 99, p);
      MulCancel(2 * total, p, 101);
    } else if total < 200 {
      assert 2 * total * p < 2 * total * 100 by {
        assert 2 * total * p - total <= 200 * score;
        assert 200 * score <= 200 * total - 200;
      }
      MulCancel(2 * total, p, 100);
    }
  }

  /** Dividing both sides of a strict inequality by a positive factor. */
  lemma MulCancel(c: int, a: int, b: int)
    requires c > 0 && c * a < c * b
    ensures a < b
  {
    if a >= b {
      MulMonotone(c, b, a);
    }
  }

  /** Multiplying by a non-negative factor keeps an inequality. */
  lemma MulMonotone(c: int, a: int, b: int)
    requires c >= 0 && a <= b
    ensures c * a <= c * b
  {
  }

  /** The rounding boundary: 199 out of 200 is 99.5%, shown as 100%. */
  lemma NearlyFullRoundsUp()
    ensures Percentage(199, 200) == Pct(100)
  {
  }

  /** `percentage >= k` in JavaScript: false for `NaN`. */
  predicate AtLeast(p: Percent, k: int)
  {
    p.Pct? && p.value >= k
  }

  const Excellent := "Excellent! \U{1F389}"
  const GoodJob := "Good job! \U{1F44D}"
  const NotBad := "Not bad! \U{1F60A}"
  const KeepPracticing := "Keep practicing! \U{1F4AA}"

  /** `getScoreMessage`. */
  function ScoreMessage(p: Percent): (m: string)
    ensures m in {Excellent, GoodJob, NotBad, KeepPracticing}
    ensures m == Excellent <==> AtLeast(p, 80)
    ensures m == GoodJob <==> AtLeast(p, 60) && !AtLeast(p, 80)
    ensures m == NotBad <==> AtLeast(p, 40) && !AtLeast(p, 60)
    ensures m == KeepPracticing <==> !AtLeast(p, 40)
  {
    if AtLeast(p, 80) then Excellent
    else if AtLeast(p, 60) then GoodJob
    else if AtLeast(p, 40) then NotBad
    else KeepPracticing
  }

  /** `getScoreColor`. The page defines it but never calls it: the summary
      lines are coloured by the inline cascade, `ScoreInlineColor`. */
  function ScoreColorClass(p: Percent): (c: string)
    ensures c in {"text-green-600", "text-blue-600", "text-yellow-600", "text-red-600"}
    ensures c == "text-green-600" <==> AtLeast(p, 80)
    ensures c == "text-blue-600" <==> AtLeast(p, 60) && !AtLeast(p, 80)
    ensures c == "text-yellow-600" <==> AtLeast(p, 40) && !AtLeast(p, 60)
    ensures c == "text-red-600" <==> !AtLeast(p, 40)
  {
    if AtLeast(p, 80) then "text-green-600"
    else if AtLeast(p, 60) then "text-blue-600"
    else if AtLeast(p, 40) then "text-yellow-600"
    else "text-red-600"
  }

  /** The inline colour of the score and percentage lines. */
  function ScoreInlineColor(p: Percent): (c: string)
    ensures c in {"#10B981", "#6366F1", "#F59E0B", "#F43F5E"}
    ensures c == "#10B981" <==> AtLeast(p, 80)
    ensures c == "#6366F1" <==> AtLeast(p, 60) && !AtLeast(p, 80)
    ensures c == "#F59E0B" <==> AtLeast(p, 40) && !AtLeast(p, 60)
    ensures c == "#F43F5E" <==> !AtLeast(p, 40)
  {
    if AtLeast(p, 80) then "#10B981"
    else if AtLeast(p, 60) then "#6366F1"
    else if AtLeast(p, 40) then "#F59E0B"
    else "#F43F5E"
  }

  /** The tier index `0..3` of a percentage, from best to worst: the
      reference the three cascades are compared with. */
  function Tier(p: Percent): (t: nat)
    ensures t <= 3
  {
    if AtLeast(p, 80) then 0 else if AtLeast(p, 60) then 1 else if AtLeast(p, 40) then 2 else 3
  }

  /** Message, colour class and inline colour all name the tier of the
      percentage, so two percentages get the same message exactly when they
      get the same colours. */
  lemma TiersAgree(p: Percent, q: Percent)
    ensures ScoreMessage(p) == ScoreMessage(q) <==> Tier(p) == Tier(q)
    ensures ScoreColorClass(p) == ScoreColorClass(q) <==> Tier(p) == Tier(q)
    ensures ScoreInlineColor(p) == ScoreInlineColor(q) <==> Tier(p) == Tier(q)
  {
    assert Excellent != GoodJob && Excellent != NotBad && Excellent != KeepPracticing;
    assert GoodJob != NotBad && GoodJob != KeepPracticing && NotBad != KeepPracticing;
  }

  /** A higher percentage never gets a worse tier. */
  lemma TierMonotone(a: int, b: int)
    requires a <= b
    ensures Tier(Pct(b)) <= Tier(Pct(a))
  {
  }

  /** With the five questions the page is fed, four or five correct is
      "Excellent", three is "Good job", two is "Not bad", fewer is "Keep practicing". */
  lemma FiveQuestionTiers(score: nat)
    requires score <= 5
    ensures Tier(Percentage(score, 5)) == if score >= 4 then 0 else if score == 3 then 1 else if score == 2 then 2 else 3
  {
  }

  /** One review entry: the answer text, a tick, a cross, and the correct
      answer line (absent when not shown). */
  datatype ReviewRow = ReviewRow(prompt: string, yourAnswer: string, tick: bool, cross: bool, correctLine: Option<string>)

  function ReviewRowFor(q: Question, a: Answer): (row: ReviewRow)
    ensures row.tick <==> Matches(a, q.correct)
    ensures row.cross <==> Truthy(a) && !Matches(a, q.correct)
    ensures row.correctLine.Some? <==> !Matches(a, q.correct)
    ensures row.correctLine.Some? ==> row.correctLine.value == q.correct
    ensures !(row.tick && row.cross)
    ensures row.yourAnswer == ShownAnswer(a)
  {
    var matches := a == Some(q.correct);
    ReviewRow(q.prompt, ShownAnswer(a),
              matches, !matches && Truthy(a), if matches then None else Some(q.correct))
  }

  /** The review list, one row per question. */
  function Review(p: Payload): (rows: seq<ReviewRow>)
    ensures |rows| == |p.questions|
    ensures forall i: nat :: i < |rows| ==> rows[i] == ReviewRowFor(p.questions[i], AnswerAt(p.answers, i))
  {
    seq(|p.questions|, i requires 0 <= i < |p.questions| => ReviewRowFor(p.questions[i], AnswerAt(p.answers, i)))
  }

  /** Which rows carry a tick. */
  function Ticks(rows: seq<ReviewRow>): (flags: seq<bool>)
    ensures |flags| == |rows|
    ensures forall i :: 0 <= i < |rows| ==> flags[i] == rows[i].tick
  {
    seq(|rows|, i requires 0 <= i < |rows| => rows[i].tick)
  }

  /** The ticks in the review number exactly the score. */
  lemma ReviewTicksCountScore(p: Payload)
    ensures CountTrue(Ticks(Review(p))) == Score(p.questions, p.answers)
  {
    var flags := Ticks(Review(p));
    forall i: nat | i < |p.questions|
      ensures flags[i] <==> IsCorrect(p.questions, p.answers, i)
    {
      assert Review(p)[i] == ReviewRowFor(p.questions[i], AnswerAt(p.answers, i));
    }
    FlagsCountScore(p.questions, p.answers, flags);
  }

  datatype Page =
    | NoResults
    | Summary(score: nat, total: nat, percent: Percent, message: string,
              inlineColor: string, highScore: nat, review: seq<ReviewRow>)

  /** The rendered page for the navigation state it receives and the
      current high-score state. */
  function Render(state: Option<Payload>, hs: HighScore.State): (pg: Page)
    ensures pg == NoResults <==> |Received(state).questions| == 0
    ensures pg.Summary? ==>
              && pg.total == |Received(state).questions| == |pg.review|
              && pg.score == Score(Received(state).questions, Received(state).answers)
              && pg.percent == Percentage(pg.score, pg.total)
              && pg.percent.Pct? && 0 <= pg.percent.value <= 100
              && pg.message == ScoreMessage(pg.percent)
              && pg.inlineColor == ScoreInlineColor(pg.percent)
              && pg.highScore == hs.highScore
              && pg.review == Review(Received(state))
  {
    var p := Received(state);
    if |p.questions| == 0 then NoResults
    else
      var score := Score(p.questions, p.answers);
      var percent := Percentage(score, |p.questions|);
      Summary(score, |p.questions|, percent, ScoreMessage(percent), ScoreInlineColor(percent), hs.highScore, Review(p))
  }

  /** On the summary, the message and the inline colour of the score lines
      name the same tier. */
  lemma SummaryTiersAgree(state: Option<Payload>, hs: HighScore.State)
    requires Render(state, hs).Summary?
    ensures Tier(Render(state, hs).percent) == 0 <==> Render(state, hs).message == Excellent
    ensures Render(state, hs).message == Excellent <==> Render(state, hs).inlineColor == "#10B981"
    ensures Render(state, hs).message == KeepPracticing <==> Render(state, hs).inlineColor == "#F43F5E"
  {
  }
}
