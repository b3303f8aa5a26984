/** The score both results pages compute with
    `questions.reduce((acc, q, idx) => answers[idx] === q.correct ? acc + 1 : acc, 0)`,
    and the default payload they read when navigation carried none. */
module Scoring {
  import opened Wrappers
  import opened Quiz

  /** `location.state || {}` with `questions = []` and `answers = []` as defaults. */
  function Received(state: Option<Payload>): (p: Payload)
    ensures state.None? ==> p.questions == [] && p.answers == []
    ensures state.Some? ==> p == state.value
  {
    state.GetOr(Payload([], []))
  }

  /** `answers[idx] || "Not answered"`, as both pages print an answer slot. */
  function ShownAnswer(a: Answer): (t: string)
    ensures Truthy(a) ==> t == a.value
    ensures !Truthy(a) ==> t == "Not answered"
  {
    if Truthy(a) then a.value else "Not answered"
  }

  /** Whether the answer recorded at `i` is the correct one of question `i`. */
  predicate IsCorrect(qs: seq<Question>, answers: seq<Answer>, i: nat)
    requires i < |qs|
  {
    Matches(AnswerAt(answers, i), qs[i].correct)
  }

  /** The left fold over the questions: one point per matching index. */
  function Score(qs: seq<Question>, answers: seq<Answer>): (r: nat)
    ensures r <= |qs|
    decreases |qs|
  {
    if |qs| == 0 then 0
    else Score(qs[..|qs| - 1], answers) + (if IsCorrect(qs, answers, |qs| - 1) then 1 else 0)
  }

  /** Reference definition: the indices whose answer is correct. */
  function CorrectIndices(qs: seq<Question>, answers: seq<Answer>): set<nat>
  {
    set i: nat | i < |qs| && IsCorrect(qs, answers, i)
  }

  /** The indices with no answer at all. */
  function UnansweredIndices(qs: seq<Question>, answers: seq<Answer>): set<nat>
  {
    set i: nat | i < |qs| && AnswerAt(answers, i).None?
  }

  /** The score is the number of indices whose answer is correct. */
  lemma {:induction false} ScoreCountsCorrectIndices(qs: seq<Question>, answers: seq<Answer>)
    ensures Score(qs, answers) == |CorrectIndices(qs, answers)|
    decreases |qs|
  {
    if |qs| > 0 {
      var m := |qs| - 1;
      var prefix := qs[..m];
      ScoreCountsCorrectIndices(prefix, answers);
      var before := CorrectIndices(prefix, answers);
      var here: set<nat> := if IsCorrect(qs, answers, m) then {m} else {};
      assert CorrectIndices(qs, answers) == before + here by {
        forall i: nat | i < m
          ensures IsCorrect(qs, answers, i) == IsCorrect(prefix, answers, i)
        {
          assert prefix[i] == qs[i];
        }
      }
      assert before !! here;
    }
  }

  /** `i < n` as a named predicate. `Range` repeats the bound in plain form
      so that Dafny can see the set is finite, and adds `Below(i, n)` so
      that quantifiers over the set have a term to trigger on. */
  predicate Below(i: nat, n: nat)
  {
    i < n
  }

  /** The indices `{0, …, n - 1}` (see `Below` for the repeated bound). */
  function Range(n: nat): set<nat>
  {
    set i: nat | i < n && Below(i, n)
  }

  /** `Range(n)` has `n` elements. */
  lemma {:induction false} RangeSize(n: nat)
    ensures |Range(n)| == n
  {
    if n > 0 {
      RangeSize(n - 1);
      assert Range(n) == Range(n - 1) + {n - 1};
    }
  }

  /** A subset is no larger than its superset. */
  lemma SubsetSize<T>(a: set<T>, b: set<T>)
    requires a <= b
    ensures |a| <= |b|
  {
    assert b == a + (b - a);
  }

  /** An unanswered index never scores: the correct and the unanswered
      indices are disjoint, so together they number at most the questions. */
  lemma UnansweredNeverScores(qs: seq<Question>, answers: seq<Answer>)
    ensures CorrectIndices(qs, answers) !! UnansweredIndices(qs, answers)
    ensures Score(qs, answers) + |UnansweredIndices(qs, answers)| <= |qs|
  {
    var c := CorrectIndices(qs, answers);
    var u := UnansweredIndices(qs, answers);
    ScoreCountsCorrectIndices(qs, answers);
    RangeSize(|qs|);
    assert c + u <= Range(|qs|) by {
      forall i | i in c + u
        ensures Below(i, |qs|)
      {
      }
    }
    assert |c + u| == |c| + |u|;
    assert |c + u| <= |Range(|qs|)| by {
      SubsetSize(c + u, Range(|qs|));
    }
  }

  /** A perfect score means every answer is correct, and back. */
  lemma PerfectScoreIffAllCorrect(qs: seq<Question>, answers: seq<Answer>)
    ensures Score(qs, answers) == |qs| <==> forall i: nat :: i < |qs| ==> IsCorrect(qs, answers, i)
  {
    ScoreCountsCorrectIndices(qs, answers);
    RangeSize(|qs|);
    var c := CorrectIndices(qs, answers);
    var all := Range(|qs|);
    assert c <= all by {
      forall i | i in c
        ensures Below(i, |qs|)
      {
      }
    }
    if |c| == |qs| {
      if exists i: nat :: i < |qs| && !IsCorrect(qs, answers, i) {
        var i: nat :| i < |qs| && !IsCorrect(qs, answers, i);
        assert c <= all - {i};
        assert i in all;
        SubsetSize(c, all - {i});
      }
    } else if forall i: nat :: i < |qs| ==> IsCorrect(qs, answers, i) {
      assert all <= c;
      SubsetSize(all, c);
    }
  }

  /** The score reads only the first `|qs|` answer slots: entries past the
      last question are ignored. */
  lemma {:induction false} ScoreReadsOnlyQuestionSlots(qs: seq<Question>, answers: seq<Answer>, other: seq<Answer>)
    requires forall i: nat :: i < |qs| ==> AnswerAt(answers, i) == AnswerAt(other, i)
    ensures Score(qs, answers) == Score(qs, other)
    decreases |qs|
  {
    if |qs| > 0 {
      ScoreReadsOnlyQuestionSlots(qs[..|qs| - 1], answers, other);
    }
  }

  /** Without a payload the score is 0 out of 0. */
  lemma MissingPayloadScoresZero()
    ensures Received(None).questions == []
    ensures Score(Received(None).questions, Received(None).answers) == 0
  {
  }

  /** Number of `true` flags. */
  function CountTrue(flags: seq<bool>): (n: nat)
    ensures n <= |flags|
    decreases |flags|
  {
    if |flags| == 0 then 0
    else CountTrue(flags[..|flags| - 1]) + (if flags[|flags| - 1] then 1 else 0)
  }

  /** Any per-question flag that is set exactly on the correct indices
      counts up to the score; this is how both pages' verdicts agree with
      the score they print. */
  lemma {:induction false} FlagsCountScore(qs: seq<Question>, answers: seq<Answer>, flags: seq<bool>)
    requires |flags| == |qs|
    requires forall i: nat :: i < |qs| ==> (flags[i] <==> IsCorrect(qs, answers, i))
    ensures CountTrue(flags) == Score(qs, answers)
    decreases |qs|
  {
    if |qs| > 0 {
      var m := |qs| - 1;
      forall i: nat | i < m
        ensures flags[..m][i] <==> IsCorrect(qs[..m], answers, i)
      {
        assert qs[..m][i] == qs[i];
      }
      FlagsCountScore(qs[..m], answers, flags[..m]);
    }
  }
}
