/** The results page of `quiz-app/src/pages/Results.jsx`: the score line and
    one review card per question. */
module Results {
  import opened Wrappers
  import opened Quiz
  import opened Scoring

  /** One review card: the prompt, the answer text in green when it matches
      and red otherwise, and the correct answer, always shown. */
  datatype Card = Card(prompt: string, yourAnswer: string, green: bool, correctAnswer: string)

  datatype Page = Page(score: nat, total: nat, cards: seq<Card>)

  function CardFor(q: Question, a: Answer): Card
  {
    Card(q.prompt, ShownAnswer(a), Matches(a, q.correct), q.correct)
  }

  /** The rendered page for the navigation state it receives. */
  function Render(state: Option<Payload>): (pg: Page)
    ensures pg.total == |Received(state).questions| == |pg.cards|
    ensures pg.score <= pg.total
    ensures state.None? ==> pg == Page(0, 0, [])
    ensures pg.score == Score(Received(state).questions, Received(state).answers)
    ensures forall i: nat :: i < |pg.cards| ==>
              pg.cards[i] == CardFor(Received(state).questions[i], AnswerAt(Received(state).answers, i))
    ensures forall i: nat :: i < |pg.cards| ==>
              && (pg.cards[i].green <==> IsCorrect(Received(state).questions, Received(state).answers, i))
              && pg.cards[i].correctAnswer == Received(state).questions[i].correct
              && (AnswerAt(Received(state).answers, i).None? ==> pg.cards[i].yourAnswer == "Not answered")
  {
    var p := Received(state);
    Page(Score(p.questions, p.answers), |p.questions|,
         seq(|p.questions|, i requires 0 <= i < |p.questions| => CardFor(p.questions[i], AnswerAt(p.answers, i))))
  }

  /** The green cards number exactly the printed score. */
  lemma GreenCardsCountScore(state: Option<Payload>)
    ensures CountTrue(seq(|Render(state).cards|, i requires 0 <= i < |Render(state).cards| => Render(state).cards[i].green))
         == Render(state).score
  {
    var pg := Render(state);
    var p := Received(state);
    FlagsCountScore(p.questions, p.answers, seq(|pg.cards|, i requires 0 <= i < |pg.cards| => pg.cards[i].green));
  }

  /** On the page, an unanswered question reads "Not answered", its card is
      red, and its correct answer is still shown. */
  lemma UnansweredCard(state: Option<Payload>, i: nat)
    requires i < |Received(state).questions|
    requires AnswerAt(Received(state).answers, i).None?
    ensures Render(state).cards[i].yourAnswer == "Not answered"
    ensures !Render(state).cards[i].green
    ensures Render(state).cards[i].correctAnswer == Received(state).questions[i].correct
  {
  }
}
