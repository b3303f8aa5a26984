/** The quiz session of `quiz-app/src/pages/Quiz.jsx`: the React state
    `questions`, `currentIndex`, `answers` and `loading`, the fetch callbacks
    that fill it, the answer and "Next"/"Finish" handlers, and the screen
    each state renders.

    JavaScript arrays are modelled as sequences; an `answers` entry that is a
    hole or lies past the end of the array reads as `undefined`, which is
    `None` here. */
module Quiz {
  import opened Wrappers
  import Helpers

  /** What one recorded answer slot holds. */
  type Answer = Option<string>

  /** One entry of the trivia service's `results` array, still entity-encoded. */
  datatype RawQuestion = RawQuestion(question: string, correctAnswer: string, incorrectAnswers: seq<string>)

  /** A formatted question as held in the `questions` state. */
  datatype Question = Question(prompt: string, options: seq<string>, correct: string)

  /** The `(questions, answers)` pair handed to the results page. */
  datatype Payload = Payload(questions: seq<Question>, answers: seq<Answer>)

  /** A question whose correct answer is one of its options. */
  predicate WellFormed(q: Question)
  {
    q.correct in q.options
  }

  // ---------------------------------------------------------------------
  // Formatting fetched questions

  /** Builds one question record: the decoded prompt, the decoded incorrect
      answers followed by the decoded correct answer, shuffled by `swaps`,
      and the decoded correct answer. `decode` stands for the browser's
      entity decoding. */
  function Format(raw: RawQuestion, decode: string -> string, swaps: seq<(nat, nat)>): (q: Question)
    ensures WellFormed(q)
    ensures q.prompt == decode(raw.question)
    ensures q.correct == decode(raw.correctAnswer)
    ensures |q.options| == |raw.incorrectAnswers| + 1
    ensures multiset(q.options)
         == multiset(seq(|raw.incorrectAnswers|, i requires 0 <= i < |raw.incorrectAnswers| => decode(raw.incorrectAnswers[i])))
          + multiset{decode(raw.correctAnswer)}
  {
    var incorrect := seq(|raw.incorrectAnswers|, i requires 0 <= i < |raw.incorrectAnswers| => decode(raw.incorrectAnswers[i]));
    var unshuffled := incorrect + [decode(raw.correctAnswer)];
    Helpers.ShuffleKeepsElements(unshuffled, swaps, decode(raw.correctAnswer));
    Question(decode(raw.question), Helpers.Shuffle(unshuffled, swaps), decode(raw.correctAnswer))
  }

  /** Formats every fetched question in order; `shuffles(i)` is the random
      order chosen for the `i`-th one. */
  function FormatAll(raws: seq<RawQuestion>, decode: string -> string, shuffles: nat -> seq<(nat, nat)>): (qs: seq<Question>)
    ensures |qs| == |raws|
    ensures forall i :: 0 <= i < |qs| ==> qs[i] == Format(raws[i], decode, shuffles(i))
    ensures forall i :: 0 <= i < |qs| ==> WellFormed(qs[i])
  {
    seq(|raws|, i requires 0 <= i < |raws| => Format(raws[i], decode, shuffles(i)))
  }

  // ---------------------------------------------------------------------
  // JavaScript reading of the answers array

  /** `answers[i]`: `undefined` past the end of the array. */
  function AnswerAt(answers: seq<Answer>, i: nat): (a: Answer)
    ensures i >= |answers| ==> a == None
    ensures i < |answers| ==> a == answers[i]
  {
    if i < |answers| then answers[i] else None
  }

  /** JavaScript truthiness of an answer slot: `undefined` and `""` are falsy. */
  predicate Truthy(a: Answer)
  {
    a.Some? && a.value != ""
  }

  /** `answer === correct`: `undefined` never equals a string. */
  predicate Matches(a: Answer, correct: string)
  {
    a == Some(correct)
  }

  /** `updated = [...answers]; updated[i] = a`: writing past the end pads
      the array with holes. */
  function Record(answers: seq<Answer>, i: nat, a: string): (r: seq<Answer>)
    ensures |r| == if i < |answers| then |answers| else i + 1
    ensures AnswerAt(r, i) == Some(a)
    ensures forall j: nat :: j != i ==> AnswerAt(r, j) == AnswerAt(answers, j)
  {
    if i < |answers| then answers[i := Some(a)]
    else answers + seq(i - |answers|, _ => None) + [Some(a)]
  }

  /** Recording twice at one index keeps only the second answer. */
  lemma RecordTwice(answers: seq<Answer>, i: nat, a: string, b: string)
    ensures Record(Record(answers, i, a), i, b) == Record(answers, i, b)
  {
  }

  // ---------------------------------------------------------------------
  // Session state

  datatype QuizState = QuizState(questions: seq<Question>, currentIndex: nat, answers: seq<Answer>, loading: bool)

  /** The state at mount: no questions, index 0, no answers, loading. */
  const Initial: QuizState := QuizState([], 0, [], true)

  /** The fetch resolved with formatted questions. */
  function FetchSucceeded(s: QuizState, qs: seq<Question>): (r: QuizState)
    ensures !r.loading && r.questions == qs
    ensures r.currentIndex == s.currentIndex && r.answers == s.answers
  {
    s.(questions := qs, loading := false)
  }

  /** The fetch, the JSON parse or the formatting failed: loading ends and
      the questions stay as they were. */
  function FetchFailed(s: QuizState): (r: QuizState)
    ensures !r.loading
    ensures r.questions == s.questions && r.currentIndex == s.currentIndex && r.answers == s.answers
  {
    s.(loading := false)
  }

  /** The state a screen can be rendered from: the source dereferences
      `questions[currentIndex]` once loading is over and the list is not
      empty, so the index must be in range then. */
  predicate Renderable(s: QuizState)
  {
    s.loading || |s.questions| == 0 || s.currentIndex < |s.questions|
  }

  /** The answer held for the question on screen. */
  function Selected(s: QuizState): Answer
  {
    AnswerAt(s.answers, s.currentIndex)
  }

  /** The "Next"/"Finish" button is enabled only when the question on
      screen holds a truthy answer. */
  predicate NextEnabled(s: QuizState)
  {
    Truthy(Selected(s))
  }

  /** The button's label. */
  function ButtonLabel(s: QuizState): string
  {
    if s.currentIndex + 1 == |s.questions| then "Finish" else "Next"
  }

  datatype Screen =
    | Loading
    | NoQuestions
    | QuestionScreen(prompt: string, options: seq<string>, selected: Answer,
                     position: nat, count: nat, caption: string, enabled: bool)

  /** The screen a state renders. */
  function View(s: QuizState): (v: Screen)
    requires Renderable(s)
    ensures v == Loading <==> s.loading
    ensures v == NoQuestions <==> !s.loading && |s.questions| == 0
    ensures v.QuestionScreen? ==>
              && v.prompt == s.questions[s.currentIndex].prompt
              && v.options == s.questions[s.currentIndex].options
              && v.selected == Selected(s)
              && (v.enabled <==> NextEnabled(s))
              && v.position == s.currentIndex + 1 <= v.count == |s.questions|
              && (v.caption == "Finish" <==> v.position == v.count)
              && (v.enabled <==> Truthy(v.selected))
  {
    if s.loading then Loading
    else if |s.questions| == 0 then NoQuestions
    else
      var q := s.questions[s.currentIndex];
      QuestionScreen(q.prompt, q.options, Selected(s), s.currentIndex + 1, |s.questions|,
                     ButtonLabel(s), NextEnabled(s))
  }

  // ---------------------------------------------------------------------
  // Handlers

  /** `handleAnswer`: records the answer at the current index. */
  function HandleAnswer(s: QuizState, a: string): (r: QuizState)
    ensures AnswerAt(r.answers, s.currentIndex) == Some(a)
    ensures forall j: nat :: j != s.currentIndex ==> AnswerAt(r.answers, j) == AnswerAt(s.answers, j)
    ensures r.questions == s.questions && r.currentIndex == s.currentIndex && r.loading == s.loading
  {
    s.(answers := Record(s.answers, s.currentIndex, a))
  }

  datatype Outcome = Stay(state: QuizState) | Handoff(payload: Payload)

  /** `nextQuestion`: moves to the next index, or hands the current
      questions and answers to the results page on the last one. */
  function NextQuestion(s: QuizState): (o: Outcome)
    ensures s.currentIndex + 1 < |s.questions| ==>
              o == Stay(s.(currentIndex := s.currentIndex + 1))
    ensures s.currentIndex + 1 >= |s.questions| ==>
              o == Handoff(Payload(s.questions, s.answers))
  {
    if s.currentIndex + 1 < |s.questions| then Stay(s.(currentIndex := s.currentIndex + 1))
    else Handoff(Payload(s.questions, s.answers))
  }

  /** The label reads "Finish" exactly when pressing the button hands off. */
  lemma FinishLabelIffHandoff(s: QuizState)
    requires s.currentIndex < |s.questions|
    ensures ButtonLabel(s) == "Finish" <==> NextQuestion(s).Handoff?
  {
  }

  // ---------------------------------------------------------------------
  // User events

  /** What the user can do on the question screen: click one of the
      rendered option buttons, or click "Next"/"Finish". */
  datatype Event = Choose(option: string) | PressNext

  /** Dispatches an event the way the rendered page does: the loading and
      empty screens have no buttons, only rendered options can be clicked,
      and a disabled button delivers no click. */
  function Step(s: QuizState, e: Event): (o: Outcome)
    requires Renderable(s)
    ensures !View(s).QuestionScreen? ==> o == Stay(s)
    ensures View(s).QuestionScreen? ==>
              && (e.Choose? && e.option in s.questions[s.currentIndex].options ==> o == Stay(HandleAnswer(s, e.option)))
              && (e.Choose? && e.option !in s.questions[s.currentIndex].options ==> o == Stay(s))
              && (e == PressNext && NextEnabled(s) ==> o == NextQuestion(s))
              && (e == PressNext && !NextEnabled(s) ==> o == Stay(s))
    ensures o.Handoff? ==> e == PressNext && NextEnabled(s) && o == NextQuestion(s)
  {
    if !View(s).QuestionScreen? then Stay(s)
    else match e
      case Choose(opt) =>
        if opt in s.questions[s.currentIndex].options then Stay(HandleAnswer(s, opt)) else Stay(s)
      case PressNext =>
        if NextEnabled(s) then NextQuestion(s) else Stay(s)
  }

  /** Feeds events in order; after the handoff the page is gone and the
      remaining events go nowhere. */
  function Run(s: QuizState, es: seq<Event>): Outcome
    requires Inv(s)
    decreases |es|
  {
    if |es| == 0 then Stay(s)
    else
      StepKeepsInv(s, es[0]);
      match Step(s, es[0])
      case Handoff(p) => Handoff(p)
      case Stay(t) => Run(t, es[1..])
  }

  // ---------------------------------------------------------------------
  // Invariants

  /** Every recorded answer is an option of the question at its index. */
  predicate AnswersAreOptions(qs: seq<Question>, answers: seq<Answer>)
  {
    && |answers| <= |qs|
    && forall i :: 0 <= i < |answers| && answers[i].Some? ==> answers[i].value in qs[i].options
  }

  /** Every question holds a truthy answer that is one of its options. */
  predicate Complete(p: Payload)
  {
    && AnswersAreOptions(p.questions, p.answers)
    && forall i: nat :: i < |p.questions| ==> Truthy(AnswerAt(p.answers, i))
  }

  /** What holds while a question is on screen. */
  predicate Inv(s: QuizState)
  {
    && !s.loading
    && s.currentIndex < |s.questions|
    && (forall i :: 0 <= i < |s.questions| ==> WellFormed(s.questions[i]))
    && |s.answers| <= s.currentIndex + 1
    && AnswersAreOptions(s.questions, s.answers)
    && (forall i: nat :: i < s.currentIndex ==> Truthy(AnswerAt(s.answers, i)))
  }

  /** A successful fetch of at least one question from the initial state
      puts the first question on screen with the invariant in force. */
  lemma FetchStartsSession(raws: seq<RawQuestion>, decode: string -> string, shuffles: nat -> seq<(nat, nat)>)
    requires |raws| > 0
    ensures Inv(FetchSucceeded(Initial, FormatAll(raws, decode, shuffles)))
    ensures View(FetchSucceeded(Initial, FormatAll(raws, decode, shuffles))).QuestionScreen?
    ensures FetchSucceeded(Initial, FormatAll(raws, decode, shuffles)).currentIndex == 0
  {
  }

  /** A failed or empty fetch shows "No questions available." and no event
      changes anything afterwards. */
  lemma FailedFetchNeverShowsQuestions(s: QuizState, e: Event)
    requires s == FetchFailed(Initial) || s == FetchSucceeded(Initial, [])
    ensures View(s) == NoQuestions
    ensures Step(s, e) == Stay(s)
  {
  }

  /** One event keeps the invariant, never moves the index backwards and
      hands off only complete answers. */
  lemma StepKeepsInv(s: QuizState, e: Event)
    requires Inv(s)
    ensures Step(s, e).Stay? ==>
              && Inv(Step(s, e).state)
              && Step(s, e).state.questions == s.questions
              && s.currentIndex <= Step(s, e).state.currentIndex <= s.currentIndex + 1
    ensures Step(s, e).Handoff? ==>
              && Step(s, e).payload == Payload(s.questions, s.answers)
              && s.currentIndex + 1 == |s.questions|
              && Complete(Step(s, e).payload)
  {
  }

  /** Any sequence of events from a session in progress either leaves a
      session in progress over the same questions, or hands off exactly one
      complete payload over those questions. */
  lemma {:induction false} RunKeepsInv(s: QuizState, es: seq<Event>)
    requires Inv(s)
    ensures Run(s, es).Stay? ==>
              Inv(Run(s, es).state) && Run(s, es).state.questions == s.questions
              && Run(s, es).state.currentIndex >= s.currentIndex
    ensures Run(s, es).Handoff? ==>
              Complete(Run(s, es).payload) && Run(s, es).payload.questions == s.questions
    decreases |es|
  {
    if |es| > 0 {
      StepKeepsInv(s, es[0]);
      match Step(s, es[0])
      case Handoff(p) =>
      case Stay(t) => RunKeepsInv(t, es[1..]);
    }
  }

  /** The session can always move on: picking a non-empty option of the
      question on screen and then pressing the button either shows the next
      question or hands off. */
  lemma AnswerThenNextProgresses(s: QuizState, opt: string)
    requires Inv(s)
    requires opt in s.questions[s.currentIndex].options && opt != ""
    ensures Step(s, Choose(opt)) == Stay(HandleAnswer(s, opt))
    ensures Step(HandleAnswer(s, opt), PressNext) == NextQuestion(HandleAnswer(s, opt))
    ensures s.currentIndex + 1 < |s.questions| ==>
              Step(HandleAnswer(s, opt), PressNext).state.currentIndex == s.currentIndex + 1
    ensures s.currentIndex + 1 == |s.questions| ==> Step(HandleAnswer(s, opt), PressNext).Handoff?
  {
  }

  /** A completed payload holds one answer per question, no more. */
  lemma CompleteAnswersEveryIndex(p: Payload)
    requires Complete(p) && |p.questions| > 0
    ensures |p.answers| == |p.questions|
  {
    assert Truthy(AnswerAt(p.answers, |p.questions| - 1));
  }
}
