/** The high-score bookkeeping of `src/pages/Results.jsx`: the in-memory
    `highScore` state (0 at mount), the stored `quizHighScore` value, the
    effect that runs on mount and whenever `score` or `highScore` changes,
    and the reset button.

    The store only ever receives `score.toString()`, so a present stored
    value is the text of a natural number, which is always truthy, and
    `parseInt` gives that number back. */
module HighScore {
  import opened Wrappers

  datatype State = State(highScore: nat, stored: Option<nat>)

  /** The state at mount: in-memory high score 0, store as left by earlier visits. */
  function Mounted(stored: Option<nat>): (s: State)
    ensures s.highScore == 0 && s.stored == stored
  {
    State(0, stored)
  }

  /** One run of the effect, as written. The in-memory value is first set
      to the stored one if there is one; then, if `score` beats the
      in-memory value the effect captured, the in-memory value and the
      store both become `score`. Both state updates are batched, so the
      later one wins. */
  function Effect(score: nat, s: State): (r: State)
    ensures score > s.highScore ==> r == State(score, Some(score))
    ensures score <= s.highScore ==> r.stored == s.stored
    ensures score <= s.highScore ==> r.highScore == s.stored.GetOr(s.highScore)
  {
    var afterRead := if s.stored.Some? then s.stored.value else s.highScore;
    if score > s.highScore then State(score, Some(score))
    else State(afterRead, s.stored)
  }

  /** The reset button: the store is cleared and the in-memory value is 0. */
  function Reset(s: State): (r: State)
    ensures r.stored == None && r.highScore == 0
  {
    State(0, None)
  }

  /** In-memory value and store agree: the store holds the in-memory value,
      or it is empty and the in-memory value is 0. */
  predicate Agree(s: State)
  {
    s.stored == Some(s.highScore) || (s.stored == None && s.highScore == 0)
  }

  /** Once the two agree, the effect keeps them agreeing and a second run
      changes nothing, so the effect stops re-running. */
  lemma EffectSettlesWhenAgreeing(score: nat, s: State)
    requires Agree(s)
    ensures Agree(Effect(score, s))
    ensures Effect(score, Effect(score, s)) == Effect(score, s)
    ensures Effect(score, s).highScore >= score
  {
  }

  /** On mount one run of the effect reaches the state the page settles in.
      Any positive score becomes both the in-memory and the stored value,
      whatever was stored before; a score of 0 keeps the store. */
  lemma MountSettlesInOneRun(score: nat, stored: Option<nat>)
    ensures Agree(Effect(score, Mounted(stored)))
    ensures Effect(score, Effect(score, Mounted(stored))) == Effect(score, Mounted(stored))
    ensures score > 0 ==> Effect(score, Mounted(stored)) == State(score, Some(score))
    ensures score == 0 ==> Effect(score, Mounted(stored)).stored == stored
  {
  }

  /** After a reset the effect runs again (the in-memory value changed) and
      stores any positive score at once. */
  lemma ResetThenEffect(score: nat, s: State)
    ensures Effect(score, Reset(s)) == if score > 0 then State(score, Some(score)) else State(0, None)
    ensures Agree(Effect(score, Reset(s)))
  {
  }

  /** As written, a lower score replaces a higher stored one: a stored 5
      and a new score of 3 leave 3 in the store. */
  lemma LowerScoreOverwritesStoredBest(score: nat, best: nat)
    requires 0 < score < best
    ensures Effect(score, Mounted(Some(best))).stored == Some(score)
    ensures Effect(score, Mounted(Some(best))).highScore < best
  {
  }

  /** The effect as evidently intended: the stored value (0 when absent) is
      the best so far, and `score` is stored only when it beats it. */
  function IntendedEffect(score: nat, s: State): (r: State)
    ensures r.highScore == if score > s.stored.GetOr(0) then score else s.stored.GetOr(0)
    ensures s.stored.Some? ==> r.stored.Some? && r.stored.value >= s.stored.value
    ensures r.stored.Some? ==> r.stored.value >= score
    ensures r.stored != s.stored ==> r.stored == Some(score)
    ensures r.stored.GetOr(0) == r.highScore
  {
    var saved := s.stored.GetOr(0);
    if score > saved then State(score, Some(score))
    else State(saved, s.stored)
  }

  /** The intended effect settles after one run from mount, never lowers the
      stored best, and leaves it equal to the larger of the old best (0 when
      nothing was stored) and the new score; a first positive score is
      stored. */
  lemma IntendedMountSettles(score: nat, stored: Option<nat>)
    ensures IntendedEffect(score, IntendedEffect(score, Mounted(stored))) == IntendedEffect(score, Mounted(stored))
    ensures stored.Some? ==>
              IntendedEffect(score, Mounted(stored)).stored
                == Some(if score > stored.value then score else stored.value)
    ensures IntendedEffect(score, Mounted(stored)).stored.GetOr(0)
              == if score > stored.GetOr(0) then score else stored.GetOr(0)
    ensures stored.None? && score > 0 ==> IntendedEffect(score, Mounted(stored)).stored == Some(score)
  {
  }
}
