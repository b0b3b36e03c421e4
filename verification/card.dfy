/**
 * One flash card of src/components/QuestionCard.tsx. Its only state is
 * whether the answer is revealed; the recorded verdict for its question
 * (`remembered`, `null` until judged) is passed in by the session.
 */
module Card {
  import opened Wrappers

  datatype Card = Card(showAnswer: bool)

  /** A freshly mounted card hides its answer and offers Tap to Reveal. */
  function Mount(): (c: Card)
    ensures !AnswerVisible(c) && RevealVisible(c)
  {
    Card(false)
  }

  /** The answer paragraph is rendered exactly while the answer is revealed. */
  predicate AnswerVisible(c: Card) {
    c.showAnswer
  }

  /** The Tap to Reveal button is rendered exactly while the answer is hidden. */
  predicate RevealVisible(c: Card) {
    !c.showAnswer
  }

  /** The question has a recorded verdict. */
  predicate PreviouslyAttempted(remembered: Option<bool>) {
    remembered.Some?
  }

  /** Yes and No are offered only on a revealed card whose question has no verdict yet. */
  predicate JudgeEnabled(c: Card, remembered: Option<bool>) {
    AnswerVisible(c) && !PreviouslyAttempted(remembered)
  }

  /** `handleTapToReveal`. */
  function TapToReveal(c: Card): (r: Card)
    ensures AnswerVisible(r) && !RevealVisible(r)
  {
    Card(true)
  }

  /** Revealing twice is revealing once. */
  lemma TapToRevealIdempotent(c: Card)
    ensures TapToReveal(TapToReveal(c)) == TapToReveal(c)
  {
  }

  /**
   * `handleRememberedResponse`, reached through Yes or No: the verdict is
   * passed to the session's callback, once, and the answer is hidden again.
   * The result pairs the new card with the callback's invocations, in order.
   */
  function Judge(c: Card, remembered: Option<bool>, verdict: bool): (r: (Card, seq<bool>))
    requires JudgeEnabled(c, remembered)
    ensures r.1 == [verdict]
    ensures RevealVisible(r.0) && !AnswerVisible(r.0)
  {
    (Card(false), [verdict])
  }

  /** The badge a previously attempted card shows. */
  datatype Label = NoLabel | Remembered | Forgot

  function LabelOf(remembered: Option<bool>): (l: Label)
    ensures l == NoLabel <==> !PreviouslyAttempted(remembered)
    ensures l == Remembered <==> remembered == Some(true)
    ensures l == Forgot <==> remembered == Some(false)
  {
    match remembered
    case None => NoLabel
    case Some(true) => Remembered
    case Some(false) => Forgot
  }

  /** The badge tells the recorded verdict back exactly. */
  lemma LabelInjective(a: Option<bool>, b: Option<bool>)
    ensures LabelOf(a) == LabelOf(b) <==> a == b
  {
  }

  /** A card cannot be judged again once its question has a verdict, whatever its state. */
  lemma AttemptedNeverJudged(c: Card, remembered: Option<bool>)
    requires PreviouslyAttempted(remembered)
    ensures !JudgeEnabled(c, remembered)
    ensures !JudgeEnabled(TapToReveal(c), remembered)
  {
  }
}
