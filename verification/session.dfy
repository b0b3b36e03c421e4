/**
 * The flash-card session of src/components/QuestionCardGroup.tsx: a fixed,
 * non-empty list of questions, the index of the card on screen, and one
 * response slot per question (`null` until the card is judged).
 *
 * The index is not clamped by the handlers themselves; it stays within
 * `0..|questions|` only because Next and the card are rendered while the
 * success screen is not, and Mark Completed only while it is. Those render
 * guards are the preconditions below.
 */
module Session {
  import opened Wrappers
  import opened ReplyParser

  datatype Group = Group(questions: seq<QA>, index: int, responses: seq<Option<bool>>)

  /** The states a mounted group can reach. */
  predicate Valid(g: Group) {
    && |g.questions| >= 1
    && 0 <= g.index <= |g.questions|
    && |g.responses| == |g.questions|
  }

  /** The group mounts with the first card on screen and no responses. */
  function Init(questions: seq<QA>): (g: Group)
    requires |questions| >= 1
    ensures Valid(g)
    ensures g.questions == questions && g.index == 0
    ensures |g.responses| == |questions|
    ensures forall k :: 0 <= k < |g.responses| ==> g.responses[k].None?
  {
    Group(questions, 0, seq(|questions|, _ => None))
  }

  /**
   * `after` keeps every verdict `before` holds: slots only ever go from
   * `null` to a verdict.
   */
  predicate Extends(before: seq<Option<bool>>, after: seq<Option<bool>>) {
    && |after| == |before|
    && forall k :: 0 <= k < |before| && before[k].Some? ==> after[k] == before[k]
  }

  /** Every card has been passed: the success screen replaces the card. */
  predicate ShowSuccess(g: Group) {
    g.index == |g.questions|
  }

  /** `questions[currentQuestionIndex]`, which is `undefined` one past the end. */
  function CurrentQuestion(g: Group): (q: Option<QA>)
    requires Valid(g)
    ensures q.Some? <==> !ShowSuccess(g)
    ensures q.Some? ==> q.value == g.questions[g.index]
  {
    if g.index < |g.questions| then Some(g.questions[g.index]) else None
  }

  /** The first half of `handleRememberedResponse`: the verdict goes into the current slot. */
  function Record(g: Group, remembered: bool): (r: Group)
    requires Valid(g) && !ShowSuccess(g)
    ensures Valid(r)
    ensures r.questions == g.questions && r.index == g.index
    ensures |r.responses| == |g.responses|
    ensures r.responses[g.index] == Some(remembered)
    ensures forall k :: 0 <= k < |g.responses| && k != g.index ==> r.responses[k] == g.responses[k]
  {
    g.(responses := g.responses[g.index := Some(remembered)])
  }

  /** `handleRememberedResponse` with its timeout taken as part of the same step: record, then advance. */
  function Answer(g: Group, remembered: bool): (r: Group)
    requires Valid(g) && !ShowSuccess(g)
    ensures Valid(r)
    ensures r.questions == g.questions && r.index == g.index + 1
    ensures |r.responses| == |g.responses|
    ensures r.responses[g.index] == Some(remembered)
    ensures forall k :: 0 <= k < |g.responses| && k != g.index ==> r.responses[k] == g.responses[k]
  {
    var recorded := Record(g, remembered);
    recorded.(index := recorded.index + 1)
  }

  /** `handlePrevQuestion`: back one card, nothing at the first one. */
  function Prev(g: Group): (r: Group)
    requires Valid(g)
    ensures Valid(r)
    ensures g.index == 0 ==> r == g
    ensures g.index > 0 ==> r.index == g.index - 1
    ensures r.questions == g.questions && r.responses == g.responses
  {
    if g.index > 0 then g.(index := g.index - 1) else g
  }

  /** `handleNextQuestion`, offered only while the success screen is not shown. */
  function Next(g: Group): (r: Group)
    requires Valid(g) && !ShowSuccess(g)
    ensures Valid(r)
    ensures r.index == g.index + 1
    ensures r.questions == g.questions && r.responses == g.responses
  {
    g.(index := g.index + 1)
  }

  /** `handleMarkComplete`, offered only on the success screen: back to the first card, responses kept. */
  function MarkComplete(g: Group): (r: Group)
    requires Valid(g) && ShowSuccess(g)
    ensures Valid(r) && !ShowSuccess(r)
    ensures r.index == 0
    ensures r.questions == g.questions && r.responses == g.responses
  {
    g.(index := 0)
  }

  /** The progress bar's value, `(index + 1) / |questions| * 100`, shown only while a card is. */
  function Progress(g: Group): (p: real)
    requires Valid(g) && !ShowSuccess(g)
    ensures 0.0 < p <= 100.0
    ensures p == 100.0 <==> g.index == |g.questions| - 1
  {
    var n := |g.questions| as real;
    var done := (g.index + 1) as real;
    ProgressBounds(done, n);
    done / n * 100.0
  }

  lemma ProgressBounds(done: real, n: real)
    requires 1.0 <= done <= n
    ensures 0.0 < done / n * 100.0 <= 100.0
    ensures done / n * 100.0 == 100.0 <==> done == n
  {
    var f := done / n;
    assert f * n == done;
    assert 0.0 < f <= 1.0;
    if f == 1.0 {
      assert done == n;
    }
  }

  /** Each Next moves the bar strictly forward. */
  lemma ProgressIncreases(g: Group)
    requires Valid(g) && !ShowSuccess(g) && !ShowSuccess(Next(g))
    ensures Progress(g) < Progress(Next(g))
  {
    var n := |g.questions| as real;
    var a := (g.index + 1) as real;
    assert a / n < (a + 1.0) / n;
  }

  /** Previous undoes Next. */
  lemma PrevAfterNext(g: Group)
    requires Valid(g) && !ShowSuccess(g)
    ensures Prev(Next(g)) == g
  {
  }

  /** Next undoes Previous, wherever Previous moved. */
  lemma NextAfterPrev(g: Group)
    requires Valid(g) && g.index > 0
    ensures !ShowSuccess(Prev(g)) && Next(Prev(g)) == g
  {
  }

  /** Answering the cards from the current one on, one verdict each. */
  function AnswerAll(g: Group, verdicts: seq<bool>): (r: Group)
    requires Valid(g) && g.index + |verdicts| <= |g.questions|
    ensures Valid(r) && r.questions == g.questions
    decreases |verdicts|
  {
    if verdicts == [] then g else AnswerAll(Answer(g, verdicts[0]), verdicts[1..])
  }

  /**
   * Answering consecutive cards fills consecutive slots, in order, moves
   * the index past them and leaves every other slot alone.
   */
  lemma {:induction false} AnswerAllFills(g: Group, verdicts: seq<bool>)
    requires Valid(g) && g.index + |verdicts| <= |g.questions|
    ensures AnswerAll(g, verdicts).index == g.index + |verdicts|
    ensures forall k :: 0 <= k < |verdicts| ==> AnswerAll(g, verdicts).responses[g.index + k] == Some(verdicts[k])
    ensures forall k :: 0 <= k < |g.responses| && !(g.index <= k < g.index + |verdicts|) ==>
      AnswerAll(g, verdicts).responses[k] == g.responses[k]
    decreases |verdicts|
  {
    if verdicts != [] {
      var next := Answer(g, verdicts[0]);
      AnswerAllFills(next, verdicts[1..]);
      var r := AnswerAll(g, verdicts);
      assert r == AnswerAll(next, verdicts[1..]);
      forall k | 0 <= k < |verdicts| ensures r.responses[g.index + k] == Some(verdicts[k]) {
        if k > 0 {
          assert verdicts[1..][k - 1] == verdicts[k];
          assert r.responses[next.index + (k - 1)] == Some(verdicts[1..][k - 1]);
        }
      }
    }
  }

  /** Judging every card of a fresh session reaches the success screen with every verdict recorded. */
  lemma AnswerEveryCard(questions: seq<QA>, verdicts: seq<bool>)
    requires |questions| >= 1 && |verdicts| == |questions|
    ensures ShowSuccess(AnswerAll(Init(questions), verdicts))
    ensures forall k :: 0 <= k < |verdicts| ==> AnswerAll(Init(questions), verdicts).responses[k] == Some(verdicts[k])
  {
    AnswerAllFills(Init(questions), verdicts);
  }
}
