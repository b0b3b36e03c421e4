/**
 * The study screen as a whole: the session of QuestionCardGroup.tsx with
 * the card it renders. The card is keyed by the current index
 * (QuestionCardGroup.tsx line 78), so every change of index mounts a fresh
 * card, and no card is mounted while the success screen is shown.
 */
module Study {
  import opened Wrappers
  import opened ReplyParser
  import Session
  import Card

  datatype App = App(group: Session.Group, card: Option<Card.Card>)

  /** A card is mounted exactly while the success screen is not. */
  predicate Valid(a: App) {
    && Session.Valid(a.group)
    && (a.card.Some? <==> !Session.ShowSuccess(a.group))
  }

  /** The group as it renders after its index moved: a fresh card, or none on the success screen. */
  function Remount(g: Session.Group): (a: App)
    requires Session.Valid(g)
    ensures Valid(a) && a.group == g
    ensures a.card.Some? ==> !a.card.value.showAnswer
  {
    App(g, if Session.ShowSuccess(g) then None else Some(Card.Mount()))
  }

  /** The page mounts the session only when the reply held at least one card. */
  function Start(reply: string): (r: Option<App>)
    ensures r.Some? <==> |Parse(reply)| > 0
    ensures r.Some? ==> Valid(r.value) && r.value.group.questions == Parse(reply)
    ensures r.Some? ==> r.value.group.index == 0 && r.value.card == Some(Card.Mount())
    ensures r.Some? ==> forall k :: 0 <= k < |r.value.group.responses| ==> r.value.group.responses[k].None?
  {
    var questions := Parse(reply);
    if |questions| > 0 then Some(Remount(Session.Init(questions))) else None
  }

  /**
   * The verdict recorded for the card on screen, as the card receives it:
   * once its question has a verdict, the card is read-only, revealed or not.
   */
  function Current(a: App): (v: Option<bool>)
    requires Valid(a) && a.card.Some?
    ensures v == a.group.responses[a.group.index]
    ensures Card.PreviouslyAttempted(v) <==> a.group.responses[a.group.index].Some?
    ensures Card.PreviouslyAttempted(v) ==>
      !Card.JudgeEnabled(a.card.value, v) && !Card.JudgeEnabled(Card.TapToReveal(a.card.value), v)
  {
    a.group.responses[a.group.index]
  }

  /** What the user can press. */
  datatype Action = Reveal | Judge(verdict: bool) | Previous | Next | MarkCompleted

  /** The control is rendered and not disabled. */
  predicate Enabled(a: App, act: Action)
    requires Valid(a)
  {
    match act
    case Reveal => a.card.Some? && Card.RevealVisible(a.card.value)
    case Judge(_) => a.card.Some? && Card.JudgeEnabled(a.card.value, Current(a))
    case Previous => a.group.index != 0
    case Next => !Session.ShowSuccess(a.group)
    case MarkCompleted => Session.ShowSuccess(a.group)
  }

  /**
   * One press. `None` when the control is not on screen or is disabled.
   * Only a judgement writes a slot, only the current one, only when it was
   * empty; every change of index leaves a hidden answer behind.
   */
  function Step(a: App, act: Action): (r: Option<App>)
    requires Valid(a)
    ensures r.Some? <==> Enabled(a, act)
    ensures r.Some? ==> Valid(r.value) && r.value.group.questions == a.group.questions
    ensures r.Some? ==> Session.Extends(a.group.responses, r.value.group.responses)
    ensures r.Some? ==> forall k :: 0 <= k < |a.group.responses| && r.value.group.responses[k] != a.group.responses[k] ==>
      k == a.group.index && act.Judge? && r.value.group.responses[k] == Some(act.verdict)
    ensures r.Some? && r.value.group.index != a.group.index && r.value.card.Some? ==> !r.value.card.value.showAnswer
  {
    if !Enabled(a, act) then None
    else
      match act
      case Reveal => Some(a.(card := Some(Card.TapToReveal(a.card.value))))
      case Judge(verdict) =>
        var (_, calls) := Card.Judge(a.card.value, Current(a), verdict);
        Some(Remount(Session.Answer(a.group, calls[0])))
      case Previous => Some(Remount(Session.Prev(a.group)))
      case Next => Some(Remount(Session.Next(a.group)))
      case MarkCompleted => Some(Remount(Session.MarkComplete(a.group)))
  }

  /** A run of presses, stopping at the first one that is not possible. */
  function Run(a: App, acts: seq<Action>): (r: Option<App>)
    requires Valid(a)
    ensures r.Some? ==> Valid(r.value) && r.value.group.questions == a.group.questions
    ensures r.Some? ==> Session.Extends(a.group.responses, r.value.group.responses)
    decreases |acts|
  {
    if acts == [] then Some(a)
    else
      match Step(a, acts[0])
      case None => None
      case Some(b) => Run(b, acts[1..])
  }

  /** Once every card has a verdict, no sequence of presses changes any of them. */
  lemma AllAnsweredFrozen(a: App, acts: seq<Action>)
    requires Valid(a)
    requires forall k :: 0 <= k < |a.group.responses| ==> a.group.responses[k].Some?
    requires Run(a, acts).Some?
    ensures Run(a, acts).value.group.responses == a.group.responses
  {
    var b := Run(a, acts).value;
    assert forall k :: 0 <= k < |b.group.responses| ==> b.group.responses[k] == a.group.responses[k];
  }

  /** Reveal the card, then judge it: once per verdict. */
  function Drill(verdicts: seq<bool>): (acts: seq<Action>)
    ensures |acts| == 2 * |verdicts|
    ensures forall i :: 0 <= i < |acts| ==> acts[i] == if i % 2 == 0 then Reveal else Judge(verdicts[i / 2])
  {
    if verdicts == [] then [] else [Reveal, Judge(verdicts[0])] + Drill(verdicts[1..])
  }

  /** Revealing and judging each card in turn answers them in turn, as the session's own Answer does. */
  lemma {:induction false} DrillAnswers(a: App, verdicts: seq<bool>)
    requires Valid(a) && a == Remount(a.group)
    requires a.group.index + |verdicts| <= |a.group.questions|
    requires forall k :: a.group.index <= k < a.group.index + |verdicts| ==> a.group.responses[k].None?
    ensures Run(a, Drill(verdicts)) == Some(Remount(Session.AnswerAll(a.group, verdicts)))
    decreases |verdicts|
  {
    if verdicts != [] {
      var acts := Drill(verdicts);
      var shown := a.(card := Some(Card.TapToReveal(a.card.value)));
      assert Step(a, Reveal) == Some(shown);
      var next := Remount(Session.Answer(a.group, verdicts[0]));
      assert Step(shown, Judge(verdicts[0])) == Some(next);
      assert acts[1..][1..] == Drill(verdicts[1..]);
      assert Run(shown, acts[1..]) == Run(next, Drill(verdicts[1..]));
      DrillAnswers(next, verdicts[1..]);
    }
  }

  /**
   * A fresh session, drilled through with one verdict per card, ends on the
   * success screen holding exactly those verdicts.
   */
  lemma StudyEveryCard(questions: seq<QA>, verdicts: seq<bool>)
    requires |verdicts| == |questions| > 0
    ensures Run(Remount(Session.Init(questions)), Drill(verdicts)).Some?
    ensures Session.ShowSuccess(Run(Remount(Session.Init(questions)), Drill(verdicts)).value.group)
    ensures |Run(Remount(Session.Init(questions)), Drill(verdicts)).value.group.responses| == |verdicts|
    ensures forall k :: 0 <= k < |verdicts| ==>
      Run(Remount(Session.Init(questions)), Drill(verdicts)).value.group.responses[k] == Some(verdicts[k])
  {
    DrillAnswers(Remount(Session.Init(questions)), verdicts);
    Session.AnswerEveryCard(questions, verdicts);
  }
}
