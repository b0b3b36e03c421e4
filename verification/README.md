# Flash-card study session: a Dafny model

This project models the core of a flash-card study app written in React.
A language model is asked to write questions and answers in a fixed text
format. The app parses its reply into question/answer pairs and then walks
the user through the cards one at a time. On each card the user reveals
the answer and says whether they remembered it. Each verdict is kept, and
the user can move back and forth, finish, and go round again.

The modules follow the program's structure:

- `Wrappers`: `Option`, which stands for JavaScript's `null` and `undefined`.
- `Text`: the JavaScript string primitives the parser uses, as defined in
  ECMA-262 (sections 22.1.3.32, 22.1.3.9 and 22.1.3.23). These are `trim`,
  `indexOf`, and `split` with a non-empty string separator.
- `Seqs`: `xs.map(f).filter(y => y !== null)`.
- `ReplyParser`: the expression in `src/app/page.tsx` that turns the reply
  into pairs. It trims the reply, cuts it at `???` and then at `###`. A
  chunk whose first or second field is empty *before* trimming is dropped.
  The fields that survive are trimmed.
- `Session`: `QuestionCardGroup`. Its state is the index of the card on
  screen and one response slot per question. Its handlers are record
  (then advance), previous, next and mark completed. It also defines the
  success condition and the progress value.
- `Card`: `QuestionCard`. Its state is whether the answer is revealed. It
  defines reveal, judge, "previously attempted", the visibility of each
  control and the badge.
- `Study`: the group together with the card it renders.
  - Every control is either rendered and enabled, or `Step` answers `None`.
  - The card is keyed by the index, so every change of index mounts a
    fresh card.
  - The page mounts the group only when the reply held at least one pair.
  - The main result: a response slot, once filled, is never written again.

Preconditions stand for render guards. The handlers themselves do not
clamp the index. It stays within `0..|questions|` only because of what is
rendered:

- the card and Next appear only while the success screen does not;
- Mark Completed appears only on the success screen;
- the progress bar appears only while a card is on screen.

Two behaviours of the code shape the model:

- Mark Completed keeps every recorded response and only resets the index
  (`QuestionCardGroup.tsx` lines 66-68). It does not start a fresh session.
- An empty parse never reaches the session. The page mounts the group only
  when `questions.length > 0` (`page.tsx` line 190), so the model requires
  at least one question rather than modelling an empty session.

## Model

| member | source | states |
|---|---|---|
| Text.Trim | src/app/page.tsx:68 | `trim` removes only leading and trailing ECMA-262 white space and line terminators: the result is trimmed, no longer than the input, and empty exactly when the input is all spaces |
| Text.TrimSurrounds | src/app/page.tsx:68 | what `trim` removed is spaces only, on both sides of the result |
| Text.TrimUnique | src/app/page.tsx:68 | `trim` is characterised by its result: any trimmed text surrounded only by spaces is the trim |
| Text.TrimIdempotent | src/app/page.tsx:72 | trimming twice is trimming once |
| Text.IndexOf | src/app/page.tsx:70 | `indexOf` returns the first occurrence at or after the start position, or `-1` (here `None`) exactly when there is none |
| Text.Split | src/app/page.tsx:69-70 | `split` with a non-empty separator always returns at least one piece, even for an empty string |
| Text.SplitJoin | src/app/page.tsx:69-70 | joining the pieces of `split` with the separator gives back the original string |
| Text.SplitPiecesFree | src/app/page.tsx:69-70 | no piece of `split` contains the separator |
| Text.SplitAt | src/app/page.tsx:69-70 | when no occurrence of the separator starts inside the text before it, the first piece is exactly that text |
| Text.SplitAfter | src/app/page.tsx:69-70 | when the text before the first separator avoids the separator's first character, the first piece is exactly that text |
| Text.SplitLengthBound | src/app/page.tsx:69-70 | `split` returns at most one piece more than there are occurrences of the separator |
| Text.TrimCountBound | src/app/page.tsx:68-69 | trimming never adds an occurrence of the separator |
| Seqs.MapFilter | src/app/page.tsx:69-75 | mapping then dropping the `null` results never lengthens the list |
| Seqs.MapFilterAppend | src/app/page.tsx:69-75 | map-then-filter works piecewise on a concatenation, so order is kept |
| Seqs.MapFilterOrigin | src/app/page.tsx:69-75 | every kept value is the image of some element |
| Seqs.MapFilterWithOrigins | src/app/page.tsx:69-75 | the filtered list comes with strictly increasing source positions; each kept value is its element's image; every unlisted element maps to `null` |
| ReplyParser.FirstField | src/app/page.tsx:70 | the destructured `question`, always defined: a prefix of the chunk, free of `###`, and the whole chunk exactly when the chunk holds no `###` |
| ReplyParser.FirstFieldIsFirstPiece | src/app/page.tsx:70 | that prefix is the first piece of `split("###")`, whether or not the chunk holds a `###` |
| ReplyParser.SecondField | src/app/page.tsx:70 | the destructured `answer`: present exactly when the chunk contains `###` (otherwise `undefined`), and itself free of `###` |
| ReplyParser.ParseChunk | src/app/page.tsx:69-73 | the `map` callback; a pair it keeps has trimmed fields (its full behaviour is pinned down by `ParseChunkByFields`) |
| ReplyParser.ParseChunkByFields | src/app/page.tsx:70-72 | a chunk is kept if and only if it holds a `###` (so `answer` is defined) and the destructured `question` and the text after the first `###` (up to a second `###`) are both non-empty before trimming; the pair is those two texts trimmed |
| ReplyParser.Parse | src/app/page.tsx:68-75 | there are never more pairs than `???`-chunks |
| ReplyParser.ParseContent | src/app/page.tsx:68 | a missing message content parses to no pairs; a present one parses as the reply itself |
| ReplyParser.ParseWithOrigins | src/app/page.tsx:69-75 | each pair comes from exactly one `???`-chunk; the chunks are in increasing order; every other chunk was rejected |
| ReplyParser.ParseChunkTrimmed | src/app/page.tsx:72 | a kept chunk's question and answer are fixed points of `trim` |
| ReplyParser.ParsedFieldsTrimmed | src/app/page.tsx:72 | every pair in the parse has a trimmed question and a trimmed answer |
| ReplyParser.ParseCountBound | src/app/page.tsx:69-75 | the parse has at most one more pair than there are occurrences of `???` in the reply |
| ReplyParser.NoFieldSeparatorDropped | src/app/page.tsx:70-71 | a chunk without `###` is dropped, because its answer is `undefined` |
| ReplyParser.FieldsAfterQuestion | src/app/page.tsx:70 | in `q###tail`, with `q` free of `#`, the question field is `q` and the answer field is `tail` up to its first `###` |
| ReplyParser.ExtraFieldsIgnored | src/app/page.tsx:70 | text after a second `###` is discarded and does not get the chunk rejected |
| ReplyParser.BlankFieldsKept | src/app/page.tsx:70-72 | fields made only of spaces pass the emptiness test, which comes before trimming, and give an empty question and an empty answer |
| ReplyParser.BlankReplyYieldsNothing | src/app/page.tsx:68-75 | an empty or all-whitespace reply yields no pairs |
| ReplyParser.ParsePairChunk | src/app/page.tsx:70-72 | a pair with non-empty, trimmed, `#`-free fields, written as `question###answer`, parses back to itself; `?` and `???` are allowed anywhere in either field |
| ReplyParser.ExampleTrailingQuestionMark | src/app/page.tsx:70-72 | the chunk `Q###Really?` parses to `(Q, Really?)`, a pair the whole-reply round trip excludes |
| ReplyParser.PairHoldsNoItemSeparator | src/app/page.tsx:69 | in a rendered reply, no `???` starts inside a well-formed pair, so the cut falls on the `???` written after it |
| ReplyParser.ParseRender | src/app/page.tsx:68-75 | a reply written in the requested format (every pair followed by `???`) parses back to exactly the pairs, in order |
| ReplyParser.ExampleQuestionMark | src/app/page.tsx:68-75 | `What?###Yes???` parses to `(What?, Yes)`: a question ending in `?` goes through |
| ReplyParser.ExampleReply | src/app/page.tsx:68-75 | `Q1###A1???Q2###A2???` parses to `(Q1, A1), (Q2, A2)`; the empty chunk after the last `???` is dropped |
| Session.Init | src/components/QuestionCardGroup.tsx:30-34 | a mounted group starts at the first card, with one empty slot per question |
| Session.ShowSuccess | src/components/QuestionCardGroup.tsx:36-38 | the success screen is shown exactly when the index equals `|questions|` (a definition; `CurrentQuestion` ties it to the missing current question) |
| Session.CurrentQuestion | src/components/QuestionCardGroup.tsx:36-38 | the current question exists exactly when the success screen is not shown, that is when the index is not `|questions|`, and it is the question at the index |
| Session.Record | src/components/QuestionCardGroup.tsx:40-43 | recording puts the verdict in the current slot and leaves the index, the length and every other slot unchanged |
| Session.Answer | src/components/QuestionCardGroup.tsx:40-49 | record-then-advance fills the current slot, changes no other slot, and moves the index forward by exactly one |
| Session.Prev | src/components/QuestionCardGroup.tsx:52-57 | Previous does nothing at the first card; otherwise it moves back exactly one; it never touches responses |
| Session.Next | src/components/QuestionCardGroup.tsx:59-60 | Next, offered only while a card is shown, moves forward exactly one without touching responses, and keeps the index within `0..|questions|` |
| Session.MarkComplete | src/components/QuestionCardGroup.tsx:66-68 | Mark Completed, offered only on the success screen, returns to the first card and keeps every response |
| Session.Progress | src/components/QuestionCardGroup.tsx:71 | while a card is shown, progress lies in `(0, 100]` and is 100 exactly on the last card |
| Session.ProgressIncreases | src/components/QuestionCardGroup.tsx:71 | every Next that lands on a card moves the progress bar strictly forward |
| Session.PrevAfterNext | src/components/QuestionCardGroup.tsx:52-60 | Previous undoes Next |
| Session.NextAfterPrev | src/components/QuestionCardGroup.tsx:52-60 | Next undoes a Previous that moved |
| Session.AnswerAllFills | src/components/QuestionCardGroup.tsx:40-49 | answering consecutive cards fills consecutive slots with the verdicts in order, moves the index past them, and changes no other slot |
| Session.AnswerEveryCard | src/components/QuestionCardGroup.tsx:30-49 | answering every card of a fresh group reaches the success screen with every verdict recorded at its question |
| Card.Mount | src/components/QuestionCard.tsx:29 | a freshly mounted card hides its answer and shows Tap to Reveal |
| Card.AnswerVisible | src/components/QuestionCard.tsx:50-52 | the answer paragraph is rendered exactly while `showAnswer` holds |
| Card.RevealVisible | src/components/QuestionCard.tsx:56-65 | Tap to Reveal is rendered exactly while `showAnswer` does not hold |
| Card.PreviouslyAttempted | src/components/QuestionCard.tsx:40-42 | a card is previously attempted exactly when its verdict is not `null` |
| Card.JudgeEnabled | src/components/QuestionCard.tsx:82-100 | Yes and No are rendered exactly while the answer is shown and the card is not previously attempted |
| Card.TapToReveal | src/components/QuestionCard.tsx:31-33 | revealing shows the answer and hides Tap to Reveal |
| Card.TapToRevealIdempotent | src/components/QuestionCard.tsx:31-33 | revealing twice is the same as revealing once |
| Card.Judge | src/components/QuestionCard.tsx:35-38 | judging calls the session's callback exactly once, with the chosen verdict, and hides the answer again |
| Card.LabelOf | src/components/QuestionCard.tsx:66-80 | the badge reads Remembered if and only if the verdict is true, Forgot if and only if it is false, and is absent if and only if there is no verdict |
| Card.LabelInjective | src/components/QuestionCard.tsx:66-80 | two verdicts show the same badge exactly when they are equal |
| Card.AttemptedNeverJudged | src/components/QuestionCard.tsx:82-100 | a card whose question already has a verdict never offers Yes or No, revealed or not |
| Study.Remount | src/components/QuestionCardGroup.tsx:76-89 | after the index moves, a fresh card with its answer hidden is on screen, or none on the success screen |
| Study.Start | src/app/page.tsx:190-192 | the group is mounted exactly when the parse is non-empty, at the first card, with a fresh card and every slot empty |
| Study.Current | src/components/QuestionCardGroup.tsx:81 | the card receives the verdict stored for its own index; once that slot holds a verdict the card is previously attempted and offers no Yes or No, revealed or not |
| Study.Enabled | src/components/QuestionCardGroup.tsx:94-116 | which presses are possible: Tap to Reveal and Yes/No as the card renders them, Previous unless at the first card, Next only while a card is shown, Mark Completed only on the success screen |
| Study.Step | src/components/QuestionCardGroup.tsx:76-116 | a press succeeds exactly when its control is rendered and enabled. The state stays valid and recorded verdicts are kept. Only a judgement writes a slot: the current one, with its verdict. Any change of index leaves the answer hidden |
| Study.Run | src/components/QuestionCard.tsx:82-100 | over any sequence of presses, no recorded verdict is ever rewritten (write-once slots) |
| Study.AllAnsweredFrozen | src/components/QuestionCardGroup.tsx:66-68 | once every card has a verdict, no sequence of presses (restarts included) changes any of them |
| Study.DrillAnswers | src/components/QuestionCard.tsx:31-38 | revealing and then judging each empty card in turn does what the group's record-then-advance does, card after card |
| Study.StudyEveryCard | src/components/QuestionCardGroup.tsx:30-49 | a freshly mounted session, revealed and judged card by card, ends on the success screen holding exactly the chosen verdicts |

## Left out

- The OpenAI client, the asynchronous completion request, the loading and
  error flags and the `try`/`catch` around them. These are network I/O and
  a foreign library. The reply text is a parameter of `ReplyParser.Parse`.
- Example texts, dialogs, the text area, the step cards and the summary
  accordion. These are presentation only.
- `src/components/AnimatedResult.tsx` is not part of this model. It holds
  animation variants with floating-point timings.
- The 100 ms `setTimeout` between recording a verdict and advancing, and
  any click made during it. Record-then-advance is one atomic step
  (`Session.Answer`). The card's own "hide the answer" is subsumed by the
  remount that the change of index causes.
- The group's local `remembered` state. It is written but never read when
  rendering, so it is dead state. Its read of `responses[index + 1]` in
  `handleNextQuestion`, one past the end on the last card, is left out with it.
- `Session.Progress`: computed over exact reals, not IEEE doubles. The
  value `(index + 1) / n * 100` is the same fraction; rounding is not
  modelled.
- `ReplyParser.ParseCountBound`: counts overlapping occurrences of `???`,
  so `????` counts as two. That makes the bound weaker than one over
  non-overlapping occurrences.
- `ReplyParser.ExtraFieldsIgnored`: stated for question and answer texts
  without `#`. The general form, that a chunk's outcome depends only on
  its first two fields, is `ReplyParser.ParseChunkByFields`.
- `ReplyParser.ParseRender`: stated for pairs with non-empty, trimmed
  fields that contain no `#` and no `???`, and whose answer does not end in
  `?`. This is a sufficient condition, not a necessary one. An answer
  ending in `?` really does merge with the following `???`. Some texts with
  `#` would survive, but `#` at the end of a question would not.
- `ReplyParser.ParsePairChunk`: stated for fields with no `#`. A question
  ending in `#` would move the first `###` to the left, so some `#` must be
  excluded; the round trip is not claimed for the `#` placements that
  would survive.
- `Text.Split`: only a non-empty string separator is modelled, which is
  all the parser uses. Splitting by the empty string or by a regular
  expression is out of scope.
- Strings are sequences of Unicode code points (Dafny `char`), where
  JavaScript works on UTF-16 code units. The two agree on the ASCII
  separators and on every white-space character `trim` removes. Characters
  outside the Basic Multilingual Plane count as one position here and as
  two in JavaScript.
- Styling, icons and the UI component library.
