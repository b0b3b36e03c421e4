/**
 * Turning the language model's raw reply into question/answer pairs
 * (src/app/page.tsx, lines 68-76). The reply is trimmed, cut into chunks at
 * every `???`, each chunk is cut at every `###`, and a chunk survives only
 * when the text before its first `###` and the text after it (up to the
 * next `###`, if any) are both non-empty before trimming.
 */
module ReplyParser {
  import opened Wrappers
  import opened Text
  import opened Seqs

  datatype QA = QA(question: string, answer: string)

  const ItemSeparator: string := "???"
  const FieldSeparator: string := "###"

  /**
   * The destructured `question`, `split("###")[0]`: the text before the first
   * `###`, or the whole chunk when there is none. It is always defined.
   */
  function FirstField(chunk: string): (r: string)
    ensures |r| <= |chunk| && chunk[..|r|] == r
    ensures r == chunk <==> !Contains(chunk, FieldSeparator)
    ensures !Contains(r, FieldSeparator)
  {
    match IndexOf(chunk, FieldSeparator, 0)
    case None => chunk
    case Some(i) =>
      assert OccursAt(chunk, FieldSeparator, i);
      PrefixFree(chunk, FieldSeparator, i);
      chunk[..i]
  }

  /** `FirstField` is the first piece of `split("###")`, with or without a `###` in the chunk. */
  lemma FirstFieldIsFirstPiece(chunk: string)
    ensures FirstField(chunk) == Split(chunk, FieldSeparator)[0]
  {
  }

  /** The text after the first `###` of a chunk, up to the next `###` or the end. */
  function SecondField(chunk: string): (r: Option<string>)
    ensures r.Some? <==> Contains(chunk, FieldSeparator)
    ensures r.Some? ==> !Contains(r.value, FieldSeparator)
  {
    match IndexOf(chunk, FieldSeparator, 0)
    case None => None
    case Some(i) =>
      assert OccursAt(chunk, FieldSeparator, i);
      var rest := chunk[i + |FieldSeparator|..];
      match IndexOf(rest, FieldSeparator, 0)
      case None => Some(rest)
      case Some(j) =>
        PrefixFree(rest, FieldSeparator, j);
        Some(rest[..j])
  }

  /** JavaScript falsiness of a destructured string: `undefined` or `""`. */
  predicate Falsy(v: Option<string>) {
    v.None? || v.value == ""
  }

  /** The `map` callback: `null` for a rejected chunk, a trimmed pair otherwise. */
  function ParseChunk(chunk: string): (r: Option<QA>)
    ensures r.Some? ==> IsTrimmed(r.value.question) && IsTrimmed(r.value.answer)
  {
    var parts := Split(chunk, FieldSeparator);
    var question := Some(parts[0]);
    var answer := if |parts| >= 2 then Some(parts[1]) else None;
    if Falsy(question) || Falsy(answer) then None
    else Some(QA(Trim(question.value), Trim(answer.value)))
  }

  /**
   * A chunk is kept exactly when the text before its first `###` and the text
   * after it, up to the next `###`, are both non-empty before trimming; the
   * pair is those two texts trimmed.
   */
  lemma ParseChunkByFields(chunk: string)
    ensures ParseChunk(chunk).Some? <==>
      FirstField(chunk) != "" && SecondField(chunk).Some? && SecondField(chunk).value != ""
    ensures ParseChunk(chunk).Some? ==>
      ParseChunk(chunk).value == QA(Trim(FirstField(chunk)), Trim(SecondField(chunk).value))
  {
    var parts := Split(chunk, FieldSeparator);
    match IndexOf(chunk, FieldSeparator, 0)
    case None =>
      SplitWhole(chunk, FieldSeparator);
    case Some(i) =>
      var rest := chunk[i + |FieldSeparator|..];
      var tail := Split(rest, FieldSeparator);
      SplitCut(chunk, FieldSeparator, i);
      assert parts[1] == tail[0];
      match IndexOf(rest, FieldSeparator, 0)
      case None =>
        SplitWhole(rest, FieldSeparator);
      case Some(j) =>
        SplitCut(rest, FieldSeparator, j);
  }

  /** The chunks of a reply, in order: the trimmed reply cut at every `???`. */
  function Chunks(reply: string): seq<string> {
    Split(Trim(reply), ItemSeparator)
  }

  /** The whole parse of src/app/page.tsx:68-75. */
  function Parse(reply: string): (items: seq<QA>)
    ensures |items| <= |Chunks(reply)|
  {
    MapFilter(ParseChunk, Chunks(reply))
  }

  /** `content?.trim() ?? ""`: a missing reply parses like an empty one. */
  function ParseContent(content: Option<string>): (items: seq<QA>)
    ensures content.None? ==> items == []
    ensures content.Some? ==> items == Parse(content.value)
  {
    match content
    case None => Parse("")
    case Some(c) =>
      TrimIdempotent(c);
      Parse(Trim(c))
  }

  /**
   * The parse together with where each pair came from: the chunk indexes
   * are strictly increasing, each pair is its chunk's parse, and every chunk
   * not listed is rejected.
   */
  method ParseWithOrigins(reply: string) returns (items: seq<QA>, origins: seq<nat>)
    ensures items == Parse(reply)
    ensures |origins| == |items|
    ensures forall k :: 0 <= k < |origins| ==> origins[k] < |Chunks(reply)|
    ensures forall k, l :: 0 <= k < l < |origins| ==> origins[k] < origins[l]
    ensures forall k :: 0 <= k < |origins| ==> ParseChunk(Chunks(reply)[origins[k]]) == Some(items[k])
    ensures forall j :: 0 <= j < |Chunks(reply)| && j !in origins ==> ParseChunk(Chunks(reply)[j]) == None
  {
    items, origins := MapFilterWithOrigins(ParseChunk, Chunks(reply));
  }

  /** A kept chunk's fields are trimmed. */
  lemma ParseChunkTrimmed(chunk: string)
    requires ParseChunk(chunk).Some?
    ensures Trim(ParseChunk(chunk).value.question) == ParseChunk(chunk).value.question
    ensures Trim(ParseChunk(chunk).value.answer) == ParseChunk(chunk).value.answer
  {
    var parts := Split(chunk, FieldSeparator);
    TrimIdempotent(parts[0]);
    TrimIdempotent(parts[1]);
  }

  /** Every pair the parser keeps has both fields already trimmed. */
  lemma ParsedFieldsTrimmed(reply: string)
    ensures forall qa :: qa in Parse(reply) ==> Trim(qa.question) == qa.question && Trim(qa.answer) == qa.answer
  {
    var chunks := Chunks(reply);
    forall qa | qa in Parse(reply)
      ensures Trim(qa.question) == qa.question && Trim(qa.answer) == qa.answer
    {
      MapFilterOrigin(ParseChunk, chunks, qa);
      var k :| 0 <= k < |chunks| && ParseChunk(chunks[k]) == Some(qa);
      ParseChunkTrimmed(chunks[k]);
    }
  }

  /** There are never more pairs than occurrences of `???` in the reply, plus one. */
  lemma ParseCountBound(reply: string)
    ensures |Parse(reply)| <= CountOccurrences(reply, ItemSeparator, 0) + 1
  {
    SplitLengthBound(Trim(reply), ItemSeparator);
    TrimCountBound(reply, ItemSeparator);
  }

  /** A chunk without any `###` is dropped: its answer is `undefined`. */
  lemma NoFieldSeparatorDropped(chunk: string)
    requires !Contains(chunk, FieldSeparator)
    ensures ParseChunk(chunk) == None
  {
    SplitWhole(chunk, FieldSeparator);
  }

  /** The fields of `q###tail` when `q` has no `#`: `q`, then `tail` up to its first `###`. */
  lemma FieldsAfterQuestion(q: string, tail: string)
    requires Avoids(q, '#')
    ensures FirstField(q + FieldSeparator + tail) == q
    ensures SecondField(q + FieldSeparator + tail) ==
      match IndexOf(tail, FieldSeparator, 0) case None => Some(tail) case Some(j) => Some(tail[..j])
  {
    FirstCutAfter(q, FieldSeparator, tail);
    PartsOfAppend(q, FieldSeparator, tail);
  }

  /** Text after a second `###` is discarded; it does not get the chunk rejected. */
  lemma ExtraFieldsIgnored(q: string, a: string, junk: string)
    requires Avoids(q, '#') && Avoids(a, '#')
    ensures ParseChunk(q + FieldSeparator + a + FieldSeparator + junk) == ParseChunk(q + FieldSeparator + a)
  {
    var long := q + FieldSeparator + a + FieldSeparator + junk;
    var short := q + FieldSeparator + a;
    var tail := a + FieldSeparator + junk;
    assert long == q + FieldSeparator + tail;
    FieldsAfterQuestion(q, tail);
    FieldsAfterQuestion(q, a);
    FirstCutAfter(a, FieldSeparator, junk);
    PartsOfAppend(a, FieldSeparator, junk);
    AvoidsNoOccurrence(a, FieldSeparator);
    assert IndexOf(a, FieldSeparator, 0).None?;
    ParseChunkByFields(long);
    ParseChunkByFields(short);
  }

  /**
   * Emptiness is judged before trimming: fields made of spaces only pass the
   * check and come out as an empty question and an empty answer.
   */
  lemma BlankFieldsKept(q: string, a: string)
    requires q != "" && a != "" && AllSpace(q) && AllSpace(a)
    ensures ParseChunk(q + FieldSeparator + a) == Some(QA("", ""))
  {
    assert Avoids(q, '#') && Avoids(a, '#');
    FieldsAfterQuestion(q, a);
    AvoidsNoOccurrence(a, FieldSeparator);
    assert IndexOf(a, FieldSeparator, 0).None?;
    ParseChunkByFields(q + FieldSeparator + a);
  }

  /** An empty or all-whitespace reply yields no pairs. */
  lemma BlankReplyYieldsNothing(reply: string)
    requires AllSpace(reply)
    ensures Parse(reply) == []
  {
    SplitAvoiding("", ItemSeparator);
    NoFieldSeparatorDropped("");
    MapFilterCons(ParseChunk, "", []);
  }

  /**
   * A pair one chunk carries back unchanged: non-empty, trimmed fields
   * without `#`.
   */
  predicate Writable(qa: QA) {
    && qa.question != "" && qa.answer != ""
    && IsTrimmed(qa.question) && IsTrimmed(qa.answer)
    && Avoids(qa.question, '#') && Avoids(qa.answer, '#')
  }

  /**
   * A pair a whole reply carries back unchanged: writable, neither field
   * holding `???`, and an answer that does not end in `?` (which would merge
   * with the `???` after it).
   */
  predicate WellFormed(qa: QA) {
    && Writable(qa)
    && !Contains(qa.question, ItemSeparator) && !Contains(qa.answer, ItemSeparator)
    && qa.answer[|qa.answer| - 1] != '?'
  }

  /** One pair as the model is asked to write it: question, `###`, answer. */
  function RenderPair(qa: QA): string {
    qa.question + FieldSeparator + qa.answer
  }

  /** A reply in the requested format: every pair followed by `???`. */
  function Render(items: seq<QA>): string {
    if items == [] then "" else RenderPair(items[0]) + ItemSeparator + Render(items[1..])
  }

  /** Parsing a rendered reply gives back exactly the pairs it was rendered from. */
  lemma ParseRender(items: seq<QA>)
    requires forall k :: 0 <= k < |items| ==> WellFormed(items[k])
    ensures Parse(Render(items)) == items
  {
    if items != [] {
      assert WellFormed(items[0]);
    }
    RenderTrimmed(items);
    ParseOfTrimmed(Render(items));
    RenderChunks(items);
  }

  /** A reply `trim` leaves alone is cut into chunks as it stands. */
  lemma ParseOfTrimmed(reply: string)
    requires IsTrimmed(reply)
    ensures Parse(reply) == MapFilter(ParseChunk, Split(reply, ItemSeparator))
  {
    TrimOfTrimmed(reply);
  }

  lemma {:induction false} RenderChunks(items: seq<QA>)
    requires forall k :: 0 <= k < |items| ==> WellFormed(items[k])
    ensures MapFilter(ParseChunk, Split(Render(items), ItemSeparator)) == items
    decreases |items|
  {
    if items == [] {
      SplitAvoiding("", ItemSeparator);
      NoFieldSeparatorDropped("");
      MapFilterCons(ParseChunk, "", []);
    } else {
      var qa, rest := items[0], items[1..];
      assert WellFormed(qa);
      RenderChunks(rest);
      RenderChunksCons(qa, rest);
      assert [qa] + rest == items;
    }
  }

  lemma RenderCons(qa: QA, rest: seq<QA>)
    ensures Render([qa] + rest) == RenderPair(qa) + ItemSeparator + Render(rest)
  {
    assert ([qa] + rest)[0] == qa;
    assert ([qa] + rest)[1..] == rest;
  }

  /** One more well-formed pair in front of a reply adds exactly that pair to the parse of its chunks. */
  lemma RenderChunksCons(qa: QA, rest: seq<QA>)
    requires WellFormed(qa)
    requires MapFilter(ParseChunk, Split(Render(rest), ItemSeparator)) == rest
    ensures MapFilter(ParseChunk, Split(Render([qa] + rest), ItemSeparator)) == [qa] + rest
  {
    var pair := RenderPair(qa);
    RenderCons(qa, rest);
    PairHoldsNoItemSeparator(qa, Render(rest));
    SplitAt(pair, ItemSeparator, Render(rest));
    ParsePairChunk(qa);
    MapFilterCons(ParseChunk, pair, Split(Render(rest), ItemSeparator));
  }

  /** In a rendered reply, the first `???` at or after a well-formed pair is the one written after it. */
  lemma PairHoldsNoItemSeparator(qa: QA, tail: string)
    requires WellFormed(qa)
    ensures forall j :: 0 <= j < |RenderPair(qa)| ==> !OccursAt(RenderPair(qa) + ItemSeparator + tail, ItemSeparator, j)
  {
    var q, a := qa.question, qa.answer;
    var p := RenderPair(qa);
    var s := p + ItemSeparator + tail;
    var sep := ItemSeparator;
    assert p == q + FieldSeparator + a;
    forall j | 0 <= j < |p| ensures !OccursAt(s, sep, j) {
      if j + 3 <= |q| {
        assert !OccursAt(q, sep, j);
        assert s[0..|q|] == q;
        OccursInSlice(s, sep, 0, |q|, j);
      } else if j < |q| + 3 {
        var k := if j < |q| then |q| else j;
        assert s[k] == '#';
        OccursAtSlice(s, sep, j);
        assert s[j..j + 3][k - j] == s[k];
      } else if j + 3 <= |p| {
        var b := |q| + 3;
        assert !OccursAt(a, sep, j - b);
        assert s[b..|p|] == a;
        OccursInSlice(s, sep, b, |p|, j - b);
      } else {
        assert s[|p| - 1] == a[|a| - 1];
        OccursAtSlice(s, sep, j);
        assert s[j..j + 3][|p| - 1 - j] == s[|p| - 1];
      }
    }
  }

  /** A rendered reply starts with its first question and ends with `???`, so `trim` keeps it. */
  lemma RenderTrimmed(items: seq<QA>)
    requires items != [] ==> items[0].question != "" && !IsSpace(items[0].question[0])
    ensures IsTrimmed(Render(items))
  {
    if items != [] {
      var r := Render(items);
      var head := RenderPair(items[0]) + ItemSeparator;
      assert r == head + Render(items[1..]);
      assert r[0] == head[0] == items[0].question[0];
      RenderEndsWithSeparator(items);
    }
  }

  lemma {:induction false} RenderEndsWithSeparator(items: seq<QA>)
    requires items != []
    ensures |Render(items)| > 0 && Render(items)[|Render(items)| - 1] == '?'
    decreases |items|
  {
    var head := RenderPair(items[0]) + ItemSeparator;
    var rest := Render(items[1..]);
    assert Render(items) == head + rest;
    if items[1..] == [] {
      assert rest == "";
    } else {
      RenderEndsWithSeparator(items[1..]);
    }
  }

  /** A writable pair, written as `question###answer`, parses back to itself; `?` and `???` may appear anywhere. */
  lemma ParsePairChunk(qa: QA)
    requires Writable(qa)
    ensures ParseChunk(RenderPair(qa)) == Some(qa)
  {
    SplitAfter(qa.question, FieldSeparator, qa.answer);
    SplitAvoiding(qa.answer, FieldSeparator);
    assert Split(RenderPair(qa), FieldSeparator) == [qa.question, qa.answer];
    TrimOfTrimmed(qa.question);
    TrimOfTrimmed(qa.answer);
  }

  /** The reply format's own example: the empty chunk after the last `???` is dropped. */
  lemma ExampleReply()
    ensures Parse("Q1###A1???Q2###A2???") == [QA("Q1", "A1"), QA("Q2", "A2")]
  {
    var items := [QA("Q1", "A1"), QA("Q2", "A2")];
    ExampleWellFormed();
    ExampleRender();
    ParseRender(items);
  }

  /** A question may end in `?`: `What?###Yes???` parses to `(What?, Yes)`. */
  lemma ExampleQuestionMark()
    ensures Parse("What?###Yes???") == [QA("What?", "Yes")]
  {
    var items := [QA("What?", "Yes")];
    assert WellFormed(items[0]);
    assert Render(items) == "What?###Yes???" by {
      assert items[1..] == [];
    }
    ParseRender(items);
  }

  /** A chunk's answer may end in `?`: `Q###Really?` parses to `(Q, Really?)`. */
  lemma ExampleTrailingQuestionMark()
    ensures ParseChunk("Q###Really?") == Some(QA("Q", "Really?"))
    ensures !WellFormed(QA("Q", "Really?"))
  {
    var qa := QA("Q", "Really?");
    assert Writable(qa);
    assert RenderPair(qa) == "Q###Really?";
    ParsePairChunk(qa);
  }

  lemma ExampleWellFormed()
    ensures WellFormed(QA("Q1", "A1")) && WellFormed(QA("Q2", "A2"))
  {
  }

  lemma ExampleRender()
    ensures Render([QA("Q1", "A1"), QA("Q2", "A2")]) == "Q1###A1???Q2###A2???"
  {
    var items := [QA("Q1", "A1"), QA("Q2", "A2")];
    assert items[1..] == [QA("Q2", "A2")];
    assert items[1..][1..] == [];
  }
}
