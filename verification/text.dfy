/**
 * The JavaScript string primitives the reply parser is built from:
 * `String.prototype.trim`, `String.prototype.indexOf` and
 * `String.prototype.split` with a non-empty string separator, following
 * sections 22.1.3.32, 22.1.3.9 and 22.1.3.23 of ECMA-262. Positions are
 * carried as indexes into the original string, as the standard's own
 * algorithms do.
 */
module Text {
  import opened Wrappers

  /** The code points `trim` removes: ECMA-262 WhiteSpace (every Zs included) and LineTerminator. */
  predicate IsSpace(c: char) {
    || ('\t' <= c <= '\r') || c == ' ' || c == '\U{00A0}' || c == '\U{1680}'
    || ('\U{2000}' <= c <= '\U{200A}') || c == '\U{2028}' || c == '\U{2029}'
    || c == '\U{202F}' || c == '\U{205F}' || c == '\U{3000}' || c == '\U{FEFF}'
  }

  predicate AllSpace(s: string) {
    forall i :: 0 <= i < |s| ==> IsSpace(s[i])
  }

  /** Neither end of `s` is a space: `trim` has nothing left to remove. */
  predicate IsTrimmed(s: string) {
    s == [] || (!IsSpace(s[0]) && !IsSpace(s[|s| - 1]))
  }

  /** `s` is `r` with only spaces around it, `i` of them in front. */
  predicate Surrounds(s: string, i: int, r: string) {
    && 0 <= i && i + |r| <= |s|
    && s[i..i + |r|] == r
    && AllSpace(s[..i])
    && AllSpace(s[i + |r|..])
  }

  /** The first index at or after `from` that holds no space, or `|s|`. */
  function SkipSpaces(s: string, from: nat): (k: nat)
    requires from <= |s|
    ensures from <= k <= |s|
    ensures forall i :: from <= i < k ==> IsSpace(s[i])
    ensures k < |s| ==> !IsSpace(s[k])
    decreases |s| - from
  {
    if from < |s| && IsSpace(s[from]) then SkipSpaces(s, from + 1) else from
  }

  /** The least `k <= hi` such that `s[k..hi]` is all spaces. */
  function SkipSpacesBack(s: string, hi: nat): (k: nat)
    requires hi <= |s|
    ensures k <= hi
    ensures forall i :: k <= i < hi ==> IsSpace(s[i])
    ensures k > 0 ==> !IsSpace(s[k - 1])
    decreases hi
  {
    if hi > 0 && IsSpace(s[hi - 1]) then SkipSpacesBack(s, hi - 1) else hi
  }

  /** JavaScript `s.trim()`: the text between the leading and the trailing run of spaces. */
  function Trim(s: string): (r: string)
    ensures |r| <= |s|
    ensures IsTrimmed(r)
    ensures r == [] <==> AllSpace(s)
  {
    var start := SkipSpaces(s, 0);
    if start == |s| then
      []
    else
      var end := SkipSpacesBack(s, |s|);
      s[start..end]
  }

  /** What `Trim` removed is spaces only. */
  lemma TrimSurrounds(s: string)
    ensures Surrounds(s, SkipSpaces(s, 0), Trim(s))
  {
    var start := SkipSpaces(s, 0);
    if start < |s| {
      var end := SkipSpacesBack(s, |s|);
      assert start < end;
      assert s[end..] == s[start + |Trim(s)|..];
    }
  }

  /** A trimmed string is a fixed point of `Trim`. */
  lemma TrimOfTrimmed(s: string)
    requires IsTrimmed(s)
    ensures Trim(s) == s
  {
    if s != [] {
      assert SkipSpaces(s, 0) == 0;
      assert SkipSpacesBack(s, |s|) == |s|;
    }
  }

  lemma TrimIdempotent(s: string)
    ensures Trim(Trim(s)) == Trim(s)
  {
    TrimOfTrimmed(Trim(s));
  }

  /** `Trim` is characterised by its result: the trimmed text that only spaces surround. */
  lemma TrimUnique(s: string, i: int, r: string)
    requires Surrounds(s, i, r)
    requires IsTrimmed(r)
    ensures Trim(s) == r
  {
    if r == [] {
      assert forall k :: 0 <= k < |s| ==> (k < i ==> s[k] == s[..i][k]) && (k >= i ==> s[k] == s[i..][k - i]);
    } else {
      assert s[i] == r[0];
      assert s[i + |r| - 1] == r[|r| - 1];
      assert forall k :: 0 <= k < i ==> s[k] == s[..i][k];
      assert forall k :: i + |r| <= k < |s| ==> s[k] == s[i + |r|..][k - i - |r|];
      assert SkipSpaces(s, 0) == i;
      assert SkipSpacesBack(s, |s|) == i + |r|;
    }
  }

  /**
   * `sep` occurs in `s` starting at index `i`, compared character by
   * character. A Dafny `char` is a Unicode scalar value where JavaScript
   * compares UTF-16 code units; the two agree for the ASCII separators and
   * the single-code-unit white space the parser deals with.
   */
  predicate OccursAt(s: string, sep: string, i: int) {
    0 <= i && i + |sep| <= |s| && MatchesFrom(s, sep, i, 0)
  }

  /** `s` agrees with `sep` from `sep`'s index `k` on, `sep` placed at `i`. */
  predicate MatchesFrom(s: string, sep: string, i: nat, k: nat)
    requires i + |sep| <= |s| && k <= |sep|
    decreases |sep| - k
  {
    k == |sep| || (s[i + k] == sep[k] && MatchesFrom(s, sep, i, k + 1))
  }

  lemma {:induction false} MatchesFromSlice(s: string, sep: string, i: nat, k: nat)
    requires i + |sep| <= |s| && k <= |sep|
    ensures MatchesFrom(s, sep, i, k) <==> s[i + k..i + |sep|] == sep[k..]
    decreases |sep| - k
  {
    if k < |sep| {
      MatchesFromSlice(s, sep, i, k + 1);
      assert s[i + k..i + |sep|] == [s[i + k]] + s[i + k + 1..i + |sep|];
      assert sep[k..] == [sep[k]] + sep[k + 1..];
    }
  }

  /** The occurrence test is the comparison of a slice with `sep`. */
  lemma OccursAtSlice(s: string, sep: string, i: int)
    requires 0 <= i && i + |sep| <= |s|
    ensures OccursAt(s, sep, i) <==> s[i..i + |sep|] == sep
  {
    MatchesFromSlice(s, sep, i, 0);
    assert sep[0..] == sep;
  }

  predicate Contains(s: string, sep: string) {
    exists i :: 0 <= i <= |s| && OccursAt(s, sep, i)
  }

  /** JavaScript `s.indexOf(sep, from)`, with `None` for -1. */
  function IndexOf(s: string, sep: string, from: nat): (r: Option<nat>)
    requires |sep| > 0 && from <= |s|
    ensures r.Some? ==> from <= r.value && r.value + |sep| <= |s| && OccursAt(s, sep, r.value)
    ensures r.Some? ==> forall j :: from <= j < r.value ==> !OccursAt(s, sep, j)
    ensures r.None? ==> forall j :: from <= j <= |s| ==> !OccursAt(s, sep, j)
    decreases |s| - from
  {
    if from + |sep| > |s| then None
    else if OccursAt(s, sep, from) then Some(from)
    else IndexOf(s, sep, from + 1)
  }

  /** `IndexOf` finds the first occurrence at or after `from`, whichever it is. */
  lemma IndexOfIs(s: string, sep: string, from: nat, j: nat)
    requires |sep| > 0 && from <= j && OccursAt(s, sep, j)
    requires forall i :: from <= i < j ==> !OccursAt(s, sep, i)
    ensures IndexOf(s, sep, from) == Some(j)
  {
    var r := IndexOf(s, sep, from);
    assert r.Some?;
    assert r.value <= j;
  }

  /** The pieces joined back with `sep` between them. */
  function Join(parts: seq<string>, sep: string): string {
    if |parts| == 0 then ""
    else if |parts| == 1 then parts[0]
    else parts[0] + sep + Join(parts[1..], sep)
  }

  lemma JoinCons(first: string, rest: seq<string>, sep: string)
    requires |rest| >= 1
    ensures Join([first] + rest, sep) == first + sep + Join(rest, sep)
  {
    assert ([first] + rest)[1..] == rest;
  }

  /**
   * JavaScript `s.split(sep)` for a non-empty `sep`: the text before the
   * first occurrence, then the split of what follows it. This visits the
   * same leftmost, non-overlapping occurrences as the index loop of
   * ECMA-262, and an empty `s` gives `[""]`.
   */
  function Split(s: string, sep: string): (parts: seq<string>)
    requires |sep| > 0
    ensures |parts| >= 1
    decreases |s|
  {
    match IndexOf(s, sep, 0)
    case None => [s]
    case Some(i) => [s[..i]] + Split(s[i + |sep|..], sep)
  }

  /** The unfolding of `Split` at its first cut. */
  lemma SplitCut(s: string, sep: string, i: nat)
    requires |sep| > 0 && IndexOf(s, sep, 0) == Some(i)
    ensures i + |sep| <= |s|
    ensures Split(s, sep) == [s[..i]] + Split(s[i + |sep|..], sep)
  {
  }

  /** The unfolding of `Split` when there is nothing to cut. */
  lemma SplitWhole(s: string, sep: string)
    requires |sep| > 0 && IndexOf(s, sep, 0).None?
    ensures Split(s, sep) == [s]
  {
  }

  /** Joining the pieces back with the separator gives the original text. */
  lemma {:induction false} SplitJoin(s: string, sep: string)
    requires |sep| > 0
    ensures Join(Split(s, sep), sep) == s
    decreases |s|
  {
    match IndexOf(s, sep, 0)
    case None =>
      SplitWhole(s, sep);
    case Some(i) =>
      var rest := s[i + |sep|..];
      SplitJoin(rest, sep);
      SplitCut(s, sep, i);
      JoinCons(s[..i], Split(rest, sep), sep);
      OccursAtSlice(s, sep, i);
      assert s == s[..i] + s[i..i + |sep|] + rest;
  }

  lemma SliceOfSlice(s: string, a: nat, b: nat, x: nat, y: nat)
    requires a <= b <= |s| && x <= y <= b - a
    ensures s[a..b][x..y] == s[a + x..a + y]
  {
    forall k | 0 <= k < y - x ensures s[a..b][x..y][k] == s[a + x..a + y][k] {}
  }

  /** An occurrence inside a slice is an occurrence in the whole string. */
  lemma OccursInSlice(s: string, sep: string, a: nat, b: nat, x: nat)
    requires a <= b <= |s| && x + |sep| <= b - a
    ensures OccursAt(s[a..b], sep, x) <==> OccursAt(s, sep, a + x)
  {
    SliceOfSlice(s, a, b, x, x + |sep|);
    OccursAtSlice(s[a..b], sep, x);
    OccursAtSlice(s, sep, a + x);
  }

  /** A prefix holds no occurrence when none starts inside it in the whole string. */
  lemma PrefixFree(s: string, sep: string, b: nat)
    requires |sep| > 0 && b <= |s|
    requires forall j :: 0 <= j < b ==> !OccursAt(s, sep, j)
    ensures !Contains(s[..b], sep)
  {
    assert s[..b] == s[0..b];
    forall x | 0 <= x <= b ensures !OccursAt(s[..b], sep, x) {
      if x + |sep| <= b {
        OccursInSlice(s, sep, 0, b, x);
        assert !OccursAt(s, sep, x);
      }
    }
  }

  /** No piece of a split still contains the separator. */
  lemma {:induction false} SplitPiecesFree(s: string, sep: string)
    requires |sep| > 0
    ensures forall k :: 0 <= k < |Split(s, sep)| ==> !Contains(Split(s, sep)[k], sep)
    decreases |s|
  {
    match IndexOf(s, sep, 0)
    case None =>
      SplitWhole(s, sep);
      PrefixFree(s, sep, |s|);
      assert s[..|s|] == s;
    case Some(i) =>
      SplitPiecesFree(s[i + |sep|..], sep);
      SplitCut(s, sep, i);
      PrefixFree(s, sep, i);
  }

  /** No character of `s` is `c`. */
  predicate Avoids(s: string, c: char) {
    forall i :: 0 <= i < |s| ==> s[i] != c
  }

  /** A string without the separator's first character cannot contain it. */
  lemma AvoidsNoOccurrence(a: string, sep: string)
    requires |sep| > 0 && Avoids(a, sep[0])
    ensures forall j :: 0 <= j <= |a| ==> !OccursAt(a, sep, j)
  {
  }

  /** When no occurrence starts inside `q`, the first occurrence in `q + sep + tail` is right after `q`. */
  lemma FirstCutAt(q: string, sep: string, tail: string)
    requires |sep| > 0
    requires forall j :: 0 <= j < |q| ==> !OccursAt(q + sep + tail, sep, j)
    ensures IndexOf(q + sep + tail, sep, 0) == Some(|q|)
  {
    var s := q + sep + tail;
    assert s[|q|..|q| + |sep|] == sep;
    OccursAtSlice(s, sep, |q|);
    IndexOfIs(s, sep, 0, |q|);
  }

  /** When `q` avoids the separator's first character, the first occurrence in `q + sep + tail` is right after `q`. */
  lemma FirstCutAfter(q: string, sep: string, tail: string)
    requires |sep| > 0 && Avoids(q, sep[0])
    ensures IndexOf(q + sep + tail, sep, 0) == Some(|q|)
  {
    var s := q + sep + tail;
    forall j | 0 <= j < |q| ensures !OccursAt(s, sep, j) {
      assert s[j] == q[j];
    }
    FirstCutAt(q, sep, tail);
  }

  lemma PartsOfAppend(q: string, sep: string, tail: string)
    ensures (q + sep + tail)[..|q|] == q
    ensures (q + sep + tail)[|q| + |sep|..] == tail
  {
  }

  /** When `q` avoids the separator's first character, the first cut falls right after `q`. */
  lemma SplitAfter(q: string, sep: string, tail: string)
    requires |sep| > 0 && Avoids(q, sep[0])
    ensures Split(q + sep + tail, sep) == [q] + Split(tail, sep)
  {
    FirstCutAfter(q, sep, tail);
    SplitCut(q + sep + tail, sep, |q|);
    PartsOfAppend(q, sep, tail);
  }

  /** When no occurrence starts inside `q`, the first piece of `q + sep + tail` is `q`. */
  lemma SplitAt(q: string, sep: string, tail: string)
    requires |sep| > 0
    requires forall j :: 0 <= j < |q| ==> !OccursAt(q + sep + tail, sep, j)
    ensures Split(q + sep + tail, sep) == [q] + Split(tail, sep)
  {
    FirstCutAt(q, sep, tail);
    SplitCut(q + sep + tail, sep, |q|);
    PartsOfAppend(q, sep, tail);
  }

  /** A string without the separator's first character is a single piece. */
  lemma SplitAvoiding(a: string, sep: string)
    requires |sep| > 0 && Avoids(a, sep[0])
    ensures Split(a, sep) == [a]
  {
    AvoidsNoOccurrence(a, sep);
    SplitWhole(a, sep);
  }

  /** The number of positions from `from` on where `sep` occurs, overlapping ones included. */
  function CountOccurrences(s: string, sep: string, from: nat): nat
    requires |sep| > 0 && from <= |s|
    decreases |s| - from
  {
    if from + |sep| > |s| then 0
    else (if OccursAt(s, sep, from) then 1 else 0) + CountOccurrences(s, sep, from + 1)
  }

  lemma {:induction false} CountOccurrencesMonotone(s: string, sep: string, a: nat, b: nat)
    requires |sep| > 0 && a <= b <= |s|
    ensures CountOccurrences(s, sep, b) <= CountOccurrences(s, sep, a)
    decreases b - a
  {
    if a < b {
      CountOccurrencesMonotone(s, sep, a + 1, b);
    }
  }

  /** Positions without an occurrence add nothing to the count. */
  lemma {:induction false} CountOccurrencesSkip(s: string, sep: string, a: nat, b: nat)
    requires |sep| > 0 && a <= b <= |s|
    requires forall j :: a <= j < b ==> !OccursAt(s, sep, j)
    ensures CountOccurrences(s, sep, a) == CountOccurrences(s, sep, b)
    decreases b - a
  {
    if a < b {
      CountOccurrencesSkip(s, sep, a + 1, b);
    }
  }

  /** The count covers the first occurrence, and everything past that occurrence. */
  lemma CountPastCut(s: string, sep: string, i: nat)
    requires |sep| > 0 && IndexOf(s, sep, 0) == Some(i)
    ensures i + |sep| <= |s|
    ensures 1 + CountOccurrences(s, sep, i + |sep|) <= CountOccurrences(s, sep, 0)
  {
    CountOccurrencesSkip(s, sep, 0, i);
    assert CountOccurrences(s, sep, i) == 1 + CountOccurrences(s, sep, i + 1);
    CountOccurrencesMonotone(s, sep, i + 1, i + |sep|);
  }

  /** A slice has no more occurrences than the string it is cut from. */
  lemma {:induction false} CountOccurrencesSlice(s: string, sep: string, a: nat, b: nat, x: nat)
    requires |sep| > 0 && a <= b <= |s| && x <= b - a
    ensures CountOccurrences(s[a..b], sep, x) <= CountOccurrences(s, sep, a + x)
    decreases b - a - x
  {
    if x + |sep| <= b - a {
      OccursInSlice(s, sep, a, b, x);
      CountOccurrencesSlice(s, sep, a, b, x + 1);
    }
  }

  /** The suffix past an occurrence has no more occurrences than the string counts from there. */
  lemma CountOccurrencesSuffix(s: string, sep: string, d: nat)
    requires |sep| > 0 && d <= |s|
    ensures CountOccurrences(s[d..], sep, 0) <= CountOccurrences(s, sep, d)
  {
    CountOccurrencesSlice(s, sep, d, |s|, 0);
    assert s[d..] == s[d..|s|];
  }

  /** A slice has no more occurrences than the string it is cut from. */
  lemma CountOccurrencesOfSlice(s: string, sep: string, a: nat, b: nat, t: string)
    requires |sep| > 0 && a <= b <= |s| && t == s[a..b]
    ensures CountOccurrences(t, sep, 0) <= CountOccurrences(s, sep, 0)
  {
    CountOccurrencesSlice(s, sep, a, b, 0);
    CountOccurrencesMonotone(s, sep, 0, a);
  }

  /** `Trim` cuts a slice out of its input. */
  lemma TrimIsSlice(s: string)
    ensures SkipSpaces(s, 0) + |Trim(s)| <= |s|
    ensures Trim(s) == s[SkipSpaces(s, 0)..SkipSpaces(s, 0) + |Trim(s)|]
  {
    TrimSurrounds(s);
  }

  /** Trimming never adds an occurrence. */
  lemma TrimCountBound(s: string, sep: string)
    requires |sep| > 0
    ensures CountOccurrences(Trim(s), sep, 0) <= CountOccurrences(s, sep, 0)
  {
    var a := SkipSpaces(s, 0);
    TrimIsSlice(s);
    CountOccurrencesOfSlice(s, sep, a, a + |Trim(s)|, Trim(s));
  }

  /** `split` never yields more pieces than there are occurrences of `sep`, plus one. */
  lemma {:induction false} SplitLengthBound(s: string, sep: string)
    requires |sep| > 0
    ensures |Split(s, sep)| <= CountOccurrences(s, sep, 0) + 1
    decreases |s|
  {
    match IndexOf(s, sep, 0)
    case None =>
      SplitWhole(s, sep);
    case Some(i) =>
      var rest := s[i + |sep|..];
      SplitLengthBound(rest, sep);
      SplitCut(s, sep, i);
      CountOccurrencesSuffix(s, sep, i + |sep|);
      CountPastCut(s, sep, i);
  }
}
