/** `calculateReadingTime` of src/lib/blog.ts: the number of pieces
    `content.trim().split(/\s+/)` yields, divided by 200 words a minute and
    rounded up. */
module ReadingTime {
  import opened Text

  const WordsPerMinute: nat := 200

  /** `Math.ceil(a / b)` on non-negative integers. */
  function CeilDiv(a: nat, b: nat): (q: nat)
    requires b > 0
    ensures (q - 1) * b < a <= q * b || (a == 0 && q == 0)
  {
    (a + b - 1) / b
  }

  /** Index of the first `\s` character of `t`, or `|t|` if there is none. */
  function SpaceIndex(t: string): (k: nat)
    ensures k <= |t| && (k < |t| ==> IsSpace(t[k]))
    ensures forall i :: 0 <= i < k ==> !IsSpace(t[i])
  {
    if t == [] || IsSpace(t[0]) then 0 else 1 + SpaceIndex(t[1..])
  }

  /** `split(/\s+/)`: the pieces between maximal runs of white space; the
      empty string splits into one empty piece. */
  function SplitOnSpaces(t: string): (pieces: seq<string>)
    ensures |pieces| >= 1
    ensures forall i, j :: 0 <= i < |pieces| && 0 <= j < |pieces[i]| ==> !IsSpace(pieces[i][j])
    decreases |t|
  {
    var k := SpaceIndex(t);
    if k == |t| then [t]
    else
      var first := t[..k];
      assert forall j :: 0 <= j < |first| ==> !IsSpace(first[j]);
      [first] + SplitOnSpaces(TrimStart(t[k..]))
  }

  /** `calculateReadingTime`: at least one minute, and the ceiling of the
      number of pieces over 200. */
  function CalculateReadingTime(content: string): (minutes: nat)
    ensures minutes >= 1
    ensures var pieces := |SplitOnSpaces(Trim(content))|;
      (minutes - 1) * WordsPerMinute < pieces <= minutes * WordsPerMinute
  {
    CeilDiv(|SplitOnSpaces(Trim(content))|, WordsPerMinute)
  }

  /** Number of words of `t`: the non-space characters that stand at the
      start (when `afterSpace`) or right after a white-space character. */
  function WordsAfter(t: string, afterSpace: bool): nat
  {
    if t == [] then 0
    else (if afterSpace && !IsSpace(t[0]) then 1 else 0) + WordsAfter(t[1..], IsSpace(t[0]))
  }

  function WordCount(t: string): nat {
    WordsAfter(t, true)
  }

  predicate AllSpace(t: string) { forall i :: 0 <= i < |t| ==> IsSpace(t[i]) }

  lemma {:induction false} WordsInSpaces(sp: string, p: bool)
    requires AllSpace(sp)
    ensures WordsAfter(sp, p) == 0
  {
    if sp != [] { WordsInSpaces(sp[1..], true); }
  }

  lemma {:induction false} WordsBeforeSpaces(r: string, sp: string, p: bool)
    requires AllSpace(sp)
    ensures WordsAfter(r + sp, p) == WordsAfter(r, p)
  {
    if r != [] {
      assert (r + sp)[1..] == r[1..] + sp;
      WordsBeforeSpaces(r[1..], sp, IsSpace(r[0]));
    } else {
      assert r + sp == sp;
      WordsInSpaces(sp, p);
    }
  }

  /** The characters before the first white space add no word after a
      non-space start. */
  lemma {:induction false} WordsUpToSpace(t: string)
    ensures WordsAfter(t, false) == WordsAfter(t[SpaceIndex(t)..], false)
  {
    if t != [] && !IsSpace(t[0]) {
      WordsUpToSpace(t[1..]);
      assert t[1..][SpaceIndex(t[1..])..] == t[SpaceIndex(t)..];
    }
  }

  /** A run of white space ends the current word. */
  lemma {:induction false} WordsSkipSpaces(s: string, p: bool)
    requires s != [] && IsSpace(s[0])
    ensures WordsAfter(s, p) == WordsAfter(TrimStart(s), true)
  {
    if |s| > 1 && IsSpace(s[1]) {
      WordsSkipSpaces(s[1..], true);
    }
  }

  lemma SplitStep(t: string)
    requires SpaceIndex(t) < |t|
    requires !IsSpace(t[|t| - 1])
    ensures var rest := TrimStart(t[SpaceIndex(t)..]);
      rest != [] && !IsSpace(rest[|rest| - 1])
      && |SplitOnSpaces(t)| == 1 + |SplitOnSpaces(rest)|
      && WordsAfter(t, false) == 1 + WordsAfter(rest, false)
  {
    var k := SpaceIndex(t);
    var tail := t[k..];
    var rest := TrimStart(tail);
    assert rest != [] && rest[|rest| - 1] == tail[|tail| - 1];
    WordsUpToSpace(t);
    WordsSkipSpaces(tail, false);
  }

  /** Splitting a string with no trailing white space yields one piece more
      than it has words after its first character. */
  lemma {:induction false} SplitCountsWords(t: string)
    requires t == [] || !IsSpace(t[|t| - 1])
    ensures |SplitOnSpaces(t)| == 1 + WordsAfter(t, false)
    decreases |t|
  {
    var k := SpaceIndex(t);
    if k == |t| {
      WordsUpToSpace(t);
      assert t[k..] == [];
    } else {
      SplitStep(t);
      var rest := TrimStart(t[k..]);
      SplitCountsWords(rest);
    }
  }

  /** Leading white space starts no word. */
  lemma WordsAfterTrimStart(content: string)
    ensures WordsAfter(content, true) == WordsAfter(TrimStart(content), true)
  {
    if content != [] && IsSpace(content[0]) { WordsSkipSpaces(content, true); }
  }

  /** Trailing white space starts no word. */
  lemma WordsAfterTrimEnd(front: string)
    ensures WordsAfter(front, true) == WordsAfter(TrimEnd(front), true)
  {
    var r := TrimEnd(front);
    assert front == r + front[|r|..];
    WordsBeforeSpaces(r, front[|r|..], true);
  }

  /** The pieces of the trimmed text are its words, except that text with
      no word at all still gives one (empty) piece. */
  lemma TrimmedPiecesAreWords(content: string)
    ensures |SplitOnSpaces(Trim(content))| == if WordCount(content) == 0 then 1 else WordCount(content)
  {
    var r := Trim(content);
    WordsAfterTrimStart(content);
    WordsAfterTrimEnd(TrimStart(content));
    SplitCountsWords(r);
    if r != [] {
      assert WordsAfter(r, true) == 1 + WordsAfter(r[1..], false);
    }
  }

  /** Reading time is the word count over 200, rounded up, and one minute
      for text without any word. */
  lemma ReadingTimeCountsWords(content: string)
    ensures CalculateReadingTime(content) ==
      if WordCount(content) == 0 then 1 else CeilDiv(WordCount(content), WordsPerMinute)
  {
    TrimmedPiecesAreWords(content);
  }
}
