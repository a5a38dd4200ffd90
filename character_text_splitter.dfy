/**
 * The character splitter: a cursor walks over the text, each chunk runs from the
 * cursor to a tentative end pushed forward to just past the next separator, the
 * chunk is emitted with its separators removed, and the cursor steps back by the
 * overlap.
 */
module CharacterSplitter {
  import opened Wrappers
  import opened JavaStrings
  import opened TextSplitter

  /** The regex split `text.split(separator)`: None when the pattern does not compile. */
  type RegexSplit = (string, string) -> Option<seq<string>>

  const DefaultSeparator: string := "\n\n"

  /** The splitter's configuration, fixed at construction (the four-argument constructor). */
  datatype CharacterTextSplitter = CharacterTextSplitter(
    separator: Option<string>,
    chunkSize: int,
    chunkOverlap: int,
    isSeparatorRegex: bool)

  /** The two-argument constructor: a blank line as a plain (non-regex) separator. */
  function WithDefaultSeparator(chunkSize: int, chunkOverlap: int): (s: CharacterTextSplitter)
    ensures s.separator == Some("\n\n") && !s.isSeparatorRegex
    ensures s.chunkSize == chunkSize && s.chunkOverlap == chunkOverlap
  {
    CharacterTextSplitter(Some(DefaultSeparator), chunkSize, chunkOverlap, false)
  }

  /** The inherited checks first, then a null separator; an empty separator is accepted. */
  function ValidateParameters(s: CharacterTextSplitter, text: Option<string>): (r: Option<SplitError>)
    ensures r.None? <==> text.Some? && s.chunkSize > 0 && s.chunkOverlap >= 0 && s.separator.Some?
    ensures TextSplitter.ValidateParameters(text, s.chunkSize, s.chunkOverlap).Some? ==>
              r == TextSplitter.ValidateParameters(text, s.chunkSize, s.chunkOverlap)
    ensures text.Some? && s.chunkSize > 0 && s.chunkOverlap >= 0 && s.separator.None? ==> r == Some(NullSeparator)
  {
    var inherited := TextSplitter.ValidateParameters(text, s.chunkSize, s.chunkOverlap);
    if inherited.Some? then inherited
    else if s.separator.None? then Some(NullSeparator)
    else None
  }

  /**
   * Where the chunk starting at `start` ends. With `t` the tentative end
   * min(start + size, |text|): just past the first separator occurring at or
   * after `t` if there is one, else `t`.
   */
  function ChunkEnd(text: string, sep: string, size: int, start: nat): (e: nat)
    requires start < |text| && size > 0
    ensures start < e <= |text|
    ensures Min(start + size, |text|) <= e
  {
    var tentative := Min(start + size, |text|);
    var i := IndexOf(text, sep, tentative);
    if i != -1 then i + |sep| else tentative
  }

  /**
   * The boundary rule: a chunk ends right after the first separator at or past
   * the tentative end, or at the tentative end when no separator follows it.
   */
  lemma ChunkEndBoundary(text: string, sep: string, size: int, start: nat)
    requires start < |text| && size > 0
    ensures var t := Min(start + size, |text|);
      var e := ChunkEnd(text, sep, size, start);
      if exists i :: t <= i && OccursAt(text, sep, i) then
        t <= e - |sep| && OccursAt(text, sep, e - |sep|)
        && forall j :: t <= j < e - |sep| ==> !OccursAt(text, sep, j)
      else e == t
  {
  }

  /** Where the cursor goes after the chunk [start, end): back by the overlap, unless the text is used up. */
  function NextCursor(text: string, sep: string, size: int, overlap: int, start: nat): (n: int)
    requires start < |text| && size > 0
    ensures n == |text| || (start + size - overlap <= n && n + overlap < |text|)
  {
    var end := ChunkEnd(text, sep, size, start);
    if end < |text| then end - overlap else end
  }

  /** Every member of `s` is a position inside a text of length `n`. */
  predicate Positions(s: set<int>, n: int) {
    forall v :: v in s ==> 0 <= v < n
  }

  /** A set of positions inside a text of length `n` has at most `n` members. */
  lemma {:induction false} BoundedSetSize(s: set<int>, n: nat)
    requires Positions(s, n)
    ensures |s| <= n
    decreases n
  {
    if n == 0 {
      assert forall v :: v !in s;
      assert s == {};
    } else {
      var rest := s - {n - 1};
      BoundedSetSize(rest, n - 1);
      if n - 1 in s {
        assert s == rest + {n - 1};
      } else {
        assert s == rest;
      }
    }
  }

  /**
   * The chunking loop run from cursor `start`, having already been at the
   * cursors in `visited`. The loop's only state is the cursor and each step is
   * determined by it, so a cursor met twice means the loop never ends
   * (Failure(Diverges)); a negative cursor makes `substring` throw.
   */
  function Run(text: string, sep: string, size: int, overlap: int, start: int, visited: set<int>)
    : Result<seq<string>, SplitError>
    requires size > 0
    requires Positions(visited, |text|)
    decreases |text| - |visited|
  {
    if start >= |text| then Success([])
    else if start < 0 then Failure(IndexOutOfBounds)
    else if start in visited then Failure(Diverges)
    else
      var end := ChunkEnd(text, sep, size, start);
      BoundedSetSize(visited + {start}, |text|);
      Prefixed([RemoveAll(text[start..end], sep)],
               Run(text, sep, size, overlap, NextCursor(text, sep, size, overlap, start), visited + {start}))
  }

  /** One turn of the loop from a fresh cursor inside the text. */
  lemma RunStep(text: string, sep: string, size: int, overlap: int, start: int, visited: set<int>)
    requires size > 0
    requires Positions(visited, |text|)
    requires 0 <= start < |text| && start !in visited
    ensures var end := ChunkEnd(text, sep, size, start);
      var next := NextCursor(text, sep, size, overlap, start);
      Run(text, sep, size, overlap, start, visited)
      == Prefixed([RemoveAll(text[start..end], sep)], Run(text, sep, size, overlap, next, visited + {start}))
  {
  }

  /** The loop invariant of `splitText` survives one turn. */
  lemma StepKeepsPrefix(text: string, sep: string, size: int, overlap: int,
                        whole: Result<seq<string>, SplitError>, result: seq<string>, start: int, visited: set<int>)
    requires size > 0
    requires Positions(visited, |text|)
    requires 0 <= start < |text| && start !in visited
    requires whole == Prefixed(result, Run(text, sep, size, overlap, start, visited))
    ensures var end := ChunkEnd(text, sep, size, start);
      var next := NextCursor(text, sep, size, overlap, start);
      whole == Prefixed(result + [RemoveAll(text[start..end], sep)], Run(text, sep, size, overlap, next, visited + {start}))
  {
    var end := ChunkEnd(text, sep, size, start);
    var next := NextCursor(text, sep, size, overlap, start);
    RunStep(text, sep, size, overlap, start, visited);
    PrefixedPrefixed(result, [RemoveAll(text[start..end], sep)], Run(text, sep, size, overlap, next, visited + {start}));
  }

  /** The loop itself only ever fails with a negative cursor or a repeated one. */
  lemma {:induction false} RunFailures(text: string, sep: string, size: int, overlap: int, start: int, visited: set<int>)
    requires size > 0
    requires Positions(visited, |text|)
    ensures Run(text, sep, size, overlap, start, visited).Failure? ==>
              Run(text, sep, size, overlap, start, visited).error in {IndexOutOfBounds, Diverges}
    decreases |text| - |visited|
  {
    if 0 <= start < |text| && start !in visited {
      BoundedSetSize(visited + {start}, |text|);
      RunFailures(text, sep, size, overlap, NextCursor(text, sep, size, overlap, start), visited + {start});
    }
  }

  /** What `splitText(text)` returns or throws (or that it never returns). */
  function Split(s: CharacterTextSplitter, text: Option<string>, regexSplit: RegexSplit)
    : Result<seq<string>, SplitError>
  {
    var invalid := ValidateParameters(s, text);
    if invalid.Some? then Failure(invalid.value)
    else if s.isSeparatorRegex then
      match regexSplit(text.value, s.separator.value)
      case Some(parts) => Success(parts)
      case None => Failure(InvalidPattern)
    else Run(text.value, s.separator.value, s.chunkSize, s.chunkOverlap, 0, {})
  }

  /** `splitText`: validation, the regex shortcut, then the cursor loop. */
  method SplitText(s: CharacterTextSplitter, text: Option<string>, regexSplit: RegexSplit)
    returns (r: Result<seq<string>, SplitError>)
    ensures r == Split(s, text, regexSplit)
  {
    var invalid := ValidateParameters(s, text);
    if invalid.Some? {
      return Failure(invalid.value);
    }
    if s.isSeparatorRegex {
      var parts := regexSplit(text.value, s.separator.value);
      if parts.None? {
        return Failure(InvalidPattern);
      }
      return Success(parts.value);
    }
    r := ChunkLoop(text.value, s.separator.value, s.chunkSize, s.chunkOverlap);
  }

  /** The end of the chunk starting at `startIndex`: the tentative end, pushed past the next separator. */
  method FindChunkEnd(t: string, sep: string, chunkSize: int, startIndex: nat) returns (endIndex: nat)
    requires startIndex < |t| && chunkSize > 0
    ensures endIndex == ChunkEnd(t, sep, chunkSize, startIndex)
  {
    endIndex := startIndex + chunkSize;
    endIndex := Min(endIndex, |t|);
    var separatorIndex := IndexOf(t, sep, endIndex);
    if separatorIndex != -1 {
      endIndex := separatorIndex + |sep|;
    }
  }

  /** The cursor loop of `splitText` over a validated text and plain separator. */
  method ChunkLoop(t: string, sep: string, chunkSize: int, chunkOverlap: int)
    returns (r: Result<seq<string>, SplitError>)
    requires chunkSize > 0
    ensures r == Run(t, sep, chunkSize, chunkOverlap, 0, {})
  {
    ghost var whole := Run(t, sep, chunkSize, chunkOverlap, 0, {});
    var length := |t|;
    var startIndex := 0;
    var result: seq<string> := [];
    var visited: set<int> := {};
    PrefixedNil(whole);
    while startIndex < length
      invariant Positions(visited, length)
      invariant |visited| <= length
      invariant whole == Prefixed(result, Run(t, sep, chunkSize, chunkOverlap, startIndex, visited))
      decreases length - |visited|
    {
      if startIndex < 0 {
        // substring(startIndex, endIndex) throws
        return Failure(IndexOutOfBounds);
      }
      if startIndex in visited {
        // the cursor has been here before: from now on the loop repeats itself
        return Failure(Diverges);
      }
      var endIndex := FindChunkEnd(t, sep, chunkSize, startIndex);
      var chunk := t[startIndex..endIndex];
      var next := if endIndex < length then endIndex - chunkOverlap else endIndex;
      assert next == NextCursor(t, sep, chunkSize, chunkOverlap, startIndex);
      StepKeepsPrefix(t, sep, chunkSize, chunkOverlap, whole, result, startIndex, visited);
      result := result + [RemoveAll(chunk, sep)];
      visited := visited + {startIndex};
      BoundedSetSize(visited, length);
      startIndex := next;
    }
    assert result + [] == result;
    return Success(result);
  }

  // ---------------------------------------------------------------------------
  // The chunk boundaries, for an overlap smaller than the chunk size: then the
  // cursor moves forward on every turn and the loop always ends.
  // ---------------------------------------------------------------------------

  /** The half-open range [lo, hi) of the text one chunk is cut from. */
  datatype Span = Span(lo: nat, hi: nat)

  /** Every span lies inside a text of length `n`. */
  predicate InText(spans: seq<Span>, n: nat) {
    forall k :: 0 <= k < |spans| ==> spans[k].lo <= spans[k].hi <= n
  }

  /**
   * The spans the loop cuts from cursor `start` on: they start at `start`, end
   * at the end of the text, each ends where `ChunkEnd` says, and each one after
   * the first starts `overlap` characters before its predecessor ends.
   */
  function Spans(text: string, sep: string, size: int, overlap: int, start: nat): (spans: seq<Span>)
    requires 0 <= overlap < size
    ensures |spans| == 0 <==> start >= |text|
    ensures forall k :: 0 <= k < |spans| ==> spans[k].lo < spans[k].hi <= |text|
    ensures |spans| > 0 ==> spans[0].lo == start
    decreases |text| - start
  {
    if start >= |text| then []
    else
      [Span(start, ChunkEnd(text, sep, size, start))] + Spans(text, sep, size, overlap, NextCursor(text, sep, size, overlap, start))
  }

  /** The last span reaches the end of the text. */
  lemma {:induction false} SpansReachEnd(text: string, sep: string, size: int, overlap: int, start: nat)
    requires 0 <= overlap < size
    ensures var spans := Spans(text, sep, size, overlap, start);
      |spans| > 0 ==> spans[|spans| - 1].hi == |text|
    decreases |text| - start
  {
    if start < |text| {
      var next := NextCursor(text, sep, size, overlap, start);
      var rest := Spans(text, sep, size, overlap, next);
      SpansReachEnd(text, sep, size, overlap, next);
      assert Spans(text, sep, size, overlap, start) == [Span(start, ChunkEnd(text, sep, size, start))] + rest;
    }
  }

  /** Every span ends where `ChunkEnd` puts the end of a chunk starting at its `lo`. */
  lemma {:induction false} SpansEndAtChunkEnd(text: string, sep: string, size: int, overlap: int, start: nat, k: nat)
    requires 0 <= overlap < size
    requires k < |Spans(text, sep, size, overlap, start)|
    ensures var span := Spans(text, sep, size, overlap, start)[k];
      span.hi == ChunkEnd(text, sep, size, span.lo)
    decreases |text| - start
  {
    var next := NextCursor(text, sep, size, overlap, start);
    var rest := Spans(text, sep, size, overlap, next);
    assert Spans(text, sep, size, overlap, start) == [Span(start, ChunkEnd(text, sep, size, start))] + rest;
    if k > 0 {
      SpansEndAtChunkEnd(text, sep, size, overlap, next, k - 1);
    }
  }

  /** Each span after the first starts `overlap` characters before its predecessor ends. */
  lemma {:induction false} SpansOverlap(text: string, sep: string, size: int, overlap: int, start: nat, k: nat)
    requires 0 <= overlap < size
    requires k + 1 < |Spans(text, sep, size, overlap, start)|
    ensures var spans := Spans(text, sep, size, overlap, start);
      spans[k + 1].lo == spans[k].hi - overlap
    decreases |text| - start
  {
    var end := ChunkEnd(text, sep, size, start);
    var next := NextCursor(text, sep, size, overlap, start);
    var rest := Spans(text, sep, size, overlap, next);
    assert Spans(text, sep, size, overlap, start) == [Span(start, end)] + rest;
    if k > 0 {
      SpansOverlap(text, sep, size, overlap, next, k - 1);
    }
  }

  /** The raw text of each span. */
  function Pieces(text: string, spans: seq<Span>): (ps: seq<string>)
    requires InText(spans, |text|)
    ensures |ps| == |spans|
    ensures forall k :: 0 <= k < |spans| ==> ps[k] == text[spans[k].lo..spans[k].hi]
  {
    if |spans| == 0 then [] else [text[spans[0].lo..spans[0].hi]] + Pieces(text, spans[1..])
  }

  /** The chunks emitted for the spans: each span's text with the separators removed. */
  function ChunksOf(text: string, sep: string, spans: seq<Span>): (cs: seq<string>)
    requires InText(spans, |text|)
    ensures |cs| == |spans|
    ensures forall k :: 0 <= k < |spans| ==> cs[k] == RemoveAll(text[spans[k].lo..spans[k].hi], sep)
  {
    if |spans| == 0 then [] else [RemoveAll(text[spans[0].lo..spans[0].hi], sep)] + ChunksOf(text, sep, spans[1..])
  }

  /** Below the chunk size the overlap moves the cursor strictly forward, so no cursor repeats. */
  lemma {:induction false} RunFollowsSpans(text: string, sep: string, size: int, overlap: int, start: nat, visited: set<int>)
    requires 0 <= overlap < size
    requires forall v :: v in visited ==> 0 <= v < start && v < |text|
    ensures Run(text, sep, size, overlap, start, visited)
            == Success(ChunksOf(text, sep, Spans(text, sep, size, overlap, start)))
    decreases |text| - start
  {
    if start < |text| {
      var end := ChunkEnd(text, sep, size, start);
      var next := NextCursor(text, sep, size, overlap, start);
      assert next > start;
      RunFollowsSpans(text, sep, size, overlap, next, visited + {start});
      var rest := Spans(text, sep, size, overlap, next);
      assert Spans(text, sep, size, overlap, start) == [Span(start, end)] + rest;
      assert ([Span(start, end)] + rest)[1..] == rest;
    }
  }

  /** A valid plain-separator split whose overlap is below the chunk size returns the chunks of `Spans`. */
  lemma SplitFollowsSpans(s: CharacterTextSplitter, text: string, regexSplit: RegexSplit)
    requires ValidateParameters(s, Some(text)).None? && !s.isSeparatorRegex
    requires s.chunkOverlap < s.chunkSize
    ensures Split(s, Some(text), regexSplit)
            == Success(ChunksOf(text, s.separator.value, Spans(text, s.separator.value, s.chunkSize, s.chunkOverlap, 0)))
  {
    RunFollowsSpans(text, s.separator.value, s.chunkSize, s.chunkOverlap, 0, {});
  }

  /** While the overlap is at most the size, the cursor never goes below zero. */
  lemma {:induction false} RunNeverOutOfBounds(text: string, sep: string, size: int, overlap: int, start: nat, visited: set<int>)
    requires 0 <= overlap <= size && size > 0
    requires Positions(visited, |text|)
    ensures Run(text, sep, size, overlap, start, visited) != Failure(IndexOutOfBounds)
    decreases |text| - |visited|
  {
    if start < |text| && start !in visited {
      var end := ChunkEnd(text, sep, size, start);
      var next := NextCursor(text, sep, size, overlap, start);
      BoundedSetSize(visited + {start}, |text|);
      RunNeverOutOfBounds(text, sep, size, overlap, next, visited + {start});
    }
  }

  /**
   * Why `splitText` can fail: invalid parameters, a regex that does not compile,
   * or an overlap at least as large as the chunk size; and an out-of-range
   * cursor needs an overlap strictly larger than the size.
   */
  lemma SplitFailureCauses(s: CharacterTextSplitter, text: Option<string>, regexSplit: RegexSplit)
    ensures Split(s, text, regexSplit).Failure? ==>
              ValidateParameters(s, text).Some?
              || (s.isSeparatorRegex && regexSplit(text.value, s.separator.value).None?)
              || s.chunkOverlap >= s.chunkSize
    ensures Split(s, text, regexSplit) == Failure(IndexOutOfBounds) ==> s.chunkOverlap > s.chunkSize
  {
    if ValidateParameters(s, text).None? && !s.isSeparatorRegex {
      if s.chunkOverlap < s.chunkSize {
        SplitFollowsSpans(s, text.value, regexSplit);
      }
      if s.chunkOverlap <= s.chunkSize {
        RunNeverOutOfBounds(text.value, s.separator.value, s.chunkSize, s.chunkOverlap, 0, {});
      }
    }
  }

  /** With no overlap the raw pieces tile the rest of the text exactly. */
  lemma {:induction false} ZeroOverlapTiles(text: string, sep: string, size: int, start: nat)
    requires size > 0 && start <= |text|
    ensures Concat(Pieces(text, Spans(text, sep, size, 0, start))) == text[start..]
    decreases |text| - start
  {
    if start < |text| {
      var end := ChunkEnd(text, sep, size, start);
      assert NextCursor(text, sep, size, 0, start) == end;
      var rest := Spans(text, sep, size, 0, end);
      ZeroOverlapTiles(text, sep, size, end);
      assert Spans(text, sep, size, 0, start) == [Span(start, end)] + rest;
      assert ([Span(start, end)] + rest)[1..] == rest;
      assert text[start..] == text[start..end] + text[end..];
    }
  }

  /** The arithmetic step of `ChunkCountBound`. */
  lemma CountStep(m: int, d: int, remaining: int, remainingAfter: int)
    requires m >= 1 && d > 0
    requires (m - 1) * d < remainingAfter && remainingAfter <= remaining - d
    ensures m * d < remaining
  {
    assert m * d == (m - 1) * d + d;
  }

  /** Each chunk after the first advances the cursor by at least size - overlap, which bounds the count. */
  lemma {:induction false} ChunkCountBound(text: string, sep: string, size: int, overlap: int, start: nat)
    requires 0 <= overlap < size
    ensures var m := |Spans(text, sep, size, overlap, start)|;
      m >= 1 ==> (m - 1) * (size - overlap) < |text| - start
    decreases |text| - start
  {
    if start < |text| {
      var end := ChunkEnd(text, sep, size, start);
      var next := NextCursor(text, sep, size, overlap, start);
      var rest := Spans(text, sep, size, overlap, next);
      assert |Spans(text, sep, size, overlap, start)| == 1 + |rest|;
      ChunkCountBound(text, sep, size, overlap, next);
      if |rest| >= 1 {
        assert next < |text|;
        CountStep(|rest|, size - overlap, |text| - start, |text| - next);
      }
    }
  }

  // ---------------------------------------------------------------------------
  // Concrete runs.
  // ---------------------------------------------------------------------------

  /** A chunk of size 1 with overlap 1 puts the cursor back where it was: the loop never ends. */
  lemma HangExample(regexSplit: RegexSplit)
    ensures Split(WithDefaultSeparator(1, 1), Some("abc"), regexSplit) == Failure(Diverges)
  {
    assert "abc"[1..3] == "bc";
    assert IndexOf("abc", "\n\n", 1) == -1;
  }

  /** An overlap larger than the chunk moves the cursor below zero and `substring` throws. */
  lemma NegativeCursorExample(regexSplit: RegexSplit)
    ensures Split(WithDefaultSeparator(1, 2), Some("abc"), regexSplit) == Failure(IndexOutOfBounds)
  {
    assert "abc"[1..3] == "bc";
    assert IndexOf("abc", "\n\n", 1) == -1;
  }

  /** With an overlap of 2 the second chunk repeats the last two characters of the first. */
  lemma OverlapExample(regexSplit: RegexSplit)
    ensures Split(WithDefaultSeparator(4, 2), Some("abcdef"), regexSplit) == Success(["abcd", "cdef"])
  {
    var t, sep := "abcdef", "\n\n";
    assert Split(WithDefaultSeparator(4, 2), Some(t), regexSplit) == Run(t, sep, 4, 2, 0, {});
    assert t[4..6][0] == 'e';
    assert IndexOf(t, sep, 4) == -1;
    assert ChunkEnd(t, sep, 4, 0) == 4 && NextCursor(t, sep, 4, 2, 0) == 2;
    assert t[0..4] == "abcd" && t[2..6] == "cdef";
    RemoveAllLeadFree("abcd", sep);
    RemoveAllLeadFree("cdef", sep);
    RunStep(t, sep, 4, 2, 0, {});
    assert Run(t, sep, 4, 2, 0, {}) == Prefixed(["abcd"], Run(t, sep, 4, 2, 2, {0}));
    assert IndexOf(t, sep, 6) == -1;
    assert ChunkEnd(t, sep, 4, 2) == 6 && NextCursor(t, sep, 4, 2, 2) == 6;
    RunStep(t, sep, 4, 2, 2, {0});
    assert Run(t, sep, 4, 2, 2, {0}) == Prefixed(["cdef"], Run(t, sep, 4, 2, 6, {0, 2}));
    assert Run(t, sep, 4, 2, 6, {0, 2}) == Success([]);
    assert ["cdef"] + [] == ["cdef"] && ["abcd"] + ["cdef"] == ["abcd", "cdef"];
  }

  /** The first turn of `SeparatorExample`: the chunk [0, 1) stretches over the separator to [0, 4). */
  lemma SeparatorFirstTurn(a: string, b: string)
    requires |a| == 2 && |b| == 2 && '\n' !in a && '\n' !in b
    ensures ChunkEnd(a + "\n\n" + b, "\n\n", 1, 0) == 4
    ensures RemoveAll((a + "\n\n" + b)[0..4], "\n\n") == a
  {
    var sep := "\n\n";
    var t := a + sep + b;
    assert t[1..2] == a[1..];
    assert t[2..4] == sep;
    IndexOfAt(t, sep, 1, 2);
    assert t[0..4] == a + sep + "";
    RemoveAllAfterLeadFree(a, sep, "");
  }

  /** The later turns of `SeparatorExample`: one character each, nothing to remove. */
  lemma SeparatorLaterTurns(a: string, b: string)
    requires |a| == 2 && |b| == 2 && '\n' !in a && '\n' !in b
    ensures ChunkEnd(a + "\n\n" + b, "\n\n", 1, 4) == 5
    ensures ChunkEnd(a + "\n\n" + b, "\n\n", 1, 5) == 6
    ensures RemoveAll((a + "\n\n" + b)[4..5], "\n\n") == b[..1]
    ensures RemoveAll((a + "\n\n" + b)[5..6], "\n\n") == b[1..]
  {
    var sep := "\n\n";
    var t := a + sep + b;
    assert t[5..] == b[1..];
    IndexOfLeadFree(t, sep, 5);
    IndexOfLeadFree(t, sep, 6);
    assert t[4..5] == b[..1] && t[5..6] == b[1..];
    RemoveAllLeadFree(b[..1], sep);
    RemoveAllLeadFree(b[1..], sep);
  }

  /**
   * A separator past the tentative end stretches the chunk over it, and is
   * then removed from it: "ab\n\ncd" with size 1 gives "ab", "c", "d".
   */
  lemma SeparatorExample(a: string, b: string, regexSplit: RegexSplit)
    requires |a| == 2 && |b| == 2 && '\n' !in a && '\n' !in b
    ensures Split(WithDefaultSeparator(1, 0), Some(a + "\n\n" + b), regexSplit) == Success([a, b[..1], b[1..]])
  {
    var sep := "\n\n";
    var t := a + sep + b;
    SeparatorFirstTurn(a, b);
    SeparatorLaterTurns(a, b);
    assert Split(WithDefaultSeparator(1, 0), Some(t), regexSplit) == Run(t, sep, 1, 0, 0, {});
    assert NextCursor(t, sep, 1, 0, 0) == 4;
    RunStep(t, sep, 1, 0, 0, {});
    assert {} + {0} == {0};
    assert Run(t, sep, 1, 0, 0, {}) == Prefixed([a], Run(t, sep, 1, 0, 4, {0}));
    assert NextCursor(t, sep, 1, 0, 4) == 5;
    RunStep(t, sep, 1, 0, 4, {0});
    assert Run(t, sep, 1, 0, 4, {0}) == Prefixed([b[..1]], Run(t, sep, 1, 0, 5, {0, 4}));
    assert NextCursor(t, sep, 1, 0, 5) == 6;
    RunStep(t, sep, 1, 0, 5, {0, 4});
    assert Run(t, sep, 1, 0, 5, {0, 4}) == Prefixed([b[1..]], Run(t, sep, 1, 0, 6, {0, 4, 5}));
    assert Run(t, sep, 1, 0, 6, {0, 4, 5}) == Success([]);
    assert [b[1..]] + [] == [b[1..]] && [b[..1]] + [b[1..]] == [b[..1], b[1..]];
    assert [a] + [b[..1], b[1..]] == [a, b[..1], b[1..]];
  }

  /**
   * A separator straddling a tentative end is not removed: the first chunk
   * ends in its first character and the next one starts with the second, so
   * the chunks glued together still hold the separator that `replace` on the
   * whole text would have removed.
   */
  lemma SeparatorSurvivesAtChunkEdge(regexSplit: RegexSplit)
    ensures Split(WithDefaultSeparator(2, 0), Some("x\n\ny"), regexSplit) == Success(["x\n", "\ny"])
    ensures Concat(["x\n", "\ny"]) == "x\n\ny"
    ensures RemoveAll("x\n\ny", "\n\n") == "xy"
  {
    var t, sep := "x\n\ny", "\n\n";
    assert Split(WithDefaultSeparator(2, 0), Some(t), regexSplit) == Run(t, sep, 2, 0, 0, {});
    assert t[2..4][1] == 'y';
    assert IndexOf(t, sep, 2) == -1;
    assert ChunkEnd(t, sep, 2, 0) == 2 && NextCursor(t, sep, 2, 0, 0) == 2;
    assert t[0..2] == "x\n" && t[2..4] == "\ny";
    assert "x\n"[..2][0] == 'x' && "\ny"[..2][1] == 'y';
    assert RemoveAll("x\n", sep) == "x\n";
    assert RemoveAll("\ny", sep) == "\ny";
    RunStep(t, sep, 2, 0, 0, {});
    assert Run(t, sep, 2, 0, 0, {}) == Prefixed(["x\n"], Run(t, sep, 2, 0, 2, {0}));
    assert IndexOf(t, sep, 4) == -1;
    assert ChunkEnd(t, sep, 2, 2) == 4 && NextCursor(t, sep, 2, 0, 2) == 4;
    RunStep(t, sep, 2, 0, 2, {0});
    assert Run(t, sep, 2, 0, 2, {0}) == Prefixed(["\ny"], Run(t, sep, 2, 0, 4, {0, 2}));
    assert Run(t, sep, 2, 0, 4, {0, 2}) == Success([]);
    assert ["\ny"] + [] == ["\ny"] && ["x\n"] + ["\ny"] == ["x\n", "\ny"];
    assert t == "x" + sep + "y";
    RemoveAllAfterLeadFree("x", sep, "y");
    assert Concat(["x\n", "\ny"]) == "x\n" + Concat(["\ny"]);
  }

  /** The only turn of `FewerChunksExample`: the chunk [0, 2) stretches to the separator at the end. */
  lemma FewerChunksTurn(a: string)
    requires |a| == 6 && '\n' !in a
    ensures ChunkEnd(a + "\n\n", "\n\n", 2, 0) == 8
    ensures RemoveAll(a + "\n\n", "\n\n") == a
  {
    var sep := "\n\n";
    var t := a + sep;
    assert t[2..6] == a[2..];
    assert t[6..8] == sep;
    IndexOfAt(t, sep, 2, 6);
    assert t == a + sep + "";
    RemoveAllAfterLeadFree(a, sep, "");
  }

  /**
   * A separator far past the tentative end swallows the rest of the text into
   * one chunk: 8 characters with chunk size 2 give a single chunk.
   */
  lemma FewerChunksExample(a: string, regexSplit: RegexSplit)
    requires |a| == 6 && '\n' !in a
    ensures Split(WithDefaultSeparator(2, 0), Some(a + "\n\n"), regexSplit) == Success([a])
  {
    var sep := "\n\n";
    var t := a + sep;
    FewerChunksTurn(a);
    assert Split(WithDefaultSeparator(2, 0), Some(t), regexSplit) == Run(t, sep, 2, 0, 0, {});
    assert t[0..8] == t;
    RunStep(t, sep, 2, 0, 0, {});
    assert Run(t, sep, 2, 0, 0, {}) == Prefixed([a], Run(t, sep, 2, 0, 8, {0}));
    assert Run(t, sep, 2, 0, 8, {0}) == Success([]);
    assert [a] + [] == [a];
  }

  /**
   * The chunks of the worked example's first turn: a 45-character text whose
   * only separator sits at index 24 has none at or after index 30, so the first
   * chunk is [0, 30) with the separator removed.
   */
  lemma {:induction false} WorkedFirstChunk(a: string, b: string)
    requires |a| == 24 && |b| == 19 && '\n' !in a && '\n' !in b
    ensures ChunkEnd(a + "\n\n" + b, "\n\n", 30, 0) == 30
    ensures RemoveAll((a + "\n\n" + b)[0..30], "\n\n") == a + b[..4]
  {
    var sep := "\n\n";
    var t := a + sep + b;
    assert t[30..] == b[4..];
    IndexOfLeadFree(t, sep, 30);
    assert t[0..30] == a + sep + b[..4];
    RemoveAllAfterLeadFree(a, sep, b[..4]);
    RemoveAllLeadFree(b[..4], sep);
  }

  /** The second turn: the chunk [25, 45) starts with the separator's second half, which is kept. */
  lemma {:induction false} WorkedSecondChunk(a: string, b: string)
    requires |a| == 24 && |b| == 19 && '\n' !in a && '\n' !in b
    ensures ChunkEnd(a + "\n\n" + b, "\n\n", 30, 25) == 45
    ensures RemoveAll((a + "\n\n" + b)[25..45], "\n\n") == "\n" + b
  {
    var sep := "\n\n";
    var t := a + sep + b;
    assert t[45..] == [];
    IndexOfLeadFree(t, sep, 45);
    var c := t[25..45];
    assert c == "\n" + b;
    assert c[..2][1] == b[0];
    RemoveAllLeadFree(b, sep);
    assert c[1..] == b;
  }

  /**
   * The worked example: 24 characters, the separator, 19 characters, split
   * with size 30 and overlap 5. The chunks come from [0, 30) and [25, 45), and
   * the second keeps a lone newline, the half of the separator past the
   * overlap boundary.
   */
  lemma WorkedExample(a: string, b: string, regexSplit: RegexSplit)
    requires |a| == 24 && |b| == 19 && '\n' !in a && '\n' !in b
    ensures Split(WithDefaultSeparator(30, 5), Some(a + "\n\n" + b), regexSplit)
            == Success([a + b[..4], "\n" + b])
  {
    var sep := "\n\n";
    var t := a + sep + b;
    var first, second := a + b[..4], "\n" + b;
    WorkedFirstChunk(a, b);
    WorkedSecondChunk(a, b);
    assert Split(WithDefaultSeparator(30, 5), Some(t), regexSplit) == Run(t, sep, 30, 5, 0, {});
    assert NextCursor(t, sep, 30, 5, 0) == 25;
    RunStep(t, sep, 30, 5, 0, {});
    assert Run(t, sep, 30, 5, 0, {}) == Prefixed([first], Run(t, sep, 30, 5, 25, {} + {0}));
    assert {} + {0} == {0};
    assert NextCursor(t, sep, 30, 5, 25) == 45;
    RunStep(t, sep, 30, 5, 25, {0});
    assert Run(t, sep, 30, 5, 25, {0}) == Prefixed([second], Run(t, sep, 30, 5, 45, {0, 25}));
    assert Run(t, sep, 30, 5, 45, {0, 25}) == Success([]);
    assert [second] + [] == [second] && [first] + [second] == [first, second];
  }
}
