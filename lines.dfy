/** The input file as a character sequence whose indices are the stream
    offsets reported by `tell()`, and the line-reading primitives built on it:
    `readline()`, the realignment of a rank's first offset, and the sequence of
    lines a rank's scan loop reads. */
module Lines {

  /** Offset just past the first newline at or after `p`, or the end of the
      text when there is none; `p` itself when `p` is at or past the end. */
  function LineEnd(text: string, p: nat): (q: nat)
    ensures p <= q
    ensures p <= |text| ==> q <= |text|
    ensures p < |text| ==> p < q && (q == |text| || text[q - 1] == '\n')
    ensures p >= |text| ==> q == p
    decreases |text| - p
  {
    if p >= |text| then p
    else if text[p] == '\n' then p + 1
    else LineEnd(text, p + 1)
  }

  /** No newline lies between `p` and the last character of its line. */
  lemma {:induction false} LineEndNoNewline(text: string, p: nat)
    ensures forall i | p <= i < LineEnd(text, p) - 1 :: text[i] != '\n'
    decreases |text| - p
  {
    if p < |text| && text[p] != '\n' {
      LineEndNoNewline(text, p + 1);
    }
  }

  /** Python's `readline()` at offset `p`: the characters up to and including
      the next newline, or up to the end; empty exactly at end of file. */
  function ReadLine(text: string, p: nat): (line: string)
    ensures line == [] <==> p >= |text|
    ensures p < |text| ==> p + |line| <= |text| && line == text[p..p + |line|]
    ensures p < |text| ==> p + |line| == LineEnd(text, p)
  {
    if p < |text| then text[p..LineEnd(text, p)] else []
  }

  /** A line read holds a newline only as its last character. */
  lemma ReadLineOneLine(text: string, p: nat)
    ensures forall i | 0 <= i < |ReadLine(text, p)| - 1 :: ReadLine(text, p)[i] != '\n'
  {
    if p < |text| {
      LineEndNoNewline(text, p);
    }
  }

  /** Offset `p` starts a line of the text. */
  predicate IsLineStart(text: string, p: nat) {
    p < |text| && (p == 0 || text[p - 1] == '\n')
  }

  /** Offset `p` is at the beginning of a line or at (or past) the end: the
      positions that `readline()` can leave the stream at. */
  predicate AtBoundary(text: string, p: nat) {
    p >= |text| || IsLineStart(text, p)
  }

  /** Realignment as written: a rank with `start > 0` seeks to `start` and
      discards one `readline()`; a rank with `start == 0` discards nothing. */
  function Realign(text: string, start: nat): (p: nat)
    ensures AtBoundary(text, p)
    ensures start == 0 ==> p == 0
    ensures start > 0 && start < |text| ==> start < p
    ensures start <= |text| ==> p <= |text|
    ensures 0 < start <= |text| ==> forall i | start <= i < p - 1 :: text[i] != '\n'
  {
    if start > 0 then
      LineEndNoNewline(text, start);
      LineEnd(text, start)
    else 0
  }

  /** The realignment the authors evidently intended: discard only an
      incomplete line, by discarding the rest of the line holding byte
      `start - 1`. */
  function RealignCorrected(text: string, start: nat): (p: nat)
    ensures AtBoundary(text, p)
    ensures start <= |text| ==> start <= p <= |text|
    ensures 0 < start <= |text| ==> forall i | start - 1 <= i < p - 1 :: text[i] != '\n'
  {
    if start > 0 then
      LineEndNoNewline(text, start - 1);
      LineEnd(text, start - 1)
    else 0
  }

  /** Offsets of the lines the scan loop reads from `p`: it stops once the
      offset reaches `end` or the text is exhausted. */
  function ReadStarts(text: string, p: nat, end: nat): (starts: seq<nat>)
    decreases |text| - p
  {
    if p >= end || p >= |text| then []
    else [p] + ReadStarts(text, LineEnd(text, p), end)
  }

  /** The lines starting at the given offsets, in the same order. */
  function LinesAt(text: string, starts: seq<nat>): (lines: seq<string>)
    ensures |lines| == |starts|
    ensures forall i | 0 <= i < |starts| :: lines[i] == ReadLine(text, starts[i])
  {
    seq(|starts|, i requires 0 <= i < |starts| => ReadLine(text, starts[i]))
  }

  lemma LinesAtConcat(text: string, s: seq<nat>, t: seq<nat>)
    ensures LinesAt(text, s + t) == LinesAt(text, s) + LinesAt(text, t)
  {
    assert forall i | 0 <= i < |s + t| :: (s + t)[i] == if i < |s| then s[i] else t[i - |s|];
  }

  /** The lines the scan loop reads from `p`, in file order. */
  function ReadLines(text: string, p: nat, end: nat): (lines: seq<string>)
  {
    LinesAt(text, ReadStarts(text, p, end))
  }

  /** The offset at which the scan loop from `p` stops. */
  function Stop(text: string, p: nat, end: nat): (q: nat)
    ensures p <= q
    ensures p <= |text| ==> q <= |text|
    ensures q >= end || q >= |text|
    decreases |text| - p
  {
    if p >= end || p >= |text| then p
    else Stop(text, LineEnd(text, p), end)
  }

  /** The offsets the loop reads from a boundary are exactly the line starts
      from there up to (not including) `end`, in strictly increasing order. */
  lemma {:induction false} ReadStartsExactly(text: string, p: nat, end: nat)
    requires AtBoundary(text, p)
    ensures forall q: nat :: q in ReadStarts(text, p, end) <==> IsLineStart(text, q) && p <= q < end
    ensures forall i, j | 0 <= i < j < |ReadStarts(text, p, end)| ::
              ReadStarts(text, p, end)[i] < ReadStarts(text, p, end)[j]
    decreases |text| - p
  {
    ReadStartsIncreasing(text, p, end);
    if p < end && p < |text| {
      ReadStartsExactly(text, LineEnd(text, p), end);
      NextLineStart(text, p);
    }
  }

  /** The offsets the loop reads start at `p` and strictly increase. */
  lemma {:induction false} ReadStartsIncreasing(text: string, p: nat, end: nat)
    ensures forall i | 0 <= i < |ReadStarts(text, p, end)| :: p <= ReadStarts(text, p, end)[i]
    ensures forall i, j | 0 <= i < j < |ReadStarts(text, p, end)| ::
              ReadStarts(text, p, end)[i] < ReadStarts(text, p, end)[j]
    decreases |text| - p
  {
    if p < end && p < |text| {
      ReadStartsIncreasing(text, LineEnd(text, p), end);
    }
  }

  /** No line starts strictly inside the line read from `p`. */
  lemma NextLineStart(text: string, p: nat)
    requires p < |text|
    ensures forall q | IsLineStart(text, q) && p < q :: LineEnd(text, p) <= q
  {
    LineEndNoNewline(text, p);
    forall q | IsLineStart(text, q) && p < q
      ensures LineEnd(text, p) <= q
    {
      assert text[q - 1] == '\n';
    }
  }

  /** Reading up to `e2` is reading up to `e1`, then going on from where that stopped. */
  lemma {:induction false} ReadStartsSplit(text: string, p: nat, e1: nat, e2: nat)
    requires e1 <= e2
    ensures ReadStarts(text, p, e2) == ReadStarts(text, p, e1) + ReadStarts(text, Stop(text, p, e1), e2)
    decreases |text| - p
  {
    if p < e1 && p < |text| {
      var q := LineEnd(text, p);
      ReadStartsSplit(text, q, e1, e2);
      assert ReadStarts(text, p, e2) == [p] + ReadStarts(text, q, e2);
      assert ReadStarts(text, p, e1) == [p] + ReadStarts(text, q, e1);
    }
  }

  /** The same split for the lines read. */
  lemma ReadLinesSplit(text: string, p: nat, e1: nat, e2: nat)
    requires e1 <= e2
    ensures ReadLines(text, p, e2) == ReadLines(text, p, e1) + ReadLines(text, Stop(text, p, e1), e2)
  {
    ReadStartsSplit(text, p, e1, e2);
    LinesAtConcat(text, ReadStarts(text, p, e1), ReadStarts(text, Stop(text, p, e1), e2));
  }

  /** The first line read from `p`, then the rest from the next line start. */
  lemma ReadLinesCons(text: string, p: nat, end: nat)
    requires p < end && p < |text|
    ensures ReadLines(text, p, end) == [ReadLine(text, p)] + ReadLines(text, LineEnd(text, p), end)
  {
    LinesAtConcat(text, [p], ReadStarts(text, LineEnd(text, p), end));
  }

  /** From a boundary no later than the corrected realignment of `e`, the loop
      with end offset `e` stops exactly at that realignment: where the next rank
      begins when it realigns the corrected way. */
  lemma {:induction false} StopAtCorrected(text: string, p: nat, e: nat)
    requires e <= |text| && AtBoundary(text, p) && p <= RealignCorrected(text, e)
    ensures Stop(text, p, e) == RealignCorrected(text, e)
    decreases |text| - p
  {
    var c := RealignCorrected(text, e);
    if p >= e || p >= |text| {
      if e > 0 && p < |text| {
        assert text[p - 1] == '\n';
      }
    } else {
      var q := LineEnd(text, p);
      LineEndNoNewline(text, p);
      StopAtCorrected(text, q, e);
    }
  }
}
