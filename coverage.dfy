/** The whole job: each rank's byte range, realignment and scan, and the
    reduction of the ranks' local accumulators into the global maps. Which
    lines of the file end up in the global maps, as the realignment is
    written and as it was evidently meant. The file size is `|text|`. */
module Coverage {
  import opened Partition
  import opened Lines
  import opened Records
  import opened MergeReduce

  /** Where a rank's scan begins: realigned as written, or the corrected way. */
  function First(text: string, size: nat, r: nat, corrected: bool): nat
    requires 1 <= size && r < size
  {
    var s := StartOffset(|text|, size, r);
    if corrected then RealignCorrected(text, s) else Realign(text, s)
  }

  /** The offsets of the lines rank `r` reads. */
  function RankStarts(text: string, size: nat, r: nat, corrected: bool): seq<nat>
    requires 1 <= size && r < size
  {
    ReadStarts(text, First(text, size, r, corrected), EndOffset(|text|, size, r))
  }

  /** The lines rank `r` reads, in file order. */
  function RankLines(text: string, size: nat, r: nat, corrected: bool): seq<string>
    requires 1 <= size && r < size
  {
    ReadLines(text, First(text, size, r, corrected), EndOffset(|text|, size, r))
  }

  /** Rank `r`'s local accumulators when its scan ends. */
  function Local(text: string, size: nat, r: nat, corrected: bool, parse: string -> ParseResult): Accumulators
    requires 1 <= size && r < size
  {
    Fold(Empty, RankLines(text, size, r, corrected), parse)
  }

  /** The local accumulators of ranks 0 .. n-1, in rank order. */
  function Locals(text: string, size: nat, n: nat, corrected: bool, parse: string -> ParseResult)
    : (ls: seq<Accumulators>)
    requires 1 <= size && n <= size
    ensures |ls| == n
    ensures forall r | 0 <= r < n :: ls[r] == Local(text, size, r, corrected, parse)
  {
    seq(n, r requires 0 <= r < n => Local(text, size, r, corrected, parse))
  }

  function UserMaps(ls: seq<Accumulators>): (ms: seq<map<UserKey, real>>)
    ensures |ms| == |ls| && forall i | 0 <= i < |ls| :: ms[i] == ls[i].byUser
  {
    seq(|ls|, i requires 0 <= i < |ls| => ls[i].byUser)
  }

  function HourMaps(ls: seq<Accumulators>): (ms: seq<map<string, real>>)
    ensures |ms| == |ls| && forall i | 0 <= i < |ls| :: ms[i] == ls[i].byHour
  {
    seq(|ls|, i requires 0 <= i < |ls| => ls[i].byHour)
  }

  /** The global maps the coordinator ends with: both local maps of every
      rank reduced with `merge_dicts`, or rank 0's own maps when it is alone. */
  function Job(text: string, size: nat, corrected: bool, parse: string -> ParseResult): Accumulators
    requires 1 <= size
  {
    var ls := Locals(text, size, size, corrected, parse);
    Accumulators(Global(UserMaps(ls)), Global(HourMaps(ls)))
  }

  /** What one pass over the whole file gives. */
  function SinglePass(text: string, parse: string -> ParseResult): Accumulators {
    Fold(Empty, ReadLines(text, 0, |text|), parse)
  }

  // ----- which rank reads which line -----

  /** A line start is at or after the as-written realignment of `s` exactly
      when `s` is 0 or the line starts strictly after `s`. */
  lemma RealignExact(text: string, s: nat, q: nat)
    requires IsLineStart(text, q)
    ensures q >= Realign(text, s) <==> s == 0 || s < q
  {
    if 0 < s < |text| {
      LineEndNoNewline(text, s);
      if s < q {
        assert text[q - 1] == '\n';
      }
    }
  }

  /** A line start is at or after the corrected realignment of `s` exactly
      when it is at or after `s`. */
  lemma RealignCorrectedExact(text: string, s: nat, q: nat)
    requires IsLineStart(text, q)
    ensures q >= RealignCorrected(text, s) <==> s <= q
  {
    if 0 < s {
      LineEndNoNewline(text, s - 1);
      if s <= q {
        assert text[q - 1] == '\n';
      }
    }
  }

  /** As written, rank `r` reads the line starting at `q` exactly when `q`
      lies in its range and is not its own start offset, unless that is 0. */
  lemma AsWrittenReaders(text: string, size: nat, r: nat, q: nat)
    requires 1 <= size && r < size && IsLineStart(text, q)
    ensures var s := StartOffset(|text|, size, r);
            q in RankStarts(text, size, r, false) <==> (s == 0 || s < q) && q < EndOffset(|text|, size, r)
  {
    ReadStartsExactly(text, First(text, size, r, false), EndOffset(|text|, size, r));
    RealignExact(text, StartOffset(|text|, size, r), q);
  }

  /** As written, the only rank that can read a line is the owner of its
      first byte, and the owner reads it unless the line begins exactly at the
      owner's start offset and that offset is not 0. */
  lemma AsWrittenReadBy(text: string, size: nat, r: nat, q: nat)
    requires 1 <= size && r < size && IsLineStart(text, q)
    ensures q in RankStarts(text, size, r, false)
            <==> r == Owner(|text|, size, q) && (q == StartOffset(|text|, size, r) ==> q == 0)
  {
    AsWrittenReaders(text, size, r, q);
    Tiling(|text|, size, q, r);
  }

  /** A line that does not begin at a rank's start offset, or begins at 0, is
      read by exactly one rank: the owner of its first byte. */
  lemma InteriorLineReadOnce(text: string, size: nat, q: nat)
    requires 1 <= size && IsLineStart(text, q)
    requires q == 0 || forall r | 0 <= r < size :: q != StartOffset(|text|, size, r)
    ensures forall r | 0 <= r < size :: q in RankStarts(text, size, r, false) <==> r == Owner(|text|, size, q)
  {
    forall r | 0 <= r < size
      ensures q in RankStarts(text, size, r, false) <==> r == Owner(|text|, size, q)
    {
      AsWrittenReadBy(text, size, r, q);
    }
  }

  /** A line that begins exactly at the start offset of a rank other than 0,
      when that offset is not 0, is read by no rank. */
  lemma BoundaryLineUnread(text: string, size: nat, r: nat, q: nat)
    requires 1 <= size && 0 < r < size && IsLineStart(text, q)
    requires q == StartOffset(|text|, size, r) && q > 0
    ensures forall r' | 0 <= r' < size :: q !in RankStarts(text, size, r', false)
  {
    StartBeforeEnd(|text|, size, r);
    Tiling(|text|, size, q, r);
    forall r' | 0 <= r' < size
      ensures q !in RankStarts(text, size, r', false)
    {
      AsWrittenReadBy(text, size, r', q);
    }
  }

  /** With the corrected realignment every line is read by exactly one rank:
      the owner of its first byte. */
  lemma CorrectedReadBy(text: string, size: nat, r: nat, q: nat)
    requires 1 <= size && r < size && IsLineStart(text, q)
    ensures q in RankStarts(text, size, r, true) <==> r == Owner(|text|, size, q)
  {
    ReadStartsExactly(text, First(text, size, r, true), EndOffset(|text|, size, r));
    RealignCorrectedExact(text, StartOffset(|text|, size, r), q);
    Tiling(|text|, size, q, r);
  }

  /** The two realignments differ only when the start offset begins a line:
      then the as-written scan reads the corrected scan's lines minus the
      first one, the line at the start offset itself. */
  lemma AsWrittenDropsFirstLine(text: string, s: nat, e: nat)
    requires 0 < s < e && IsLineStart(text, s)
    ensures RealignCorrected(text, s) == s
    ensures ReadLines(text, s, e) == [ReadLine(text, s)] + ReadLines(text, Realign(text, s), e)
  {
    ReadLinesCons(text, s, e);
  }

  lemma RealignsAgree(text: string, s: nat)
    requires s < |text| && !IsLineStart(text, s)
    ensures Realign(text, s) == RealignCorrected(text, s)
  {
  }

  // ----- the global result -----

  /** Both local maps of every rank reduced with `merge_dicts`, in rank order. */
  function Reduce(ls: seq<Accumulators>): Accumulators {
    Accumulators(FoldMerge(UserMaps(ls)), FoldMerge(HourMaps(ls)))
  }

  /** Reducing one more rank is merging its local maps into the reduction so far. */
  lemma ReduceSnoc(ls: seq<Accumulators>)
    requires ls != []
    ensures Reduce(ls) == MergeAcc(Reduce(ls[..|ls| - 1]), ls[|ls| - 1])
  {
    assert UserMaps(ls)[..|ls| - 1] == UserMaps(ls[..|ls| - 1]);
    assert HourMaps(ls)[..|ls| - 1] == HourMaps(ls[..|ls| - 1]);
  }

  /** Reducing the locals of ranks 0 .. n-1 in rank order is folding their
      lines, concatenated, in one pass. */
  lemma {:induction false} ReduceIsFold(text: string, size: nat, n: nat, corrected: bool,
                                        parse: string -> ParseResult)
    requires 1 <= size && n <= size
    ensures Reduce(Locals(text, size, n, corrected, parse)) == Fold(Empty, ConcatLines(text, size, n, corrected), parse)
  {
    if n > 0 {
      LocalsSnoc(text, size, n, corrected, parse);
      ReduceIsFold(text, size, n - 1, corrected, parse);
      FoldSplitMerge(ConcatLines(text, size, n - 1, corrected), RankLines(text, size, n - 1, corrected), parse);
    } else {
      assert ConcatLines(text, size, 0, corrected) == [];
    }
  }

  /** Reducing the locals of one more rank merges that rank's local maps in. */
  lemma LocalsSnoc(text: string, size: nat, n: nat, corrected: bool, parse: string -> ParseResult)
    requires 1 <= n <= size
    ensures Reduce(Locals(text, size, n, corrected, parse))
         == MergeAcc(Reduce(Locals(text, size, n - 1, corrected, parse)), Local(text, size, n - 1, corrected, parse))
  {
    var ls := Locals(text, size, n, corrected, parse);
    ReduceSnoc(ls);
    assert ls[..n - 1] == Locals(text, size, n - 1, corrected, parse);
  }

  /** The lines of ranks 0 .. n-1, concatenated in rank order. */
  function ConcatLines(text: string, size: nat, n: nat, corrected: bool): seq<string>
    requires 1 <= size && n <= size
  {
    if n == 0 then [] else ConcatLines(text, size, n - 1, corrected) + RankLines(text, size, n - 1, corrected)
  }

  /** The offsets of the lines of ranks 0 .. n-1, concatenated in rank order. */
  function ConcatStarts(text: string, size: nat, n: nat, corrected: bool): seq<nat>
    requires 1 <= size && n <= size
  {
    if n == 0 then [] else ConcatStarts(text, size, n - 1, corrected) + RankStarts(text, size, n - 1, corrected)
  }

  lemma {:induction false} ConcatLinesAt(text: string, size: nat, n: nat, corrected: bool)
    requires 1 <= size && n <= size
    ensures ConcatLines(text, size, n, corrected) == LinesAt(text, ConcatStarts(text, size, n, corrected))
  {
    if n > 0 {
      var a, b := ConcatStarts(text, size, n - 1, corrected), RankStarts(text, size, n - 1, corrected);
      assert ConcatStarts(text, size, n, corrected) == a + b;
      assert ConcatLines(text, size, n, corrected) == ConcatLines(text, size, n - 1, corrected) + RankLines(text, size, n - 1, corrected);
      assert ConcatLines(text, size, n - 1, corrected) == LinesAt(text, a) by {
        ConcatLinesAt(text, size, n - 1, corrected);
      }
      assert RankLines(text, size, n - 1, corrected) == LinesAt(text, b);
      assert LinesAt(text, a + b) == LinesAt(text, a) + LinesAt(text, b) by {
        LinesAtConcat(text, a, b);
      }
    }
  }

  /** With the corrected realignment, ranks 0 .. n-1 together read exactly the
      line offsets a single pass reads up to rank n-1's end offset. */
  lemma {:induction false} CorrectedPrefix(text: string, size: nat, n: nat)
    requires 1 <= size && 1 <= n <= size
    ensures ConcatStarts(text, size, n, true) == ReadStarts(text, 0, EndOffset(|text|, size, n - 1))
  {
    if n == 1 {
      OneRankStarts(text, size, true);
    } else {
      CorrectedPrefix(text, size, n - 1);
      CorrectedPrefixStep(text, size, n);
    }
  }

  /** Rank 0 reads from offset 0, whichever realignment is used. */
  lemma OneRankStarts(text: string, size: nat, corrected: bool)
    requires 1 <= size
    ensures ConcatStarts(text, size, 1, corrected) == ReadStarts(text, 0, EndOffset(|text|, size, 0))
  {
    assert First(text, size, 0, corrected) == 0;
    assert ConcatStarts(text, size, 1, corrected) == [] + RankStarts(text, size, 0, corrected);
  }

  /** Rank `n-1`'s lines continue exactly where ranks 0 .. n-2 stopped. */
  lemma CorrectedPrefixStep(text: string, size: nat, n: nat)
    requires 2 <= n <= size
    requires ConcatStarts(text, size, n - 1, true) == ReadStarts(text, 0, EndOffset(|text|, size, n - 1 - 1))
    ensures ConcatStarts(text, size, n, true) == ReadStarts(text, 0, EndOffset(|text|, size, n - 1))
  {
    var e1, e2 := EndOffset(|text|, size, n - 1 - 1), EndOffset(|text|, size, n - 1);
    assert RankStarts(text, size, n - 1, true) == ReadStarts(text, Stop(text, 0, e1), e2) by {
      StopAtCorrected(text, 0, e1);
    }
    ReadStartsSplit(text, 0, e1, e2);
  }

  /** With the corrected realignment any number of ranks computes what one
      pass over the whole file computes. */
  lemma CorrectedJobIsSinglePass(text: string, size: nat, parse: string -> ParseResult)
    requires 1 <= size
    ensures Job(text, size, true, parse) == SinglePass(text, parse)
  {
    ReduceIsFold(text, size, size, true, parse);
    CorrectedPrefix(text, size, size);
    ConcatLinesAt(text, size, size, true);
  }

  /** As written, the job is the single pass for one rank, and for every
      number of ranks it is the fold of exactly the lines the ranks read. */
  lemma AsWrittenJob(text: string, size: nat, parse: string -> ParseResult)
    requires 1 <= size
    ensures Job(text, size, false, parse) == Fold(Empty, ConcatLines(text, size, size, false), parse)
    ensures size == 1 ==> Job(text, size, false, parse) == SinglePass(text, parse)
  {
    ReduceIsFold(text, size, size, false, parse);
    if size == 1 {
      assert ConcatLines(text, 1, 1, false) == [] + RankLines(text, 1, 0, false);
    }
  }

  /** As written, any number of ranks computes what one pass computes when no
      rank's start above 0 falls exactly on a line start. */
  lemma AsWrittenNoBoundaryLine(text: string, size: nat, parse: string -> ParseResult)
    requires 1 <= size
    requires forall r | 0 < r < size ::
               StartOffset(|text|, size, r) > 0 ==> !IsLineStart(text, StartOffset(|text|, size, r))
    ensures Job(text, size, false, parse) == SinglePass(text, parse)
  {
    forall r | 0 <= r < size
      ensures First(text, size, r, false) == First(text, size, r, true)
    {
      SameFirst(text, size, r);
    }
    assert Locals(text, size, size, false, parse) == Locals(text, size, size, true, parse);
    CorrectedJobIsSinglePass(text, size, parse);
  }

  /** A rank whose start above 0 is not a line start begins at the same offset
      under both realignments. */
  lemma SameFirst(text: string, size: nat, r: nat)
    requires 1 <= size && r < size
    requires StartOffset(|text|, size, r) > 0 ==> !IsLineStart(text, StartOffset(|text|, size, r))
    ensures First(text, size, r, false) == First(text, size, r, true)
  {
    var s := StartOffset(|text|, size, r);
    if 0 < s < |text| {
      RealignsAgree(text, s);
    } else if 0 < s {
      assert LineEnd(text, s - 1) == |text|;
    }
  }

  /** Two ranks over "a\nb\n": rank 1's range starts at 2, where the line
      "b\n" begins. As written rank 0 reads only "a\n" and rank 1 reads
      nothing; corrected, rank 1 reads "b\n". */
  lemma BoundaryLineLost()
    ensures RankLines("a\nb\n", 2, 0, false) == ["a\n"]
    ensures RankLines("a\nb\n", 2, 1, false) == []
    ensures ConcatLines("a\nb\n", 2, 2, false) == ["a\n"]
    ensures RankLines("a\nb\n", 2, 1, true) == ["b\n"]
    ensures ReadLines("a\nb\n", 0, 4) == ["a\n", "b\n"]
  {
    var text := "a\nb\n";
    assert StartOffset(4, 2, 1) == 2 && EndOffset(4, 2, 0) == 2 && EndOffset(4, 2, 1) == 4;
    assert LineEnd(text, 0) == 2 && LineEnd(text, 2) == 4 && LineEnd(text, 1) == 2;
    assert ReadLine(text, 0) == "a\n" && ReadLine(text, 2) == "b\n";
    assert ReadStarts(text, 0, 2) == [0];
    assert ReadStarts(text, 4, 4) == [];
    assert ReadStarts(text, 2, 4) == [2];
    assert ReadStarts(text, 0, 4) == [0, 2];
    assert ConcatLines(text, 2, 2, false) == [] + ["a\n"] + [];
  }
}
