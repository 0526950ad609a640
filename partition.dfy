/** Partition planner: every rank gets a half-open byte range [start, end) of
    the input file. All ranks but the last get `fileSize / size` bytes; the
    last rank also takes the remainder of the integer division. */
module Partition {

  /** The per-rank chunk: Python's `file_size // size` on non-negative operands. */
  function ChunkSize(fileSize: nat, size: nat): (c: nat)
    requires size >= 1
    ensures c * size <= fileSize < c * size + size
  {
    fileSize / size
  }

  function StartOffset(fileSize: nat, size: nat, rank: nat): (s: nat)
    requires 1 <= size && rank < size
    ensures s <= fileSize
    ensures rank == 0 ==> s == 0
  {
    ChunkLe(fileSize, size, rank);
    rank * ChunkSize(fileSize, size)
  }

  function EndOffset(fileSize: nat, size: nat, rank: nat): (e: nat)
    requires 1 <= size && rank < size
    ensures StartOffset(fileSize, size, rank) <= e <= fileSize
    ensures rank == size - 1 ==> e == fileSize
    ensures rank < size - 1 ==> e == StartOffset(fileSize, size, rank + 1)
    ensures rank < size - 1 ==> e - StartOffset(fileSize, size, rank) == ChunkSize(fileSize, size)
    ensures rank == size - 1 ==>
              e - StartOffset(fileSize, size, rank) == ChunkSize(fileSize, size) + fileSize % size
  {
    var c := ChunkSize(fileSize, size);
    if rank != size - 1 then
      ChunkLe(fileSize, size, rank + 1);
      assert (rank + 1) * c == rank * c + c;
      (rank + 1) * c
    else
      LastChunk(fileSize, size);
      fileSize
  }

  /** The last rank's share: one chunk plus the remainder of the division. */
  lemma LastChunk(fileSize: nat, size: nat)
    requires size >= 1
    ensures fileSize - (size - 1) * ChunkSize(fileSize, size) == ChunkSize(fileSize, size) + fileSize % size
  {
    var c := ChunkSize(fileSize, size);
    assert fileSize == c * size + fileSize % size;
    assert (size - 1) * c == c * size - c;
  }

  /** `rank` chunks never exceed the file when rank <= size. */
  lemma ChunkLe(fileSize: nat, size: nat, rank: nat)
    requires 1 <= size && rank <= size
    ensures rank * ChunkSize(fileSize, size) <= fileSize
  {
    var c := ChunkSize(fileSize, size);
    assert rank * c <= size * c by {
      MulMono(rank, size, c);
    }
  }

  lemma MulMono(x: nat, y: nat, c: nat)
    requires x <= y
    ensures x * c <= y * c
  {
  }

  /** Ranges appear in rank order: an earlier rank ends no later than a later one starts. */
  lemma {:induction false} RangesOrdered(fileSize: nat, size: nat, r: nat, r': nat)
    requires 1 <= size && r < r' < size
    ensures EndOffset(fileSize, size, r) <= StartOffset(fileSize, size, r')
    decreases r' - r
  {
    if r + 1 < r' {
      RangesOrdered(fileSize, size, r + 1, r');
    }
  }

  /** A range whose start is inside the file and not 0 is not empty. */
  lemma StartBeforeEnd(fileSize: nat, size: nat, r: nat)
    requires 1 <= size && r < size && 0 < StartOffset(fileSize, size, r) < fileSize
    ensures StartOffset(fileSize, size, r) < EndOffset(fileSize, size, r)
  {
    if r < size - 1 {
      var c := ChunkSize(fileSize, size);
      assert c > 0;
      assert (r + 1) * c == r * c + c;
    }
  }

  /** The rank whose range holds byte `b`. */
  function Owner(fileSize: nat, size: nat, b: nat): (r: nat)
    requires 1 <= size && b < fileSize
    ensures r < size
    ensures StartOffset(fileSize, size, r) <= b < EndOffset(fileSize, size, r)
  {
    var c := ChunkSize(fileSize, size);
    if c == 0 then
      assert StartOffset(fileSize, size, size - 1) == 0 by {
        MulZero(size - 1, c);
      }
      size - 1
    else if b / c < size - 1 then
      DivBounds(b, c);
      b / c
    else
      DivBounds(b, c);
      MulMono(size - 1, b / c, c);
      size - 1
  }

  lemma MulZero(x: nat, c: nat)
    requires c == 0
    ensures x * c == 0
  {
  }

  /** Integer division brackets `b` between two consecutive multiples of `c`. */
  lemma DivBounds(b: nat, c: nat)
    requires c > 0
    ensures (b / c) * c <= b < (b / c + 1) * c
  {
    assert (b / c + 1) * c == (b / c) * c + c;
  }

  /** The ranges tile [0, fileSize): every byte lies in exactly one rank's range. */
  lemma Tiling(fileSize: nat, size: nat, b: nat, r: nat)
    requires 1 <= size && b < fileSize && r < size
    ensures StartOffset(fileSize, size, r) <= b < EndOffset(fileSize, size, r)
            <==> r == Owner(fileSize, size, b)
  {
    var o := Owner(fileSize, size, b);
    if StartOffset(fileSize, size, r) <= b < EndOffset(fileSize, size, r) && r != o {
      if r < o {
        RangesOrdered(fileSize, size, r, o);
      } else {
        RangesOrdered(fileSize, size, o, r);
      }
    }
  }
}
