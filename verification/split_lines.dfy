/** mapreduce/splitter.c: cutting a text into chunks without breaking lines. */
module LineSplitter {
  import opened Arithmetic

  /** The position behind the next newline, or the end. */
  function LineAfter(data: string, p: nat): (q: nat)
    requires p <= |data|
    ensures p <= q <= |data|
    ensures q == |data| || (q > p && data[q - 1] == '\n')
    ensures forall i :: p <= i < q - 1 ==> data[i] != '\n'
    decreases |data| - p
  {
    if p == |data| then p else if data[p] == '\n' then p + 1 else LineAfter(data, p + 1)
  }

  /** Seeking from a later position never ends earlier. */
  lemma {:induction false} LineAfterMonotone(data: string, p: nat, q: nat)
    requires p <= q <= |data|
    ensures LineAfter(data, p) <= LineAfter(data, q)
    decreases q - p
  {
    if p < q && data[p] != '\n' {
      LineAfterMonotone(data, p + 1, q);
    }
  }

  /** `nextLine`. */
  method NextLine(data: string, start: nat) returns (p: nat)
    requires start <= |data|
    ensures p == LineAfter(data, start)
  {
    p := start;
    while p < |data|
      invariant start <= p <= |data| && LineAfter(data, p) == LineAfter(data, start)
    {
      if data[p] == '\n' {
        return p + 1;
      }
      p := p + 1;
    }
    return |data|;
  }

  /** No product that decides where a chunk begins wraps; the end of the last chunk does not depend on its product. */
  predicate Fits(length: nat, count: nat)
    requires count > 0
  {
    length * (count - 1) < SIZE_MAX_PLUS_ONE
  }

  /** Where chunk `i` of `count` would begin if lines did not matter, in 64-bit arithmetic. */
  function RawOffset(length: nat, count: nat, i: nat): (r: nat)
    requires i <= count && count > 0
    ensures r <= length
  {
    Products(length, i, count);
    length * i % SIZE_MAX_PLUS_ONE / count
  }

  lemma Products(length: nat, i: nat, count: nat)
    requires i <= count && count > 0
    ensures 0 <= length * i % SIZE_MAX_PLUS_ONE / count <= length * i / count <= length
    ensures i < count && length > 0 ==> length * i / count < length
    ensures i < count && Fits(length, count) ==> length * i % SIZE_MAX_PLUS_ONE == length * i
  {
    MulMono(length, length, i, count);
    QuotientMonotone(0, length * i % SIZE_MAX_PLUS_ONE, count);
    QuotientMonotone(length * i % SIZE_MAX_PLUS_ONE, length * i, count);
    QuotientMonotone(length * i, length * count, count);
    QuotientOfProduct(length, count);
    if i < count {
      MulMono(length, length, i, count - 1);
      QuotientMonotone(length * i, length * count - length, count);
      if length > 0 {
        BelowQuotient(length, length * count - length, count);
      }
    }
  }

  lemma BelowQuotient(length: nat, x: nat, count: nat)
    requires count > 0 && x < length * count
    ensures x / count < length
  {
    MulSign(x / count - length + 1, count);
    assert (x / count - length + 1) * count == x - x % count - length * count + count;
  }

  /** `getSubrange`: without a wrap the range is the proportional one. */
  method GetSubrange(length: nat, count: nat, idx: nat) returns (startOffset: nat, endOffset: nat)
    requires idx < count
    ensures startOffset == RawOffset(length, count, idx) && endOffset == RawOffset(length, count, idx + 1)
    ensures Fits(length, count) ==> startOffset == length * idx / count
    ensures Fits(length, count) && idx + 1 < count ==> startOffset <= endOffset == length * (idx + 1) / count
  {
    Products(length, idx, count);
    Products(length, idx + 1, count);
    MulMono(length, length, idx, idx + 1);
    QuotientMonotone(length * idx, length * (idx + 1), count);
    startOffset := length * idx % SIZE_MAX_PLUS_ONE / count;
    endOffset := length * (idx + 1) % SIZE_MAX_PLUS_ONE / count;
    if endOffset > length {
      endOffset := length;
    }
  }

  /** Where chunk `i` of `count` begins and chunk `i - 1` ends. */
  function Boundary(data: string, count: nat, i: nat): (b: nat)
    requires i <= count && count > 0
    ensures b <= |data|
  {
    if i == 0 then 0
    else if i == count then |data|
    else LineAfter(data, RawOffset(|data|, count, i))
  }

  /** Chunk `i`: from its boundary to the next, and empty if that does not lie behind it. */
  function Chunk(data: string, count: nat, i: nat): string
    requires i < count
  {
    if Boundary(data, count, i) <= Boundary(data, count, i + 1)
    then data[Boundary(data, count, i)..Boundary(data, count, i + 1)]
    else ""
  }

  /** `write_portion`: what is written for chunk `index`. */
  method WritePortion(data: string, count: nat, index: nat) returns (written: string)
    requires index < count
    ensures written == Chunk(data, count, index)
  {
    var startOffset, endOffset := GetSubrange(|data|, count, index);
    var start, end := 0, |data|;
    if index != 0 {
      start := NextLine(data, startOffset);
    }
    if index != count - 1 {
      end := NextLine(data, endOffset);
    }
    written := if end > start then data[start..end] else "";
  }

  lemma BoundariesRise(data: string, count: nat, i: nat)
    requires i < count && Fits(|data|, count)
    ensures Boundary(data, count, i) <= Boundary(data, count, i + 1)
  {
    if 0 < i && i + 1 < count {
      var length := |data|;
      Products(length, i, count);
      Products(length, i + 1, count);
      MulMono(length, length, i, i + 1);
      QuotientMonotone(length * i, length * (i + 1), count);
      LineAfterMonotone(data, RawOffset(length, count, i), RawOffset(length, count, i + 1));
    }
  }

  /** The first `n` chunks, one behind the other. */
  function Chunks(data: string, count: nat, n: nat): string
    requires n <= count && count > 0
  {
    if n == 0 then "" else Chunks(data, count, n - 1) + Chunk(data, count, n - 1)
  }

  /** The first chunks make up the text up to their boundary. */
  lemma {:induction false} ChunksArePrefix(data: string, count: nat, n: nat)
    requires n <= count && count > 0 && Fits(|data|, count)
    ensures Chunks(data, count, n) == data[..Boundary(data, count, n)]
  {
    hide *;
    if n == 0 {
      NoChunk(data, count);
    } else {
      ChunksArePrefix(data, count, n - 1);
      NextChunk(data, count, n - 1);
      LastChunk(data, count, n);
    }
  }

  lemma NoChunk(data: string, count: nat)
    requires count > 0
    ensures Chunks(data, count, 0) == "" && Boundary(data, count, 0) == 0
  {
  }

  lemma LastChunk(data: string, count: nat, n: nat)
    requires 0 < n <= count
    ensures Chunks(data, count, n) == Chunks(data, count, n - 1) + Chunk(data, count, n - 1)
  {
  }

  lemma NextChunk(data: string, count: nat, i: nat)
    requires i < count && Fits(|data|, count)
    ensures data[..Boundary(data, count, i)] + Chunk(data, count, i) == data[..Boundary(data, count, i + 1)]
  {
    hide Boundary, Fits;
    BoundariesRise(data, count, i);
  }

  /** Where nothing wraps, the chunks in order make up the text. */
  lemma ChunksAreTheText(data: string, count: nat)
    requires count > 0 && Fits(|data|, count)
    ensures Chunks(data, count, count) == data
  {
    ChunksArePrefix(data, count, count);
  }

  /** Wrap or not, no chunk begins or ends inside a line. */
  lemma NoLineIsSplit(data: string, count: nat, i: nat)
    requires i <= count && count > 0
    ensures var b := Boundary(data, count, i); b == 0 || b == |data| || data[b - 1] == '\n'
  {
    hide RawOffset;
  }

  lemma ChunkReaches(data: string, count: nat, i: nat)
    requires i < count
    ensures |Chunk(data, count, i)| >= Boundary(data, count, i + 1) - Boundary(data, count, i)
  {
    hide Boundary;
  }

  /** Chunks may overlap, but together they never leave anything out. */
  lemma {:induction false} ChunksGrow(data: string, count: nat, m: nat, n: nat)
    requires m <= n <= count && count > 0
    ensures |Chunks(data, count, n)| >= |Chunks(data, count, m)| + Boundary(data, count, n) - Boundary(data, count, m)
    decreases n - m
  {
    hide Boundary, Chunk;
    if m < n {
      ChunksGrow(data, count, m, n - 1);
      ChunkReaches(data, count, n - 1);
    }
  }

  /** The first chunk number whose product wraps. */
  lemma {:induction false} FirstWrap(length: nat, count: nat) returns (j: nat)
    requires 0 < count && length < SIZE_MAX_PLUS_ONE && !Fits(length, count)
    ensures 1 < j < count && length * (j - 1) < SIZE_MAX_PLUS_ONE <= length * j
  {
    if Fits(length, count - 1) {
      j := count - 1;
    } else {
      j := FirstWrap(length, count - 1);
    }
  }

  /** A text of empty lines. */
  function Newlines(n: nat): (s: string)
    ensures |s| == n && forall i :: 0 <= i < n ==> s[i] == '\n'
  {
    seq(n, _ => '\n')
  }

  /** At the first wrap the offset falls back. */
  lemma OffsetFallsBack(length: nat, count: nat, j: nat)
    requires 1 < j < count && length + count <= SIZE_MAX_PLUS_ONE
    requires length * (j - 1) < SIZE_MAX_PLUS_ONE <= length * j
    ensures RawOffset(length, count, j) < RawOffset(length, count, j - 1) < length
  {
    assert length * j == length * (j - 1) + length;
    Quotient(length * j, SIZE_MAX_PLUS_ONE, 1, length * j - SIZE_MAX_PLUS_ONE);
    var wrapped := length * j - SIZE_MAX_PLUS_ONE;
    QuotientMonotone(wrapped + count, length * (j - 1), count);
    Quotient(wrapped + count, count, wrapped / count + 1, wrapped % count);
    Products(length, j - 1, count);
  }

  /** With a wrap, a text of empty lines comes out longer than it went in. */
  lemma WrapRepeatsText(length: nat, count: nat)
    requires count > 0 && length + count <= SIZE_MAX_PLUS_ONE && !Fits(length, count)
    ensures |Chunks(Newlines(length), count, count)| > length
  {
    var data := Newlines(length);
    var j := FirstWrap(length, count);
    OffsetFallsBack(length, count, j);
    assert Boundary(data, count, j) < Boundary(data, count, j - 1);
    ChunksGrow(data, count, 0, j - 1);
    ChunksGrow(data, count, j, count);
  }

  /** For files and counts as the code gets them, from `st_size` and an `int`: the chunks of every text of a length make
      up that text exactly if the length times one less than the count stays below 2^64. */
  lemma SplittingIsExact(length: nat, count: nat)
    requires length < 0x8000_0000_0000_0000 && 0 < count < 0x8000_0000
    ensures (forall data: string :: |data| == length ==> Chunks(data, count, count) == data) <==> Fits(length, count)
  {
    if Fits(length, count) {
      forall data: string | |data| == length ensures Chunks(data, count, count) == data {
        ChunksAreTheText(data, count);
      }
    } else {
      WrapRepeatsText(length, count);
      assert Chunks(Newlines(length), count, count) != Newlines(length);
    }
  }
}
