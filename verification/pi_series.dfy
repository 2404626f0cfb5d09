/**
  The distributed sum of the Bailey-Borwein-Plouffe series (mapreduce/pi/mapper_pi.cpp, reducer_pi.cpp,
  create_pi_input.py) against the big-integer reference (mapreduce/pi/BBP.py).
 */
module PiSeries {
  import opened Arithmetic
  import opened Limbs
  import opened Wide
  import opened NewtonDivision
  import opened Montgomery
  import opened PowerModulo

  const W: int := 0x1_0000_0000_0000_0000

  // ---- one term of the formula ----

  /** The fraction of 2^p / base, to 64 bits. */
  function Term(p: nat, base: int): int
    requires base > 0
  {
    FractionOf(Pow2(p) % base, base)
  }

  /** The iterations `lo` to `hi` of a term whose exponent stays non-negative. */
  function SumTerms(scalePow: nat, offset: nat, lo: nat, hi: nat): int
    requires offset > 0 && lo <= hi && (hi > lo ==> 4 * (hi - 1) <= scalePow)
    decreases hi
  {
    if lo == hi then 0
    else SumTerms(scalePow, offset, lo, hi - 1) + Term(scalePow - 4 * (hi - 1), offset + 8 * (hi - 1))
  }

  /** The iterations with negative exponents, while they contribute. */
  function TailSum(x: nat, base: nat): nat
    requires base > 0
    decreases x
  {
    if x < base then 0 else x / base + TailSum(x / 16, base + 8)
  }

  /** The number of iterations with a non-negative exponent. */
  function Iterations(scalePow: nat): nat { scalePow / 4 + 1 }

  /** The first numerator of the tail: 2^64 scaled by the first negative exponent. */
  function TailStart(scalePow: nat): nat {
    Pow2(64 + scalePow - 4 * Iterations(scalePow))
  }

  /** One series of the formula, modulo 2^64. */
  function SeriesSum(scalePow: nat, offset: nat): int
    requires offset > 0
  {
    var n := Iterations(scalePow);
    (SumTerms(scalePow, offset, 0, n) + TailSum(TailStart(scalePow), offset + 8 * n)) % W
  }

  /** 64 bits of pi from a hexadecimal digit on. */
  function PlouffeSum(digit: nat): int {
    (SeriesSum(4 * digit + 2, 1) - SeriesSum(4 * digit + 1, 4)
     - SeriesSum(4 * digit, 5) - SeriesSum(4 * digit, 6) - digit) % W
  }

  // ---- BBP.py ----

  /**
    The tail loop of `series_int`: it stops on the numerator against the old base, so it may do one more round, of
    value 0.
   */
  function ReferenceTail(t: nat, base: nat): nat
    requires base > 0
    decreases t
  {
    t / base + if t / 16 < base then 0 else ReferenceTail(t / 16, base + 8)
  }

  lemma {:induction false} TailsAgree(t: nat, base: nat)
    requires base > 0
    ensures ReferenceTail(t, base) == TailSum(t, base)
    decreases t
  {
    if t < base {
      Quotient(t, base, 0, t);
    } else if t / 16 >= base {
      TailsAgree(t / 16, base + 8);
    }
  }

  lemma WordsDropped(a: int, b: int) returns (k: int)
    requires a % W == b % W
    ensures a == b + k * 0x1_0000_0000_0000_0000
  {
    k := a / W - b / W;
  }

  lemma SameWord(a: int, b: int, k: int)
    requires a == b + k * 0x1_0000_0000_0000_0000
    ensures a % W == b % W
  {
    CongByMultiple(a, b, k, W);
  }

  lemma SumMod(a: int, b: int)
    ensures (a % W + b) % W == (a + b) % W
    ensures (a + b % W) % W == (a + b) % W
    ensures (a % W - b) % W == (a - b) % W
  {
    SameWord(a % W + b, a + b, -(a / W));
    SameWord(a + b % W, a + b, -(b / W));
    SameWord(a % W - b, a - b, -(a / W));
  }

  /** `series_int` for 64 result bits. */
  method SeriesInt(scalePow: nat, offset: nat) returns (sum: int)
    requires offset > 0
    ensures sum == SeriesSum(scalePow, offset)
  {
    hide Term, Pow2, TailSum, ReferenceTail;
    sum := 0;
    var p: int := scalePow;
    var base := offset;
    ghost var k := 0;
    while p >= 0
      invariant 0 <= k && p == scalePow - 4 * k && base == offset + 8 * k && p >= -4
      invariant sum == SumTerms(scalePow, offset, 0, k) % W
    {
      var t := ReferenceTerm(p, base);
      SumMod(SumTerms(scalePow, offset, 0, k), t);
      sum := (sum + t) % W;
      p := p - 4;
      base := base + 8;
      k := k + 1;
    }
    var tail := ReferenceTailLoop(TopShift(-p), base);
    SumMod(SumTerms(scalePow, offset, 0, k), tail);
    sum := (sum + tail) % W;
  }

  /** `(pow(2, p, base) * mod // base) & mask`. */
  method ReferenceTerm(p: nat, base: nat) returns (t: int)
    requires base > 0
    ensures t == Term(p, base)
  {
    t := Pow2(p) % base * 0x1_0000_0000_0000_0000 / base % 0x1_0000_0000_0000_0000;
  }

  /** The second loop of `series_int`. */
  method ReferenceTailLoop(start: nat, startBase: nat) returns (sum: nat)
    requires startBase > 0 && start < W
    ensures sum == TailSum(start, startBase)
  {
    TailsAgree(start, startBase);
    hide TailSum;
    sum := 0;
    var t: nat, base: nat := start, startBase;
    while true
      invariant base > 0 && t < W && sum + ReferenceTail(t, base) == ReferenceTail(start, startBase)
      decreases t
    {
      SmallQuotient(t, base);
      var f := t / base % W;
      sum := sum + f;
      var next := t / 16;
      if next < base {
        return;
      }
      t := next;
      base := base + 8;
    }
  }

  /** `mod >> (-p)`. */
  function TopShift(k: nat): (r: nat)
    requires 1 <= k <= 4
    ensures r == Pow2(64 - k) && r < W
  {
    Pow2Values();
    Pow2Add(64 - k, k);
    assert Pow2(1) == 2 && Pow2(2) == 4 && Pow2(4) == 16;
    W / Pow2(k)
  }

  lemma SmallQuotient(t: nat, base: nat)
    requires base > 0 && t < W
    ensures 0 <= t / base < W && t / base % W == t / base
  {
    var q := t / base;
    MulSign(q, base);
    MulMono(1, base, q, q);
  }

  /** `plouffe_int` for 64 result bits. */
  method PlouffeInt(digitOffset: nat) returns (sum: int)
    ensures sum == PlouffeSum(digitOffset)
  {
    hide SeriesSum;
    sum := SeriesInt(digitOffset * 4 + 2, 1);
    var s := SeriesInt(digitOffset * 4 + 1, 4);
    sum := sum - s;
    s := SeriesInt(digitOffset * 4, 5);
    sum := sum - s;
    s := SeriesInt(digitOffset * 4, 6);
    sum := sum - s;
    sum := (sum - digitOffset) % W;
  }

  // ---- mapper_pi.cpp ----

  /** The terms of the formula are the ones whose powers `modPow2` computes right. */
  predicate Computable(scalePow: nat, offset: nat, lo: nat, hi: nat) {
    forall k :: lo <= k < hi ==>
                  && 4 * k <= scalePow && 0 < offset + 8 * k <= 0x8000_0000_0000_0000
                  && PowersRight(scalePow - 4 * k, offset + 8 * k)
  }

  /** A source of Newton seeds for every divisor. */
  ghost predicate Seeds(seed: U64 -> Int128) {
    forall d: U64 :: d >= 2 ==> GoodSeed(d, seed(d).Value())
  }

  /** One term, for a modulus small enough to divide everything. */
  method ComputeTerm(exponent: U64, modulo: U64, seed: U64 -> Int128) returns (x: U64)
    requires Seeds(seed) && 0 < modulo <= 0x8000_0000_0000_0000 && PowersRight(exponent, modulo)
    ensures x == Term(exponent, modulo)
  {
    hide Term, Pow2, PowersRight, FractionOf, Residue, GoodDivisor, PowerChain;
    OddOrSmall(exponent, modulo);
    SmallDivisorsDivideExactly(modulo);
    x := ModPow2(exponent, modulo, seed(modulo));
    x := Fraction(x, modulo, seed(modulo));
    TermIs(exponent, modulo);
  }

  lemma OddOrSmall(exponent: U64, modulo: U64)
    requires 0 < modulo <= 0x8000_0000_0000_0000
    ensures modulo % 2 == 1 ==> modulo < 0x8000_0000_0000_0000
  {
  }

  /** `computeTerms`: wrapping sums of wrapped fractions. */
  method ComputeTerms(scalePow: U64, offset: nat, iterStart: nat, iters: nat,
                      seed: U64 -> Int128) returns (localSum: U64)
    requires Seeds(seed) && offset > 0 && Computable(scalePow, offset, iterStart, iterStart + iters)
    ensures iters > 0 ==> 4 * (iterStart + iters - 1) <= scalePow
    ensures localSum == SumTerms(scalePow, offset, iterStart, iterStart + iters) % W
  {
    hide Term, Pow2, PowersRight, FractionOf, Residue;
    localSum := 0;
    var exponent: int := scalePow - 4 * iterStart;
    var modulo: int := offset + 8 * iterStart;
    var left := iters;
    ghost var k := iterStart;
    while left > 0
      invariant k + left == iterStart + iters && left >= 0 && k >= iterStart
      invariant k > iterStart ==> 4 * (k - 1) <= scalePow
      invariant exponent == scalePow - 4 * k && modulo == offset + 8 * k
      invariant localSum == SumTerms(scalePow, offset, iterStart, k) % W
    {
      var x := ComputeTerm(exponent, modulo, seed);
      exponent := exponent - 4;
      modulo := modulo + 8;
      SumMod(SumTerms(scalePow, offset, iterStart, k), x);
      localSum := (localSum + x) % 0x1_0000_0000_0000_0000;
      left := left - 1;
      k := k + 1;
    }
  }

  lemma TermIs(p: nat, base: U64)
    requires base > 0
    ensures Term(p, base) == FractionOf(Residue(Pow2(p), base), base)
  {
  }

  /** `computeTail`. */
  method ComputeTail(scalePow: U64, offset: nat) returns (sum: U64)
    requires offset > 0
    ensures sum == TailSum(TailStart(scalePow), offset + 8 * Iterations(scalePow)) % W
  {
    hide Pow2;
    var numIters := scalePow / 4 + 1;
    var exponent: int := scalePow - 4 * numIters;
    var modulo: nat := offset + 8 * numIters;
    var x: nat := TopShift(-exponent);
    ghost var first, firstBase, done := x, modulo, 0;
    sum := 0;
    while x >= modulo
      invariant modulo > 0 && x < W
      invariant done + TailSum(x, modulo) == TailSum(first, firstBase) && sum == done % W
      decreases x
    {
      SmallQuotient(x, modulo);
      SumMod(done, x / modulo);
      done := done + x / modulo;
      sum := (sum + x / modulo) % 0x1_0000_0000_0000_0000;
      x := x / 16;
      modulo := modulo + 8;
    }
  }

  // ---- jobs ----

  /** One line of mapper input; start 0 with count 0 asks for the tail. */
  datatype Job = Job(termIdx: nat, digit: nat, scalePow: nat, offset: nat, start: nat, count: nat)

  predicate ValidJob(j: Job) {
    j.offset > 0 && (j.count > 0 ==> 4 * (j.start + j.count - 1) <= j.scalePow)
  }

  /** The unsigned value a job computes. */
  function JobSum(j: Job): int
    requires ValidJob(j)
  {
    if j.start == 0 && j.count == 0
    then TailSum(TailStart(j.scalePow), j.offset + 8 * Iterations(j.scalePow)) - (if j.termIdx == 0 then j.digit else 0)
    else SumTerms(j.scalePow, j.offset, j.start, j.start + j.count)
  }

  /** What a job contributes: the first term is added, the others are subtracted. */
  function Contribution(j: Job): int
    requires ValidJob(j)
  {
    if j.termIdx == 0 then JobSum(j) else -JobSum(j)
  }

  predicate Runnable(j: Job) {
    && ValidJob(j) && j.scalePow < W && j.digit < W
    && (!(j.start == 0 && j.count == 0) ==> Computable(j.scalePow, j.offset, j.start, j.start + j.count))
  }

  /** `mapper`, with the sign applied as the reducer reads it back. */
  method Mapper(j: Job, seed: U64 -> Int128) returns (value: U64)
    requires Runnable(j) && Seeds(seed)
    ensures value == Contribution(j) % W
  {
    hide TailSum, TailStart, SumTerms, Computable, Seeds, Iterations;
    var sum: U64;
    if j.start == 0 && j.count == 0 {
      sum := ComputeTail(j.scalePow, j.offset);
      if j.termIdx == 0 {
        sum := (sum - j.digit) % 0x1_0000_0000_0000_0000;
      }
    } else {
      sum := ComputeTerms(j.scalePow, j.offset, j.start, j.count, seed);
    }
    NegativeMod(JobSum(j), sum);
    value := if j.termIdx == 0 then sum else (0 - sum) % 0x1_0000_0000_0000_0000;
  }

  lemma NegativeMod(a: int, b: int)
    requires b == a % W
    ensures (0 - b) % W == (-a) % W
  {
    SameWord(0 - b, -a, a / W);
  }

  /** `reducer` folded over the values of a key. */
  method Reduce(values: seq<U64>) returns (sum: U64)
    requires values != []
    ensures sum == Total(values) % W
  {
    sum := values[0];
    TotalSplit(values[..1], []);
    assert values[..1] + [] == values[..1] == [values[0]];
    for i := 1 to |values|
      invariant sum == Total(values[..i]) % W
    {
      TotalSplit(values[..i], [values[i]]);
      assert values[..i] + [values[i]] == values[..i + 1];
      SumMod(Total(values[..i]), values[i]);
      sum := (sum + values[i]) % 0x1_0000_0000_0000_0000;
    }
    assert values[..|values|] == values;
  }

  function Total(values: seq<int>): int {
    if values == [] then 0 else values[0] + Total(values[1..])
  }

  lemma {:induction false} TotalSplit(a: seq<int>, b: seq<int>)
    ensures Total(a + b) == Total(a) + Total(b)
  {
    if a == [] {
      assert a + b == b;
    } else {
      TotalSplit(a[1..], b);
      assert (a + b)[1..] == a[1..] + b;
    }
  }

  /** The order of the values does not matter. */
  lemma {:induction false} TotalPermutes(a: seq<int>, b: seq<int>)
    requires multiset(a) == multiset(b)
    ensures Total(a) == Total(b)
  {
    if a == [] {
      assert |multiset(b)| == |b| == 0;
    } else {
      assert a[0] in multiset(b);
      var i :| 0 <= i < |b| && b[i] == a[0];
      var rest := b[..i] + b[i + 1..];
      RemoveFirst(a, b, i);
      TotalPermutes(a[1..], rest);
      TotalWithout(b, i);
    }
  }

  lemma RemoveFirst(a: seq<int>, b: seq<int>, i: nat)
    requires multiset(a) == multiset(b) && a != [] && i < |b| && b[i] == a[0]
    ensures multiset(a[1..]) == multiset(b[..i] + b[i + 1..])
  {
    assert a == [a[0]] + a[1..] && b == b[..i] + ([b[i]] + b[i + 1..]);
    assert multiset(a[1..]) == multiset(a) - multiset{a[0]};
    assert multiset(b[..i] + b[i + 1..]) == multiset(b) - multiset{b[i]};
  }

  lemma TotalFront(x: int, rest: seq<int>)
    ensures Total([x] + rest) == x + Total(rest)
  {
    assert ([x] + rest)[1..] == rest;
  }

  lemma TotalWithout(b: seq<int>, i: nat)
    requires i < |b|
    ensures Total(b) == b[i] + Total(b[..i] + b[i + 1..])
  {
    hide Total;
    assert b == b[..i] + ([b[i]] + b[i + 1..]);
    TotalSplit(b[..i], b[i + 1..]);
    TotalSplit(b[..i], [b[i]] + b[i + 1..]);
    TotalFront(b[i], b[i + 1..]);
  }

  // ---- the work list ----

  /** Chunks that cut the iterations from `lo` to `hi` into consecutive pieces. */
  predicate Cuts(chunks: seq<(nat, nat)>, lo: nat, hi: nat) {
    if chunks == [] then lo == hi
    else chunks[0].0 == lo && chunks[0].1 > 0 && lo + chunks[0].1 <= hi && Cuts(chunks[1..], lo + chunks[0].1, hi)
  }

  /** The jobs of one term: its chunks, then the tail. */
  function TermJobs(termIdx: nat, digit: nat, scalePow: nat, offset: nat, chunks: seq<(nat, nat)>): (jobs: seq<Job>)
    ensures |jobs| == |chunks| + 1
  {
    if chunks == [] then [Job(termIdx, digit, scalePow, offset, 0, 0)]
    else
      var first := Job(termIdx, digit, scalePow, offset, chunks[0].0, chunks[0].1);
      [first] + TermJobs(termIdx, digit, scalePow, offset, chunks[1..])
  }

  /** Consecutive chunks of one size, the last one perhaps shorter. */
  function EqualChunks(lo: nat, hi: nat, size: nat): (chunks: seq<(nat, nat)>)
    requires lo <= hi && size > 0
    ensures Cuts(chunks, lo, hi)
    ensures forall i :: 0 <= i < |chunks| ==> chunks[i].1 <= size && (i + 1 < |chunks| ==> chunks[i].1 == size)
    decreases hi - lo
  {
    if lo == hi then []
    else if hi - lo <= size then [(lo, hi - lo)]
    else [(lo, size)] + EqualChunks(lo + size, hi, size)
  }

  /** `printTermChunks`: equal chunks, the last one shorter, and the end mark. */
  method PrintTermChunks(termNo: nat, targetDigit: nat, scalePow: nat, offset: nat, chunkSize: nat)
    returns (jobs: seq<Job>)
    requires chunkSize > 0
    ensures jobs == TermJobs(termNo, targetDigit, scalePow, offset, EqualChunks(0, Iterations(scalePow), chunkSize))
  {
    var numIters := scalePow / 4 + 1;
    var pos := 0;
    jobs := [];
    while pos < numIters
      invariant pos >= 0
      invariant jobs + TermJobs(termNo, targetDigit, scalePow, offset,
                                EqualChunks(if pos < numIters then pos else numIters, numIters, chunkSize)) ==
                TermJobs(termNo, targetDigit, scalePow, offset, EqualChunks(0, numIters, chunkSize))
    {
      var size := if chunkSize < numIters - pos then chunkSize else numIters - pos;
      FirstJob(termNo, targetDigit, scalePow, offset, pos, numIters, chunkSize);
      jobs := jobs + [Job(termNo, targetDigit, scalePow, offset, pos, size)];
      pos := pos + chunkSize;
    }
    jobs := jobs + [Job(termNo, targetDigit, scalePow, offset, 0, 0)];
  }

  lemma FirstJob(termIdx: nat, digit: nat, scalePow: nat, offset: nat, lo: nat, hi: nat, chunkSize: nat)
    requires lo < hi && chunkSize > 0
    ensures var size := if chunkSize < hi - lo then chunkSize else hi - lo;
            TermJobs(termIdx, digit, scalePow, offset, EqualChunks(lo, hi, chunkSize)) ==
            [Job(termIdx, digit, scalePow, offset, lo, size)] +
                TermJobs(termIdx, digit, scalePow, offset, EqualChunks(lo + size, hi, chunkSize))
  {
    var size := if chunkSize < hi - lo then chunkSize else hi - lo;
    var chunks := EqualChunks(lo, hi, chunkSize);
    assert chunks[0] == (lo, size) && chunks[1..] == EqualChunks(lo + size, hi, chunkSize);
  }

  // ---- the whole computation ----

  lemma {:induction false} SumTermsSplit(scalePow: nat, offset: nat, lo: nat, mid: nat, hi: nat)
    requires offset > 0 && lo <= mid <= hi && (hi > lo ==> 4 * (hi - 1) <= scalePow)
    ensures SumTerms(scalePow, offset, lo, hi) == SumTerms(scalePow, offset, lo, mid) +
            SumTerms(scalePow, offset, mid, hi)
    decreases hi
  {
    hide Term;
    if mid < hi {
      SumTermsSplit(scalePow, offset, lo, mid, hi - 1);
    }
  }

  predicate AllValid(jobs: seq<Job>) {
    forall i :: 0 <= i < |jobs| ==> ValidJob(jobs[i])
  }

  /** The values the mappers emit for a list of jobs. */
  function Outputs(jobs: seq<Job>): (values: seq<U64>)
    requires AllValid(jobs)
    ensures |values| == |jobs|
  {
    if jobs == [] then [] else [Contribution(jobs[0]) % W] + Outputs(jobs[1..])
  }

  lemma {:induction false} OutputsSplit(a: seq<Job>, b: seq<Job>)
    requires AllValid(a) && AllValid(b)
    ensures AllValid(a + b) && Outputs(a + b) == Outputs(a) + Outputs(b)
  {
    hide Contribution;
    assert forall i :: 0 <= i < |a + b| ==> (a + b)[i] == if i < |a| then a[i] else b[i - |a|];
    if a == [] {
      assert a + b == b;
    } else {
      OutputsSplit(a[1..], b);
      assert (a + b)[1..] == a[1..] + b;
    }
  }

  /** A series before it is reduced modulo 2^64, from iteration `lo` on. */
  function Rest(scalePow: nat, offset: nat, lo: nat): int
    requires offset > 0 && lo <= Iterations(scalePow)
  {
    var n := Iterations(scalePow);
    SumTerms(scalePow, offset, lo, n) + TailSum(TailStart(scalePow), offset + 8 * n)
  }

  function Signed(termIdx: nat, digit: nat, sum: int): int {
    if termIdx == 0 then sum - digit else -sum
  }

  lemma TailJob(termIdx: nat, digit: nat, scalePow: nat, offset: nat)
    requires offset > 0
    ensures var j := Job(termIdx, digit, scalePow, offset, 0, 0);
            && ValidJob(j) && Contribution(j) == Signed(termIdx, digit, Rest(scalePow, offset, Iterations(scalePow)))
  {
    hide TailSum, TailStart, Iterations;
  }

  lemma ChunkJob(termIdx: nat, digit: nat, scalePow: nat, offset: nat, lo: nat, count: nat)
    requires offset > 0 && count > 0 && lo + count <= Iterations(scalePow)
    ensures var j := Job(termIdx, digit, scalePow, offset, lo, count);
            && ValidJob(j)
            && Contribution(j) + Signed(termIdx, digit, Rest(scalePow, offset, lo + count)) ==
               Signed(termIdx, digit, Rest(scalePow, offset, lo))
  {
    SumTermsSplit(scalePow, offset, lo, lo + count, Iterations(scalePow));
    hide TailSum, TailStart, SumTerms;
  }

  /** However a term is cut, its jobs add up to the whole series. */
  lemma {:induction false} TermJobsSum(termIdx: nat, digit: nat, scalePow: nat, offset: nat,
                                       chunks: seq<(nat, nat)>, lo: nat)
    requires offset > 0 && lo <= Iterations(scalePow) && Cuts(chunks, lo, Iterations(scalePow))
    ensures var jobs := TermJobs(termIdx, digit, scalePow, offset, chunks);
            && AllValid(jobs)
            && Total(Outputs(jobs)) % W == Signed(termIdx, digit, Rest(scalePow, offset, lo)) % W
    decreases chunks
  {
    hide Rest, Signed, Contribution, ValidJob, Iterations;
    var jobs := TermJobs(termIdx, digit, scalePow, offset, chunks);
    if chunks == [] {
      TailJob(termIdx, digit, scalePow, offset);
      assert jobs[1..] == [];
      SumMod(0, Contribution(jobs[0]));
    } else {
      ChunkJob(termIdx, digit, scalePow, offset, lo, chunks[0].1);
      TermJobsSum(termIdx, digit, scalePow, offset, chunks[1..], lo + chunks[0].1);
      assert jobs[1..] == TermJobs(termIdx, digit, scalePow, offset, chunks[1..]);
      HeadAndRest(Contribution(jobs[0]), Total(Outputs(jobs[1..])),
                  Signed(termIdx, digit, Rest(scalePow, offset, lo + chunks[0].1)));
    }
  }

  lemma HeadAndRest(a: int, b: int, c: int)
    requires b % W == c % W
    ensures (a % W + b) % W == (a + c) % W
  {
    var k := WordsDropped(b, c);
    SameWord(a % W + b, a + c, k - a / W);
  }

  /** All jobs of a digit, for any cutting of the four terms. */
  function AllJobs(digit: nat, c0: seq<(nat, nat)>, c1: seq<(nat, nat)>, c2: seq<(nat, nat)>,
                   c3: seq<(nat, nat)>): seq<Job> {
    TermJobs(0, digit, 4 * digit + 2, 1, c0) + TermJobs(1, digit, 4 * digit + 1, 4, c1)
    + TermJobs(2, digit, 4 * digit, 5, c2) + TermJobs(3, digit, 4 * digit, 6, c3)
  }

  ghost predicate CutsAll(digit: nat, c0: seq<(nat, nat)>, c1: seq<(nat, nat)>, c2: seq<(nat, nat)>,
                          c3: seq<(nat, nat)>) {
    && Cuts(c0, 0, Iterations(4 * digit + 2)) && Cuts(c1, 0, Iterations(4 * digit + 1))
    && Cuts(c2, 0, Iterations(4 * digit)) && Cuts(c3, 0, Iterations(4 * digit))
  }

  lemma FourLists(j0: seq<Job>, j1: seq<Job>, j2: seq<Job>, j3: seq<Job>)
    requires AllValid(j0) && AllValid(j1) && AllValid(j2) && AllValid(j3)
    ensures AllValid(j0 + j1 + j2 + j3)
    ensures Total(Outputs(j0 + j1 + j2 + j3)) == Total(Outputs(j0)) + Total(Outputs(j1)) + Total(Outputs(j2)) +
            Total(Outputs(j3))
  {
    hide AllValid, Outputs, Total;
    OutputsSplit(j0, j1);
    OutputsSplit(j0 + j1, j2);
    OutputsSplit(j0 + j1 + j2, j3);
    TotalSplit(Outputs(j0), Outputs(j1));
    TotalSplit(Outputs(j0 + j1), Outputs(j2));
    TotalSplit(Outputs(j0 + j1 + j2), Outputs(j3));
  }

  lemma JobsSum(digit: nat, c0: seq<(nat, nat)>, c1: seq<(nat, nat)>, c2: seq<(nat, nat)>, c3: seq<(nat, nat)>)
    requires CutsAll(digit, c0, c1, c2, c3)
    ensures AllValid(AllJobs(digit, c0, c1, c2, c3))
    ensures Total(Outputs(AllJobs(digit, c0, c1, c2, c3))) % W == PlouffeSum(digit)
  {
    hide AllValid, Outputs, Total, SumTerms, TailSum, TailStart, Iterations, Cuts, TermJobs;
    TermJobsSum(0, digit, 4 * digit + 2, 1, c0, 0);
    TermJobsSum(1, digit, 4 * digit + 1, 4, c1, 0);
    TermJobsSum(2, digit, 4 * digit, 5, c2, 0);
    TermJobsSum(3, digit, 4 * digit, 6, c3, 0);
    var j0, j1 := TermJobs(0, digit, 4 * digit + 2, 1, c0), TermJobs(1, digit, 4 * digit + 1, 4, c1);
    var j2, j3 := TermJobs(2, digit, 4 * digit, 5, c2), TermJobs(3, digit, 4 * digit, 6, c3);
    FourLists(j0, j1, j2, j3);
    FourSums(Total(Outputs(j0)), Total(Outputs(j1)), Total(Outputs(j2)), Total(Outputs(j3)),
             Rest(4 * digit + 2, 1, 0), Rest(4 * digit + 1, 4, 0), Rest(4 * digit, 5, 0), Rest(4 * digit, 6, 0), digit);
  }

  lemma FourSums(a: int, b: int, c: int, d: int, wa: int, wb: int, wc: int, wd: int, digit: int)
    requires a % W == (wa - digit) % W && b % W == (-wb) % W && c % W == (-wc) % W && d % W == (-wd) % W
    ensures (a + b + c + d) % W == (wa % W - wb % W - wc % W - wd % W - digit) % W
  {
    var ka := WordsDropped(a, wa - digit);
    var kb := WordsDropped(b, -wb);
    var kc := WordsDropped(c, -wc);
    var kd := WordsDropped(d, -wd);
    var la := WordsDropped(wa % W, wa);
    var lb := WordsDropped(wb % W, wb);
    var lc := WordsDropped(wc % W, wc);
    var ld := WordsDropped(wd % W, wd);
    SameWord(a + b + c + d, wa % W - wb % W - wc % W - wd % W - digit, ka + kb + kc + kd - la + lb + lc + ld);
  }

  /**
    For every digit, every cutting of the terms into chunks and every order in which the mapper outputs arrive, the
    reduced sum is the reference value.
   */
  lemma MapReduceIsPlouffe(digit: nat, c0: seq<(nat, nat)>, c1: seq<(nat, nat)>, c2: seq<(nat, nat)>,
                           c3: seq<(nat, nat)>, arrived: seq<U64>)
    requires CutsAll(digit, c0, c1, c2, c3)
    requires AllValid(AllJobs(digit, c0, c1, c2, c3)) ==>
            multiset(arrived) == multiset(Outputs(AllJobs(digit, c0, c1, c2, c3)))
    ensures Total(arrived) % W == PlouffeSum(digit)
  {
    JobsSum(digit, c0, c1, c2, c3);
    TotalPermutes(arrived, Outputs(AllJobs(digit, c0, c1, c2, c3)));
  }

  /** Up to digit 2^59 - 1 the moduli stay in the range where powers are computed right. */
  lemma TermsComputable(digit: nat, scalePow: nat, offset: nat, lo: nat, hi: nat)
    requires digit < 0x800_0000_0000_0000 && hi <= digit + 1
    requires (offset == 1 && scalePow == 4 * digit + 2) || (offset == 4 && scalePow == 4 * digit + 1)
             || (offset == 5 && scalePow == 4 * digit) || (offset == 6 && scalePow == 4 * digit)
    ensures Computable(scalePow, offset, lo, hi)
  {
  }

  ghost predicate AllRunnable(jobs: seq<Job>) {
    forall i :: 0 <= i < |jobs| ==> Runnable(jobs[i])
  }

  lemma {:induction false} TermJobsRunnable(termIdx: nat, digit: nat, scalePow: nat, offset: nat,
                                            chunks: seq<(nat, nat)>, lo: nat)
    requires digit < 0x800_0000_0000_0000 && Cuts(chunks, lo, digit + 1)
    requires (offset == 1 && scalePow == 4 * digit + 2) || (offset == 4 && scalePow == 4 * digit + 1)
             || (offset == 5 && scalePow == 4 * digit) || (offset == 6 && scalePow == 4 * digit)
    ensures AllRunnable(TermJobs(termIdx, digit, scalePow, offset, chunks))
  {
    hide Computable;
    if chunks != [] {
      TermsComputable(digit, scalePow, offset, lo, lo + chunks[0].1);
      TermJobsRunnable(termIdx, digit, scalePow, offset, chunks[1..], lo + chunks[0].1);
    }
  }

  /** One mapper per job. */
  method RunMappers(jobs: seq<Job>, seed: U64 -> Int128) returns (values: seq<U64>)
    requires AllRunnable(jobs) && Seeds(seed)
    ensures AllValid(jobs) && values == Outputs(jobs)
  {
    hide Runnable, Contribution, Seeds;
    values := [];
    RunnableIsValid(jobs);
    for i := 0 to |jobs|
      invariant AllValid(jobs[..i]) && values == Outputs(jobs[..i])
    {
      var value := Mapper(jobs[i], seed);
      OneOutput(jobs[i]);
      OutputsSplit(jobs[..i], [jobs[i]]);
      assert jobs[..i] + [jobs[i]] == jobs[..i + 1];
      values := values + [value];
    }
    assert jobs[..|jobs|] == jobs;
  }

  lemma OneOutput(j: Job)
    requires ValidJob(j)
    ensures Outputs([j]) == [Contribution(j) % W]
  {
    assert [j][1..] == [];
  }

  lemma RunnableIsValid(jobs: seq<Job>)
    requires AllRunnable(jobs)
    ensures AllValid(jobs)
  {
  }

  /** The whole computation: work list, mappers, reducer. */
  method ComputePi(digit: nat, chunkSize: nat, seed: U64 -> Int128) returns (sum: U64)
    requires digit < 0x800_0000_0000_0000 && chunkSize > 0 && Seeds(seed)
    ensures sum == PlouffeSum(digit)
  {
    hide Seeds, AllRunnable, AllValid, Outputs, Total, PlouffeSum;
    var j0 := PrintTermChunks(0, digit, digit * 4 + 2, 1, chunkSize);
    var j1 := PrintTermChunks(1, digit, digit * 4 + 1, 4, chunkSize);
    var j2 := PrintTermChunks(2, digit, digit * 4, 5, chunkSize);
    var j3 := PrintTermChunks(3, digit, digit * 4, 6, chunkSize);
    ghost var chunks := EqualChunks(0, digit + 1, chunkSize);
    TermJobsRunnable(0, digit, digit * 4 + 2, 1, chunks, 0);
    TermJobsRunnable(1, digit, digit * 4 + 1, 4, chunks, 0);
    TermJobsRunnable(2, digit, digit * 4, 5, chunks, 0);
    TermJobsRunnable(3, digit, digit * 4, 6, chunks, 0);
    AllRunnableSplit(j0, j1, j2, j3);
    JobsSum(digit, chunks, chunks, chunks, chunks);
    var values := RunMappers(j0 + j1 + j2 + j3, seed);
    sum := Reduce(values);
  }

  lemma AllRunnableSplit(j0: seq<Job>, j1: seq<Job>, j2: seq<Job>, j3: seq<Job>)
    requires AllRunnable(j0) && AllRunnable(j1) && AllRunnable(j2) && AllRunnable(j3)
    ensures AllRunnable(j0 + j1 + j2 + j3)
  {
  }
}
