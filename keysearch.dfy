/** The key searches of src/Encryption.java: bruteForceCrack and smartCrack
    scan `s` in 0..127 and `r` in 0..255 and keep the best score; strict
    comparisons make the first optimum win every tie.  Both read a frame's
    grayscale samples, which are an input here. */
module KeySearch {
  import opened Results
  import opened Bits
  import opened Keys
  import opened Frames
  import opened Permutation
  import opened Scorers

  // ---------------------------------------------------------------------------
  // First optimum of a finite list of scores

  /** Among the first `n` scores, `k` holds the largest, and every earlier
      score is smaller. */
  predicate FirstMaxWithin(f: seq<int>, n: int, k: int)
  {
    0 <= k < n <= |f| && (forall j :: 0 <= j < n ==> f[j] <= f[k]) && (forall j :: 0 <= j < k ==> f[j] < f[k])
  }

  /** Among the first `n` scores, `k` holds the smallest, and every earlier
      score is larger. */
  predicate FirstMinWithin(f: seq<int>, n: int, k: int)
  {
    0 <= k < n <= |f| && (forall j :: 0 <= j < n ==> f[k] <= f[j]) && (forall j :: 0 <= j < k ==> f[k] < f[j])
  }

  predicate IsFirstArgMax(f: seq<int>, k: int)
  {
    FirstMaxWithin(f, |f|, k)
  }

  predicate IsFirstArgMin(f: seq<int>, k: int)
  {
    FirstMinWithin(f, |f|, k)
  }

  /** The first maximum, as a scan with `if (score > best)` finds it. */
  function FirstArgMax(f: seq<int>): (k: nat)
    requires |f| >= 1
    ensures IsFirstArgMax(f, k)
  {
    if |f| == 1 then 0
    else
      var k := FirstArgMax(f[..|f| - 1]);
      if f[|f| - 1] > f[k] then |f| - 1 else k
  }

  /** The first minimum, as a scan with `if (score < best)` finds it. */
  function FirstArgMin(f: seq<int>): (k: nat)
    requires |f| >= 1
    ensures IsFirstArgMin(f, k)
  {
    if |f| == 1 then 0
    else
      var k := FirstArgMin(f[..|f| - 1]);
      if f[|f| - 1] < f[k] then |f| - 1 else k
  }

  /** There is only one first maximum: the one FirstArgMax finds. */
  lemma FirstArgMaxUnique(f: seq<int>, k: int)
    requires IsFirstArgMax(f, k)
    ensures k == FirstArgMax(f)
  {
  }

  /** There is only one first minimum: the one FirstArgMin finds. */
  lemma FirstArgMinUnique(f: seq<int>, k: int)
    requires IsFirstArgMin(f, k)
    ensures k == FirstArgMin(f)
  {
  }

  /** One step of a strict `>` scan: the next score takes over only if it
      beats the best so far. */
  lemma ScanMax(f: seq<int>, n: int, k: int)
    requires FirstMaxWithin(f, n, k) && n < |f|
    ensures FirstMaxWithin(f, n + 1, if f[n] > f[k] then n else k)
  {
  }

  /** One step of a strict `<` scan. */
  lemma ScanMin(f: seq<int>, n: int, k: int)
    requires FirstMinWithin(f, n, k) && n < |f|
    ensures FirstMinWithin(f, n + 1, if f[n] < f[k] then n else k)
  {
  }

  // ---------------------------------------------------------------------------
  // bruteForceCrack

  /** The summed score of the first `m` adjacent pairs of a block of `n` rows
      `width` samples long after undoing the key `(r, s)`: minus the squared
      distance of the rows encrypt sent local rows `i` and `i + 1` to. */
  function AdjScore(data: seq<I8>, width: nat, n: nat, r: int, s: int, m: nat): int
    requires n * width <= |data| && m < n
  {
    if m == 0 then 0
    else
      var a, b := BlockIndex(n, r, s, m - 1), BlockIndex(n, r, s, m);
      RowInBounds(n, width, a);
      RowInBounds(n, width, b);
      AdjScore(data, width, n, r, s, m - 1) - SqSum(Line(data, a, width), Line(data, b, width), 1, 0)
  }

  /** Every adjacent pair can only lower the score: no key scores above 0. */
  lemma {:induction false} AdjScoreNonPositive(data: seq<I8>, width: nat, n: nat, r: int, s: int, m: nat)
    requires n * width <= |data| && m < n
    ensures AdjScore(data, width, n, r, s, m) <= 0
  {
    if m > 0 {
      AdjScoreNonPositive(data, width, n, r, s, m - 1);
    }
  }

  /** The score of key `(r, s)` on a block of `n` rows: the sum over all
      adjacent pairs, 0 when there are no rows. */
  function KeyScore(data: seq<I8>, width: nat, n: nat, r: int, s: int): int
    requires n * width <= |data|
  {
    if n == 0 then 0 else AdjScore(data, width, n, r, s, n - 1)
  }

  /** The score of every `s` with `r = 0`, the first pass of bruteForceCrack. */
  function SPassScores(data: seq<I8>, width: nat, n: nat): (f: seq<int>)
    requires n * width <= |data|
    ensures |f| == 128
  {
    seq(128, s requires 0 <= s < 128 => KeyScore(data, width, n, 0, s))
  }

  /** The score of every `r` with the chosen `s`, the second pass. */
  function RPassScores(data: seq<I8>, width: nat, n: nat, s: int): (f: seq<int>)
    requires n * width <= |data|
    ensures |f| == 256
  {
    seq(256, r requires 0 <= r < 256 => KeyScore(data, width, n, r, s))
  }

  /** A power of two that fits in a Java `int` is at most 2^30. */
  lemma PowerOfTwoFitsInt(n: nat)
    requires IsPowerOfTwo(n) && n < 0x8000_0000
    ensures n <= 0x4000_0000
  {
    Pow2Of30();
    Pow2IsPowerOfTwo(30);
    if n > 0x4000_0000 {
      PowerOfTwoGap(0x4000_0000, n);
    }
  }

  /** One pass's inner loops: fill `destIndexInBlockArr` with the block map of
      `(r, s)`, then add up euclideanDistanceFast over adjacent entries.  The
      array is scratch space: its callers refill it on every call. */
  method ScoreKey(imageData: seq<I8>, width: nat, n: nat, r: int, s: int, idx: array<int>) returns (score: int)
    requires (n == 0 || IsPowerOfTwo(n)) && n <= 0x4000_0000 && n * width <= |imageData| && idx.Length == n
    requires 0 <= r < 256 && 0 <= s < 128
    modifies idx
    ensures score == KeyScore(imageData, width, n, r, s)
    ensures forall k :: 0 <= k < n ==> idx[k] == BlockIndex(n, r, s, k)
  {
    var steps := 2 * s + 1;
    Int32Identity(steps);
    var mask := n - 1;
    for i := 0 to n
      invariant forall k :: 0 <= k < i ==> idx[k] == BlockIndex(n, r, s, k)
    {
      MaskedIndexIsBlockIndex(n, r, s, i);
      idx[i] := MaskedIndex(n, r, steps, i);
    }
    score := 0;
    var i := 0;
    while i < mask
      invariant 0 <= i && (i <= mask || n == 0)
      invariant forall k :: 0 <= k < n ==> idx[k] == BlockIndex(n, r, s, k)
      invariant score == if n == 0 then 0 else AdjScore(imageData, width, n, r, s, i)
    {
      RowInBounds(n, width, idx[i]);
      RowInBounds(n, width, idx[i + 1]);
      var d := EuclideanDistanceFast(imageData, idx[i], idx[i + 1], width, 1);
      score := score + d;
      i := i + 1;
    }
  }

  /** The s pass of bruteForceCrack: with `r` at its initial 0, the first `s`
      of highest score. */
  method SearchS(imageData: seq<I8>, width: nat, n: nat, idx: array<int>) returns (bestS: nat)
    requires (n == 0 || IsPowerOfTwo(n)) && n <= 0x4000_0000 && n * width <= |imageData| && idx.Length == n
    modifies idx
    ensures IsFirstArgMax(SPassScores(imageData, width, n), bestS)
  {
    var bestScore: Option<int> := None;
    bestS := 0;
    ghost var sScores := SPassScores(imageData, width, n);
    for s := 0 to 128
      invariant s == 0 ==> bestScore == None && bestS == 0
      invariant s > 0 ==> FirstMaxWithin(sScores, s, bestS) && bestScore == Some(sScores[bestS])
    {
      if s > 0 {
        ScanMax(sScores, s, bestS);
      }
      var score := ScoreKey(imageData, width, n, 0, s, idx);
      if bestScore.None? || score > bestScore.value {
        bestScore := Some(score);
        bestS := s;
      }
    }
  }

  /** The r pass of bruteForceCrack: with the `s` found, the first `r` of
      highest score. */
  method SearchR(imageData: seq<I8>, width: nat, n: nat, s: nat, idx: array<int>) returns (bestR: nat)
    requires (n == 0 || IsPowerOfTwo(n)) && n <= 0x4000_0000 && n * width <= |imageData| && idx.Length == n
    requires s < 128
    modifies idx
    ensures IsFirstArgMax(RPassScores(imageData, width, n, s), bestR)
  {
    var bestScore: Option<int> := None;
    bestR := 0;
    ghost var rScores := RPassScores(imageData, width, n, s);
    for r := 0 to 256
      invariant r == 0 ==> bestScore == None && bestR == 0
      invariant r > 0 ==> FirstMaxWithin(rScores, r, bestR) && bestScore == Some(rScores[bestR])
    {
      if r > 0 {
        ScanMax(rScores, r, bestR);
      }
      var score := ScoreKey(imageData, width, n, r, s, idx);
      if bestScore.None? || score > bestScore.value {
        bestScore := Some(score);
        bestR := r;
      }
    }
  }

  /** bruteForceCrack on the grayscale samples `gray` of a `height × width`
      frame: the first maximiser `s` of the score with `r = 0`, then the first
      maximiser `r` of the score with that `s`, over the first N rows, N the
      largest power of two not above the height. */
  method BruteForceCrack(gray: seq<I8>, height: nat, width: nat) returns (bestKey: Key)
    requires height >= 1 && width >= 1
    requires |gray| == height * width && height < 0x8000_0000 && height * width < 0x8000_0000
    ensures var n := Pow2Floor(height);
      n * width <= |gray| &&
      IsFirstArgMax(SPassScores(gray[..n * width], width, n), bestKey.s) &&
      IsFirstArgMax(RPassScores(gray[..n * width], width, n, bestKey.s), bestKey.r)
    ensures InRange(bestKey)
  {
    var n := LargestPowerOf2(height);
    RowsMonotone(width, n, height);
    PowerOfTwoFitsInt(n);
    var imageData := gray[..n * width];
    bestKey := Key(0, 0);
    var idx := new int[n];
    var s := SearchS(imageData, width, n, idx);
    bestKey := bestKey.(s := s);
    var r := SearchR(imageData, width, n, bestKey.s, idx);
    bestKey := bestKey.(r := r);
  }

  // ---------------------------------------------------------------------------
  // smartCrack

  /** Why smartCrack fails. */
  datatype CrackError = RowOutOfBounds   // row r of the first block does not exist

  /** How many pivot candidates `0, 40, 80, …` lie below `limit`. */
  function Candidates(limit: nat): nat
  {
    (limit + 39) / 40
  }

  lemma CandidateBound(limit: nat, k: nat)
    ensures k < Candidates(limit) <==> 40 * k < limit
  {
  }

  /** The variance of each pivot candidate, rows `0, 40, 80, …` of the first block. */
  function VarianceScores(f: Frame): (v: seq<int>)
    requires f.Valid() && f.height >= 1
    ensures |v| == Candidates(Pow2Floor(f.height)) >= 1
  {
    var limit := Pow2Floor(f.height);
    seq(Candidates(limit), k requires 0 <= k < Candidates(limit) => Variance(f, k))
  }

  /** The variance of candidate `k`, row `40k`. */
  function Variance(f: Frame, k: nat): int
    requires f.Valid() && f.height >= 1 && k < Candidates(Pow2Floor(f.height))
  {
    CandidateBound(Pow2Floor(f.height), k);
    AbsDiffSum(RowAt(f.data, f.height, f.RowSize(), 40 * k), f.channels, 0)
  }

  /** The pivot row: the first candidate of highest variance. */
  function Pivot(f: Frame): (p: nat)
    requires f.Valid() && f.height >= 1
    ensures p < Pow2Floor(f.height)
  {
    var k := FirstArgMax(VarianceScores(f));
    CandidateBound(Pow2Floor(f.height), k);
    40 * k
  }

  /** The stride-10 distance from the pivot row to row `(pivot + 2s+1) mod N`
      for every `s`, N the first block's size. */
  function SScores(f: Frame): (v: seq<int>)
    requires f.Valid() && f.height >= 1
    ensures |v| == 128
  {
    seq(128, s requires 0 <= s < 128 => SScore(f, s))
  }

  /** The score of `s`: the stride-10 squared distance from the pivot row to
      row `(pivot + 2s+1) mod N`. */
  function SScore(f: Frame, s: nat): int
    requires f.Valid() && f.height >= 1
  {
    var n := Pow2Floor(f.height);
    SqSum(RowAt(f.data, f.height, f.RowSize(), Pivot(f)), RowAt(f.data, f.height, f.RowSize(), (Pivot(f) + 2 * s + 1) % n), 10, 0)
  }

  /** The rows the r pass can read: all 256 when the first block has them. */
  function RCount(n: nat): nat
  {
    if n < 256 then n else 256
  }

  /** euclideanDistanceFast between the gray rows `(r - step) mod N` and `r`
      of the first block of `N` rows, for every `r` the block holds. */
  function RScores(block: seq<I8>, width: nat, n: nat, step: int): (v: seq<int>)
    requires 1 <= n && |block| == n * width
    ensures |v| == RCount(n)
  {
    seq(RCount(n), r requires 0 <= r < RCount(n) => RScore(block, width, n, step, r))
  }

  /** The score of `r`: minus the squared distance of gray row `r` and row
      `(r - step) mod N` of the block. */
  function RScore(block: seq<I8>, width: nat, n: nat, step: int, r: nat): int
    requires 1 <= n && |block| == n * width && r < n
  {
    RowInBounds(n, width, (r - step) % n);
    RowInBounds(n, width, r);
    -(SqSum(Line(block, (r - step) % n, width), Line(block, r, width), 1, 0) as int)
  }

  /** The pivot stage: rows `0, 40, 80, …` of the first block, keeping the
      first of highest variance. */
  method SelectPivot(f: Frame) returns (bestPivotIndex: nat)
    requires f.Valid() && f.height >= 1
    ensures bestPivotIndex == Pivot(f)
  {
    var height, channels := f.height, f.channels;
    var rowSize := f.width * channels;
    var blockSize := Pow2Floor(height);
    bestPivotIndex := 0;
    var maxVariance := -1;
    var searchLimit := if height < blockSize then height else blockSize;
    ghost var variances := VarianceScores(f);
    ghost var k, best := 0, 0;
    var i: int := 0;
    while i < searchLimit
      invariant i == 40 * k && k <= Candidates(blockSize)
      invariant k == 0 ==> maxVariance == -1 && bestPivotIndex == 0
      invariant k > 0 ==> FirstMaxWithin(variances, k, best) && bestPivotIndex == 40 * best && maxVariance == variances[best]
      decreases searchLimit - i
    {
      CandidateBound(blockSize, k);
      var tempRowData := RowAt(f.data, height, rowSize, i);
      var variance := RowVariance(tempRowData, channels);
      assert variance == variances[k];
      if k > 0 {
        ScanMax(variances, k, best);
      }
      if variance > maxVariance {
        maxVariance := variance;
        bestPivotIndex := i;
        best := k;
      }
      i := i + 40;
      k := k + 1;
    }
    CandidateBound(blockSize, k);
    FirstArgMaxUnique(variances, best);
  }

  /** One s candidate: calculateEuclideanDistanceSq from the pivot row to
      row `(pivot + 2s+1) & blockMask`. */
  method SDistance(f: Frame, bestPivotIndex: nat, s: nat) returns (currentDistanceSq: int)
    requires f.Valid() && f.height >= 1 && bestPivotIndex == Pivot(f)
    ensures currentDistanceSq == SScore(f, s)
  {
    var blockSize := Pow2Floor(f.height);
    Pow2FloorIsPowerOfTwo(f.height);
    var rowSize := f.width * f.channels;
    var pivotRowData := RowAt(f.data, f.height, rowSize, bestPivotIndex);
    var step := 2 * s + 1;
    MaskIsMod(bestPivotIndex + step, blockSize);
    var neighborIndex := BitAnd(bestPivotIndex + step, blockSize - 1);
    var candidateRowData := RowAt(f.data, f.height, rowSize, neighborIndex);
    currentDistanceSq := EuclideanDistanceSq(pivotRowData, candidateRowData);
  }

  /** The s stage: the first `s` whose neighbour `2s+1` rows below the pivot,
      cyclically in the first block, is closest to it. */
  method SelectS(f: Frame, bestPivotIndex: nat) returns (bestS: nat)
    requires f.Valid() && f.height >= 1 && bestPivotIndex == Pivot(f)
    ensures IsFirstArgMin(SScores(f), bestS)
  {
    var minDistanceSq: Option<int> := None;
    bestS := 0;
    ghost var sScores := SScores(f);
    for s := 0 to 128
      invariant s == 0 ==> minDistanceSq == None && bestS == 0
      invariant s > 0 ==> FirstMinWithin(sScores, s, bestS) && minDistanceSq == Some(sScores[bestS])
    {
      if s > 0 {
        ScanMin(sScores, s, bestS);
      }
      var currentDistanceSq := SDistance(f, bestPivotIndex, s);
      assert currentDistanceSq == sScores[s];
      if minDistanceSq.None? || currentDistanceSq < minDistanceSq.value {
        minDistanceSq := Some(currentDistanceSq);
        bestS := s;
      }
    }
  }

  /** One r candidate: euclideanDistanceFast between gray rows
      `(r - step) & blockMask` and `r` of the first block. */
  method RDistance(data: seq<I8>, width: nat, blockSize: nat, step: int, r: nat) returns (correlation: int)
    requires IsPowerOfTwo(blockSize) && blockSize <= 0x4000_0000 && |data| == blockSize * width && r < blockSize
    ensures correlation == RScore(data, width, blockSize, step, r)
  {
    var topIndex := r;
    MaskedIntIsMod(r - step, blockSize);
    var bottomIndex := BitAnd(Wrap32(r - step), blockSize - 1);
    RowInBounds(blockSize, width, bottomIndex);
    RowInBounds(blockSize, width, topIndex);
    correlation := EuclideanDistanceFast(data, bottomIndex, topIndex, width, 1);
  }

  /** The r stage over the gray first block `data` of `blockSize` rows: the
      first `r` whose row is farthest from the row `step` above it, cyclically
      in the block; the read of row `r` fails once `r` reaches `blockSize`. */
  method SelectR(data: seq<I8>, width: nat, blockSize: nat, step: int) returns (res: Result<nat, CrackError>)
    requires IsPowerOfTwo(blockSize) && blockSize <= 0x4000_0000 && |data| == blockSize * width
    ensures res.Ok? <==> blockSize >= 256
    ensures res.Ok? ==> IsFirstArgMin(RScores(data, width, blockSize, step), res.value)
  {
    var minCorrelation: Option<int> := None;
    var bestR := 0;
    ghost var rScores := RScores(data, width, blockSize, step);
    for r := 0 to 256
      invariant r <= RCount(blockSize)
      invariant r == 0 ==> minCorrelation == None && bestR == 0
      invariant r > 0 ==> FirstMinWithin(rScores, r, bestR) && minCorrelation == Some(rScores[bestR])
    {
      if r >= blockSize {
        // row r lies past the end of `data`: ArrayIndexOutOfBoundsException
        return Err(RowOutOfBounds);
      }
      if r > 0 {
        ScanMin(rScores, r, bestR);
      }
      var correlation := RDistance(data, width, blockSize, step, r);
      assert correlation == rScores[r];
      if minCorrelation.None? || correlation < minCorrelation.value {
        minCorrelation := Some(correlation);
        bestR := r;
      }
    }
    return Ok(bestR);
  }

  /** The first block's size fits the masks the source builds. */
  lemma Pow2FloorFitsInt(h: nat)
    requires 1 <= h < 0x8000_0000
    ensures IsPowerOfTwo(Pow2Floor(h)) && Pow2Floor(h) <= 0x4000_0000
  {
    Pow2FloorIsPowerOfTwo(h);
    PowerOfTwoFitsInt(Pow2Floor(h));
  }

  /** smartCrack on a frame and its grayscale samples `gray`: the pivot, then
      `s`, then `r`; it fails when the first block has fewer than 256 rows. */
  method SmartCrack(f: Frame, gray: seq<I8>) returns (res: Result<Key, CrackError>)
    requires f.Valid() && f.height >= 1 && f.width >= 1 && f.height < 0x8000_0000 && |gray| == f.height * f.width
    ensures res.Ok? <==> Pow2Floor(f.height) >= 256
    ensures res.Ok? ==> (Pow2Floor(f.height) * f.width <= |gray| &&
      IsFirstArgMin(SScores(f), res.value.s) &&
      IsFirstArgMin(RScores(gray[..Pow2Floor(f.height) * f.width], f.width, Pow2Floor(f.height), 2 * res.value.s + 1), res.value.r))
  {
    var blockSize := Pow2Floor(f.height);
    Pow2FloorFitsInt(f.height);
    var bestPivotIndex := SelectPivot(f);
    var bestS := SelectS(f, bestPivotIndex);
    var step := 2 * bestS + 1;
    RowsMonotone(f.width, blockSize, f.height);
    var data := gray[..blockSize * f.width];
    var bestR := SelectR(data, f.width, blockSize, step);
    if bestR.Err? {
      return Err(bestR.error);
    }
    return Ok(Key(bestR.value, bestS));
  }
}
