/** The integer row scorers of src/Encryption.java that the key searches
    use: squared distances and the adjacent-sample variance, all over the
    unsigned values `b & 0xFF` of the samples. */
module Scorers {
  import opened Bits

  function Sq(d: int): nat
  {
    d * d
  }

  /** A square is zero only for zero. */
  lemma SqZero(d: int)
    ensures Sq(d) == 0 <==> d == 0
  {
    if d > 0 {
      assert d * d >= d * 1;
    } else if d < 0 {
      assert d * d == (-d) * (-d) >= (-d) * 1;
    }
  }

  /** The square of a difference of two byte values is at most 255². */
  lemma SqBound(d: int)
    requires -255 <= d <= 255
    ensures Sq(d) <= 65025
  {
    var a: nat := if d < 0 then -d else d;
    assert d * d == a * a by {
      if d < 0 {
        assert d * d == (-d) * (-d);
      }
    }
    MulMonotone(a, 255, a);
    MulMonotone(a, 255, 255);
  }

  /** The sum of squared sample differences of `x` and `y` at the offsets
      `i, i + step, i + 2·step, …` below `|x|`. */
  function SqSum(x: seq<I8>, y: seq<I8>, step: nat, i: nat): nat
    requires |x| <= |y| && step >= 1
    decreases |x| - i
  {
    if i >= |x| then 0 else Sq(U8(x[i]) as int - U8(y[i])) + SqSum(x, y, step, i + step)
  }

  /** Offset `k` is one of the offsets sampled from `i` on. */
  predicate Sampled(k: nat, i: nat, step: nat)
    requires step >= 1
  {
    i <= k && (k - i) % step == 0
  }

  /** Two stored bytes with the same unsigned value are the same byte. */
  lemma U8Injective(a: I8, b: I8)
    requires U8(a) == U8(b)
    ensures a == b
  {
    U8Value(a);
    U8Value(b);
  }

  /** The offsets sampled from `i` are `i` and those sampled from `i + step`. */
  lemma SampledStep(k: nat, i: nat, step: nat)
    requires step >= 1
    ensures Sampled(k, i, step) <==> k == i || Sampled(k, i + step, step)
  {
    if i < k < i + step {
      DivModUnique(k - i, step, 0, k - i);
    } else if k >= i + step {
      ModAddMultiple(k - i - step, step, 1);
    }
  }

  /** The squared distance is zero exactly when the sampled bytes agree. */
  lemma {:induction false} SqSumZero(x: seq<I8>, y: seq<I8>, step: nat, i: nat)
    requires |x| <= |y| && step >= 1
    ensures SqSum(x, y, step, i) == 0 <==> forall k: nat :: k < |x| && Sampled(k, i, step) ==> x[k] == y[k]
    decreases |x| - i
  {
    if i < |x| {
      SqSumZero(x, y, step, i + step);
      forall k: nat | k < |x|
        ensures Sampled(k, i, step) <==> k == i || Sampled(k, i + step, step)
      {
        SampledStep(k, i, step);
      }
      SqZero(U8(x[i]) as int - U8(y[i]));
      if U8(x[i]) == U8(y[i]) {
        U8Injective(x[i], y[i]);
      }
    }
  }

  /** The squared distance does not depend on the order of the two rows. */
  lemma {:induction false} SqSumSymmetric(x: seq<I8>, y: seq<I8>, step: nat, i: nat)
    requires |x| == |y| && step >= 1
    ensures SqSum(x, y, step, i) == SqSum(y, x, step, i)
    decreases |x| - i
  {
    if i < |x| {
      SqSumSymmetric(x, y, step, i + step);
      assert Sq(U8(x[i]) as int - U8(y[i])) == Sq(U8(y[i]) as int - U8(x[i]));
    }
  }

  /** Each sample adds at most 255², so the sum stays far inside a `long`
      and a `double` holds it exactly. */
  lemma {:induction false} SqSumBound(x: seq<I8>, y: seq<I8>, step: nat, i: nat)
    requires |x| <= |y| && step >= 1
    ensures SqSum(x, y, step, i) <= 65025 * (if i < |x| then |x| - i else 0)
    decreases |x| - i
  {
    if i < |x| {
      SqSumBound(x, y, step, i + step);
      SqBound(U8(x[i]) as int - U8(y[i]));
    }
  }

  /** euclideanDistance: minus the squared distance of two whole rows. */
  method EuclideanDistance(row1: seq<I8>, row2: seq<I8>) returns (distance: int)
    requires |row1| <= |row2|
    ensures distance == -(SqSum(row1, row2, 1, 0) as int)
    ensures distance <= 0 && (distance == 0 <==> row1 == row2[..|row1|])
  {
    var sumSq: int := 0;
    var i := 0;
    while i < |row1|
      invariant 0 <= i <= |row1|
      invariant sumSq + SqSum(row1, row2, 1, i) == SqSum(row1, row2, 1, 0)
    {
      var p1: int, p2: int := U8(row1[i]), U8(row2[i]);
      var diff: int := p1 - p2;
      sumSq := sumSq + diff * diff;
      i := i + 1;
    }
    distance := -sumSq;
    SqSumZero(row1, row2, 1, 0);
    if distance == 0 {
      forall k | 0 <= k < |row1|
        ensures row1[k] == row2[..|row1|][k]
      {
        assert Sampled(k, 0, 1);
      }
    }
  }

  /** Row `j` of `data` when rows are `length` samples long. */
  function Line(data: seq<I8>, j: nat, length: nat): (row: seq<I8>)
    requires j * length + length <= |data|
    ensures |row| == length
  {
    data[j * length .. j * length + length]
  }

  /** euclideanDistanceFast: minus the squared distance of rows `r1` and `r2`
      of `data`, sampling every `step`-th sample. */
  method EuclideanDistanceFast(data: seq<I8>, r1: nat, r2: nat, length: nat, step: nat) returns (distance: int)
    requires r1 * length + length <= |data| && r2 * length + length <= |data| && step >= 1
    ensures distance == -(SqSum(Line(data, r1, length), Line(data, r2, length), step, 0) as int)
    ensures distance <= 0 && (r1 == r2 ==> distance == 0)
  {
    ghost var x, y := Line(data, r1, length), Line(data, r2, length);
    var sumSq: int := 0;
    var i := 0;
    while i < length
      invariant 0 <= i
      invariant sumSq + SqSum(x, y, step, i) == SqSum(x, y, step, 0)
      decreases length - i
    {
      var p1: int, p2: int := U8(data[r1 * length + i]), U8(data[r2 * length + i]);
      assert p1 == U8(x[i]) && p2 == U8(y[i]);
      var diff: int := p1 - p2;
      sumSq := sumSq + diff * diff;
      i := i + step;
    }
    distance := -sumSq;
    SqSumZero(x, y, step, 0);
  }

  /** calculateEuclideanDistanceSq: the squared distance of two rows
      sampling every tenth sample. */
  method EuclideanDistanceSq(row1: seq<I8>, row2: seq<I8>) returns (distance: int)
    requires |row1| <= |row2|
    ensures distance == SqSum(row1, row2, 10, 0)
    ensures distance >= 0 && (row1 == row2 ==> distance == 0)
  {
    var sumSq: int := 0;
    var i := 0;
    while i < |row1|
      invariant 0 <= i
      invariant sumSq + SqSum(row1, row2, 10, i) == SqSum(row1, row2, 10, 0)
      decreases |row1| - i
    {
      var val1: int, val2: int := U8(row1[i]), U8(row2[i]);
      var diff: int := val1 - val2;
      sumSq := sumSq + diff * diff;
      i := i + 10;
    }
    distance := sumSq;
    SqSumZero(row1, row2, 10, 0);
  }

  function Abs(d: int): nat
  {
    if d < 0 then -d else d
  }

  /** The sum of `|row[k] - row[k + channels]|` over `i <= k < |row| - channels`:
      the differences between each sample and the same channel of the next pixel. */
  function AbsDiffSum(row: seq<I8>, channels: nat, i: nat): nat
    decreases |row| - i
  {
    if i + channels >= |row| then 0
    else Abs(U8(row[i]) as int - U8(row[i + channels])) + AbsDiffSum(row, channels, i + 1)
  }

  /** The variance is zero exactly when every channel is constant along the row. */
  lemma {:induction false} AbsDiffSumZero(row: seq<I8>, channels: nat, i: nat)
    ensures AbsDiffSum(row, channels, i) == 0 <==> forall k :: i <= k && k + channels < |row| ==> row[k] == row[k + channels]
    decreases |row| - i
  {
    if i + channels < |row| {
      AbsDiffSumZero(row, channels, i + 1);
      if U8(row[i]) == U8(row[i + channels]) {
        U8Injective(row[i], row[i + channels]);
      }
    }
  }

  /** Each pair adds at most 255. */
  lemma {:induction false} AbsDiffSumBound(row: seq<I8>, channels: nat, i: nat)
    ensures AbsDiffSum(row, channels, i) <= 255 * (if i + channels < |row| then |row| - channels - i else 0)
    decreases |row| - i
  {
    if i + channels < |row| {
      AbsDiffSumBound(row, channels, i + 1);
    }
  }

  /** calculateRowVariance. */
  method RowVariance(rowData: seq<I8>, channels: nat) returns (totalVariance: int)
    ensures totalVariance == AbsDiffSum(rowData, channels, 0)
    ensures totalVariance >= 0
  {
    totalVariance := 0;
    var i := 0;
    while i < |rowData| - channels
      invariant 0 <= i && (i <= |rowData| - channels || i == 0)
      invariant totalVariance + AbsDiffSum(rowData, channels, i) == AbsDiffSum(rowData, channels, 0)
      decreases |rowData| - channels - i
    {
      var pixelValue1: int, pixelValue2: int := U8(rowData[i]), U8(rowData[i + channels]);
      totalVariance := totalVariance + Abs(pixelValue1 - pixelValue2);
      i := i + 1;
    }
  }
}
