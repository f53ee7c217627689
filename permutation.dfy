/** The row permutation of src/Encryption.java on row indices alone: the
    greedy split of a frame's rows into power-of-two blocks, the affine map
    that moves row `start + i` of a block of size N to row
    `start + ((r + (2s + 1)·i) mod N)`, its inverse, and the permutation of
    any sequence of rows that encrypt and decrypt perform. */
module Permutation {
  import opened Bits

  // ---------------------------------------------------------------------------
  // Inside one block

  /** Where local row `i` of a block of `n` rows goes under key (r, s). */
  function BlockIndex(n: nat, r: int, s: int, i: int): (j: nat)
    requires n >= 1
    ensures j < n
  {
    (r + (2 * s + 1) * i) % n
  }

  /** The in-block index as the source computes it, `(r + step * i) & mask`
      with `mask = n - 1`, each operation in 32-bit `int` arithmetic. */
  function MaskedIndex(n: nat, r: int, step: int, i: int): nat
    requires n >= 1
  {
    BitAnd(Wrap32(Int32(r + Int32(step * i))), n - 1)
  }

  /** However `step = 2s + 1`, `step * i` and the sum wrap, the masked index
      is the exact `(r + (2s+1)·i) mod n`, since `n` divides 2^32. */
  lemma MaskedIndexIsBlockIndex(n: nat, r: int, s: int, i: int)
    requires IsPowerOfTwo(n) && n <= 0x8000_0000
    ensures MaskedIndex(n, r, Int32(2 * s + 1), i) == BlockIndex(n, r, s, i)
  {
    var step := Int32(2 * s + 1);
    var prod := Int32(step * i);
    MaskedIntIsMod(Int32(r + prod), n);
    Int32Mod(r + prod, n);
    Int32Mod(step * i, n);
    ModCongruent(prod, step * i, n, r, 1);
    Int32Mod(2 * s + 1, n);
    ModCongruent(step, 2 * s + 1, n, 0, i);
    ModCongruent(step * i, (2 * s + 1) * i, n, r, 1);
  }

  /** Equal remainders differ by a multiple. */
  lemma SameRemainder(x: int, y: int, n: nat)
    requires n >= 1 && x % n == y % n
    ensures (x - y) % n == 0
  {
    DivModUnique(x - y, n, x / n - y / n, 0);
  }

  /** An odd factor cannot supply any power of two: if N divides `step·d`
      for an odd `step`, then N divides `d`. */
  lemma {:induction false} OddFactor(step: int, d: int, n: nat)
    requires IsPowerOfTwo(n) && step % 2 == 1 && (step * d) % n == 0
    ensures d % n == 0
    decreases n
  {
    if n != 1 {
      var m := n / 2;
      assert n == 2 * m;
      ModDouble(step * d, m);
      var a := step / 2;
      assert step * d == 2 * (a * d) + d by {
        assert step == 2 * a + 1;
      }
      DivModUnique(step * d, 2, a * d + d / 2, d % 2);
      assert d % 2 == 0;
      var e := d / 2;
      assert d == 2 * e;
      assert step * d == 2 * (step * e);
      DivModUnique(step * d, 2, step * e, 0);
      OddFactor(step, e, m);
      var w := e / m;
      assert e == m * w;
      assert d == n * w;
      DivModUnique(d, n, w, 0);
    }
  }

  /** A multiple of N strictly between -N and N is 0. */
  lemma SmallMultiple(d: int, n: nat)
    requires n >= 1 && 0 < d + n && d < n && d % n == 0
    ensures d == 0
  {
    if d > 0 {
      DivModUnique(d, n, 0, d);
    } else if d < 0 {
      DivModUnique(d, n, -1, d + n);
    }
  }

  /** The step 2s + 1 is odd, so distinct local rows go to distinct places. */
  lemma BlockIndexInjective(n: nat, r: int, s: int, i: int, j: int)
    requires IsPowerOfTwo(n) && 0 <= i < n && 0 <= j < n
    requires BlockIndex(n, r, s, i) == BlockIndex(n, r, s, j)
    ensures i == j
  {
    var step := 2 * s + 1;
    SameRemainder(r + step * i, r + step * j, n);
    assert (r + step * i) - (r + step * j) == step * (i - j);
    DivModUnique(step, 2, s, 1);
    OddFactor(step, i - j, n);
    SmallMultiple(i - j, n);
  }

  /** The integers 0..n-1 as a set. */
  function Below(n: nat): (b: set<int>)
    ensures |b| == n && forall k :: k in b <==> 0 <= k < n
  {
    if n == 0 then {} else Below(n - 1) + {n - 1}
  }

  lemma SubsetSize<T>(a: set<T>, b: set<T>)
    requires a <= b
    ensures |a| <= |b|
  {
    assert b == a + (b - a);
  }

  lemma {:induction false} DistinctImageSize(xs: seq<int>, m: nat)
    requires m <= |xs|
    requires forall i, j :: 0 <= i < j < m ==> xs[i] != xs[j]
    ensures |set i | 0 <= i < m :: xs[i]| == m
  {
    if m > 0 {
      DistinctImageSize(xs, m - 1);
      var before := set i | 0 <= i < m - 1 :: xs[i];
      assert (set i | 0 <= i < m :: xs[i]) == before + {xs[m - 1]};
      assert xs[m - 1] !in before;
    }
  }

  /** A sequence of `n` distinct values below `n` takes every value below `n`. */
  lemma DistinctCoversRange(xs: seq<int>, n: nat)
    requires |xs| == n
    requires forall i :: 0 <= i < n ==> 0 <= xs[i] < n
    requires forall i, j :: 0 <= i < j < n ==> xs[i] != xs[j]
    ensures forall k :: k in Below(n) ==> k in xs
  {
    var image := set i | 0 <= i < n :: xs[i];
    DistinctImageSize(xs, n);
    assert image <= Below(n);
    forall k | k in Below(n)
      ensures k in xs
    {
      if k !in image {
        assert image <= Below(n) - {k};
        SubsetSize(image, Below(n) - {k});
        assert false;
      }
    }
  }

  /** The local destinations of a block, in the order encrypt visits them. */
  function BlockIndices(n: nat, r: int, s: int): (xs: seq<int>)
    requires n >= 1
    ensures |xs| == n && forall i :: 0 <= i < n ==> xs[i] == BlockIndex(n, r, s, i)
  {
    seq(n, i => BlockIndex(n, r, s, i))
  }

  /** The map i |-> (r + (2s+1)·i) mod N is a bijection of [0, N): it is
      one-to-one, and every local row is the destination of some local row. */
  lemma BlockIndexBijective(n: nat, r: int, s: int)
    requires IsPowerOfTwo(n)
    ensures forall i, j :: 0 <= i < n && 0 <= j < n && BlockIndex(n, r, s, i) == BlockIndex(n, r, s, j) ==> i == j
    ensures forall k :: k in Below(n) ==> k in BlockIndices(n, r, s)
  {
    forall i, j | 0 <= i < n && 0 <= j < n && BlockIndex(n, r, s, i) == BlockIndex(n, r, s, j)
      ensures i == j
    {
      BlockIndexInjective(n, r, s, i, j);
    }
    DistinctCoversRange(BlockIndices(n, r, s), n);
  }

  /** The local row that BlockIndex sends to `k`. */
  ghost function BlockSource(n: nat, r: int, s: int, k: nat): (i: nat)
    requires IsPowerOfTwo(n) && k < n
    ensures i < n && BlockIndex(n, r, s, i) == k
  {
    BlockIndexBijective(n, r, s);
    assert k in Below(n);
    var xs := BlockIndices(n, r, s);
    var i :| 0 <= i < n && xs[i] == k;
    i
  }

  /** BlockSource is the inverse of BlockIndex on both sides. */
  lemma BlockSourceInverse(n: nat, r: int, s: int, i: nat)
    requires IsPowerOfTwo(n) && i < n
    ensures BlockSource(n, r, s, BlockIndex(n, r, s, i)) == i
  {
    BlockIndexInjective(n, r, s, BlockSource(n, r, s, BlockIndex(n, r, s, i)), i);
  }

  // ---------------------------------------------------------------------------
  // Blocks of a frame

  /** A run of `size` rows starting at row `start`. */
  datatype Block = Block(start: nat, size: nat)

  /** The block holding row `row` of a frame of `h` rows, when blocks are laid
      greedily from row `start` on, each as large a power of two as fits. */
  function BlockOf(h: nat, start: nat, row: nat): (b: Block)
    requires start <= row < h
    ensures start <= b.start <= row < b.start + b.size <= h
    decreases h - start
  {
    var n := Pow2Floor(h - start);
    if row < start + n then Block(start, n) else BlockOf(h, start + n, row)
  }

  /** Each block is the largest power of two that fits in the rows left. */
  lemma {:induction false} BlockOfSize(h: nat, start: nat, row: nat)
    requires start <= row < h
    ensures BlockOf(h, start, row).size == Pow2Floor(h - BlockOf(h, start, row).start)
    decreases h - start
  {
    var n := Pow2Floor(h - start);
    if row >= start + n {
      assert BlockOf(h, start, row) == BlockOf(h, start + n, row);
      BlockOfSize(h, start + n, row);
    }
  }

  lemma BlockOfGreedy(h: nat, start: nat, row: nat)
    requires start <= row < h
    ensures var b := BlockOf(h, start, row);
      b.size == Pow2Floor(h - b.start) && IsPowerOfTwo(b.size)
  {
    var b := BlockOf(h, start, row);
    BlockOfSize(h, start, row);
    Pow2FloorIsPowerOfTwo(h - b.start);
  }

  /** Rows of one block share it. */
  lemma {:induction false} BlockOfShared(h: nat, start: nat, row: nat, other: nat)
    requires start <= row < h
    requires BlockOf(h, start, row).start <= other < BlockOf(h, start, row).start + BlockOf(h, start, row).size
    ensures BlockOf(h, start, other) == BlockOf(h, start, row)
    decreases h - start
  {
    var n := Pow2Floor(h - start);
    var b := BlockOf(h, start, row);
    if row >= start + n {
      assert b == BlockOf(h, start + n, row);
      BlockOfShared(h, start + n, row, other);
      assert other >= start + n;
    } else {
      assert b == Block(start, n);
    }
  }

  /** The blocks encrypt and decrypt visit, from row `start` to the bottom;
      each is the largest power of two that fits in the rows left. */
  function Blocks(h: nat, start: nat): (bs: seq<Block>)
    requires start <= h
    ensures forall k :: 0 <= k < |bs| ==> start <= bs[k].start && bs[k].start + bs[k].size <= h
    decreases h - start
  {
    if start == h then [] else [Block(start, Pow2Floor(h - start))] + Blocks(h, start + Pow2Floor(h - start))
  }

  /** The blocks tile rows start..h-1 without gap or overlap. */
  lemma {:induction false} BlocksTile(h: nat, start: nat)
    requires start <= h
    ensures var bs := Blocks(h, start);
      && (|bs| == 0 <==> start == h)
      && (|bs| > 0 ==> bs[0].start == start && bs[|bs| - 1].start + bs[|bs| - 1].size == h)
      && (forall k :: 0 <= k < |bs| - 1 ==> bs[k + 1].start == bs[k].start + bs[k].size)
    decreases h - start
  {
    if start < h {
      BlocksTile(h, start + Pow2Floor(h - start));
    }
  }

  /** Each block is strictly smaller than the one before it. */
  lemma {:induction false} BlocksShrink(h: nat, start: nat, k: nat)
    requires start <= h && k + 1 < |Blocks(h, start)|
    ensures Blocks(h, start)[k + 1].size < Blocks(h, start)[k].size
    decreases k
  {
    var n := Pow2Floor(h - start);
    var bs := Blocks(h, start);
    var rest := Blocks(h, start + n);
    assert bs == [Block(start, n)] + rest;
    if k == 0 {
      BlocksTile(h, start + n);
      assert rest[0].size <= h - start - n < n;
    } else {
      BlocksShrink(h, start + n, k - 1);
      assert bs[k] == rest[k - 1] && bs[k + 1] == rest[k];
    }
  }

  /** Every row lies in one of the visited blocks, and that block is
      BlockOf's: it is block number `k` of the visit. */
  lemma {:induction false} BlockOfIsVisited(h: nat, start: nat, row: nat) returns (k: nat)
    requires start <= row < h
    ensures k < |Blocks(h, start)| && Blocks(h, start)[k] == BlockOf(h, start, row)
    decreases h - start
  {
    var n := Pow2Floor(h - start);
    var bs := Blocks(h, start);
    var rest := Blocks(h, start + n);
    assert bs == [Block(start, n)] + rest;
    if row >= start + n {
      assert BlockOf(h, start, row) == BlockOf(h, start + n, row);
      var j := BlockOfIsVisited(h, start + n, row);
      k := j + 1;
      assert bs[k] == rest[j];
    } else {
      k := 0;
      assert BlockOf(h, start, row) == bs[0];
    }
  }

  /** `x` is the first row of a block visited from row `start` on, or the bottom `h`. */
  predicate Reaches(h: nat, start: nat, x: nat)
    decreases h - start
  {
    start == x || (start < x && start < h && Reaches(h, start + Pow2Floor(h - start), x))
  }

  /** From a visited block start on, the blocks are the ones laid from there. */
  lemma {:induction false} ReachesBlockOf(h: nat, start: nat, x: nat, row: nat)
    requires Reaches(h, start, x) && x <= row < h
    ensures start <= x && BlockOf(h, start, row) == BlockOf(h, x, row)
    decreases h - start
  {
    if start != x {
      var next := start + Pow2Floor(h - start);
      ReachesBlockOf(h, next, x, row);
      assert BlockOf(h, start, row) == BlockOf(h, next, row);
    }
  }

  /** The next block starts right after this one. */
  lemma {:induction false} ReachesNext(h: nat, start: nat, x: nat)
    requires Reaches(h, start, x) && x < h
    ensures Reaches(h, start, x + Pow2Floor(h - x))
    decreases h - start
  {
    if start != x {
      ReachesNext(h, start + Pow2Floor(h - start), x);
    }
  }

  /** The rows of the block starting at a visited `x`. */
  lemma BlockAt(h: nat, x: nat, k: nat)
    requires Reaches(h, 0, x) && x + k < h && k < Pow2Floor(h - x)
    ensures BlockOf(h, 0, x + k) == Block(x, Pow2Floor(h - x))
  {
    ReachesBlockOf(h, 0, x, x + k);
  }

  // ---------------------------------------------------------------------------
  // The row map of a frame

  /** The row that row `row` of an `h`-row frame is moved to by encrypt. */
  function Dest(h: nat, r: int, s: int, row: nat): (d: nat)
    requires row < h
    ensures d < h
  {
    var b := BlockOf(h, 0, row);
    b.start + BlockIndex(b.size, r, s, row - b.start)
  }

  /** The row that encrypt moves to row `row`; decrypt's destination of it. */
  ghost function Source(h: nat, r: int, s: int, row: nat): (src: nat)
    requires row < h
    ensures src < h
  {
    BlockOfGreedy(h, 0, row);
    var b := BlockOf(h, 0, row);
    b.start + BlockSource(b.size, r, s, row - b.start)
  }

  /** Inside the block at a visited `x`, Source is the inverse of the block's own map. */
  lemma SourceAt(h: nat, x: nat, k: nat, r: int, s: int)
    requires Reaches(h, 0, x) && x + k < h && k < Pow2Floor(h - x)
    ensures IsPowerOfTwo(Pow2Floor(h - x))
    ensures Source(h, r, s, x + k) == x + BlockSource(Pow2Floor(h - x), r, s, k)
  {
    BlockAt(h, x, k);
    Pow2FloorIsPowerOfTwo(h - x);
    var b := BlockOf(h, 0, x + k);
    assert b.start == x && b.size == Pow2Floor(h - x);
  }

  /** No row crosses a block boundary: a row and its destination share a block. */
  lemma DestStaysInBlock(h: nat, r: int, s: int, row: nat)
    requires row < h
    ensures Dest(h, r, s, row) < h
    ensures BlockOf(h, 0, Dest(h, r, s, row)) == BlockOf(h, 0, row)
  {
    BlockOfShared(h, 0, row, Dest(h, r, s, row));
  }

  lemma SourceStaysInBlock(h: nat, r: int, s: int, row: nat)
    requires row < h
    ensures Source(h, r, s, row) < h
    ensures BlockOf(h, 0, Source(h, r, s, row)) == BlockOf(h, 0, row)
  {
    BlockOfShared(h, 0, row, Source(h, r, s, row));
  }

  /** Dest undoes Source. */
  lemma DestOfSource(h: nat, r: int, s: int, row: nat)
    requires row < h
    ensures Source(h, r, s, row) < h && Dest(h, r, s, Source(h, r, s, row)) == row
  {
    var b := BlockOf(h, 0, row);
    BlockOfGreedy(h, 0, row);
    var src := Source(h, r, s, row);
    assert src == b.start + BlockSource(b.size, r, s, row - b.start);
    SourceStaysInBlock(h, r, s, row);
    assert BlockOf(h, 0, src) == b;
  }

  /** Source undoes Dest. */
  lemma SourceOfDest(h: nat, r: int, s: int, row: nat)
    requires row < h
    ensures Dest(h, r, s, row) < h && Source(h, r, s, Dest(h, r, s, row)) == row
  {
    var b := BlockOf(h, 0, row);
    BlockOfGreedy(h, 0, row);
    var i := row - b.start;
    var d := Dest(h, r, s, row);
    assert d == b.start + BlockIndex(b.size, r, s, i);
    DestStaysInBlock(h, r, s, row);
    assert BlockOf(h, 0, d) == b;
    BlockSourceInverse(b.size, r, s, i);
    assert Source(h, r, s, d) == b.start + BlockSource(b.size, r, s, d - b.start);
  }

  /** Source and Dest undo each other on every row. */
  lemma DestSourceInverse(h: nat, r: int, s: int, row: nat)
    requires row < h
    ensures Source(h, r, s, row) < h && Dest(h, r, s, Source(h, r, s, row)) == row
    ensures Dest(h, r, s, row) < h && Source(h, r, s, Dest(h, r, s, row)) == row
  {
    DestOfSource(h, r, s, row);
    SourceOfDest(h, r, s, row);
  }

  /** With key (0, 0) the map moves nothing. */
  lemma DestIdentity(h: nat, row: nat)
    requires row < h
    ensures Dest(h, 0, 0, row) == row
  {
    var b := BlockOf(h, 0, row);
    var i := row - b.start;
    DivModUnique(i, b.size, 0, i);
    assert BlockIndex(b.size, 0, 0, i) == i;
  }

  lemma SourceIdentity(h: nat, row: nat)
    requires row < h
    ensures Source(h, 0, 0, row) == row
  {
    DestSourceInverse(h, 0, 0, row);
    DestIdentity(h, Source(h, 0, 0, row));
  }

  // ---------------------------------------------------------------------------
  // Permuting a sequence of rows

  /** encrypt on rows: row i of the input becomes row Dest(i) of the output. */
  ghost function EncryptRows<T>(xs: seq<T>, r: int, s: int): (ys: seq<T>)
    ensures |ys| == |xs|
  {
    seq(|xs|, j requires 0 <= j < |xs| => SourceStaysInBlock(|xs|, r, s, j); xs[Source(|xs|, r, s, j)])
  }

  /** decrypt on rows: row i of the output is row Dest(i) of the input. */
  function DecryptRows<T>(xs: seq<T>, r: int, s: int): (ys: seq<T>)
    ensures |ys| == |xs|
  {
    seq(|xs|, i requires 0 <= i < |xs| => DestStaysInBlock(|xs|, r, s, i); xs[Dest(|xs|, r, s, i)])
  }

  /** Encrypting sends each row to its destination, and only there. */
  lemma EncryptRowsMoves<T>(xs: seq<T>, r: int, s: int, i: nat)
    requires i < |xs|
    ensures Dest(|xs|, r, s, i) < |xs| && EncryptRows(xs, r, s)[Dest(|xs|, r, s, i)] == xs[i]
  {
    DestSourceInverse(|xs|, r, s, i);
  }

  /** decrypt undoes encrypt. */
  lemma DecryptEncryptRows<T>(xs: seq<T>, r: int, s: int)
    ensures DecryptRows(EncryptRows(xs, r, s), r, s) == xs
  {
    var ys := DecryptRows(EncryptRows(xs, r, s), r, s);
    forall i | 0 <= i < |xs|
      ensures ys[i] == xs[i]
    {
      DestSourceInverse(|xs|, r, s, i);
    }
  }

  /** encrypt undoes decrypt. */
  lemma EncryptDecryptRows<T>(xs: seq<T>, r: int, s: int)
    ensures EncryptRows(DecryptRows(xs, r, s), r, s) == xs
  {
    var ys := EncryptRows(DecryptRows(xs, r, s), r, s);
    forall j | 0 <= j < |xs|
      ensures ys[j] == xs[j]
    {
      DestSourceInverse(|xs|, r, s, j);
    }
  }

  /** Key (0, 0) leaves every row where it is. */
  lemma IdentityKeyRows<T>(xs: seq<T>)
    ensures EncryptRows(xs, 0, 0) == xs && DecryptRows(xs, 0, 0) == xs
  {
    forall i | 0 <= i < |xs|
      ensures EncryptRows(xs, 0, 0)[i] == xs[i] && DecryptRows(xs, 0, 0)[i] == xs[i]
    {
      DestIdentity(|xs|, i);
      SourceIdentity(|xs|, i);
    }
  }
}
