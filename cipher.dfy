/** encrypt and decrypt of src/Encryption.java: the frame is split into
    power-of-two blocks of rows from the top, and inside each block local row
    `i` is copied to local row `(r + (2s+1)·i) & (N - 1)` (encrypt) or back
    from there (decrypt). */
module Cipher {
  import opened Bits
  import opened Frames
  import opened Permutation

  /** Moving whole rows around keeps every row `rs` bytes long. */
  lemma PermutedRowsSize(data: seq<I8>, h: nat, rs: nat, r: int, s: int)
    requires |data| == h * rs
    ensures RowsOfSize(Rows(data, h, rs), rs)
    ensures RowsOfSize(EncryptRows(Rows(data, h, rs), r, s), rs)
    ensures RowsOfSize(DecryptRows(Rows(data, h, rs), r, s), rs)
  {
    var rows := Rows(data, h, rs);
    forall j | 0 <= j < h
      ensures |EncryptRows(rows, r, s)[j]| == rs && |DecryptRows(rows, r, s)[j]| == rs
    {
      SourceStaysInBlock(h, r, s, j);
      DestStaysInBlock(h, r, s, j);
    }
  }

  /** The buffer encrypt writes for a buffer of `h` rows of `rs` bytes. */
  ghost function EncryptData(data: seq<I8>, h: nat, rs: nat, r: int, s: int): (d: seq<I8>)
    requires |data| == h * rs
    ensures |d| == |data|
  {
    PermutedRowsSize(data, h, rs, r, s);
    FlattenSize(EncryptRows(Rows(data, h, rs), r, s), rs);
    Flatten(EncryptRows(Rows(data, h, rs), r, s))
  }

  /** The buffer decrypt writes for a buffer of `h` rows of `rs` bytes. */
  function DecryptData(data: seq<I8>, h: nat, rs: nat, r: int, s: int): (d: seq<I8>)
    requires |data| == h * rs
    ensures |d| == |data|
  {
    PermutedRowsSize(data, h, rs, r, s);
    FlattenSize(DecryptRows(Rows(data, h, rs), r, s), rs);
    Flatten(DecryptRows(Rows(data, h, rs), r, s))
  }

  /** The frame encrypt(f, r, s) returns. */
  ghost function Encrypted(f: Frame, r: int, s: int): (g: Frame)
    requires f.Valid()
    ensures g.Valid()
  {
    f.(data := EncryptData(f.data, f.height, f.RowSize(), r, s))
  }

  /** The frame decrypt(f, r, s) returns. */
  function Decrypted(f: Frame, r: int, s: int): (g: Frame)
    requires f.Valid()
    ensures g.Valid()
  {
    f.(data := DecryptData(f.data, f.height, f.RowSize(), r, s))
  }

  /** Row `j` of the encrypted buffer is row Source(j) of the input, and
      row `j` of the decrypted buffer is row Dest(j) of the input. */
  lemma PermutedRow(data: seq<I8>, h: nat, rs: nat, r: int, s: int, j: nat)
    requires |data| == h * rs && j < h
    ensures Source(h, r, s, j) < h && Dest(h, r, s, j) < h
    ensures RowAt(EncryptData(data, h, rs, r, s), h, rs, j) == RowAt(data, h, rs, Source(h, r, s, j))
    ensures RowAt(DecryptData(data, h, rs, r, s), h, rs, j) == RowAt(data, h, rs, Dest(h, r, s, j))
  {
    var rows := Rows(data, h, rs);
    PermutedRowsSize(data, h, rs, r, s);
    FlattenRowAt(EncryptRows(rows, r, s), rs, j);
    FlattenRowAt(DecryptRows(rows, r, s), rs, j);
    SourceStaysInBlock(h, r, s, j);
    DestStaysInBlock(h, r, s, j);
  }

  /** Where decrypt takes byte `p` of its output from: the same offset in row Dest. */
  function DecryptByteFrom(h: nat, rs: nat, r: int, s: int, p: nat): (q: nat)
    requires p < h * rs
    ensures q < h * rs
  {
    var j := p / rs;
    assert j < h by {
      if j >= h {
        RowsMonotone(rs, h, j);
      }
    }
    var d := Dest(h, r, s, j);
    RowInBounds(h, rs, d);
    d * rs + p % rs
  }

  /** decrypt moves every byte, whatever the buffer, from DecryptByteFrom. */
  lemma DecryptByte(data: seq<I8>, h: nat, rs: nat, r: int, s: int, p: nat)
    requires |data| == h * rs && p < h * rs
    ensures DecryptData(data, h, rs, r, s)[p] == data[DecryptByteFrom(h, rs, r, s, p)]
  {
    var j := RowOfIndex(h, rs, p);
    DivModUnique(p, rs, j, p - j * rs);
    PermutedRow(data, h, rs, r, s, j);
    RowInBounds(h, rs, j);
    RowInBounds(h, rs, Dest(h, r, s, j));
    assert RowAt(DecryptData(data, h, rs, r, s), h, rs, j)[p - j * rs] == DecryptData(data, h, rs, r, s)[p];
  }

  /** encrypt sends row i to row Dest(i), inside i's own block of rows. */
  lemma EncryptMovesRow(f: Frame, r: int, s: int, i: nat)
    requires f.Valid() && i < f.height
    ensures Dest(f.height, r, s, i) < f.height
    ensures BlockOf(f.height, 0, Dest(f.height, r, s, i)) == BlockOf(f.height, 0, i)
    ensures RowAt(Encrypted(f, r, s).data, f.height, f.RowSize(), Dest(f.height, r, s, i)) == RowAt(f.data, f.height, f.RowSize(), i)
  {
    DestStaysInBlock(f.height, r, s, i);
    PermutedRow(f.data, f.height, f.RowSize(), r, s, Dest(f.height, r, s, i));
    DestSourceInverse(f.height, r, s, i);
  }

  /** decrypt(encrypt(f, r, s), r, s) == f. */
  lemma DecryptEncrypt(f: Frame, r: int, s: int)
    requires f.Valid()
    ensures Decrypted(Encrypted(f, r, s), r, s) == f
  {
    var h, rs := f.height, f.RowSize();
    var rows := Rows(f.data, h, rs);
    PermutedRowsSize(f.data, h, rs, r, s);
    RowsFlatten(EncryptRows(rows, r, s), rs);
    DecryptEncryptRows(rows, r, s);
    FlattenRows(f.data, h, rs);
  }

  /** encrypt(decrypt(f, r, s), r, s) == f. */
  lemma EncryptDecrypt(f: Frame, r: int, s: int)
    requires f.Valid()
    ensures Encrypted(Decrypted(f, r, s), r, s) == f
  {
    var h, rs := f.height, f.RowSize();
    var rows := Rows(f.data, h, rs);
    PermutedRowsSize(f.data, h, rs, r, s);
    RowsFlatten(DecryptRows(rows, r, s), rs);
    EncryptDecryptRows(rows, r, s);
    FlattenRows(f.data, h, rs);
  }

  /** The key (0, 0) changes nothing. */
  lemma IdentityKey(f: Frame)
    requires f.Valid()
    ensures Encrypted(f, 0, 0) == f && Decrypted(f, 0, 0) == f
  {
    IdentityKeyRows(Rows(f.data, f.height, f.RowSize()));
    FlattenRows(f.data, f.height, f.RowSize());
  }

  /** System.arraycopy of row `srcRow` of `src` onto row `destRow` of `dest`. */
  method CopyRow(src: seq<I8>, srcRow: nat, dest: array<I8>, destRow: nat, h: nat, rs: nat)
    requires |src| == h * rs && dest.Length == h * rs && srcRow < h && destRow < h
    modifies dest
    ensures dest[..] == ReplaceRow(old(dest[..]), h, rs, destRow, RowAt(src, h, rs, srcRow))
  {
    RowInBounds(h, rs, srcRow);
    RowInBounds(h, rs, destRow);
    var from, to := srcRow * rs, destRow * rs;
    forall p | to <= p < to + rs {
      dest[p] := src[from + p - to];
    }
    assert dest[..] == ReplaceRow(old(dest[..]), h, rs, destRow, RowAt(src, h, rs, srcRow));
  }

  /** The rows of the block `start .. start + n - 1` that encrypt has placed:
      local row `k` of `src` sits at local row BlockIndex(k) of `d`. */
  ghost predicate PlacedBy(d: seq<I8>, src: seq<I8>, h: nat, rs: nat, start: nat, n: nat, r: int, s: int, k: nat)
    requires |d| == h * rs && |src| == h * rs && n >= 1 && start + n <= h && k < n
  {
    RowAt(d, h, rs, start + BlockIndex(n, r, s, k)) == RowAt(src, h, rs, start + k)
  }

  /** Copying local row `i` to its destination places it, and keeps in
      place the rows placed before it: their destinations differ from i's. */
  lemma PlacedAfterCopy(before: seq<I8>, after: seq<I8>, src: seq<I8>, h: nat, rs: nat, start: nat, n: nat, r: int, s: int, i: nat, k: nat)
    requires |before| == h * rs && |src| == h * rs && start + n <= h && IsPowerOfTwo(n) && k <= i < n
    requires after == ReplaceRow(before, h, rs, start + BlockIndex(n, r, s, i), RowAt(src, h, rs, start + i))
    requires k < i ==> PlacedBy(before, src, h, rs, start, n, r, s, k)
    ensures PlacedBy(after, src, h, rs, start, n, r, s, k)
  {
    var at := start + BlockIndex(n, r, s, k);
    RowAtReplaceRow(before, h, rs, start + BlockIndex(n, r, s, i), RowAt(src, h, rs, start + i), at);
    if k < i && BlockIndex(n, r, s, k) == BlockIndex(n, r, s, i) {
      BlockIndexInjective(n, r, s, k, i);
    }
  }

  /** encrypt's inner loop over one block of `n` rows starting at `start`. */
  method EncryptBlock(src: seq<I8>, dest: array<I8>, h: nat, rs: nat, start: nat, n: nat, r: int, s: int, step: int)
    requires |src| == h * rs && dest.Length == h * rs && start + n <= h && h < 0x8000_0000
    requires IsPowerOfTwo(n) && step == Int32(2 * s + 1)
    modifies dest
    ensures forall j :: 0 <= j < h && !(start <= j < start + n) ==> RowAt(dest[..], h, rs, j) == RowAt(old(dest[..]), h, rs, j)
    ensures forall k :: 0 <= k < n ==> PlacedBy(dest[..], src, h, rs, start, n, r, s, k)
  {
    var blockMask := n - 1;
    var i := 0;
    while i < n
      invariant 0 <= i <= n
      invariant forall j :: 0 <= j < h && !(start <= j < start + n) ==> RowAt(dest[..], h, rs, j) == RowAt(old(dest[..]), h, rs, j)
      invariant forall k :: 0 <= k < i ==> PlacedBy(dest[..], src, h, rs, start, n, r, s, k)
    {
      var destIndexInBlock := MaskedIndex(n, r, step, i);
      MaskedIndexIsBlockIndex(n, r, s, i);
      var sourceRow := start + i;
      var destRow := start + destIndexInBlock;
      ghost var before := dest[..];
      CopyRow(src, sourceRow, dest, destRow, h, rs);
      ghost var row := RowAt(src, h, rs, sourceRow);
      forall j | 0 <= j < h && !(start <= j < start + n)
        ensures RowAt(dest[..], h, rs, j) == RowAt(old(dest[..]), h, rs, j)
      {
        RowAtReplaceRow(before, h, rs, destRow, row, j);
      }
      forall k | 0 <= k <= i
        ensures PlacedBy(dest[..], src, h, rs, start, n, r, s, k)
      {
        PlacedAfterCopy(before, dest[..], src, h, rs, start, n, r, s, i, k);
      }
      i := i + 1;
    }
  }

  /** Once encrypt's inner loop has placed the row whose block index maps to
      `j`, row `j` holds the input row that Source names. */
  lemma EncryptBlockPlaced(d: seq<I8>, src: seq<I8>, h: nat, rs: nat, start: nat, n: nat, r: int, s: int, j: nat)
    requires |d| == h * rs && |src| == h * rs && start < h && Reaches(h, 0, start)
    requires n == Pow2Floor(h - start) && IsPowerOfTwo(n) && start <= j < start + n
    requires PlacedBy(d, src, h, rs, start, n, r, s, BlockSource(n, r, s, j - start))
    ensures RowAt(d, h, rs, j) == RowAt(src, h, rs, Source(h, r, s, j))
  {
    SourceAt(h, start, j - start, r, s);
  }

  /** The first `m` rows of `d` hold the input rows that Source names. */
  ghost predicate EncryptedUpTo(d: seq<I8>, src: seq<I8>, h: nat, rs: nat, r: int, s: int, m: nat)
    requires |d| == h * rs && |src| == h * rs && m <= h
  {
    forall j :: 0 <= j < m ==> RowAt(d, h, rs, j) == RowAt(src, h, rs, Source(h, r, s, j))
  }

  /** One pass of encrypt's block loop extends the encrypted prefix by the block. */
  lemma EncryptStep(before: seq<I8>, after: seq<I8>, src: seq<I8>, h: nat, rs: nat, start: nat, n: nat, r: int, s: int)
    requires |before| == h * rs && |after| == h * rs && |src| == h * rs && start < h && Reaches(h, 0, start)
    requires n == Pow2Floor(h - start) && IsPowerOfTwo(n)
    requires EncryptedUpTo(before, src, h, rs, r, s, start)
    requires forall j :: 0 <= j < h && !(start <= j < start + n) ==> RowAt(after, h, rs, j) == RowAt(before, h, rs, j)
    requires forall k :: 0 <= k < n ==> PlacedBy(after, src, h, rs, start, n, r, s, k)
    ensures EncryptedUpTo(after, src, h, rs, r, s, start + n)
  {
    forall j | 0 <= j < start + n
      ensures RowAt(after, h, rs, j) == RowAt(src, h, rs, Source(h, r, s, j))
    {
      if j >= start {
        var k := BlockSource(n, r, s, j - start);
        assert PlacedBy(after, src, h, rs, start, n, r, s, k);
        EncryptBlockPlaced(after, src, h, rs, start, n, r, s, j);
      }
    }
  }

  /** A buffer encrypted up to its last row is the encrypted buffer. */
  lemma EncryptedAll(d: seq<I8>, src: seq<I8>, h: nat, rs: nat, r: int, s: int)
    requires |d| == h * rs && |src| == h * rs && EncryptedUpTo(d, src, h, rs, r, s, h)
    ensures d == EncryptData(src, h, rs, r, s)
  {
    forall j | 0 <= j < h
      ensures RowAt(d, h, rs, j) == RowAt(EncryptData(src, h, rs, r, s), h, rs, j)
    {
      PermutedRow(src, h, rs, r, s, j);
    }
    SameRows(d, EncryptData(src, h, rs, r, s), h, rs);
  }

  /** encrypt: the block loop over the whole frame. */
  method Encrypt(input: Frame, r: int, s: int) returns (output: Frame)
    requires input.Valid() && input.height < 0x8000_0000
    ensures output == Encrypted(input, r, s)
  {
    var h, rs := input.height, input.RowSize();
    var dest := new I8[h * rs](_ => 0);
    var step := Int32(2 * s + 1);
    var startLine := 0;
    while startLine < h
      invariant startLine <= h && Reaches(h, 0, startLine)
      invariant EncryptedUpTo(dest[..], input.data, h, rs, r, s, startLine)
    {
      var blockSize := LargestPowerOf2(h - startLine);
      ghost var before := dest[..];
      EncryptBlock(input.data, dest, h, rs, startLine, blockSize, r, s, step);
      EncryptStep(before, dest[..], input.data, h, rs, startLine, blockSize, r, s);
      ReachesNext(h, 0, startLine);
      startLine := startLine + blockSize;
    }
    EncryptedAll(dest[..], input.data, h, rs, r, s);
    output := Frame(h, input.width, input.channels, dest[..]);
  }

  /** Row `k` of the block at `start` holds the input row at its block index. */
  ghost predicate FetchedBy(d: seq<I8>, src: seq<I8>, h: nat, rs: nat, start: nat, n: nat, r: int, s: int, k: nat)
    requires |d| == h * rs && |src| == h * rs && start + n <= h && k < n
  {
    RowAt(d, h, rs, start + k) == RowAt(src, h, rs, start + BlockIndex(n, r, s, k))
  }

  /** Copying into local row `i` fetches it and leaves the rows before it alone. */
  lemma FetchedAfterCopy(before: seq<I8>, after: seq<I8>, src: seq<I8>, h: nat, rs: nat, start: nat, n: nat, r: int, s: int, i: nat, k: nat)
    requires |before| == h * rs && |src| == h * rs && start + n <= h && k <= i < n
    requires after == ReplaceRow(before, h, rs, start + i, RowAt(src, h, rs, start + BlockIndex(n, r, s, i)))
    requires k < i ==> FetchedBy(before, src, h, rs, start, n, r, s, k)
    ensures FetchedBy(after, src, h, rs, start, n, r, s, k)
  {
    var row := RowAt(src, h, rs, start + BlockIndex(n, r, s, i));
    RowAtReplaceRow(before, h, rs, start + i, row, start + k);
    if k < i {
      assert RowAt(after, h, rs, start + k) == RowAt(before, h, rs, start + k);
    } else {
      assert RowAt(after, h, rs, start + k) == row;
    }
  }

  /** decrypt's inner loop over one block of `n` rows starting at `start`. */
  method DecryptBlock(src: seq<I8>, dest: array<I8>, h: nat, rs: nat, start: nat, n: nat, r: int, s: int, step: int)
    requires |src| == h * rs && dest.Length == h * rs && start + n <= h && h < 0x8000_0000
    requires IsPowerOfTwo(n) && step == Int32(2 * s + 1)
    modifies dest
    ensures forall j :: 0 <= j < h && !(start <= j < start + n) ==> RowAt(dest[..], h, rs, j) == RowAt(old(dest[..]), h, rs, j)
    ensures forall k :: 0 <= k < n ==> FetchedBy(dest[..], src, h, rs, start, n, r, s, k)
  {
    var blockMask := n - 1;
    var i := 0;
    while i < n
      invariant 0 <= i <= n
      invariant forall j :: 0 <= j < h && !(start <= j < start + n) ==> RowAt(dest[..], h, rs, j) == RowAt(old(dest[..]), h, rs, j)
      invariant forall k :: 0 <= k < i ==> FetchedBy(dest[..], src, h, rs, start, n, r, s, k)
    {
      var sourceIndexInBlock := MaskedIndex(n, r, step, i);
      MaskedIndexIsBlockIndex(n, r, s, i);
      var sourceRow := start + sourceIndexInBlock;
      var destRow := start + i;
      ghost var before := dest[..];
      CopyRow(src, sourceRow, dest, destRow, h, rs);
      ghost var row := RowAt(src, h, rs, sourceRow);
      forall j | 0 <= j < h && !(start <= j < start + n)
        ensures RowAt(dest[..], h, rs, j) == RowAt(old(dest[..]), h, rs, j)
      {
        RowAtReplaceRow(before, h, rs, destRow, row, j);
      }
      forall k | 0 <= k <= i
        ensures FetchedBy(dest[..], src, h, rs, start, n, r, s, k)
      {
        FetchedAfterCopy(before, dest[..], src, h, rs, start, n, r, s, i, k);
      }
      i := i + 1;
    }
  }

  /** The first `m` rows of `d` hold the input rows that Dest names. */
  ghost predicate DecryptedUpTo(d: seq<I8>, src: seq<I8>, h: nat, rs: nat, r: int, s: int, m: nat)
    requires |d| == h * rs && |src| == h * rs && m <= h
  {
    forall j :: 0 <= j < m ==> RowAt(d, h, rs, j) == RowAt(src, h, rs, Dest(h, r, s, j))
  }

  /** One pass of decrypt's block loop extends the decrypted prefix by the block:
      inside the block at a visited `start`, Dest is the block's own map. */
  lemma DecryptStep(before: seq<I8>, after: seq<I8>, src: seq<I8>, h: nat, rs: nat, start: nat, n: nat, r: int, s: int)
    requires |before| == h * rs && |after| == h * rs && |src| == h * rs && start < h && Reaches(h, 0, start)
    requires n == Pow2Floor(h - start)
    requires DecryptedUpTo(before, src, h, rs, r, s, start)
    requires forall j :: 0 <= j < h && !(start <= j < start + n) ==> RowAt(after, h, rs, j) == RowAt(before, h, rs, j)
    requires forall k :: 0 <= k < n ==> FetchedBy(after, src, h, rs, start, n, r, s, k)
    ensures DecryptedUpTo(after, src, h, rs, r, s, start + n)
  {
    forall j | 0 <= j < start + n
      ensures RowAt(after, h, rs, j) == RowAt(src, h, rs, Dest(h, r, s, j))
    {
      if j >= start {
        var k := j - start;
        assert FetchedBy(after, src, h, rs, start, n, r, s, k);
        BlockAt(h, start, k);
      }
    }
  }

  /** A buffer decrypted up to its last row is the decrypted buffer. */
  lemma DecryptedAll(d: seq<I8>, src: seq<I8>, h: nat, rs: nat, r: int, s: int)
    requires |d| == h * rs && |src| == h * rs && DecryptedUpTo(d, src, h, rs, r, s, h)
    ensures d == DecryptData(src, h, rs, r, s)
  {
    forall j | 0 <= j < h
      ensures RowAt(d, h, rs, j) == RowAt(DecryptData(src, h, rs, r, s), h, rs, j)
    {
      PermutedRow(src, h, rs, r, s, j);
    }
    SameRows(d, DecryptData(src, h, rs, r, s), h, rs);
  }

  /** decrypt: the same block loop, copying each row back from where encrypt put it. */
  method Decrypt(input: Frame, r: int, s: int) returns (output: Frame)
    requires input.Valid() && input.height < 0x8000_0000
    ensures output == Decrypted(input, r, s)
  {
    var h, rs := input.height, input.RowSize();
    var dest := new I8[h * rs](_ => 0);
    var step := Int32(2 * s + 1);
    var startLine := 0;
    while startLine < h
      invariant startLine <= h && Reaches(h, 0, startLine)
      invariant DecryptedUpTo(dest[..], input.data, h, rs, r, s, startLine)
    {
      var blockSize := LargestPowerOf2(h - startLine);
      ghost var before := dest[..];
      DecryptBlock(input.data, dest, h, rs, startLine, blockSize, r, s, step);
      DecryptStep(before, dest[..], input.data, h, rs, startLine, blockSize, r, s);
      ReachesNext(h, 0, startLine);
      startLine := startLine + blockSize;
    }
    DecryptedAll(dest[..], input.data, h, rs, r, s);
    output := Frame(h, input.width, input.channels, dest[..]);
  }
}
