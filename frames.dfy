/** Frames as the source handles them: `Mat.get(0, 0, buffer)` copies a
    frame row-major into one flat byte buffer of `height · width · channels`
    bytes, so row `j` is the slice starting at `j · rowSize`. */
module Frames {
  import opened Bits

  /** A frame of `height` rows, each `width` pixels of `channels` interleaved
      byte samples (an OpenCV `Mat` of 8-bit depth), read out row-major. */
  datatype Frame = Frame(height: nat, width: nat, channels: nat, data: seq<I8>)
  {
    function RowSize(): nat
    {
      width * channels
    }

    /** The buffer holds exactly the frame's samples; a Mat has at least one channel. */
    predicate Valid()
    {
      channels >= 1 && |data| == height * RowSize()
    }
  }

  /** Rows before row `k` end where it starts. */
  lemma {:induction false} RowsOrdered(rs: nat, j: nat, k: nat)
    requires j < k
    ensures j * rs + rs <= k * rs
    decreases k
  {
    if j + 1 < k {
      RowsOrdered(rs, j, k - 1);
      assert k * rs == (k - 1) * rs + rs;
    } else {
      assert k * rs == j * rs + rs;
    }
  }

  lemma RowsMonotone(rs: nat, j: nat, k: nat)
    requires j <= k
    ensures j * rs <= k * rs
  {
    if j < k {
      RowsOrdered(rs, j, k);
    }
  }

  /** Row `j` of a `rows`-row buffer ends inside it. */
  lemma RowInBounds(rows: nat, rs: nat, j: nat)
    requires j < rows
    ensures j * rs + rs <= rows * rs
  {
    RowsOrdered(rs, j, rows);
  }

  /** Row `j` of a buffer of `h` rows of `rs` bytes. */
  function RowAt<T>(data: seq<T>, h: nat, rs: nat, j: nat): (row: seq<T>)
    requires |data| == h * rs && j < h
    ensures |row| == rs
  {
    RowInBounds(h, rs, j);
    data[j * rs .. j * rs + rs]
  }

  /** The rows of a buffer of `h` rows. */
  function Rows<T>(data: seq<T>, h: nat, rs: nat): (rows: seq<seq<T>>)
    requires |data| == h * rs
    ensures |rows| == h && forall j :: 0 <= j < h ==> rows[j] == RowAt(data, h, rs, j)
  {
    seq(h, j requires 0 <= j < h => RowAt(data, h, rs, j))
  }

  /** Rows laid end to end, as `Mat.put(0, 0, buffer)` reads them. */
  function Flatten<T>(rows: seq<seq<T>>): seq<T>
  {
    if |rows| == 0 then [] else Flatten(rows[..|rows| - 1]) + rows[|rows| - 1]
  }

  predicate RowsOfSize<T>(rows: seq<seq<T>>, rs: nat)
  {
    forall j :: 0 <= j < |rows| ==> |rows[j]| == rs
  }

  lemma {:induction false} FlattenSize<T>(rows: seq<seq<T>>, rs: nat)
    requires RowsOfSize(rows, rs)
    ensures |Flatten(rows)| == |rows| * rs
  {
    if |rows| > 0 {
      FlattenSize(rows[..|rows| - 1], rs);
      assert |rows| * rs == (|rows| - 1) * rs + rs;
    }
  }

  /** Row `j` of the flattened rows is `rows[j]`. */
  lemma {:induction false} FlattenRowAt<T>(rows: seq<seq<T>>, rs: nat, j: nat)
    requires RowsOfSize(rows, rs) && j < |rows|
    ensures |Flatten(rows)| == |rows| * rs && RowAt(Flatten(rows), |rows|, rs, j) == rows[j]
  {
    FlattenSize(rows, rs);
    var init := rows[..|rows| - 1];
    FlattenSize(init, rs);
    var all := Flatten(rows);
    assert all == Flatten(init) + rows[|rows| - 1];
    RowInBounds(|rows|, rs, j);
    if j < |rows| - 1 {
      FlattenRowAt(init, rs, j);
      RowInBounds(|init|, rs, j);
      assert RowAt(all, |rows|, rs, j) == Flatten(init)[j * rs .. j * rs + rs];
    } else {
      assert j * rs == |Flatten(init)|;
    }
  }

  /** Two buffers of `h` rows that agree row by row are equal. */
  lemma SameRows<T>(a: seq<T>, b: seq<T>, h: nat, rs: nat)
    requires |a| == h * rs && |b| == h * rs
    requires forall j :: 0 <= j < h ==> RowAt(a, h, rs, j) == RowAt(b, h, rs, j)
    ensures a == b
  {
    forall p | 0 <= p < |a|
      ensures a[p] == b[p]
    {
      var j := RowOfIndex(h, rs, p);
      RowInBounds(h, rs, j);
      assert RowAt(a, h, rs, j)[p - j * rs] == RowAt(b, h, rs, j)[p - j * rs];
    }
  }

  /** The row holding byte `p` of a buffer of `h` rows. */
  lemma RowOfIndex(h: nat, rs: nat, p: nat) returns (j: nat)
    requires p < h * rs
    ensures j < h && j * rs <= p < j * rs + rs
  {
    j := p / rs;
    DivModUnique(p, rs, j, p % rs);
    if j >= h {
      RowsMonotone(rs, h, j);
    }
  }

  /** The buffer is its rows laid end to end. */
  lemma FlattenRows<T>(data: seq<T>, h: nat, rs: nat)
    requires |data| == h * rs
    ensures RowsOfSize(Rows(data, h, rs), rs) && Flatten(Rows(data, h, rs)) == data
  {
    var rows := Rows(data, h, rs);
    FlattenSize(rows, rs);
    forall j | 0 <= j < h
      ensures RowAt(Flatten(rows), h, rs, j) == RowAt(data, h, rs, j)
    {
      FlattenRowAt(rows, rs, j);
    }
    SameRows(Flatten(rows), data, h, rs);
  }

  /** Cutting the flattened rows gives back the rows. */
  lemma RowsFlatten<T>(rows: seq<seq<T>>, rs: nat)
    requires RowsOfSize(rows, rs)
    ensures |Flatten(rows)| == |rows| * rs && Rows(Flatten(rows), |rows|, rs) == rows
  {
    FlattenSize(rows, rs);
    forall j | 0 <= j < |rows|
      ensures Rows(Flatten(rows), |rows|, rs)[j] == rows[j]
    {
      FlattenRowAt(rows, rs, j);
    }
  }

  /** The buffer with row `j` replaced by `row` (one System.arraycopy of a row). */
  function ReplaceRow<T>(data: seq<T>, h: nat, rs: nat, j: nat, row: seq<T>): (d: seq<T>)
    requires |data| == h * rs && j < h && |row| == rs
    ensures |d| == |data|
  {
    RowInBounds(h, rs, j);
    data[..j * rs] + row + data[j * rs + rs..]
  }

  /** Replacing a row sets that row and leaves every other row as it was. */
  lemma RowAtReplaceRow<T>(data: seq<T>, h: nat, rs: nat, j: nat, row: seq<T>, k: nat)
    requires |data| == h * rs && j < h && k < h && |row| == rs
    ensures RowAt(ReplaceRow(data, h, rs, j, row), h, rs, k) == if k == j then row else RowAt(data, h, rs, k)
  {
    RowInBounds(h, rs, j);
    RowInBounds(h, rs, k);
    var d := ReplaceRow(data, h, rs, j, row);
    var a, b := j * rs, j * rs + rs;
    assert d == data[..a] + row + data[b..];
    var got, was := RowAt(d, h, rs, k), RowAt(data, h, rs, k);
    if k < j {
      RowsOrdered(rs, k, j);
      forall t | 0 <= t < rs
        ensures got[t] == was[t]
      {
        assert got[t] == d[k * rs + t] && k * rs + t < a;
      }
    } else if k > j {
      RowsOrdered(rs, j, k);
      forall t | 0 <= t < rs
        ensures got[t] == was[t]
      {
        assert got[t] == d[k * rs + t] && k * rs + t >= b;
        assert d[k * rs + t] == data[b..][k * rs + t - b];
      }
    } else {
      forall t | 0 <= t < rs
        ensures got[t] == row[t]
      {
        assert got[t] == d[k * rs + t] && a <= k * rs + t < b;
      }
    }
  }
}
