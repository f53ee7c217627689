/** The pixel positions that hide the key in the dynamic modes
    (getPositionsForDynamicEncryption, src/Encryption.java:25-41).

    The source draws `x = nextInt(width)` then `y = nextInt(height)` from a
    `SplittableRandom` seeded with the user's number `k`, and keeps drawing
    until it holds 15 distinct points.  The generator is modelled as the
    finite sequence of (x, y) pairs it yields; running out of that sequence
    stands for the source drawing for ever. */
module Positions {
  import opened Results
  import opened Bits
  import opened Permutation

  /** An OpenCV Point `(x, y)`: `x` is the column, `y` the row. */
  datatype Point = Point(x: int, y: int)

  /** Why no positions come back. */
  datatype PositionError =
    | BadBound     // nextInt(bound) with bound <= 0 throws IllegalArgumentException
    | OutOfDraws   // the draws hold fewer than 15 distinct points

  /** How many positions the dynamic modes use: one per key bit. */
  const KEY_POSITIONS: nat := 15

  /** Every draw lies inside the frame, as `nextInt(width)`, `nextInt(height)` promise. */
  predicate InFrame(ps: seq<Point>, height: int, width: int)
  {
    forall i :: 0 <= i < |ps| ==> 0 <= ps[i].x < width && 0 <= ps[i].y < height
  }

  predicate NoDuplicates(ps: seq<Point>)
  {
    forall i, j :: 0 <= i < j < |ps| ==> ps[i] != ps[j]
  }

  /** The draws with every repeat of an earlier draw removed, in draw order:
      what `positions.contains` lets through. */
  function Distinct(ps: seq<Point>): seq<Point>
  {
    if |ps| == 0 then []
    else
      var d := Distinct(ps[..|ps| - 1]);
      if ps[|ps| - 1] in d then d else d + [ps[|ps| - 1]]
  }

  /** Distinct keeps one copy of each draw and nothing else. */
  lemma {:induction false} DistinctFacts(ps: seq<Point>)
    ensures NoDuplicates(Distinct(ps))
    ensures forall p :: p in Distinct(ps) <==> p in ps
    ensures |Distinct(ps)| <= |ps|
  {
    if |ps| > 0 {
      var init := ps[..|ps| - 1];
      DistinctFacts(init);
      assert ps == init + [ps[|ps| - 1]];
    }
  }

  /** Distinct of one more draw: the draw is kept unless it repeats. */
  lemma DistinctStep(ps: seq<Point>, m: nat)
    requires m < |ps|
    ensures Distinct(ps[..m + 1]) == if ps[m] in Distinct(ps[..m]) then Distinct(ps[..m]) else Distinct(ps[..m]) + [ps[m]]
  {
    assert ps[..m + 1][..m] == ps[..m];
  }

  /** Distinct of a prefix is a prefix of Distinct. */
  lemma {:induction false} DistinctPrefix(ps: seq<Point>, m: nat)
    requires m <= |ps|
    ensures |Distinct(ps[..m])| <= |Distinct(ps)| && Distinct(ps[..m]) == Distinct(ps)[..|Distinct(ps[..m])|]
    decreases |ps| - m
  {
    if m < |ps| {
      DistinctPrefix(ps[..|ps| - 1], m);
      assert ps[..|ps| - 1][..m] == ps[..m];
    } else {
      assert ps[..m] == ps;
    }
  }

  /** What getPositionsForDynamicEncryption produces from the draws. */
  function PositionsFor(height: int, width: int, draws: seq<Point>): (res: Result<seq<Point>, PositionError>)
    ensures res.Ok? ==> |res.value| == KEY_POSITIONS
  {
    if width <= 0 || height <= 0 then Err(BadBound)
    else if |Distinct(draws)| < KEY_POSITIONS then Err(OutOfDraws)
    else Ok(Distinct(draws)[..KEY_POSITIONS])
  }

  /** The loop state after `used` draws: either the last draw is still to be
      tested and `positions` holds the distinct earlier draws, or it repeats
      one of the distinct draws so far. */
  ghost predicate Scanned(draws: seq<Point>, used: nat, positions: seq<Point>)
  {
    1 <= used <= |draws| &&
    (positions == Distinct(draws[..used - 1]) || (draws[used - 1] in positions && positions == Distinct(draws[..used])))
  }

  /** A draw already in the list is dropped: the list is Distinct so far. */
  lemma Rejected(draws: seq<Point>, used: nat, positions: seq<Point>)
    requires Scanned(draws, used, positions) && draws[used - 1] in positions
    ensures positions == Distinct(draws[..used])
  {
    DistinctStep(draws, used - 1);
  }

  /** A new draw is appended: the list stays Distinct so far. */
  lemma Accepted(draws: seq<Point>, used: nat, positions: seq<Point>)
    requires Scanned(draws, used, positions) && draws[used - 1] !in positions
    ensures positions + [draws[used - 1]] == Distinct(draws[..used])
  {
    DistinctStep(draws, used - 1);
  }

  /** getPositionsForDynamicEncryption: the rejection loop over the draws. */
  method GetPositions(height: int, width: int, draws: seq<Point>) returns (res: Result<seq<Point>, PositionError>)
    requires InFrame(draws, height, width)
    ensures res == PositionsFor(height, width, draws)
  {
    if width <= 0 || height <= 0 {
      return Err(BadBound);
    }
    if |draws| == 0 {
      return Err(OutOfDraws);
    }
    var positions: seq<Point> := [];
    var x, y := draws[0].x, draws[0].y;
    var used := 1;
    assert draws[..0] == [];
    while |positions| < KEY_POSITIONS
      invariant Scanned(draws, used, positions) && Point(x, y) == draws[used - 1]
      invariant |positions| <= KEY_POSITIONS
      invariant |positions| == 0 || positions == Distinct(draws[..used])
      decreases KEY_POSITIONS - |positions|
    {
      while Point(x, y) in positions
        invariant Scanned(draws, used, positions) && Point(x, y) == draws[used - 1]
        decreases |draws| - used
      {
        Rejected(draws, used, positions);
        if used == |draws| {
          assert draws[..used] == draws;
          return Err(OutOfDraws);
        }
        x, y := draws[used].x, draws[used].y;
        used := used + 1;
      }
      Accepted(draws, used, positions);
      positions := positions + [Point(x, y)];
    }
    DistinctPrefix(draws, used);
    return Ok(positions);
  }

  /** The positions are 15 pairwise-distinct pixels of the frame. */
  lemma PositionsValid(height: int, width: int, draws: seq<Point>)
    requires InFrame(draws, height, width)
    requires PositionsFor(height, width, draws).Ok?
    ensures var ps := PositionsFor(height, width, draws).value;
      |ps| == KEY_POSITIONS && NoDuplicates(ps) && InFrame(ps, height, width)
  {
    DistinctFacts(draws);
    var d := Distinct(draws);
    forall i | 0 <= i < |d|
      ensures 0 <= d[i].x < width && 0 <= d[i].y < height
    {
      assert d[i] in draws;
    }
  }

  /** The row-major number of a pixel, `y * width + x`. */
  function PixelNumber(p: Point, width: int): int
  {
    p.y * width + p.x
  }

  /** Pixels of one frame have distinct row-major numbers. */
  lemma PixelNumberInjective(p: Point, q: Point, height: int, width: int)
    requires 0 <= p.x < width && 0 <= p.y < height && 0 <= q.x < width && 0 <= q.y < height
    requires PixelNumber(p, width) == PixelNumber(q, width)
    ensures p == q
  {
    DivModUnique(PixelNumber(p, width), width, p.y, p.x);
    DivModUnique(PixelNumber(q, width), width, q.y, q.x);
  }

  /** A pixel's row-major number lies below `width * height`. */
  lemma PixelNumberBound(p: Point, height: int, width: int)
    requires 0 <= p.x < width && 0 <= p.y < height
    ensures 0 <= PixelNumber(p, width) < height * width
  {
    assert p.y * width <= (height - 1) * width;
  }

  /** A frame has at most `width * height` distinct pixels. */
  lemma DistinctPixelsBound(ps: seq<Point>, height: int, width: int)
    requires height >= 1 && width >= 1
    requires NoDuplicates(ps) && InFrame(ps, height, width)
    ensures |ps| <= height * width
  {
    var nums := seq(|ps|, i requires 0 <= i < |ps| => PixelNumber(ps[i], width));
    forall i, j | 0 <= i < j < |ps|
      ensures nums[i] != nums[j]
    {
      if nums[i] == nums[j] {
        PixelNumberInjective(ps[i], ps[j], height, width);
      }
    }
    DistinctImageSize(nums, |ps|);
    var image := set i | 0 <= i < |ps| :: nums[i];
    forall v | v in image
      ensures v in Below(height * width)
    {
      var i :| 0 <= i < |ps| && nums[i] == v;
      PixelNumberBound(ps[i], height, width);
    }
    SubsetSize(image, Below(height * width));
  }

  /** A frame of fewer than 15 pixels never yields positions: the source's
      rejection loop runs for ever, whatever the generator draws. */
  lemma TooSmallFrame(height: int, width: int, draws: seq<Point>)
    requires InFrame(draws, height, width) && height * width < KEY_POSITIONS
    ensures PositionsFor(height, width, draws).Err?
  {
    if width >= 1 && height >= 1 {
      DistinctFacts(draws);
      var d := Distinct(draws);
      forall i | 0 <= i < |d|
        ensures 0 <= d[i].x < width && 0 <= d[i].y < height
      {
        assert d[i] in draws;
      }
      DistinctPixelsBound(d, height, width);
    }
  }
}
