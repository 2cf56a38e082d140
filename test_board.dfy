/**
 * The feasibility search of Assets/Scripts/Manager/BoardManager.cs: a
 * throwaway `bool[,]` board marks the cells still open for gems, and a
 * backtracking search tries to fit a list of gems onto the open cells,
 * placing each candidate, recursing and unplacing it, under a budget of
 * attempts. `Packable` is what a true answer promises: the gems fit, in
 * pairwise disjoint rectangles of open cells.
 */
module TestBoard {
  import opened Wrappers
  import opened GemConfigs
  import opened StageConfigs
  import opened Gems
  import opened Placement
  import opened GemOrder

  /** MAX_BACKTRACK_ATTEMPTS: the search gives up after this many placements. */
  const MAX_BACKTRACK_ATTEMPTS: int := 2000000

  /** A gem as the search sees it: its config, when its id has one, and its orientation. */
  datatype GemSpec = GemSpec(config: Option<GemConfig>, orientation: GemOrientation)

  /** The open cells of a scratch board. */
  ghost function FreeCells(testBoard: array2<bool>): set<Coord>
    reads testBoard
  {
    set i, j | 0 <= i < testBoard.Length0 && 0 <= j < testBoard.Length1 && testBoard[i, j] :: (i, j)
  }

  /** The cells a gem covers when its top-left corner is at `pos`. */
  ghost function SpecCells(gem: GemSpec, pos: Coord): set<Coord>
    requires gem.config.Some?
  {
    var d := ActualDims(gem.config.value, gem.orientation);
    RectCells(pos.0, pos.1, d.0, d.1)
  }

  /**
   * The gems fit on the open cells in this order with these corners: the
   * first one covers open cells only, and the rest fit on what it leaves
   * open. A gem whose id has no config never fits.
   */
  ghost predicate FitsAt(free: set<Coord>, gems: seq<GemSpec>, corners: seq<Coord>)
    decreases |gems|
  {
    |corners| == |gems| &&
    (|gems| == 0 ||
     (gems[0].config.Some? && SpecCells(gems[0], corners[0]) <= free
      && FitsAt(free - SpecCells(gems[0], corners[0]), gems[1..], corners[1..])))
  }

  /** What a true answer of the search promises: some corners make the gems fit. */
  ghost predicate Packable(free: set<Coord>, gems: seq<GemSpec>)
  {
    exists corners :: FitsAt(free, gems, corners)
  }

  /** An explicit packing: one corner per gem, each rectangle open, no two rectangles sharing a cell. */
  ghost predicate IsPacking(free: set<Coord>, gems: seq<GemSpec>, corners: seq<Coord>)
  {
    |corners| == |gems|
    && (forall k | 0 <= k < |gems| :: gems[k].config.Some?)
    && (forall k | 0 <= k < |gems| :: SpecCells(gems[k], corners[k]) <= free)
    && (forall k, l | 0 <= k < l < |gems| :: SpecCells(gems[k], corners[k]) !! SpecCells(gems[l], corners[l]))
  }

  lemma SetFacts<T>(free: set<T>, a: set<T>, b: set<T>)
    requires a <= free && b <= free - a
    ensures b <= free && a <= free - b && free - b - a == free - a - b && a !! b
  {
  }

  /** Fitting in order is exactly an explicit packing: open rectangles, pairwise disjoint. */
  lemma {:induction false} FitsAtIffPacking(free: set<Coord>, gems: seq<GemSpec>, corners: seq<Coord>)
    ensures FitsAt(free, gems, corners) <==> IsPacking(free, gems, corners)
    decreases |gems|
  {
    if |gems| == 0 || |corners| != |gems| {
      return;
    }
    FitsAtIffPacking(free - (if gems[0].config.Some? then SpecCells(gems[0], corners[0]) else {}), gems[1..], corners[1..]);
    if FitsAt(free, gems, corners) {
      var r := SpecCells(gems[0], corners[0]);
      assert IsPacking(free - r, gems[1..], corners[1..]);
      forall k | 0 <= k < |gems| ensures gems[k].config.Some? && SpecCells(gems[k], corners[k]) <= free {
        if k > 0 { assert gems[k] == gems[1..][k - 1] && corners[k] == corners[1..][k - 1]; }
      }
      forall k, l | 0 <= k < l < |gems|
        ensures SpecCells(gems[k], corners[k]) !! SpecCells(gems[l], corners[l])
      {
        assert gems[l] == gems[1..][l - 1] && corners[l] == corners[1..][l - 1];
        if k > 0 {
          assert gems[k] == gems[1..][k - 1] && corners[k] == corners[1..][k - 1];
        } else {
          assert SpecCells(gems[l], corners[l]) <= free - r;
        }
      }
    }
    if IsPacking(free, gems, corners) {
      var r := SpecCells(gems[0], corners[0]);
      forall k | 0 <= k < |gems[1..]| ensures SpecCells(gems[1..][k], corners[1..][k]) <= free - r {
        assert SpecCells(gems[0], corners[0]) !! SpecCells(gems[k + 1], corners[k + 1]);
      }
      forall k, l | 0 <= k < l < |gems[1..]|
        ensures SpecCells(gems[1..][k], corners[1..][k]) !! SpecCells(gems[1..][l], corners[1..][l])
      {
        assert SpecCells(gems[k + 1], corners[k + 1]) !! SpecCells(gems[l + 1], corners[l + 1]);
      }
      assert IsPacking(free - r, gems[1..], corners[1..]);
    }
  }

  /** Any gem of a fitting list can be fitted first, keeping its corner. */
  lemma {:induction false} FitsAtMoveToFront(free: set<Coord>, gems: seq<GemSpec>, corners: seq<Coord>, k: int)
    requires 0 <= k < |gems| && FitsAt(free, gems, corners)
    ensures FitsAt(free, [gems[k]] + (gems[..k] + gems[k + 1..]), [corners[k]] + (corners[..k] + corners[k + 1..]))
    decreases k
  {
    if k == 0 {
      assert [gems[0]] + (gems[..0] + gems[1..]) == gems;
      assert [corners[0]] + (corners[..0] + corners[1..]) == corners;
      return;
    }
    var r0 := SpecCells(gems[0], corners[0]);
    FitsAtMoveToFront(free - r0, gems[1..], corners[1..], k - 1);
    var tail := gems[1..][..k - 1] + gems[1..][k..];
    var tailCorners := corners[1..][..k - 1] + corners[1..][k..];
    assert gems[1..][k - 1] == gems[k] && corners[1..][k - 1] == corners[k];
    assert ([gems[k]] + tail)[1..] == tail && ([corners[k]] + tailCorners)[1..] == tailCorners;
    var ra := SpecCells(gems[k], corners[k]);
    assert ra <= free - r0;
    assert FitsAt(free - r0 - ra, tail, tailCorners);
    SetFacts(free, r0, ra);
    var moved := gems[..k] + gems[k + 1..];
    var movedCorners := corners[..k] + corners[k + 1..];
    assert moved[0] == gems[0] && movedCorners[0] == corners[0];
    assert moved[1..] == tail && movedCorners[1..] == tailCorners;
    assert FitsAt(free - ra, moved, movedCorners);
    assert ([gems[k]] + moved)[1..] == moved && ([corners[k]] + movedCorners)[1..] == movedCorners;
  }

  lemma MultisetCancel<T>(a: multiset<T>, b: multiset<T>, x: T)
    requires a + multiset{x} == b + multiset{x}
    ensures a == b
  {
    assert a == a + multiset{x} - multiset{x};
    assert b == b + multiset{x} - multiset{x};
  }

  /** Taking the first of `reordered` out of `gems` leaves a permutation of the rest of `reordered`. */
  lemma RemoveMatchingFirst(gems: seq<GemSpec>, reordered: seq<GemSpec>, k: int)
    requires multiset(gems) == multiset(reordered) && |reordered| > 0
    requires 0 <= k < |gems| && gems[k] == reordered[0]
    ensures multiset(gems[..k] + gems[k + 1..]) == multiset(reordered[1..])
  {
    var first := reordered[0];
    var rest := gems[..k] + gems[k + 1..];
    assert gems == gems[..k] + [gems[k]] + gems[k + 1..];
    assert reordered == [first] + reordered[1..];
    calc {
      multiset(rest) + multiset{first};
      multiset(gems[..k]) + multiset(gems[k + 1..]) + multiset([gems[k]]);
      multiset(gems[..k] + [gems[k]] + gems[k + 1..]);
      multiset(reordered);
      multiset([first] + reordered[1..]);
      multiset(reordered[1..]) + multiset{first};
    }
    MultisetCancel(multiset(rest), multiset(reordered[1..]), first);
  }

  /** Whether the gems fit does not depend on their order. */
  lemma {:induction false} PackablePermutation(free: set<Coord>, gems: seq<GemSpec>, reordered: seq<GemSpec>)
    requires multiset(gems) == multiset(reordered)
    requires Packable(free, gems)
    ensures Packable(free, reordered)
    decreases |reordered|
  {
    var corners :| FitsAt(free, gems, corners);
    if |reordered| == 0 {
      assert FitsAt(free, reordered, []);
      return;
    }
    var first := reordered[0];
    assert first in multiset(gems) by {
      assert first in multiset(reordered);
    }
    var k :| 0 <= k < |gems| && gems[k] == first;
    FitsAtMoveToFront(free, gems, corners, k);
    var rest := gems[..k] + gems[k + 1..];
    var restCorners := corners[..k] + corners[k + 1..];
    RemoveMatchingFirst(gems, reordered, k);
    assert ([first] + rest)[1..] == rest && ([corners[k]] + restCorners)[1..] == restCorners;
    var r := SpecCells(first, corners[k]);
    assert FitsAt(free - r, rest, restCorners);
    PackablePermutation(free - r, rest, reordered[1..]);
    var tailCorners :| FitsAt(free - r, reordered[1..], tailCorners);
    assert ([corners[k]] + tailCorners)[1..] == tailCorners;
    assert FitsAt(free, reordered, [corners[k]] + tailCorners);
  }

  // ---------------------------------------------------------------- the scratch-board operations

  /** CanPlaceGemOnTestBoard: the rectangle fits inside the board and every cell of it is open. */
  method CanPlaceGemOnTestBoard(x: int, y: int, width: int, height: int, testBoard: array2<bool>) returns (ok: bool)
    requires 0 <= x && 0 <= y
    ensures ok <==> x + width <= testBoard.Length0 && y + height <= testBoard.Length1
                    && RectCells(x, y, width, height) <= FreeCells(testBoard)
  {
    if x + width > testBoard.Length0 || y + height > testBoard.Length1 {
      return false;
    }
    var endX, endY := x + width, y + height;
    var i := x;
    while i < endX
      invariant x <= i && (i <= endX || i == x)
      invariant forall a, b | x <= a < i && y <= b < endY :: testBoard[a, b]
    {
      var j := y;
      while j < endY
        invariant y <= j && (j <= endY || j == y)
        invariant forall b | y <= b < j :: testBoard[i, b]
      {
        if !testBoard[i, j] {
          assert (i, j) in RectCells(x, y, width, height);
          return false;
        }
        j := j + 1;
      }
      i := i + 1;
    }
    forall c | c in RectCells(x, y, width, height) ensures c in FreeCells(testBoard) {
      assert testBoard[c.0, c.1];
    }
    return true;
  }

  /** PlaceGemOnTestBoard: every cell of the rectangle becomes `isEmpty`; nothing else changes. */
  method PlaceGemOnTestBoard(x: int, y: int, width: int, height: int, testBoard: array2<bool>, isEmpty: bool)
    requires 0 <= x && 0 <= y && x + width <= testBoard.Length0 && y + height <= testBoard.Length1
    modifies testBoard
    ensures forall i, j | 0 <= i < testBoard.Length0 && 0 <= j < testBoard.Length1 ::
              testBoard[i, j] == if (i, j) in RectCells(x, y, width, height) then isEmpty else old(testBoard[i, j])
    ensures FreeCells(testBoard) == if isEmpty then old(FreeCells(testBoard)) + RectCells(x, y, width, height)
                                    else old(FreeCells(testBoard)) - RectCells(x, y, width, height)
  {
    var i := 0;
    while i < width
      invariant 0 <= i && (i <= width || i == 0)
      invariant forall a, b | 0 <= a < testBoard.Length0 && 0 <= b < testBoard.Length1 ::
                  testBoard[a, b] == if x <= a < x + i && y <= b < y + height then isEmpty else old(testBoard[a, b])
    {
      var j := 0;
      while j < height
        invariant 0 <= j && (j <= height || j == 0)
        invariant forall a, b | 0 <= a < testBoard.Length0 && 0 <= b < testBoard.Length1 ::
                    testBoard[a, b] == if (x <= a < x + i && y <= b < y + height) || (a == x + i && y <= b < y + j)
                                       then isEmpty else old(testBoard[a, b])
      {
        testBoard[x + i, y + j] := isEmpty;
        j := j + 1;
      }
      i := i + 1;
    }
    ghost var rect := RectCells(x, y, width, height);
    forall c | c in FreeCells(testBoard)
      ensures c in (if isEmpty then old(FreeCells(testBoard)) + rect else old(FreeCells(testBoard)) - rect)
    {
    }
    forall c | c in (if isEmpty then old(FreeCells(testBoard)) + rect else old(FreeCells(testBoard)) - rect)
      ensures c in FreeCells(testBoard)
    {
    }
  }

  // ---------------------------------------------------------------- the search

  /** Every gem that has a config has a width and a height of at least one. */
  ghost predicate PositiveDims(gems: seq<GemSpec>)
  {
    forall k | 0 <= k < |gems| :: gems[k].config.Some? ==> gems[k].config.value.width >= 1 && gems[k].config.value.height >= 1
  }

  /** A corner the search enumerates for a gem of this actual size on a W-by-H board. */
  predicate InRange(p: Coord, w: int, h: int, width: int, height: int)
  {
    0 <= p.0 <= width - w && 0 <= p.1 <= height - h
  }

  /** Fitting a first gem at a corner and the rest behind it is fitting the whole list. */
  lemma PackableCons(free: set<Coord>, gems: seq<GemSpec>, p: Coord)
    requires |gems| > 0 && gems[0].config.Some? && SpecCells(gems[0], p) <= free
    requires Packable(free - SpecCells(gems[0], p), gems[1..])
    ensures Packable(free, gems)
  {
    var rest :| FitsAt(free - SpecCells(gems[0], p), gems[1..], rest);
    assert ([p] + rest)[1..] == rest;
    assert FitsAt(free, gems, [p] + rest);
  }

  /**
   * When the gems fit on open cells of a W-by-H board, the first one has a
   * config and a corner among those the search enumerates, behind which the
   * rest fit.
   */
  lemma PackableHead(free: set<Coord>, gems: seq<GemSpec>, width: int, height: int)
    requires |gems| > 0 && PositiveDims(gems[..1])
    requires forall c | c in free :: 0 <= c.0 < width && 0 <= c.1 < height
    ensures Packable(free, gems) ==>
              gems[0].config.Some? &&
              exists p :: InRange(p, ActualDims(gems[0].config.value, gems[0].orientation).0,
                                  ActualDims(gems[0].config.value, gems[0].orientation).1, width, height)
                          && SpecCells(gems[0], p) <= free && Packable(free - SpecCells(gems[0], p), gems[1..])
  {
    if Packable(free, gems) {
      var corners: seq<Coord> :| FitsAt(free, gems, corners);
      var p := corners[0];
      var d := ActualDims(gems[0].config.value, gems[0].orientation);
      assert gems[..1][0] == gems[0];
      assert (p.0, p.1) in SpecCells(gems[0], p);
      assert (p.0 + d.0 - 1, p.1 + d.1 - 1) in SpecCells(gems[0], p);
      assert FitsAt(free - SpecCells(gems[0], p), gems[1..], corners[1..]);
    }
  }

  /** The corners at which a w-by-h rectangle of open cells fits, in the order the source lists them. */
  method CollectTestBoardPositions(w: int, h: int, testBoard: array2<bool>) returns (positions: seq<Coord>)
    ensures forall p | p in positions ::
              InRange(p, w, h, testBoard.Length0, testBoard.Length1) && RectCells(p.0, p.1, w, h) <= FreeCells(testBoard)
    ensures forall x, y | InRange((x, y), w, h, testBoard.Length0, testBoard.Length1)
                          && RectCells(x, y, w, h) <= FreeCells(testBoard) :: (x, y) in positions
  {
    positions := [];
    var x := 0;
    while x <= testBoard.Length0 - w
      invariant 0 <= x && (x <= testBoard.Length0 - w + 1 || x == 0)
      invariant forall p | p in positions ::
                  InRange(p, w, h, testBoard.Length0, testBoard.Length1) && RectCells(p.0, p.1, w, h) <= FreeCells(testBoard)
      invariant forall a, b | 0 <= a < x && InRange((a, b), w, h, testBoard.Length0, testBoard.Length1)
                              && RectCells(a, b, w, h) <= FreeCells(testBoard) :: (a, b) in positions
    {
      var y := 0;
      while y <= testBoard.Length1 - h
        invariant 0 <= y && (y <= testBoard.Length1 - h + 1 || y == 0)
        invariant forall p | p in positions ::
                    InRange(p, w, h, testBoard.Length0, testBoard.Length1) && RectCells(p.0, p.1, w, h) <= FreeCells(testBoard)
        invariant forall a, b | 0 <= a < x && InRange((a, b), w, h, testBoard.Length0, testBoard.Length1)
                                && RectCells(a, b, w, h) <= FreeCells(testBoard) :: (a, b) in positions
        invariant forall b | 0 <= b < y && InRange((x, b), w, h, testBoard.Length0, testBoard.Length1)
                             && RectCells(x, b, w, h) <= FreeCells(testBoard) :: (x, b) in positions
      {
        var fits := CanPlaceGemOnTestBoard(x, y, w, h, testBoard);
        if fits {
          positions := positions + [(x, y)];
        }
        y := y + 1;
      }
      x := x + 1;
    }
  }

  /**
   * CanPlaceAllGemsOnTestBoardRecursive: fits gems[index..] onto the open
   * cells by backtracking, counting one attempt per corner tried and giving
   * up once the count reaches MAX_BACKTRACK_ATTEMPTS. A true answer leaves
   * the gems marked on the board and means they fit; a false answer leaves
   * the board as it was, and when the budget was not exhausted it means they
   * do not fit.
   */
  method CanPlaceAllGemsOnTestBoardRecursive(gems: seq<GemSpec>, index: int, testBoard: array2<bool>, attemptCount: int)
    returns (placed: bool, attempts: int)
    requires 0 <= index <= |gems|
    modifies testBoard
    decreases |gems| - index, 1
    ensures attempts >= attemptCount
    ensures attemptCount >= MAX_BACKTRACK_ATTEMPTS ==> !placed && attempts == attemptCount
    ensures placed ==> attempts < MAX_BACKTRACK_ATTEMPTS && Packable(old(FreeCells(testBoard)), gems[index..])
    ensures placed ==> FreeCells(testBoard) <= old(FreeCells(testBoard))
    ensures !placed ==> forall i, j | 0 <= i < testBoard.Length0 && 0 <= j < testBoard.Length1 ::
                          testBoard[i, j] == old(testBoard[i, j])
    ensures !placed && attempts < MAX_BACKTRACK_ATTEMPTS && PositiveDims(gems[index..]) ==>
              !Packable(old(FreeCells(testBoard)), gems[index..])
  {
    ghost var free := FreeCells(testBoard);
    if attemptCount >= MAX_BACKTRACK_ATTEMPTS {
      return false, attemptCount;
    }
    if index >= |gems| {
      assert FitsAt(free, gems[index..], []);
      return true, attemptCount;
    }
    var gem := gems[index];
    if gem.config.None? {
      return false, attemptCount;
    }
    var config := gem.config.value;
    var isRotated := TestBoardRotationFor(config, gem.orientation);
    var actualWidth := if isRotated then config.height else config.width;
    var actualHeight := if isRotated then config.width else config.height;
    OrientationRulesAgree(config, gem.orientation);
    assert (actualWidth, actualHeight) == ActualDims(config, gem.orientation);

    var validPositions := CollectTestBoardPositions(actualWidth, actualHeight, testBoard);
    ghost var enumerated := validPositions;
    validPositions := Shuffle(validPositions);
    forall p | p in validPositions
      ensures InRange(p, actualWidth, actualHeight, testBoard.Length0, testBoard.Length1)
              && RectCells(p.0, p.1, actualWidth, actualHeight) <= free
    {
      assert p in multiset(validPositions);
      assert p in enumerated;
    }
    ghost var rest := gems[index + 1..];
    placed, attempts := TryEachPosition(gems, index, testBoard, attemptCount, validPositions, actualWidth, actualHeight);
    if placed {
      return;
    }
    if PositiveDims(gems[index..]) {
      assert PositiveDims(rest) by {
        forall m | 0 <= m < |rest| ensures rest[m] == gems[index..][m + 1] { }
      }
      assert PositiveDims(gems[index..][..1]) by {
        assert gems[index..][..1][0] == gems[index..][0];
      }
      PackableHead(free, gems[index..], testBoard.Length0, testBoard.Length1);
      if attempts < MAX_BACKTRACK_ATTEMPTS {
        forall p | InRange(p, actualWidth, actualHeight, testBoard.Length0, testBoard.Length1) && SpecCells(gem, p) <= free
          ensures !Packable(free - SpecCells(gem, p), rest)
        {
          assert (p.0, p.1) in enumerated;
          assert p in multiset(validPositions);
          var m :| 0 <= m < |validPositions| && validPositions[m] == p;
        }
      }
    }
    return false, attempts;
  }

  /**
   * The loop of CanPlaceAllGemsOnTestBoardRecursive over the shuffled corners
   * of gems[index]: counts an attempt per corner, marks the gem there, tries
   * the rest, and unmarks it when the rest does not fit.
   */
  method TryEachPosition(gems: seq<GemSpec>, index: int, testBoard: array2<bool>, attemptCount: int,
                         validPositions: seq<Coord>, actualWidth: int, actualHeight: int)
    returns (placed: bool, attempts: int)
    requires 0 <= index < |gems| && gems[index].config.Some?
    requires (actualWidth, actualHeight) == ActualDims(gems[index].config.value, gems[index].orientation)
    requires forall p | p in validPositions ::
               InRange(p, actualWidth, actualHeight, testBoard.Length0, testBoard.Length1)
               && RectCells(p.0, p.1, actualWidth, actualHeight) <= FreeCells(testBoard)
    modifies testBoard
    decreases |gems| - index, 0
    ensures attempts >= attemptCount
    ensures placed ==> attempts < MAX_BACKTRACK_ATTEMPTS && Packable(old(FreeCells(testBoard)), gems[index..])
    ensures placed ==> FreeCells(testBoard) <= old(FreeCells(testBoard))
    ensures !placed ==> forall i, j | 0 <= i < testBoard.Length0 && 0 <= j < testBoard.Length1 ::
                          testBoard[i, j] == old(testBoard[i, j])
    ensures !placed && attempts < MAX_BACKTRACK_ATTEMPTS && PositiveDims(gems[index + 1..]) ==>
              forall m | 0 <= m < |validPositions| ::
                !Packable(old(FreeCells(testBoard)) - SpecCells(gems[index], validPositions[m]), gems[index + 1..])
  {
    ghost var free := FreeCells(testBoard);
    var gem := gems[index];
    ghost var rest := gems[index + 1..];
    assert gems[index..][1..] == rest && gems[index..][0] == gem;
    attempts := attemptCount;
    var k := 0;
    while k < |validPositions|
      invariant 0 <= k <= |validPositions|
      invariant attempts >= attemptCount
      invariant forall i, j | 0 <= i < testBoard.Length0 && 0 <= j < testBoard.Length1 :: testBoard[i, j] == old(testBoard[i, j])
      invariant FreeCells(testBoard) == free
      invariant attempts < MAX_BACKTRACK_ATTEMPTS && PositiveDims(rest) ==>
                  forall m | 0 <= m < k :: !Packable(free - SpecCells(gem, validPositions[m]), rest)
    {
      var pos := validPositions[k];
      assert pos in validPositions;
      attempts := attempts + 1;
      if attempts >= MAX_BACKTRACK_ATTEMPTS {
        return false, attempts;
      }
      PlaceGemOnTestBoard(pos.0, pos.1, actualWidth, actualHeight, testBoard, false);
      var ok, after := CanPlaceAllGemsOnTestBoardRecursive(gems, index + 1, testBoard, attempts);
      if ok {
        PackableCons(free, gems[index..], pos);
        return true, after;
      }
      PlaceGemOnTestBoard(pos.0, pos.1, actualWidth, actualHeight, testBoard, true);
      attempts := after;
      k := k + 1;
    }
    return false, attempts;
  }

  // ---------------------------------------------------------------- the area test

  /** Whether the size comparator can rank a gem: only when its id has a config. */
  predicate HasConfig(gem: GemSpec)
  {
    gem.config.Some?
  }

  /** The cells a gem takes up, as GetGemArea counts them; a gem without a config counts nothing. */
  function SpecArea(gem: GemSpec): int
  {
    match gem.config
    case None => 0
    case Some(c) => GetGemArea(c, gem.orientation)
  }

  /** The total that the area test compares with the open cells. */
  function TotalArea(gems: seq<GemSpec>): int
  {
    if |gems| == 0 then 0 else SpecArea(gems[0]) + TotalArea(gems[1..])
  }

  lemma {:induction false} TotalAreaSnoc(gems: seq<GemSpec>, gem: GemSpec)
    ensures TotalArea(gems + [gem]) == TotalArea(gems) + SpecArea(gem)
    decreases |gems|
  {
    if |gems| == 0 {
      assert (gems + [gem])[1..] == [];
    } else {
      assert (gems + [gem])[1..] == gems[1..] + [gem];
      TotalAreaSnoc(gems[1..], gem);
    }
  }

  /** A column of h cells has h cells. */
  lemma {:induction false} ColumnCardinality(x: int, y: int, h: int)
    requires h >= 0
    ensures |RectCells(x, y, 1, h)| == h
    decreases h
  {
    if h == 0 {
      assert RectCells(x, y, 1, 0) == {};
    } else {
      ColumnCardinality(x, y, h - 1);
      assert RectCells(x, y, 1, h) == RectCells(x, y, 1, h - 1) + {(x, y + h - 1)};
    }
  }

  /** A w-by-h rectangle has w * h cells. */
  lemma {:induction false} RectCardinality(x: int, y: int, w: int, h: int)
    requires w >= 0 && h >= 0
    ensures |RectCells(x, y, w, h)| == w * h
    decreases w
  {
    if w == 0 {
      assert RectCells(x, y, 0, h) == {};
    } else {
      RectCardinality(x, y, w - 1, h);
      ColumnCardinality(x + w - 1, y, h);
      var left, column := RectCells(x, y, w - 1, h), RectCells(x + w - 1, y, 1, h);
      assert RectCells(x, y, w, h) == left + column;
      assert left !! column;
      assert |left + column| == |left| + |column|;
    }
  }

  lemma SubsetDifferenceCardinality<T>(free: set<T>, used: set<T>)
    requires used <= free
    ensures |free - used| == |free| - |used|
  {
    assert free == (free - used) + used;
    assert (free - used) !! used;
  }

  /**
   * The area test never rejects gems that fit: the total area of gems that
   * fit on the open cells is at most the number of open cells.
   */
  lemma {:induction false} TotalAreaBound(free: set<Coord>, gems: seq<GemSpec>, corners: seq<Coord>)
    requires FitsAt(free, gems, corners) && PositiveDims(gems)
    ensures TotalArea(gems) <= |free|
    decreases |gems|
  {
    if |gems| > 0 {
      var c := gems[0].config.value;
      var d := ActualDims(c, gems[0].orientation);
      var used := SpecCells(gems[0], corners[0]);
      RectCardinality(corners[0].0, corners[0].1, d.0, d.1);
      SubsetDifferenceCardinality(free, used);
      assert PositiveDims(gems[1..]) by {
        forall m | 0 <= m < |gems[1..]| ensures gems[1..][m] == gems[m + 1] { }
      }
      TotalAreaBound(free - used, gems[1..], corners[1..]);
    }
  }

  /** The open cells a row-by-row scan has passed before reaching (x, y). */
  ghost function FreeBefore(testBoard: array2<bool>, x: int, y: int): set<Coord>
    reads testBoard
  {
    set i, j | 0 <= i < testBoard.Length0 && 0 <= j < testBoard.Length1 && (i < x || (i == x && j < y)) && testBoard[i, j] :: (i, j)
  }

  /** One step of the scan adds the cell it passes, if open. */
  lemma FreeBeforeStep(testBoard: array2<bool>, x: int, y: int)
    requires 0 <= x < testBoard.Length0 && 0 <= y < testBoard.Length1
    ensures FreeBefore(testBoard, x, y + 1) == FreeBefore(testBoard, x, y) + (if testBoard[x, y] then {(x, y)} else {})
    ensures (x, y) !in FreeBefore(testBoard, x, y)
  {
  }

  /** The end of a row is the start of the next, and the end of the last row is every open cell. */
  lemma FreeBeforeRow(testBoard: array2<bool>, x: int)
    requires 0 <= x < testBoard.Length0
    ensures FreeBefore(testBoard, x, testBoard.Length1) == FreeBefore(testBoard, x + 1, 0)
    ensures x + 1 == testBoard.Length0 ==> FreeBefore(testBoard, x + 1, 0) == FreeCells(testBoard)
  {
  }

  /** The area test's side in terms of sets: the number of open cells. */
  method CountAvailableArea(testBoard: array2<bool>) returns (availableArea: int)
    ensures availableArea == |FreeCells(testBoard)|
  {
    availableArea := 0;
    assert FreeBefore(testBoard, 0, 0) == {};
    assert testBoard.Length0 == 0 ==> FreeCells(testBoard) == {};
    var x := 0;
    while x < testBoard.Length0
      invariant 0 <= x <= testBoard.Length0
      invariant availableArea == |FreeBefore(testBoard, x, 0)|
      invariant x == testBoard.Length0 ==> FreeBefore(testBoard, x, 0) == FreeCells(testBoard)
    {
      var y := 0;
      while y < testBoard.Length1
        invariant 0 <= y <= testBoard.Length1
        invariant availableArea == |FreeBefore(testBoard, x, y)|
      {
        FreeBeforeStep(testBoard, x, y);
        if testBoard[x, y] {
          availableArea := availableArea + 1;
        }
        y := y + 1;
      }
      FreeBeforeRow(testBoard, x);
      x := x + 1;
    }
  }

  /**
   * CanPlaceAllGemsOnTestBoard: an empty list always fits; otherwise the
   * area test rejects a list whose total area exceeds the open cells, and
   * the search runs, with a fresh attempt budget, on the gems sorted
   * largest area first, in any order when some gem has no config (the
   * comparator then answers "equal" and is not an order). A true answer means the gems, in
   * their given order, fit; a false answer leaves the board as it was.
   */
  method CanPlaceAllGemsOnTestBoard(gems: seq<GemSpec>, testBoard: array2<bool>) returns (ok: bool, ghost attempts: int)
    modifies testBoard
    ensures |gems| == 0 ==> ok
    ensures ok ==> attempts < MAX_BACKTRACK_ATTEMPTS && Packable(old(FreeCells(testBoard)), gems)
    ensures |gems| > 0 && TotalArea(gems) > old(|FreeCells(testBoard)|) ==> !ok
    ensures !ok ==> forall i, j | 0 <= i < testBoard.Length0 && 0 <= j < testBoard.Length1 ::
                      testBoard[i, j] == old(testBoard[i, j])
    ensures !ok && attempts < MAX_BACKTRACK_ATTEMPTS && PositiveDims(gems) ==> !Packable(old(FreeCells(testBoard)), gems)
  {
    attempts := 0;
    if |gems| == 0 {
      assert FitsAt(FreeCells(testBoard), gems, []);
      return true, attempts;
    }
    var availableArea := CountAvailableArea(testBoard);
    var totalGemArea := 0;
    var k := 0;
    while k < |gems|
      invariant 0 <= k <= |gems|
      invariant totalGemArea == TotalArea(gems[..k])
      modifies {}
    {
      var area := 0;
      if gems[k].config.Some? {
        area := GetGemArea(gems[k].config.value, gems[k].orientation);
      }
      assert gems[..k + 1] == gems[..k] + [gems[k]];
      TotalAreaSnoc(gems[..k], gems[k]);
      totalGemArea := totalGemArea + area;
      k := k + 1;
    }
    assert gems[..k] == gems;
    if totalGemArea > availableArea {
      if PositiveDims(gems) {
        TooLargeNotPackable(FreeCells(testBoard), gems);
      }
      return false, attempts;
    }
    var sortedGems := SortByKeyDescending(gems, SpecArea, HasConfig);
    var placed;
    placed, attempts := CanPlaceAllGemsOnTestBoardRecursive(sortedGems, 0, testBoard, 0);
    assert sortedGems[0..] == sortedGems;
    if placed {
      PackablePermutation(old(FreeCells(testBoard)), sortedGems, gems);
    } else if attempts < MAX_BACKTRACK_ATTEMPTS && PositiveDims(gems) {
      PositiveDimsPermutation(gems, sortedGems);
      if Packable(old(FreeCells(testBoard)), gems) {
        PackablePermutation(old(FreeCells(testBoard)), gems, sortedGems);
      }
    }
    return placed, attempts;
  }

  /** Gems whose total area exceeds the open cells cannot be packed into them. */
  lemma TooLargeNotPackable(free: set<Coord>, gems: seq<GemSpec>)
    requires PositiveDims(gems) && TotalArea(gems) > |free|
    ensures !Packable(free, gems)
  {
    if Packable(free, gems) {
      var corners :| FitsAt(free, gems, corners);
      TotalAreaBound(free, gems, corners);
    }
  }

  /** Reordering gems keeps their dimensions positive. */
  lemma PositiveDimsPermutation(gems: seq<GemSpec>, reordered: seq<GemSpec>)
    requires multiset(gems) == multiset(reordered) && PositiveDims(gems)
    ensures PositiveDims(reordered)
  {
    forall k | 0 <= k < |reordered|
      ensures reordered[k].config.Some? ==> reordered[k].config.value.width >= 1 && reordered[k].config.value.height >= 1
    {
      assert reordered[k] in multiset(gems);
      var m :| 0 <= m < |gems| && gems[m] == reordered[k];
    }
  }
}
