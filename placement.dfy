/**
 * The pure half of the placement engine in Assets/Scripts/Manager/BoardManager.cs:
 * how a gem's orientation fixes its rotation, which cells a gem may cover, and
 * the enumerators that list every admissible position of a gem on the board.
 * The older board (Assets/Scripts/BoardManager.cs) uses the same orientation
 * rule and the same enumeration with a weaker cell test.
 */
module Placement {
  import opened Wrappers
  import opened GemConfigs
  import opened StageConfigs
  import opened Cells
  import opened Gems

  /** A gem, by its index in a board's gem table (the source holds a Gem reference). */
  type Handle = nat

  /** The board as a value: column x, row y is `board[x][y]`, as in `CellUI[x, y]`. */
  type Grid = seq<seq<Cell<Handle>>>

  predicate WellFormed(board: Grid, width: int, height: int)
  {
    width >= 0 && height >= 0 && |board| == width && forall x | 0 <= x < width :: |board[x]| == height
  }

  datatype PlacementOption = PlacementOption(x: int, y: int, isRotated: bool, actualWidth: int, actualHeight: int)

  // ---------------------------------------------------------------- orientation

  /** The dictionary lookup the engine repeats: a gem without an entry is Horizontal. */
  function OrientationOf(orientations: map<Handle, GemOrientation>, gem: Handle): (o: GemOrientation)
    ensures gem in orientations ==> o == orientations[gem]
    ensures gem !in orientations ==> o == Horizontal
  {
    if gem in orientations then orientations[gem] else Horizontal
  }

  /**
   * The single rotation the enumerators try: none for a square, otherwise
   * whichever makes the long side run the requested way.
   */
  function RotationFor(config: GemConfig, orientation: GemOrientation): (rotated: bool)
    ensures config.width == config.height ==> !rotated
    ensures config.width != config.height ==>
              (rotated <==> (orientation == Horizontal <==> config.width < config.height))
  {
    var canRotate := config.width != config.height;
    if !canRotate then false
    else if orientation == Horizontal then !(config.width > config.height)
    else !(config.height > config.width)
  }

  /** The same rule as the backtracking search writes it. */
  function TestBoardRotationFor(config: GemConfig, orientation: GemOrientation): (rotated: bool)
    ensures config.width == config.height ==> !rotated
    ensures config.width != config.height ==>
              (rotated <==> (orientation == Horizontal <==> config.width < config.height))
  {
    var canRotate := config.width != config.height;
    if canRotate then
      (if orientation == Horizontal then config.width <= config.height else config.height <= config.width)
    else false
  }

  /** Width and height on the board: the base size, swapped when rotated. */
  function ActualDims(config: GemConfig, orientation: GemOrientation): (d: (int, int))
    ensures d == (config.width, config.height) || d == (config.height, config.width)
    ensures config.width == config.height ==> d == (config.width, config.height)
    ensures config.width != config.height && orientation == Horizontal ==> d.0 > d.1
    ensures config.width != config.height && orientation == Vertical ==> d.1 > d.0
  {
    if RotationFor(config, orientation) then (config.height, config.width) else (config.width, config.height)
  }

  /** Both spellings of the rule choose the same rotation, and a square is never rotated. */
  lemma OrientationRulesAgree(config: GemConfig, orientation: GemOrientation)
    ensures RotationFor(config, orientation) == TestBoardRotationFor(config, orientation)
    ensures config.width == config.height ==> !RotationFor(config, orientation)
    ensures ActualDims(config, orientation) ==
            (if RotationFor(config, orientation) then (config.height, config.width) else (config.width, config.height))
  {
  }

  /** GetGemArea: width times height in every branch, so it is the area of the rotated shape too. */
  function GetGemArea(config: GemConfig, orientation: GemOrientation): (area: int)
    ensures area == config.width * config.height
    ensures area == ActualDims(config, orientation).0 * ActualDims(config, orientation).1
  {
    if config.width == config.height then config.width * config.height
    else if orientation == Horizontal then
      (if config.width > config.height then config.width * config.height else config.height * config.width)
    else
      (if config.height > config.width then config.width * config.height else config.height * config.width)
  }

  // ---------------------------------------------------------------- cell tests

  /** Which cells a placement may cover. */
  datatype Rule =
    | Strict                   // CanPlaceGem: no gem, not excluded, not revealed, no dynamite
    | IgnoreExclude            // the fallback enumerator: the exclusion flag is not looked at
    | AroundTarget(t: Coord)   // the targeted enumerator: the dug cell only needs to be gem-free
    | GemFreeOnly              // the older board's CanPlaceGem: only an existing gem blocks

  predicate CellAdmits(rule: Rule, c: Cell<Handle>, pos: Coord)
  {
    match rule
    case Strict => c.gem.None? && !c.isExcludedFromGemSpawn && !c.isRevealed && !c.isDynamite
    case IgnoreExclude => c.gem.None? && !c.isRevealed && !c.isDynamite
    case AroundTarget(t) => if pos == t then c.gem.None? else c.gem.None? && !c.isRevealed && !c.isDynamite
    case GemFreeOnly => c.gem.None?
  }

  /** Every cell of the w-by-h rectangle at (x, y) lies on the board and is admitted by the rule. */
  predicate RectAdmits(board: Grid, x: int, y: int, w: int, h: int, rule: Rule)
  {
    forall i, j | x <= i < x + w && y <= j < y + h :: AdmitsAt(board, i, j, rule)
  }

  /** Cell (i, j) lies on the board and is admitted by the rule. */
  predicate AdmitsAt(board: Grid, i: int, j: int, rule: Rule)
  {
    0 <= i < |board| && 0 <= j < |board[i]| && CellAdmits(rule, board[i][j], (i, j))
  }

  /** The cells of the w-by-h rectangle at (x, y). */
  function RectCells(x: int, y: int, w: int, h: int): set<Coord>
  {
    set i, j | x <= i < x + w && y <= j < y + h :: (i, j)
  }

  function OptionCells(p: PlacementOption): set<Coord>
  {
    RectCells(p.x, p.y, p.actualWidth, p.actualHeight)
  }

  /** The nested loop that CanPlaceGem and the enumerators run over a rectangle. */
  method CheckRect(board: Grid, width: int, height: int, x: int, y: int, w: int, h: int, rule: Rule)
    returns (canPlace: bool)
    requires WellFormed(board, width, height)
    requires 0 <= x && 0 <= y && x + w <= width && y + h <= height
    ensures canPlace == RectAdmits(board, x, y, w, h, rule)
  {
    var i := 0;
    while i < w
      invariant 0 <= i && (i <= w || i == 0)
      invariant forall a, b | x <= a < x + i && y <= b < y + h :: AdmitsAt(board, a, b, rule)
    {
      var col := x + i;
      var j := 0;
      while j < h
        invariant 0 <= j && (j <= h || j == 0)
        invariant forall b | y <= b < y + j :: AdmitsAt(board, col, b, rule)
        invariant forall a, b | x <= a < x + i && y <= b < y + h :: AdmitsAt(board, a, b, rule)
      {
        if !CellAdmits(rule, board[col][y + j], (col, y + j)) {
          assert !AdmitsAt(board, col, y + j, rule);
          return false;
        }
        j := j + 1;
      }
      i := i + 1;
    }
    return true;
  }

  /** CanPlaceGem: no cell of the rectangle holds a gem, is excluded, is revealed or holds dynamite. */
  method CanPlaceGem(board: Grid, width: int, height: int, x: int, y: int, w: int, h: int) returns (canPlace: bool)
    requires WellFormed(board, width, height)
    requires 0 <= x && 0 <= y && x + w <= width && y + h <= height
    ensures canPlace <==> forall i, j | x <= i < x + w && y <= j < y + h ::
                            board[i][j].gem.None? && !board[i][j].isExcludedFromGemSpawn
                            && !board[i][j].isRevealed && !board[i][j].isDynamite
  {
    canPlace := CheckRect(board, width, height, x, y, w, h, Strict);
    assert forall i, j | x <= i < x + w && y <= j < y + h :: AdmitsAt(board, i, j, Strict) == CellAdmits(Strict, board[i][j], (i, j));
  }

  // ---------------------------------------------------------------- enumerators

  /** An option has the gem's one rotation and lies on the board. */
  predicate HasShape(p: PlacementOption, config: GemConfig, orientation: GemOrientation)
  {
    p.isRotated == RotationFor(config, orientation)
    && (p.actualWidth, p.actualHeight) == ActualDims(config, orientation)
  }

  predicate OnBoard(p: PlacementOption, width: int, height: int)
  {
    0 <= p.x && p.x + p.actualWidth <= width && 0 <= p.y && p.y + p.actualHeight <= height
  }

  predicate ContainsCell(p: PlacementOption, t: Coord)
  {
    p.x <= t.0 < p.x + p.actualWidth && p.y <= t.1 < p.y + p.actualHeight
  }

  /**
   * The double loop shared by the enumerators: every (x, y) in the given
   * ranges, x outer and y inner, whose rectangle the rule admits.
   */
  method CollectPlacements(board: Grid, width: int, height: int, rotated: bool, aw: int, ah: int, rule: Rule,
                           x0: int, x1: int, y0: int, y1: int)
    returns (options: seq<PlacementOption>)
    requires WellFormed(board, width, height)
    requires 0 <= x0 && x1 + aw <= width && 0 <= y0 && y1 + ah <= height
    ensures forall p | p in options :: x0 <= p.x <= x1 && y0 <= p.y <= y1 && p.isRotated == rotated
                                       && p.actualWidth == aw && p.actualHeight == ah
                                       && RectAdmits(board, p.x, p.y, aw, ah, rule)
    ensures forall x, y | x0 <= x <= x1 && y0 <= y <= y1 && RectAdmits(board, x, y, aw, ah, rule) ::
              PlacementOption(x, y, rotated, aw, ah) in options
    ensures NoDuplicates(options)
  {
    options := [];
    var x := x0;
    while x <= x1
      invariant x0 <= x && (x <= x1 + 1 || x == x0)
      invariant forall p | p in options :: x0 <= p.x < x && y0 <= p.y <= y1 && p.isRotated == rotated
                                           && p.actualWidth == aw && p.actualHeight == ah
                                           && RectAdmits(board, p.x, p.y, aw, ah, rule)
      invariant forall a, b | x0 <= a < x && y0 <= b <= y1 && RectAdmits(board, a, b, aw, ah, rule) ::
                  PlacementOption(a, b, rotated, aw, ah) in options
      invariant NoDuplicates(options)
    {
      var y := y0;
      while y <= y1
        invariant y0 <= y && (y <= y1 + 1 || y == y0)
        invariant forall p | p in options :: x0 <= p.x <= x && y0 <= p.y <= y1 && p.isRotated == rotated
                                             && p.actualWidth == aw && p.actualHeight == ah
                                             && RectAdmits(board, p.x, p.y, aw, ah, rule)
                                             && (p.x == x ==> p.y < y)
        invariant forall a, b | x0 <= a < x && y0 <= b <= y1 && RectAdmits(board, a, b, aw, ah, rule) ::
                    PlacementOption(a, b, rotated, aw, ah) in options
        invariant forall b | y0 <= b < y && RectAdmits(board, x, b, aw, ah, rule) ::
                    PlacementOption(x, b, rotated, aw, ah) in options
        invariant NoDuplicates(options)
      {
        var canPlace := CheckRect(board, width, height, x, y, aw, ah, rule);
        if canPlace {
          options := options + [PlacementOption(x, y, rotated, aw, ah)];
        }
        y := y + 1;
      }
      x := x + 1;
    }
  }

  /**
   * GetAllValidPlacements: with no config for the gem's id, none; otherwise
   * exactly the positions, in the gem's one rotation, where CanPlaceGem holds.
   */
  method GetAllValidPlacements(board: Grid, width: int, height: int, configs: seq<GemConfig>, gem: GemRecord,
                               orientation: GemOrientation)
    returns (options: seq<PlacementOption>)
    requires WellFormed(board, width, height)
    ensures GetGemConfig(configs, gem.gemId).None? ==> options == []
    ensures forall p | p in options ::
              var config := GetGemConfig(configs, gem.gemId).value;
              HasShape(p, config, orientation) && OnBoard(p, width, height)
              && RectAdmits(board, p.x, p.y, p.actualWidth, p.actualHeight, Strict)
    ensures GetGemConfig(configs, gem.gemId).Some? ==>
              var config := GetGemConfig(configs, gem.gemId).value;
              var d := ActualDims(config, orientation);
              forall x, y | 0 <= x && x + d.0 <= width && 0 <= y && y + d.1 <= height
                            && RectAdmits(board, x, y, d.0, d.1, Strict) ::
                PlacementOption(x, y, RotationFor(config, orientation), d.0, d.1) in options
    ensures NoDuplicates(options)
  {
    var found := GetGemConfig(configs, gem.gemId);
    if found.None? {
      return [];
    }
    var config := found.value;
    var isRotated := RotationFor(config, orientation);
    var actualWidth := if isRotated then config.height else config.width;
    var actualHeight := if isRotated then config.width else config.height;
    options := CollectPlacements(board, width, height, isRotated, actualWidth, actualHeight, Strict,
                                 0, width - actualWidth, 0, height - actualHeight);
  }

  /** GetAllValidPlacementsIgnoringExclude: the same, with the exclusion flag ignored. */
  method GetAllValidPlacementsIgnoringExclude(board: Grid, width: int, height: int, configs: seq<GemConfig>,
                                              gem: GemRecord, orientation: GemOrientation)
    returns (options: seq<PlacementOption>)
    requires WellFormed(board, width, height)
    ensures GetGemConfig(configs, gem.gemId).None? ==> options == []
    ensures forall p | p in options ::
              var config := GetGemConfig(configs, gem.gemId).value;
              HasShape(p, config, orientation) && OnBoard(p, width, height)
              && RectAdmits(board, p.x, p.y, p.actualWidth, p.actualHeight, IgnoreExclude)
    ensures GetGemConfig(configs, gem.gemId).Some? ==>
              var config := GetGemConfig(configs, gem.gemId).value;
              var d := ActualDims(config, orientation);
              forall x, y | 0 <= x && x + d.0 <= width && 0 <= y && y + d.1 <= height
                            && RectAdmits(board, x, y, d.0, d.1, IgnoreExclude) ::
                PlacementOption(x, y, RotationFor(config, orientation), d.0, d.1) in options
    ensures NoDuplicates(options)
  {
    var found := GetGemConfig(configs, gem.gemId);
    if found.None? {
      return [];
    }
    var config := found.value;
    var isRotated := RotationFor(config, orientation);
    var actualWidth := if isRotated then config.height else config.width;
    var actualHeight := if isRotated then config.width else config.height;
    options := CollectPlacements(board, width, height, isRotated, actualWidth, actualHeight, IgnoreExclude,
                                 0, width - actualWidth, 0, height - actualHeight);
  }

  function Max(a: int, b: int): int { if a >= b then a else b }
  function Min(a: int, b: int): int { if a <= b then a else b }

  /**
   * GetPlacementsContainingCell: exactly the on-board positions whose
   * rectangle contains the target, where the target only has to be gem-free
   * and every other covered cell must be gem-free, unrevealed and free of
   * dynamite. The exclusion flag is not looked at.
   */
  method GetPlacementsContainingCell(board: Grid, width: int, height: int, configs: seq<GemConfig>, gem: GemRecord,
                                     orientation: GemOrientation, target: Coord)
    returns (options: seq<PlacementOption>)
    requires WellFormed(board, width, height)
    ensures GetGemConfig(configs, gem.gemId).None? ==> options == []
    ensures forall p | p in options ::
              var config := GetGemConfig(configs, gem.gemId).value;
              HasShape(p, config, orientation) && OnBoard(p, width, height) && ContainsCell(p, target)
              && RectAdmits(board, p.x, p.y, p.actualWidth, p.actualHeight, AroundTarget(target))
    ensures GetGemConfig(configs, gem.gemId).Some? ==>
              var config := GetGemConfig(configs, gem.gemId).value;
              var d := ActualDims(config, orientation);
              forall x, y | 0 <= x && x + d.0 <= width && 0 <= y && y + d.1 <= height
                            && x <= target.0 < x + d.0 && y <= target.1 < y + d.1
                            && RectAdmits(board, x, y, d.0, d.1, AroundTarget(target)) ::
                PlacementOption(x, y, RotationFor(config, orientation), d.0, d.1) in options
    ensures NoDuplicates(options)
  {
    var found := GetGemConfig(configs, gem.gemId);
    if found.None? {
      return [];
    }
    var config := found.value;
    var isRotated := RotationFor(config, orientation);
    var actualWidth := if isRotated then config.height else config.width;
    var actualHeight := if isRotated then config.width else config.height;
    var x0, x1 := Max(0, target.0 - actualWidth + 1), Min(width - actualWidth, target.0);
    var y0, y1 := Max(0, target.1 - actualHeight + 1), Min(height - actualHeight, target.1);
    options := CollectPlacements(board, width, height, isRotated, actualWidth, actualHeight, AroundTarget(target),
                                 x0, x1, y0, y1);
  }

  /** A shuffle of the source's swap-with-a-random-later-element loop: some permutation of the input. */
  method Shuffle<T(==)>(s: seq<T>) returns (r: seq<T>)
    ensures multiset(r) == multiset(s)
  {
    r :| multiset(r) == multiset(s);
  }
}
