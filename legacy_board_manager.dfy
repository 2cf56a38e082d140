/**
 * The older board engine of Assets/Scripts/BoardManager.cs. It hides every
 * gem of a stage up front with a backtracking packer (retried up to 50
 * times, largest gems first), and a dig may collect the dug cell's gem
 * once all its cells are revealed, subject to a 30% roll and a rule that
 * forces the hit. Compared with Assets/Scripts/Manager/BoardManager.cs it has
 * no pool of unplaced gems, no exclusion marks, no input or cooldown check,
 * and its placement test only asks a cell to be gem-free.
 *
 * As in `Board`, the grid is a value held in a field, a gem is referred to
 * by its index in the gem table, and a gem's cell list holds coordinates.
 * The gem configs and orientation entries are the parameters the source
 * passes in.
 */
module LegacyBoard {
  import opened Wrappers
  import opened GemConfigs
  import opened StageConfigs
  import opened Cells
  import opened Gems
  import opened Placement
  import opened TestBoard
  import opened Pickaxes
  import opened GemOrder
  import opened Board

  // ---------------------------------------------------------------- board facts

  /** Every gem a cell points to is in the gem table. */
  predicate HandlesKnown(board: Grid, width: int, height: int, gems: seq<GemRecord>)
    requires WellFormed(board, width, height)
  {
    forall i, j | 0 <= i < width && 0 <= j < height :: board[i][j].gem.Some? ==> board[i][j].gem.value < |gems|
  }

  /** No cell is marked excluded: nothing in the older engine ever marks one. */
  predicate NoneExcluded(board: Grid, width: int, height: int)
    requires WellFormed(board, width, height)
  {
    forall i, j | 0 <= i < width && 0 <= j < height :: !board[i][j].isExcludedFromGemSpawn
  }

  /** Every cell revealed on `b1` is revealed on `b2`. */
  predicate RevealGrows(b1: Grid, b2: Grid, width: int, height: int)
    requires WellFormed(b1, width, height) && WellFormed(b2, width, height)
  {
    forall i, j | 0 <= i < width && 0 <= j < height :: b1[i][j].isRevealed ==> b2[i][j].isRevealed
  }

  /** One or two stone layers, what `Random.Range(0, 2) == 0 ? 1 : 2` yields. */
  predicate LayersOk(layers: int)
  {
    layers == 1 || layers == 2
  }

  /**
   * A rectangle cell after the older PlaceGemAt: made to hold the gem unless
   * the gem listed it already (AddCellUI), then given `layers` stone layers.
   */
  function Covered(c: Cell<Handle>, g: Handle, listed: bool, layers: int): (r: Cell<Handle>)
    ensures r.gem == (if listed then c.gem else Some(g)) && r.stoneLayers == layers
    ensures r.isRevealed == c.isRevealed && r.isDynamite == c.isDynamite
    ensures !listed ==> !r.isExcludedFromGemSpawn
  {
    (if listed then c else c.SetGem(Some(g))).SetStoneLayers(layers)
  }

  /**
   * Placing a gem on a gem-free, unexcluded rectangle with fresh stone
   * layers, whatever happens next with occupancy kept, and then removing it
   * from that rectangle again, leaves occupancy as it was before.
   */
  lemma CoverThenRemoveRestores(b0: Grid, b1: Grid, b2: Grid, b3: Grid, width: int, height: int, rect: set<Coord>, g: Handle)
    requires WellFormed(b0, width, height) && WellFormed(b1, width, height)
    requires WellFormed(b2, width, height) && WellFormed(b3, width, height)
    requires forall i, j | 0 <= i < width && 0 <= j < height && (i, j) in rect ::
               b0[i][j].gem.None? && !b0[i][j].isExcludedFromGemSpawn
    requires forall i, j | 0 <= i < width && 0 <= j < height ::
               b1[i][j] == if (i, j) in rect then Covered(b0[i][j], g, false, b1[i][j].stoneLayers) else b0[i][j]
    requires SameOccupancy(b1, b2, width, height)
    requires forall i, j | 0 <= i < width && 0 <= j < height ::
               if (i, j) in rect then b3[i][j] == b2[i][j].SetGem(None).SetStoneLayers(b3[i][j].stoneLayers)
               else b3[i][j] == b2[i][j]
    ensures SameOccupancy(b0, b3, width, height)
  {
  }

  /**
   * The 3-by-3 neighbourhood of (x, y), up to offset (di, dj), has been
   * dug: `b` is `b0` with Dig applied to those cells (Dig leaves a revealed
   * cell alone) and nothing else changed.
   */
  predicate BlastedUpTo(b0: Grid, b: Grid, width: int, height: int, x: int, y: int, di: int, dj: int)
    requires WellFormed(b0, width, height) && WellFormed(b, width, height)
  {
    forall i, j | 0 <= i < width && 0 <= j < height ::
      b[i][j] == if BlastedBefore(i, j, x, y, di, dj) then b0[i][j].Dig() else b0[i][j]
  }

  // ---------------------------------------------------------------- collection

  /** A gem CountRevealedGems counts: in the table, fully revealed and not yet collected. */
  predicate Counted(board: Grid, width: int, height: int, gems: seq<GemRecord>, h: Handle)
    requires WellFormed(board, width, height)
  {
    h < |gems| && FullyRevealed(board, width, height, gems[h]) && !gems[h].isCollected
  }

  /**
   * CountRevealedGems: how many hidden gems are fully revealed and not yet
   * collected. It reaches the number of hidden gems exactly when every one
   * of them is.
   */
  function RevealedCount(board: Grid, width: int, height: int, gems: seq<GemRecord>, hidden: seq<Handle>): (n: nat)
    requires WellFormed(board, width, height)
    ensures n <= |hidden|
    ensures n == |hidden| <==> forall k | 0 <= k < |hidden| :: Counted(board, width, height, gems, hidden[k])
  {
    if |hidden| == 0 then 0
    else
      var init := hidden[..|hidden| - 1];
      var n0 := RevealedCount(board, width, height, gems, init);
      assert forall k | 0 <= k < |init| :: init[k] == hidden[k];
      n0 + if Counted(board, width, height, gems, hidden[|hidden| - 1]) then 1 else 0
  }

  /** The dug cell holds a gem that is not collected yet and whose every cell is revealed. */
  predicate CompletesGem(board: Grid, width: int, height: int, gems: seq<GemRecord>, t: Coord)
    requires WellFormed(board, width, height) && InBoard(t, width, height)
  {
    board[t.0][t.1].gem.Some? && Counted(board, width, height, gems, board[t.0][t.1].gem.value)
  }

  /**
   * Whether ProcessGemReveal, as written, collects the dug cell's gem: the
   * 30% roll, or the count rule that forces a hit while fewer gems are
   * revealed than are hidden, must hold on top of the gem being complete.
   */
  predicate CollectsAsWritten(board: Grid, width: int, height: int, gems: seq<GemRecord>, hidden: seq<Handle>,
                              t: Coord, hitRoll: bool)
    requires WellFormed(board, width, height) && InBoard(t, width, height)
  {
    (hitRoll || RevealedCount(board, width, height, gems, hidden) < |hidden|)
    && CompletesGem(board, width, height, gems, t)
  }

  /**
   * As written, a complete gem is left uncollected exactly when the roll
   * misses and every hidden gem is revealed and uncollected, so the count
   * rule does not force the hit.
   */
  lemma AsWrittenSkipsExactly(board: Grid, width: int, height: int, gems: seq<GemRecord>, hidden: seq<Handle>,
                              t: Coord, hitRoll: bool)
    requires WellFormed(board, width, height) && InBoard(t, width, height)
    requires CompletesGem(board, width, height, gems, t)
    ensures !CollectsAsWritten(board, width, height, gems, hidden, t, hitRoll) <==>
              !hitRoll && forall k | 0 <= k < |hidden| :: Counted(board, width, height, gems, hidden[k])
  {
  }

  /**
   * The gem table after ProcessGemReveal as written, on the dug cell `t`
   * with the given roll. The cell's gem is collected exactly when
   * CollectsAsWritten holds, so afterwards the cell holds a complete,
   * uncollected gem exactly when it did before and the rule skipped it.
   */
  function RevealAsWritten(board: Grid, width: int, height: int, gems: seq<GemRecord>, hidden: seq<Handle>,
                           t: Coord, hitRoll: bool): (r: seq<GemRecord>)
    requires WellFormed(board, width, height) && InBoard(t, width, height)
    ensures OnlyCollected(gems, r, board, width, height)
    ensures CompletesGem(board, width, height, r, t) <==>
              CompletesGem(board, width, height, gems, t) && !CollectsAsWritten(board, width, height, gems, hidden, t, hitRoll)
  {
    if CollectsAsWritten(board, width, height, gems, hidden, t, hitRoll) then
      var g := board[t.0][t.1].gem.value;
      gems[g := gems[g].Collect()]
    else gems
  }

  /** What a dig reads and writes in the older engine: the board and the gem table. */
  datatype Scene = Scene(board: Grid, gems: seq<GemRecord>)

  /**
   * One step of an explosion, on the cell `c`: when it is on the board and
   * unrevealed it is dug, and ProcessGemReveal as written runs on it with a
   * roll of its own (either outcome); otherwise nothing changes.
   */
  predicate BlastStepAsWritten(width: int, height: int, hidden: seq<Handle>, s0: Scene, s1: Scene, c: Coord)
  {
    if WellFormed(s0.board, width, height) && InBoard(c, width, height) && !s0.board[c.0][c.1].isRevealed then
      var dug := SetCell(s0.board, c.0, c.1, s0.board[c.0][c.1].Dig());
      s1.board == dug
      && (s1.gems == RevealAsWritten(dug, width, height, s0.gems, hidden, c, true)
          || s1.gems == RevealAsWritten(dug, width, height, s0.gems, hidden, c, false))
    else
      s1 == s0
  }

  /** An explosion at (x, y): `trace` holds the scene before each of its nine steps and after the last. */
  predicate BlastTraceAsWritten(width: int, height: int, hidden: seq<Handle>, x: int, y: int, trace: seq<Scene>)
  {
    |trace| == 10 && forall k | 0 <= k < 9 :: BlastStepAsWritten(width, height, hidden, trace[k], trace[k + 1], BlastTarget(x, y, k))
  }

  /** Why the older DigCell refuses: outside the board, already revealed, or fewer pickaxes than stone layers. */
  predicate DigRefusedAt(board: Grid, width: int, height: int, x: int, y: int, pickaxes: int)
    requires WellFormed(board, width, height)
  {
    !InBoard((x, y), width, height) || board[x][y].isRevealed || pickaxes < board[x][y].stoneLayers
  }

  /**
   * The input that shows the as-written rule losing a gem: the only hidden
   * gem is 1-by-1, its cell has just been dug and the roll missed. The gem
   * is complete, but the count of revealed gems (1) is not below the
   * number hidden (1), so the gem table DigCell ends with still holds it
   * complete and uncollected; and since its cell is now
   * revealed, every later dig of it is refused, so it never will be.
   */
  lemma SingleHiddenGemIsStranded(pickaxes: int)
    ensures var board: Grid := [[Cell(Gem, 0, Some(0), false, true, false, 0, 0)]];
            var gems := [GemRecord(1, 1, 1, White, [(0, 0)], false, (0, 0))];
            WellFormed(board, 1, 1)
            && CompletesGem(board, 1, 1, gems, (0, 0))
            && !CollectsAsWritten(board, 1, 1, gems, [0], (0, 0), false)
            && CompletesGem(board, 1, 1, RevealAsWritten(board, 1, 1, gems, [0], (0, 0), false), (0, 0))
            && forall c | c in gems[0].cells :: DigRefusedAt(board, 1, 1, c.0, c.1, pickaxes)
  {
    var board: Grid := [[Cell(Gem, 0, Some(0), false, true, false, 0, 0)]];
    var gems := [GemRecord(1, 1, 1, White, [(0, 0)], false, (0, 0))];
    assert FullyRevealed(board, 1, 1, gems[0]);
    assert RevealedCount(board, 1, 1, gems, [0]) == 1 by {
      assert [0][..0] == [];
    }
  }

  /**
   * Between two gem tables, some gems were collected, each of them not
   * collected before and fully revealed on `board`; nothing else changed.
   */
  predicate OnlyCollected(g0: seq<GemRecord>, g1: seq<GemRecord>, board: Grid, width: int, height: int)
    requires WellFormed(board, width, height)
  {
    |g1| == |g0|
    && forall h | 0 <= h < |g0| ::
         g1[h] == g0[h] || (!g0[h].isCollected && g1[h] == g0[h].Collect() && FullyRevealed(board, width, height, g0[h]))
  }

  /** A gem fully revealed on one board is so on every board that reveals at least as much. */
  lemma OnlyCollectedGrows(g0: seq<GemRecord>, g1: seq<GemRecord>, b1: Grid, b2: Grid, width: int, height: int)
    requires WellFormed(b1, width, height) && WellFormed(b2, width, height)
    requires OnlyCollected(g0, g1, b1, width, height) && RevealGrows(b1, b2, width, height)
    ensures OnlyCollected(g0, g1, b2, width, height)
  {
    forall h | 0 <= h < |g0| && g1[h] != g0[h] ensures FullyRevealed(b2, width, height, g0[h]) {
      var cells := g0[h].cells;
      forall k | 0 <= k < |cells| ensures InBoard(cells[k], width, height) && b2[cells[k].0][cells[k].1].isRevealed {
        assert InBoard(cells[k], width, height) && b1[cells[k].0][cells[k].1].isRevealed;
      }
    }
  }

  /** Collecting in two steps on the same board is collecting once. */
  lemma OnlyCollectedTrans(g0: seq<GemRecord>, g1: seq<GemRecord>, g2: seq<GemRecord>, board: Grid, width: int, height: int)
    requires WellFormed(board, width, height)
    requires OnlyCollected(g0, g1, board, width, height) && OnlyCollected(g1, g2, board, width, height)
    ensures OnlyCollected(g0, g2, board, width, height)
  {
    forall h | 0 <= h < |g0|
      ensures g2[h] == g0[h] || (!g0[h].isCollected && g2[h] == g0[h].Collect() && FullyRevealed(board, width, height, g0[h]))
    {
      if g1[h] != g0[h] {
        assert g1[h].isCollected && g2[h] == g1[h];
      }
    }
  }

  // ---------------------------------------------------------------- the engine

  class BoardManager {
    var board: Grid
    var boardWidth: int
    var boardHeight: int
    /** Every gem object the engine refers to; the lists below hold indexes into it. */
    var gems: seq<GemRecord>
    var hiddenGems: seq<Handle>
    var dynamitePositions: seq<Coord>

    /**
     * The engine's shape invariant: a board of the recorded size, only
     * handles into the gem table, every listed gem cell on the board, and no
     * cell marked excluded.
     */
    ghost predicate Valid()
      reads this
    {
      WellFormed(board, boardWidth, boardHeight)
      && AllHandles(gems, hiddenGems)
      && HandlesKnown(board, boardWidth, boardHeight, gems)
      && (forall h, k | 0 <= h < |gems| && 0 <= k < |gems[h].cells| :: InBoard(gems[h].cells[k], boardWidth, boardHeight))
      && NoneExcluded(board, boardWidth, boardHeight)
    }

    constructor ()
      ensures Valid()
      ensures board == [] && boardWidth == 0 && boardHeight == 0 && gems == []
      ensures hiddenGems == [] && dynamitePositions == []
    {
      board, boardWidth, boardHeight := [], 0, 0;
      gems, hiddenGems, dynamitePositions := [], [], [];
    }

    /**
     * InitializeBoard: a width-by-height board of freshly initialised cells
     * (one stone layer, no gem, nothing set); no gem is hidden and no
     * dynamite listed.
     */
    method InitializeBoard(width: int, height: int)
      requires width >= 0 && height >= 0
      modifies this
      ensures Valid()
      ensures boardWidth == width && boardHeight == height
      ensures forall x, y | 0 <= x < width && 0 <= y < height :: board[x][y] == InitializedCell<Handle>(x, y)
      ensures gems == [] && hiddenGems == [] && dynamitePositions == []
    {
      boardWidth, boardHeight := width, height;
      board := seq(width, x => seq(height, y => InitializedCell<Handle>(x, y)));
      gems, hiddenGems, dynamitePositions := [], [], [];
    }

    /** ClearAllGems: every cell drops its gem (nothing else about it changes) and no gem is hidden. */
    method ClearAllGems()
      requires Valid()
      modifies this`board, this`hiddenGems
      ensures Valid()
      ensures |board| == |old(board)| && forall i | 0 <= i < |board| :: |board[i]| == |old(board)[i]|
      ensures forall i, j | 0 <= i < boardWidth && 0 <= j < boardHeight :: board[i][j] == old(board)[i][j].SetGem(None)
      ensures hiddenGems == []
    {
      var x := 0;
      while x < boardWidth
        invariant 0 <= x <= boardWidth
        invariant WellFormed(board, boardWidth, boardHeight)
        invariant forall i, j | 0 <= i < boardWidth && 0 <= j < boardHeight ::
                    board[i][j] == if i < x then old(board)[i][j].SetGem(None) else old(board)[i][j]
      {
        var y := 0;
        while y < boardHeight
          invariant 0 <= y <= boardHeight
          invariant WellFormed(board, boardWidth, boardHeight)
          invariant forall i, j | 0 <= i < boardWidth && 0 <= j < boardHeight ::
                      board[i][j] == if i < x || (i == x && j < y) then old(board)[i][j].SetGem(None) else old(board)[i][j]
        {
          if board[x][y].gem.Some? {
            board := SetCell(board, x, y, board[x][y].SetGem(None));
          }
          y := y + 1;
        }
        x := x + 1;
      }
      hiddenGems := [];
    }

    /** GetCollectedGems: the collected gems among the hidden ones, in their order. */
    method GetCollectedGems() returns (collected: seq<Handle>)
      requires Valid()
      ensures collected == CollectedGems(gems, hiddenGems)
    {
      collected := [];
      var k := 0;
      while k < |hiddenGems|
        invariant 0 <= k <= |hiddenGems|
        invariant AllHandles(gems, hiddenGems[..k])
        invariant collected == CollectedGems(gems, hiddenGems[..k])
      {
        assert hiddenGems[k] in hiddenGems;
        assert hiddenGems[..k + 1] == hiddenGems[..k] + [hiddenGems[k]];
        assert hiddenGems[..k + 1][..k] == hiddenGems[..k];
        if gems[hiddenGems[k]].isCollected {
          collected := collected + [hiddenGems[k]];
        }
        k := k + 1;
      }
      assert hiddenGems[..k] == hiddenGems;
    }

    // ------------------------------------------------------------ placement

    /** CanPlaceGem of the older board: no cell of the rectangle holds a gem; nothing else is looked at. */
    method CanPlaceGem(x: int, y: int, width: int, height: int) returns (canPlace: bool)
      requires Valid() && 0 <= x && 0 <= y && x + width <= boardWidth && y + height <= boardHeight
      ensures canPlace <==> forall i, j | x <= i < x + width && y <= j < y + height :: board[i][j].gem.None?
    {
      canPlace := CheckRect(board, boardWidth, boardHeight, x, y, width, height, GemFreeOnly);
      assert forall i, j | x <= i < x + width && y <= j < y + height ::
               AdmitsAt(board, i, j, GemFreeOnly) == board[i][j].gem.None?;
    }

    /**
     * GetAllValidPlacements of the older board: with no config for the gem's
     * id, none; otherwise exactly the positions, in the gem's one rotation,
     * whose rectangle lies on the board and holds no gem.
     */
    method GetAllValidPlacements(g: Handle, configs: seq<GemConfig>, orientation: GemOrientation)
      returns (options: seq<PlacementOption>)
      requires Valid() && g < |gems|
      ensures GetGemConfig(configs, gems[g].gemId).None? ==> options == []
      ensures forall p | p in options ::
                var config := GetGemConfig(configs, gems[g].gemId).value;
                HasShape(p, config, orientation) && OnBoard(p, boardWidth, boardHeight)
                && RectAdmits(board, p.x, p.y, p.actualWidth, p.actualHeight, GemFreeOnly)
      ensures GetGemConfig(configs, gems[g].gemId).Some? ==>
                var config := GetGemConfig(configs, gems[g].gemId).value;
                var d := ActualDims(config, orientation);
                forall x, y | 0 <= x && x + d.0 <= boardWidth && 0 <= y && y + d.1 <= boardHeight
                              && RectAdmits(board, x, y, d.0, d.1, GemFreeOnly) ::
                  PlacementOption(x, y, RotationFor(config, orientation), d.0, d.1) in options
      ensures NoDuplicates(options)
    {
      var found := GetGemConfig(configs, gems[g].gemId);
      if found.None? {
        return [];
      }
      var config := found.value;
      var isRotated := RotationFor(config, orientation);
      var actualWidth := if isRotated then config.height else config.width;
      var actualHeight := if isRotated then config.width else config.height;
      options := CollectPlacements(board, boardWidth, boardHeight, isRotated, actualWidth, actualHeight, GemFreeOnly,
                                   0, boardWidth - actualWidth, 0, boardHeight - actualHeight);
    }

    /**
     * PlaceGemAt of the older board: the gem moves to the placement's corner;
     * every cell of the rectangle is added to its list (AddCellUI, so a new
     * cell is made to hold the gem) and then given one or two stone layers
     * at random.
     */
    method PlaceGemAt(g: Handle, p: PlacementOption)
      requires Valid() && g < |gems| && OnBoard(p, boardWidth, boardHeight)
      requires NoDuplicates(gems[g].cells)
      modifies this`board, this`gems
      ensures Valid()
      ensures |gems| == old(|gems|) && forall m | 0 <= m < |gems| && m != g :: gems[m] == old(gems[m])
      ensures gems[g] == old(gems[g]).(cells := gems[g].cells, position := (p.x, p.y))
      ensures NoDuplicates(gems[g].cells)
      ensures forall c :: c in gems[g].cells <==> c in old(gems[g].cells) || c in OptionCells(p)
      ensures forall i, j | 0 <= i < boardWidth && 0 <= j < boardHeight ::
                if (i, j) in OptionCells(p) then
                  LayersOk(board[i][j].stoneLayers)
                  && board[i][j] == Covered(old(board[i][j]), g, (i, j) in old(gems[g].cells), board[i][j].stoneLayers)
                else board[i][j] == old(board[i][j])
    {
      gems := gems[g := gems[g].SetPosition((p.x, p.y))];
      var i := 0;
      while i < p.actualWidth
        invariant 0 <= i && (i <= p.actualWidth || i == 0)
        invariant Valid() && |gems| == old(|gems|)
        invariant forall m | 0 <= m < |gems| && m != g :: gems[m] == old(gems[m])
        invariant gems[g] == old(gems[g]).(cells := gems[g].cells, position := (p.x, p.y))
        invariant NoDuplicates(gems[g].cells)
        invariant forall c :: c in gems[g].cells <==> c in old(gems[g].cells) || Visited(c, p.x, p.y, p.actualHeight, i, 0)
        invariant forall a, b | 0 <= a < boardWidth && 0 <= b < boardHeight ::
                    if Visited((a, b), p.x, p.y, p.actualHeight, i, 0) then
                      LayersOk(board[a][b].stoneLayers)
                      && board[a][b] == Covered(old(board[a][b]), g, (a, b) in old(gems[g].cells), board[a][b].stoneLayers)
                    else board[a][b] == old(board[a][b])
      {
        CoverColumn(g, p.x + i, p.y, p.actualHeight);
        i := i + 1;
      }
    }

    /** The inner loop of PlaceGemAt: the cells (x, y0) .. (x, y0 + h - 1), in order. */
    method CoverColumn(g: Handle, x: int, y0: int, h: int)
      requires Valid() && g < |gems| && 0 <= x < boardWidth && 0 <= y0 && y0 + h <= boardHeight
      requires NoDuplicates(gems[g].cells)
      modifies this`board, this`gems
      ensures Valid() && |gems| == old(|gems|)
      ensures forall m | 0 <= m < |gems| && m != g :: gems[m] == old(gems[m])
      ensures gems[g] == old(gems[g]).(cells := gems[g].cells)
      ensures NoDuplicates(gems[g].cells)
      ensures forall c :: c in gems[g].cells <==> c in old(gems[g].cells) || (c.0 == x && y0 <= c.1 < y0 + h)
      ensures forall a, b | 0 <= a < boardWidth && 0 <= b < boardHeight ::
                if a == x && y0 <= b < y0 + h then
                  LayersOk(board[a][b].stoneLayers)
                  && board[a][b] == Covered(old(board[a][b]), g, (a, b) in old(gems[g].cells), board[a][b].stoneLayers)
                else board[a][b] == old(board[a][b])
    {
      var j := 0;
      while j < h
        invariant 0 <= j && (j <= h || j == 0)
        invariant Valid() && |gems| == old(|gems|)
        invariant forall m | 0 <= m < |gems| && m != g :: gems[m] == old(gems[m])
        invariant gems[g] == old(gems[g]).(cells := gems[g].cells)
        invariant NoDuplicates(gems[g].cells)
        invariant forall c :: c in gems[g].cells <==> c in old(gems[g].cells) || (c.0 == x && y0 <= c.1 < y0 + j)
        invariant forall a, b | 0 <= a < boardWidth && 0 <= b < boardHeight ::
                    if a == x && y0 <= b < y0 + j then
                      LayersOk(board[a][b].stoneLayers)
                      && board[a][b] == Covered(old(board[a][b]), g, (a, b) in old(gems[g].cells), board[a][b].stoneLayers)
                    else board[a][b] == old(board[a][b])
      {
        assert board[x][y0 + j] == old(board[x][y0 + j]);
        assert (x, y0 + j) in gems[g].cells <==> (x, y0 + j) in old(gems[g].cells);
        CoverCell(g, (x, y0 + j));
        j := j + 1;
      }
    }

    /** One step of PlaceGemAt: AddCellUI on the record (a new cell is made to hold the gem), then fresh stone layers. */
    method CoverCell(g: Handle, c: Coord)
      requires Valid() && g < |gems| && InBoard(c, boardWidth, boardHeight)
      modifies this`board, this`gems
      ensures Valid()
      ensures gems == old(gems)[g := old(gems[g]).AddCell(c)]
      ensures WellFormed(board, boardWidth, boardHeight) && LayersOk(board[c.0][c.1].stoneLayers)
      ensures forall a, b | 0 <= a < boardWidth && 0 <= b < boardHeight ::
                board[a][b] == if (a, b) == c then Covered(old(board[a][b]), g, c in old(gems[g].cells), board[a][b].stoneLayers)
                               else old(board[a][b])
    {
      if c !in gems[g].cells {
        gems := gems[g := gems[g].AddCell(c)];
        board := SetCell(board, c.0, c.1, board[c.0][c.1].SetGem(Some(g)));
      }
      var layers := RandomStoneLayers();
      board := SetCell(board, c.0, c.1, board[c.0][c.1].SetStoneLayers(layers));
    }

    /**
     * RemoveGem: every cell the gem lists drops its gem and is given one or
     * two stone layers afresh; the gem's cell list is emptied.
     */
    method RemoveGem(g: Handle)
      requires Valid() && g < |gems|
      modifies this`board, this`gems
      ensures Valid()
      ensures gems == old(gems)[g := old(gems[g]).(cells := [])]
      ensures forall i, j | 0 <= i < boardWidth && 0 <= j < boardHeight ::
                if (i, j) in old(gems[g].cells) then
                  LayersOk(board[i][j].stoneLayers)
                  && board[i][j] == old(board[i][j]).SetGem(None).SetStoneLayers(board[i][j].stoneLayers)
                else board[i][j] == old(board[i][j])
    {
      var cells := gems[g].cells;
      var k := 0;
      while k < |cells|
        invariant 0 <= k <= |cells| && WellFormed(board, boardWidth, boardHeight)
        modifies this`board
        invariant forall i, j | 0 <= i < boardWidth && 0 <= j < boardHeight ::
                    if (i, j) in cells[..k] then
                      LayersOk(board[i][j].stoneLayers)
                      && board[i][j] == old(board[i][j]).SetGem(None).SetStoneLayers(board[i][j].stoneLayers)
                    else board[i][j] == old(board[i][j])
      {
        var c := cells[k];
        assert InBoard(c, boardWidth, boardHeight);
        var layers := RandomStoneLayers();
        board := SetCell(board, c.0, c.1, board[c.0][c.1].SetGem(None).SetStoneLayers(layers));
        assert cells[..k + 1] == cells[..k] + [c];
        k := k + 1;
      }
      assert cells[..k] == cells;
      gems := gems[g := gems[g].(cells := [])];
    }

    // ------------------------------------------------------------ the packer

    /**
     * What the packer may assume at level `index` of `order`: the gems
     * before it are hidden, in order, with their back-pointers on the board;
     * the gems from it on hold no cells yet.
     */
    ghost predicate PackerReady(order: seq<Handle>, index: int)
      reads this
      requires Valid()
    {
      0 <= index <= |order| && AllHandles(gems, order) && NoDuplicates(order)
      && hiddenGems == order[..index]
      && Backed(board, boardWidth, boardHeight, gems, order[..index])
      && forall k | index <= k < |order| :: order[k] < |gems| && gems[order[k]].cells == []
    }

    /** The gem covers exactly the placement, of its one shape, on the board. */
    ghost predicate CoversPlacement(g: Handle, p: PlacementOption, configs: seq<GemConfig>,
                                    orientations: map<Handle, GemOrientation>)
      reads this
      requires Valid() && g < |gems|
    {
      var config := GetGemConfig(configs, gems[g].gemId);
      config.Some? && HasShape(p, config.value, OrientationOf(orientations, g))
      && OnBoard(p, boardWidth, boardHeight)
      && forall c :: c in gems[g].cells <==> c in OptionCells(p)
    }

    /** After PlaceGemAt of `order[index]` on a gem-free rectangle and List.Add, the next level may start. */
    lemma PlacedIsReady(order: seq<Handle>, index: int, g: Handle, p: PlacementOption, b0: Grid, g0: seq<GemRecord>)
      requires Valid() && 0 <= index < |order| && g == order[index] && AllHandles(gems, order) && NoDuplicates(order)
      requires WellFormed(b0, boardWidth, boardHeight) && |g0| == |gems| && AllHandles(g0, order[..index])
      requires hiddenGems == order[..index + 1]
      requires Backed(b0, boardWidth, boardHeight, g0, order[..index])
      requires forall k | index <= k < |order| :: order[k] < |g0| && g0[order[k]].cells == []
      requires OnBoard(p, boardWidth, boardHeight) && RectAdmits(b0, p.x, p.y, p.actualWidth, p.actualHeight, GemFreeOnly)
      requires forall i, j | 0 <= i < boardWidth && 0 <= j < boardHeight ::
                 if (i, j) in OptionCells(p) then board[i][j].gem == Some(g) else board[i][j] == b0[i][j]
      requires forall m | 0 <= m < |gems| && m != g :: gems[m] == g0[m]
      requires forall c :: c in gems[g].cells <==> c in g0[g].cells || c in OptionCells(p)
      ensures PackerReady(order, index + 1)
    {
      assert g0[g].cells == [];
      assert order[..index + 1] == order[..index] + [g];
      forall h, c | h in order[..index + 1] && c in gems[h].cells
        ensures InBoard(c, boardWidth, boardHeight) && board[c.0][c.1].gem == Some(h)
      {
        if h == g {
          assert c in OptionCells(p);
        } else {
          assert h in order[..index];
          assert gems[h] == g0[h];
          assert InBoard(c, boardWidth, boardHeight) && b0[c.0][c.1].gem == Some(h);
          assert c in OptionCells(p) ==> AdmitsAt(b0, c.0, c.1, GemFreeOnly);
        }
      }
      forall k | index + 1 <= k < |order| ensures order[k] < |gems| && gems[order[k]].cells == [] {
        assert order[k] != g;
      }
    }

    /**
     * PlaceGemsRecursive: places `order[index..]` one after the other,
     * trying each gem-free placement of the next gem in a shuffled order and
     * undoing it (RemoveGem, List.Remove) when the rest cannot be placed.
     * On success every gem of `order` is hidden, covers one placement of its
     * shape, and the board points back to it. On failure the hidden list,
     * every gem's cells and the board's occupancy are as before; only
     * stone layers and gem positions may differ.
     */
    method PlaceGemsRecursive(order: seq<Handle>, index: int, configs: seq<GemConfig>,
                              orientations: map<Handle, GemOrientation>)
      returns (ok: bool, ghost placements: seq<PlacementOption>)
      requires Valid() && PackerReady(order, index)
      modifies this`board, this`gems, this`hiddenGems
      ensures Valid() && |gems| == old(|gems|)
      ensures ok ==> hiddenGems == order && Backed(board, boardWidth, boardHeight, gems, order)
                     && |placements| == |order| - index
                     && forall k | 0 <= k < |placements| :: CoversPlacement(order[index + k], placements[k], configs, orientations)
      ensures forall h | 0 <= h < |gems| && h !in order[index..] :: gems[h] == old(gems[h])
      ensures forall h | 0 <= h < |gems| :: gems[h] == old(gems[h]).(cells := gems[h].cells, position := gems[h].position)
      ensures !ok ==> hiddenGems == old(hiddenGems) && SameOccupancy(old(board), board, boardWidth, boardHeight)
                      && forall h | 0 <= h < |gems| :: gems[h] == old(gems[h]).(position := gems[h].position)
      decreases |order| - index, 2
    {
      placements := [];
      if index >= |order| {
        return true, [];
      }
      var gem := order[index];
      assert gem in order;
      var orientation := OrientationOf(orientations, gem);
      var allPlacements := GetAllValidPlacements(gem, configs, orientation);
      var validPlacements := Shuffle(allPlacements);
      var k := 0;
      while k < |validPlacements|
        invariant 0 <= k <= |validPlacements|
        invariant Valid() && PackerReady(order, index) && |gems| == old(|gems|)
        invariant hiddenGems == old(hiddenGems) && SameOccupancy(old(board), board, boardWidth, boardHeight)
        invariant forall h | 0 <= h < |gems| :: gems[h] == old(gems[h]).(position := gems[h].position)
        invariant forall h | 0 <= h < |gems| && h !in order[index..] :: gems[h] == old(gems[h])
        invariant forall h | 0 <= h < |gems| :: gems[h] == old(gems[h]).(cells := gems[h].cells, position := gems[h].position)
      {
        var placement := validPlacements[k];
        assert placement in multiset(validPlacements);
        assert placement in allPlacements;
        var config := GetGemConfig(configs, gems[gem].gemId);
        if config.Some? {
          SameOccupancyAdmits(old(board), board, boardWidth, boardHeight, placement.x, placement.y,
                              placement.actualWidth, placement.actualHeight, GemFreeOnly);
          var placed;
          placed, placements := PlaceAttempt(order, index, placement, configs, orientations);
          if placed {
            return true, placements;
          }
        }
        k := k + 1;
      }
      return false, [];
    }

    /**
     * One try of PlaceGemsRecursive: PlaceGemAt and List.Add, the recursive
     * call for the next gem, and on its failure RemoveGem and List.Remove.
     */
    method PlaceAttempt(order: seq<Handle>, index: int, p: PlacementOption, configs: seq<GemConfig>,
                        orientations: map<Handle, GemOrientation>)
      returns (ok: bool, ghost placements: seq<PlacementOption>)
      requires Valid() && PackerReady(order, index) && index < |order|
      requires OnBoard(p, boardWidth, boardHeight) && RectAdmits(board, p.x, p.y, p.actualWidth, p.actualHeight, GemFreeOnly)
      requires var config := GetGemConfig(configs, gems[order[index]].gemId);
               config.Some? && HasShape(p, config.value, OrientationOf(orientations, order[index]))
      modifies this`board, this`gems, this`hiddenGems
      ensures Valid() && |gems| == old(|gems|)
      ensures ok ==> hiddenGems == order && Backed(board, boardWidth, boardHeight, gems, order)
                     && |placements| == |order| - index
                     && forall k | 0 <= k < |placements| :: CoversPlacement(order[index + k], placements[k], configs, orientations)
      ensures forall h | 0 <= h < |gems| && h !in order[index..] :: gems[h] == old(gems[h])
      ensures forall h | 0 <= h < |gems| :: gems[h] == old(gems[h]).(cells := gems[h].cells, position := gems[h].position)
      ensures !ok ==> hiddenGems == old(hiddenGems) && SameOccupancy(old(board), board, boardWidth, boardHeight)
                      && forall h | 0 <= h < |gems| :: gems[h] == old(gems[h]).(position := gems[h].position)
      decreases |order| - index, 1
    {
      forall i, j | 0 <= i < boardWidth && 0 <= j < boardHeight && (i, j) in OptionCells(p)
        ensures board[i][j].gem.None? && !board[i][j].isExcludedFromGemSpawn
      {
        assert AdmitsAt(board, i, j, GemFreeOnly);
      }
      var gem := order[index];
      PlaceAndAdd(order, index, p);
      ok, placements := RecurseOrUndo(order, index, p, configs, orientations, old(board), old(gems));
    }

    /**
     * The rest of PlaceAttempt once `order[index]` covers `p`: the recursive
     * call for the next gem and, on its failure, RemoveGem and List.Remove.
     * `b0` and `g0` are the board and the gem table before the placement.
     */
    method RecurseOrUndo(order: seq<Handle>, index: int, p: PlacementOption, configs: seq<GemConfig>,
                         orientations: map<Handle, GemOrientation>, ghost b0: Grid, ghost g0: seq<GemRecord>)
      returns (ok: bool, ghost placements: seq<PlacementOption>)
      requires Valid() && 0 <= index < |order| && order[index] < |gems| && PackerReady(order, index + 1)
      requires CoversPlacement(order[index], p, configs, orientations)
      requires WellFormed(b0, boardWidth, boardHeight) && |g0| == |gems|
      requires forall i, j | 0 <= i < boardWidth && 0 <= j < boardHeight && (i, j) in OptionCells(p) ::
                 b0[i][j].gem.None? && !b0[i][j].isExcludedFromGemSpawn
      requires forall i, j | 0 <= i < boardWidth && 0 <= j < boardHeight ::
                 board[i][j] == if (i, j) in OptionCells(p) then Covered(b0[i][j], order[index], false, board[i][j].stoneLayers)
                                else b0[i][j]
      requires forall m | 0 <= m < |gems| && m != order[index] :: gems[m] == g0[m]
      requires g0[order[index]].cells == []
      requires gems[order[index]] == g0[order[index]].(cells := gems[order[index]].cells, position := (p.x, p.y))
      modifies this`board, this`gems, this`hiddenGems
      ensures Valid() && |gems| == old(|gems|)
      ensures ok ==> hiddenGems == order && Backed(board, boardWidth, boardHeight, gems, order)
                     && |placements| == |order| - index
                     && forall k | 0 <= k < |placements| :: CoversPlacement(order[index + k], placements[k], configs, orientations)
      ensures forall h | 0 <= h < |gems| && h !in order[index..] :: gems[h] == g0[h]
      ensures forall h | 0 <= h < |gems| :: gems[h] == g0[h].(cells := gems[h].cells, position := gems[h].position)
      ensures !ok ==> hiddenGems == order[..index] && SameOccupancy(b0, board, boardWidth, boardHeight)
                      && forall h | 0 <= h < |gems| :: gems[h] == g0[h].(position := gems[h].position)
      decreases |order| - index, 0
    {
      var gem := order[index];
      ghost var placedBoard := board;
      ghost var placedGem := gems[gem];
      ghost var rest;
      ok, rest := PlaceGemsRecursive(order, index + 1, configs, orientations);
      if ok {
        NoDuplicatesSuffix(order, index);
        assert gems[gem] == placedGem;
        placements := [p] + rest;
        assert forall k | 0 <= k < |placements| :: CoversPlacement(order[index + k], placements[k], configs, orientations) by {
          AllHandlesAt(gems, order);
          CoversAll(order, index, p, rest, configs, orientations);
        }
        return;
      }
      UndoAttempt(order, index, p, b0, placedBoard);
      placements := [];
    }

    /** The placement of `order[index]` in front of those of the rest covers all of `order[index..]`. */
    lemma CoversAll(order: seq<Handle>, index: int, p: PlacementOption, rest: seq<PlacementOption>,
                    configs: seq<GemConfig>, orientations: map<Handle, GemOrientation>)
      requires Valid() && 0 <= index < |order| && |rest| == |order| - index - 1
      requires forall k | 0 <= k < |order| :: order[k] < |gems|
      requires CoversPlacement(order[index], p, configs, orientations)
      requires forall k | 0 <= k < |rest| :: CoversPlacement(order[index + 1 + k], rest[k], configs, orientations)
      ensures forall k | 0 <= k < 1 + |rest| :: CoversPlacement(order[index + k], ([p] + rest)[k], configs, orientations)
    {
      forall k | 0 <= k < 1 + |rest|
        ensures CoversPlacement(order[index + k], ([p] + rest)[k], configs, orientations)
      {
        if k > 0 {
          assert ([p] + rest)[k] == rest[k - 1] && index + k == index + 1 + (k - 1);
        }
      }
    }

    /** PlaceGemAt of `order[index]` followed by List.Add: the first half of PlaceAttempt. */
    method PlaceAndAdd(order: seq<Handle>, index: int, p: PlacementOption)
      requires Valid() && PackerReady(order, index) && index < |order|
      requires OnBoard(p, boardWidth, boardHeight) && RectAdmits(board, p.x, p.y, p.actualWidth, p.actualHeight, GemFreeOnly)
      modifies this`board, this`gems, this`hiddenGems
      ensures Valid() && PackerReady(order, index + 1) && |gems| == old(|gems|)
      ensures hiddenGems == old(hiddenGems) + [order[index]]
      ensures forall m | 0 <= m < |gems| && m != order[index] :: gems[m] == old(gems[m])
      ensures gems[order[index]] == old(gems[order[index]]).(cells := gems[order[index]].cells, position := (p.x, p.y))
      ensures forall c :: c in gems[order[index]].cells <==> c in OptionCells(p)
      ensures forall i, j | 0 <= i < boardWidth && 0 <= j < boardHeight ::
                board[i][j] == if (i, j) in OptionCells(p) then Covered(old(board[i][j]), order[index], false, board[i][j].stoneLayers)
                               else old(board[i][j])
    {
      var gem := order[index];
      assert gems[gem].cells == [];
      PlaceGemAt(gem, p);
      hiddenGems := hiddenGems + [gem];
      assert order[..index + 1] == order[..index] + [gem];
      PlacedIsReady(order, index, gem, p, old(board), old(gems));
    }

    /**
     * RemoveGem and List.Remove after the rest failed: with the rest's
     * failure having kept the occupancy, the board's occupancy is back to
     * what it was before the gem was placed.
     */
    method UndoAttempt(order: seq<Handle>, index: int, p: PlacementOption, ghost b0: Grid, ghost placedBoard: Grid)
      requires Valid() && 0 <= index < |order| && NoDuplicates(order) && hiddenGems == order[..index + 1]
      requires order[index] < |gems| && forall c :: c in gems[order[index]].cells <==> c in OptionCells(p)
      requires WellFormed(b0, boardWidth, boardHeight) && WellFormed(placedBoard, boardWidth, boardHeight)
      requires forall i, j | 0 <= i < boardWidth && 0 <= j < boardHeight && (i, j) in OptionCells(p) ::
                 b0[i][j].gem.None? && !b0[i][j].isExcludedFromGemSpawn
      requires forall i, j | 0 <= i < boardWidth && 0 <= j < boardHeight ::
                 placedBoard[i][j] == if (i, j) in OptionCells(p) then Covered(b0[i][j], order[index], false, placedBoard[i][j].stoneLayers)
                                      else b0[i][j]
      requires SameOccupancy(placedBoard, board, boardWidth, boardHeight)
      modifies this`board, this`gems, this`hiddenGems
      ensures Valid() && hiddenGems == order[..index]
      ensures gems == old(gems)[order[index] := old(gems[order[index]]).(cells := [])]
      ensures SameOccupancy(b0, board, boardWidth, boardHeight)
    {
      var gem := order[index];
      ghost var failedBoard := board;
      NoDuplicatesPrefix(order, index);
      assert order[..index + 1] == order[..index] + [gem];
      UndoPlacement(gem, order[..index]);
      CoverThenRemoveRestores(b0, placedBoard, failedBoard, board, boardWidth, boardHeight, OptionCells(p), gem);
    }

    /** RemoveGem of the gem last added to the hidden list, followed by List.Remove: the undo half of PlaceAttempt. */
    method UndoPlacement(g: Handle, prefix: seq<Handle>)
      requires Valid() && g < |gems| && g !in prefix && hiddenGems == prefix + [g]
      modifies this`board, this`gems, this`hiddenGems
      ensures Valid()
      ensures hiddenGems == prefix
      ensures gems == old(gems)[g := old(gems[g]).(cells := [])]
      ensures forall i, j | 0 <= i < boardWidth && 0 <= j < boardHeight ::
                if (i, j) in old(gems[g].cells) then
                  board[i][j] == old(board[i][j]).SetGem(None).SetStoneLayers(board[i][j].stoneLayers)
                else board[i][j] == old(board[i][j])
    {
      RemoveGem(g);
      RemoveFirstUndoesAppend(prefix, g);
      hiddenGems := RemoveFirst(hiddenGems, g);
    }

    /**
     * ValidateBoardCapacity: the oriented areas of the gems with a config
     * (gems without one are skipped, a gem without an orientation entry is
     * Horizontal) must not exceed 9/10 of the board.
     */
    method ValidateBoardCapacity(order: seq<Handle>, configs: seq<GemConfig>, orientations: map<Handle, GemOrientation>)
      returns (ok: bool)
      requires Valid() && AllHandles(gems, order)
      ensures ok <==> CAPACITY_DENOMINATOR * TotalArea(Specs(gems, configs, orientations, order))
                      <= CAPACITY_NUMERATOR * (boardWidth * boardHeight)
    {
      var totalBoardArea := boardWidth * boardHeight;
      var totalGemArea := 0;
      var k := 0;
      AllHandlesPrefix(gems, order, 0);
      while k < |order|
        invariant 0 <= k <= |order|
        invariant AllHandles(gems, order[..k]) && totalGemArea == TotalArea(Specs(gems, configs, orientations, order[..k]))
      {
        var gem := order[k];
        assert gem in order;
        AllHandlesPrefix(gems, order, k + 1);
        assert order[..k + 1] == order[..k] + [gem];
        assert Specs(gems, configs, orientations, order[..k + 1])
               == Specs(gems, configs, orientations, order[..k]) + [SpecOf(gems, configs, orientations, gem)];
        TotalAreaSnoc(Specs(gems, configs, orientations, order[..k]), SpecOf(gems, configs, orientations, gem));
        var config := GetGemConfig(configs, gems[gem].gemId);
        if config.Some? {
          var orientation := OrientationOf(orientations, gem);
          var gemArea := GetGemArea(config.value, orientation);
          totalGemArea := totalGemArea + gemArea;
        }
        k := k + 1;
      }
      assert order[..|order|] == order;
      ok := !(CAPACITY_DENOMINATOR * totalGemArea > CAPACITY_NUMERATOR * totalBoardArea);
    }

    /**
     * PlaceGemsRandomly of the older board: no gem is hidden, and when the
     * capacity test fails nothing else happens. Otherwise up to MAX_RETRIES
     * rounds (PackRound) each clear the board's gems, order the gems largest
     * first and run PlaceGemsRecursive. Success hides every gem exactly
     * once, largest first, each on one placement of its shape, with no two
     * sharing a cell; after the last failed round the board holds no gem.
     */
    method PlaceGemsRandomly(order: seq<Handle>, configs: seq<GemConfig>, orientations: map<Handle, GemOrientation>)
      returns (ok: bool, ghost attempts: nat, ghost placements: seq<PlacementOption>)
      requires Valid() && AllHandles(gems, order) && NoDuplicates(order)
      requires forall h | h in order :: gems[h].cells == []
      modifies this`board, this`gems, this`hiddenGems
      ensures Valid() && |gems| == old(|gems|)
      ensures forall h | 0 <= h < |gems| && h !in order :: gems[h] == old(gems[h])
      ensures var fits := CAPACITY_DENOMINATOR * TotalArea(Specs(old(gems), configs, orientations, order))
                          <= CAPACITY_NUMERATOR * (boardWidth * boardHeight);
              (!fits ==> !ok && attempts == 0 && hiddenGems == [] && board == old(board) && gems == old(gems))
              && (ok ==> fits && 1 <= attempts <= MAX_RETRIES)
              && (fits && !ok ==> attempts == MAX_RETRIES && hiddenGems == []
                                  && forall i, j | 0 <= i < boardWidth && 0 <= j < boardHeight :: board[i][j].gem.None?)
      ensures ok ==> multiset(hiddenGems) == multiset(order) && NoDuplicates(hiddenGems) && LargestFirst(gems, hiddenGems)
                     && Backed(board, boardWidth, boardHeight, gems, hiddenGems)
                     && |placements| == |hiddenGems|
                     && forall k | 0 <= k < |placements| ::
                          hiddenGems[k] < |gems| && CoversPlacement(hiddenGems[k], placements[k], configs, orientations)
    {
      attempts, placements := 0, [];
      hiddenGems := [];
      var fits := ValidateBoardCapacity(order, configs, orientations);
      if !fits {
        return false, 0, [];
      }
      var retry := 0;
      while retry < MAX_RETRIES
        invariant 0 <= retry <= MAX_RETRIES
        invariant Valid() && |gems| == old(|gems|) && hiddenGems == []
        invariant forall h | 0 <= h < |gems| :: gems[h] == old(gems[h]).(position := gems[h].position)
        invariant forall h | 0 <= h < |gems| && h !in order :: gems[h] == old(gems[h])
        invariant retry > 0 ==> forall i, j | 0 <= i < boardWidth && 0 <= j < boardHeight :: board[i][j].gem.None?
      {
        ok, placements := PackRound(order, configs, orientations);
        if ok {
          return true, retry + 1, placements;
        }
        retry := retry + 1;
      }
      return false, MAX_RETRIES, [];
    }

    /**
     * One round of PlaceGemsRandomly: ClearAllGems, a largest-first
     * permutation of the gems (either comparator; ties in any order), and
     * PlaceGemsRecursive on it. A failed round leaves no gem on the board
     * and none hidden.
     */
    method PackRound(order: seq<Handle>, configs: seq<GemConfig>, orientations: map<Handle, GemOrientation>)
      returns (ok: bool, ghost placements: seq<PlacementOption>)
      requires Valid() && AllHandles(gems, order) && NoDuplicates(order)
      requires forall h | h in order :: gems[h].cells == []
      modifies this`board, this`gems, this`hiddenGems
      ensures Valid() && |gems| == old(|gems|)
      ensures forall h | 0 <= h < |gems| && h !in order :: gems[h] == old(gems[h])
      ensures !ok ==> hiddenGems == [] && (forall h | 0 <= h < |gems| :: gems[h] == old(gems[h]).(position := gems[h].position))
                      && forall i, j | 0 <= i < boardWidth && 0 <= j < boardHeight :: board[i][j].gem.None?
      ensures ok ==> multiset(hiddenGems) == multiset(order) && NoDuplicates(hiddenGems) && LargestFirst(gems, hiddenGems)
                     && Backed(board, boardWidth, boardHeight, gems, hiddenGems)
                     && |placements| == |hiddenGems|
                     && forall k | 0 <= k < |placements| ::
                          hiddenGems[k] < |gems| && CoversPlacement(hiddenGems[k], placements[k], configs, orientations)
    {
      ClearAllGems();
      var sortedGems := SortLargestFirst(gems, order);
      SortedIsReady(order, sortedGems);
      ghost var sizes := gems;
      ok, placements := PlaceGemsRecursive(sortedGems, 0, configs, orientations);
      if ok {
        SizesKept(sizes, gems, sortedGems);
        forall k | 0 <= k < |placements|
          ensures hiddenGems[k] < |gems| && CoversPlacement(hiddenGems[k], placements[k], configs, orientations)
        {
          assert sortedGems[0 + k] == hiddenGems[k] && hiddenGems[k] in hiddenGems;
          assert CoversPlacement(sortedGems[0 + k], placements[k], configs, orientations);
        }
      }
    }

    /** A largest-first permutation of the given gems, on a cleared board, is where PlaceGemsRecursive starts. */
    lemma SortedIsReady(order: seq<Handle>, sortedGems: seq<Handle>)
      requires Valid() && AllHandles(gems, order) && NoDuplicates(order) && hiddenGems == []
      requires forall h | h in order :: gems[h].cells == []
      requires multiset(sortedGems) == multiset(order)
      ensures PackerReady(sortedGems, 0)
      ensures sortedGems[0..] == sortedGems && forall h | h in sortedGems :: h in order
    {
      NoDuplicatesPermutation(order, sortedGems);
      forall h | h in sortedGems ensures h in order {
        assert h in multiset(sortedGems);
      }
      assert sortedGems[..0] == [];
      forall k | 0 <= k < |sortedGems| ensures sortedGems[k] < |gems| && gems[sortedGems[k]].cells == [] {
        assert sortedGems[k] in sortedGems;
      }
    }

    // ------------------------------------------------------------ dig flow

    /** Gem.IsFullyRevealed on the engine's table: false for no cells, otherwise every listed cell is revealed. */
    method IsGemFullyRevealed(g: Handle) returns (r: bool)
      requires Valid() && g < |gems|
      ensures r <==> FullyRevealed(board, boardWidth, boardHeight, gems[g])
    {
      var cells := gems[g].cells;
      if |cells| == 0 {
        return false;
      }
      var k := 0;
      while k < |cells|
        invariant 0 <= k <= |cells|
        invariant forall m | 0 <= m < k :: board[cells[m].0][cells[m].1].isRevealed
      {
        assert InBoard(cells[k], boardWidth, boardHeight);
        if !board[cells[k].0][cells[k].1].isRevealed {
          return false;
        }
        k := k + 1;
      }
      return true;
    }

    /** CountRevealedGems: the hidden gems that are fully revealed and not collected, counted in list order. */
    method CountRevealedGems() returns (count: int)
      requires Valid()
      ensures count == RevealedCount(board, boardWidth, boardHeight, gems, hiddenGems)
    {
      count := 0;
      var k := 0;
      while k < |hiddenGems|
        invariant 0 <= k <= |hiddenGems|
        invariant count == RevealedCount(board, boardWidth, boardHeight, gems, hiddenGems[..k])
      {
        var gem := hiddenGems[k];
        assert gem in hiddenGems;
        assert hiddenGems[..k + 1][..k] == hiddenGems[..k];
        var full := IsGemFullyRevealed(gem);
        if full && !gems[gem].isCollected {
          count := count + 1;
        }
        k := k + 1;
      }
      assert hiddenGems[..k] == hiddenGems;
    }

    /**
     * ProcessGemReveal exactly as written: the roll, or the count rule
     * forcing a hit, decides whether a complete gem under the dug cell is
     * collected. The board and the hidden list do not change.
     */
    method ProcessGemRevealAsWritten(t: Coord, hitRoll: bool)
      requires Valid() && InBoard(t, boardWidth, boardHeight)
      modifies this`gems
      ensures Valid()
      ensures gems == RevealAsWritten(board, boardWidth, boardHeight, old(gems), hiddenGems, t, hitRoll)
    {
      var hitGem := hitRoll;
      if !hitGem {
        var revealedGems := CountRevealedGems();
        var totalGemsNeeded := |hiddenGems|;
        if revealedGems < totalGemsNeeded {
          hitGem := true;
        }
      }
      var occupant := board[t.0][t.1].gem;
      if hitGem && occupant.Some? && !gems[occupant.value].isCollected {
        var full := IsGemFullyRevealed(occupant.value);
        if full {
          gems := gems[occupant.value := gems[occupant.value].Collect()];
        }
      }
    }

    /**
     * ProcessGemReveal as intended: a gem under the dug cell that is not
     * collected and whose every cell is revealed is collected, whatever the
     * roll; otherwise nothing changes. Afterwards the cell holds no complete,
     * uncollected gem.
     */
    method ProcessGemReveal(t: Coord)
      requires Valid() && InBoard(t, boardWidth, boardHeight)
      modifies this`gems
      ensures Valid() && |gems| == old(|gems|)
      ensures var occupant := board[t.0][t.1].gem;
              gems == if CompletesGem(board, boardWidth, boardHeight, old(gems), t)
                      then old(gems)[occupant.value := old(gems[occupant.value]).Collect()] else old(gems)
      ensures OnlyCollected(old(gems), gems, board, boardWidth, boardHeight)
      ensures !CompletesGem(board, boardWidth, boardHeight, gems, t)
    {
      var occupant := board[t.0][t.1].gem;
      if occupant.Some? && !gems[occupant.value].isCollected {
        var full := IsGemFullyRevealed(occupant.value);
        if full {
          gems := gems[occupant.value := gems[occupant.value].Collect()];
        }
      }
    }

    /**
     * ExplodeDynamite: every in-bounds, unrevealed cell of the 3-by-3
     * neighbourhood of (x, y) is dug and then goes through ProcessGemReveal
     * as written, with a roll of its own; a dynamite cell among them does
     * not explode in turn. `trace` holds the scene before and after each of
     * the nine steps.
     */
    method ExplodeDynamite(x: int, y: int) returns (ghost trace: seq<Scene>)
      requires Valid()
      modifies this`board, this`gems
      ensures Valid()
      ensures BlastTraceAsWritten(boardWidth, boardHeight, hiddenGems, x, y, trace)
      ensures trace[0] == Scene(old(board), old(gems)) && trace[9] == Scene(board, gems)
      ensures BlastedUpTo(old(board), board, boardWidth, boardHeight, x, y, 2, -1)
      ensures OnlyCollected(old(gems), gems, board, boardWidth, boardHeight)
    {
      trace := [Scene(board, gems)];
      var i := -1;
      while i <= 1
        invariant -1 <= i <= 2
        invariant Valid()
        invariant |trace| == 1 + 3 * (i + 1) && trace[0] == Scene(old(board), old(gems))
        invariant trace[|trace| - 1] == Scene(board, gems)
        invariant forall k | 0 <= k < |trace| - 1 ::
                    BlastStepAsWritten(boardWidth, boardHeight, hiddenGems, trace[k], trace[k + 1], BlastTarget(x, y, k))
        invariant BlastedUpTo(old(board), board, boardWidth, boardHeight, x, y, i, -1)
        invariant OnlyCollected(old(gems), gems, board, boardWidth, boardHeight)
      {
        var j := -1;
        while j <= 1
          invariant -1 <= j <= 2
          invariant Valid()
          invariant |trace| == 1 + 3 * (i + 1) + (j + 1) && trace[0] == Scene(old(board), old(gems))
          invariant trace[|trace| - 1] == Scene(board, gems)
          invariant forall k | 0 <= k < |trace| - 1 ::
                      BlastStepAsWritten(boardWidth, boardHeight, hiddenGems, trace[k], trace[k + 1], BlastTarget(x, y, k))
          invariant BlastedUpTo(old(board), board, boardWidth, boardHeight, x, y, i, j)
          invariant OnlyCollected(old(gems), gems, board, boardWidth, boardHeight)
        {
          BlastTargetAt(x, y, i, j);
          BlastCell(x, y, i, j, old(board), old(gems));
          trace := trace + [Scene(board, gems)];
          j := j + 1;
        }
        i := i + 1;
      }
    }

    /**
     * One cell (x + i, y + j) of the explosion: when on the board and
     * unrevealed, dug and put through ProcessGemReveal as written with a
     * roll of its own.
     */
    method BlastCell(x: int, y: int, i: int, j: int, ghost b0: Grid, ghost g0: seq<GemRecord>)
      requires Valid() && WellFormed(b0, boardWidth, boardHeight)
      requires BlastedUpTo(b0, board, boardWidth, boardHeight, x, y, i, j)
      requires OnlyCollected(g0, gems, board, boardWidth, boardHeight)
      requires -1 <= i <= 1 && -1 <= j <= 1
      modifies this`board, this`gems
      ensures Valid()
      ensures BlastStepAsWritten(boardWidth, boardHeight, hiddenGems, Scene(old(board), old(gems)), Scene(board, gems), (x + i, y + j))
      ensures BlastedUpTo(b0, board, boardWidth, boardHeight, x, y, i, j + 1)
      ensures OnlyCollected(g0, gems, board, boardWidth, boardHeight)
    {
      var newX, newY := x + i, y + j;
      if 0 <= newX < boardWidth && 0 <= newY < boardHeight && !board[newX][newY].isRevealed {
        ghost var before := board;
        board := SetCell(board, newX, newY, board[newX][newY].Dig());
        OnlyCollectedGrows(g0, gems, before, board, boardWidth, boardHeight);
        ghost var mid := gems;
        var roll: bool :| true;
        ProcessGemRevealAsWritten((newX, newY), roll);
        OnlyCollectedTrans(g0, mid, gems, board, boardWidth, boardHeight);
      }
    }

    /**
     * DigCell, with the roll for the dug cell. A refused dig changes nothing
     * except that a pickaxe shortage asks for the "add pickaxes" popup. An
     * accepted dig debits exactly the cell's stone layers, digs the cell,
     * explodes a dynamite cell's neighbourhood (`trace`) and then runs
     * ProcessGemReveal as written on the cell; only gems whose every cell is
     * revealed get collected.
     */
    method DigCell(x: int, y: int, hitRoll: bool, ledger: PickaxeManager) returns (dug: bool, ghost trace: seq<Scene>)
      requires Valid()
      modifies this`board, this`gems, ledger
      ensures Valid()
      ensures dug <==> !old(DigRefusedAt(board, boardWidth, boardHeight, x, y, ledger.currentPickaxes))
      ensures !dug ==> board == old(board) && gems == old(gems) && ledger.currentPickaxes == old(ledger.currentPickaxes)
      ensures ledger.popupRequests == old(ledger.popupRequests) + (if !dug && InBoard((x, y), boardWidth, boardHeight)
                                        && !old(board[x][y].isRevealed) then 1 else 0)
      ensures dug ==> ledger.currentPickaxes == old(ledger.currentPickaxes) - old(board[x][y].stoneLayers)
      ensures dug && old(board[x][y].isDynamite) ==>
                BlastTraceAsWritten(boardWidth, boardHeight, hiddenGems, x, y, trace)
                && trace[0] == Scene(SetCell(old(board), x, y, old(board[x][y]).Dig()), old(gems))
                && board == trace[9].board
                && gems == RevealAsWritten(board, boardWidth, boardHeight, trace[9].gems, hiddenGems, (x, y), hitRoll)
      ensures dug && !old(board[x][y].isDynamite) ==>
                board == SetCell(old(board), x, y, old(board[x][y]).Dig())
                && gems == RevealAsWritten(board, boardWidth, boardHeight, old(gems), hiddenGems, (x, y), hitRoll)
      ensures OnlyCollected(old(gems), gems, board, boardWidth, boardHeight)
    {
      trace := [];
      if x < 0 || x >= boardWidth || y < 0 || y >= boardHeight {
        return false, trace;
      }
      var cell := board[x][y];
      if cell.isRevealed {
        return false, trace;
      }
      var pickaxesNeeded := cell.stoneLayers;
      if !ledger.HasEnoughPickaxes(pickaxesNeeded) {
        ledger.ShowAddPickaxePopup();
        return false, trace;
      }
      var _ := ledger.UsePickaxe(pickaxesNeeded);
      board := SetCell(board, x, y, cell.Dig());
      OnlyCollectedGrows(old(gems), gems, old(board), board, boardWidth, boardHeight);
      if cell.isDynamite {
        trace := ExplodeDynamite(x, y);
      }
      ghost var mid := gems;
      ProcessGemRevealAsWritten((x, y), hitRoll);
      OnlyCollectedTrans(old(gems), mid, gems, board, boardWidth, boardHeight);
      return true, trace;
    }
  }
}
