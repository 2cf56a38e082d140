/**
 * The board engine of Assets/Scripts/Manager/BoardManager.cs: a grid of
 * cells, the pool of gems not yet on the board (`unplacedGems`), the gems
 * already on it (`hiddenGems`), and the dig flow that reveals cells and
 * spawns pool gems lazily under the dug cell.
 *
 * The grid is a value (`Grid`) held in a field and updated cell by cell; a
 * gem is referred to by its index in the gem table `gems`, and a gem's cell
 * list holds the coordinates of its cells. Before a gem may be spawned, the
 * engine asks the backtracking search of `TestBoard` whether the rest of
 * the pool still fits on the cells left open; `Packable` is what a true
 * answer promises.
 */
module Board {
  import opened Wrappers
  import opened GemConfigs
  import opened StageConfigs
  import opened Cells
  import opened Gems
  import opened Placement
  import opened TestBoard
  import opened Pickaxes
  import opened GemOrder

  /** The pause the engine enforces between two digs, in milliseconds (0.3 s in the source). */
  const DIG_COOLDOWN_MS: int := 300
  /** The capacity test of the full-board packer lets gems use at most 9/10 of the board. */
  const CAPACITY_NUMERATOR: int := 9
  const CAPACITY_DENOMINATOR: int := 10
  /** PlaceGemsRandomly gives up after this many rounds. */
  const MAX_RETRIES: int := 50
  /** PlaceDynamiteRandomly gives up after this many random cells. */
  const MAX_DYNAMITE_ATTEMPTS: int := 100

  // ---------------------------------------------------------------- grid helpers

  predicate InBoard(c: Coord, width: int, height: int)
  {
    0 <= c.0 < width && 0 <= c.1 < height
  }

  /** The board with one cell replaced. */
  function SetCell(board: Grid, x: int, y: int, c: Cell<Handle>): (r: Grid)
    requires 0 <= x < |board| && 0 <= y < |board[x]|
    ensures |r| == |board| && forall i | 0 <= i < |board| :: |r[i]| == |board[i]|
    ensures forall i, j | 0 <= i < |r| && 0 <= j < |r[i]| :: r[i][j] == if i == x && j == y then c else board[i][j]
  {
    board[x := board[x][y := c]]
  }

  /**
   * The cells a scratch board marks open: gem-free, no dynamite, not
   * excluded, not revealed. The ignored cell, when there is one, only has
   * to be unexcluded and unrevealed (its gem and dynamite are not looked at).
   */
  predicate OpenForSearch(c: Cell<Handle>, pos: Coord, ignored: Option<Coord>)
  {
    if ignored == Some(pos) then !c.isExcludedFromGemSpawn && !c.isRevealed
    else c.gem.None? && !c.isDynamite && !c.isExcludedFromGemSpawn && !c.isRevealed
  }

  ghost function OpenCells(board: Grid, width: int, height: int, ignored: Option<Coord>): set<Coord>
    requires WellFormed(board, width, height)
  {
    set x, y | 0 <= x < width && 0 <= y < height && OpenForSearch(board[x][y], (x, y), ignored) :: (x, y)
  }

  /** What the search is told about a gem: the config of its id and its orientation entry. */
  function SpecOf(gems: seq<GemRecord>, configs: seq<GemConfig>, orientations: map<Handle, GemOrientation>, h: Handle)
    : GemSpec
    requires h < |gems|
  {
    GemSpec(GetGemConfig(configs, gems[h].gemId), OrientationOf(orientations, h))
  }

  predicate AllHandles(gems: seq<GemRecord>, hs: seq<Handle>)
  {
    forall h | h in hs :: h < |gems|
  }

  function Specs(gems: seq<GemRecord>, configs: seq<GemConfig>, orientations: map<Handle, GemOrientation>, hs: seq<Handle>)
    : (r: seq<GemSpec>)
    requires AllHandles(gems, hs)
    ensures |r| == |hs| && forall k | 0 <= k < |hs| :: hs[k] in hs && r[k] == SpecOf(gems, configs, orientations, hs[k])
  {
    seq(|hs|, k requires 0 <= k < |hs| => assert hs[k] in hs; SpecOf(gems, configs, orientations, hs[k]))
  }

  /** List.Remove: the first occurrence goes, the rest keep their order; without one, nothing changes. */
  function RemoveFirst(s: seq<Handle>, h: Handle): (r: seq<Handle>)
    ensures h !in s ==> r == s
    ensures forall x | x in r :: x in s
    ensures multiset(r) == multiset(s) - multiset{h}
    ensures |r| == if h in s then |s| - 1 else |s|
  {
    if |s| == 0 then s
    else
      assert s == [s[0]] + s[1..];
      if s[0] == h then s[1..] else [s[0]] + RemoveFirst(s[1..], h)
  }

  lemma NoDuplicatesTail(s: seq<Handle>)
    requires |s| > 0 && NoDuplicates(s)
    ensures NoDuplicates(s[1..]) && s[0] !in s[1..]
  {
    forall i, j | 0 <= i < j < |s[1..]| ensures s[1..][i] != s[1..][j] {
      assert s[1..][i] == s[i + 1] && s[1..][j] == s[j + 1];
    }
  }

  /** Removing a gem from a list leaves the other gems; from a duplicate-free list it removes that gem outright. */
  lemma {:induction false} RemoveFirstMembers(s: seq<Handle>, h: Handle)
    requires NoDuplicates(s)
    ensures forall x :: x in RemoveFirst(s, h) <==> x in s && x != h
    decreases |s|
  {
    if |s| > 0 {
      NoDuplicatesTail(s);
      assert forall x :: x in s <==> x == s[0] || x in s[1..];
      if s[0] != h {
        RemoveFirstMembers(s[1..], h);
        assert RemoveFirst(s, h) == [s[0]] + RemoveFirst(s[1..], h);
      }
    }
  }

  /** Removing a gem from a duplicate-free list keeps it duplicate-free. */
  lemma {:induction false} RemoveFirstNoDuplicates(s: seq<Handle>, h: Handle)
    requires NoDuplicates(s)
    ensures NoDuplicates(RemoveFirst(s, h))
    decreases |s|
  {
    if |s| > 0 {
      NoDuplicatesTail(s);
      if s[0] != h {
        RemoveFirstNoDuplicates(s[1..], h);
        RemoveFirstMembers(s[1..], h);
        var r := RemoveFirst(s[1..], h);
        assert RemoveFirst(s, h) == [s[0]] + r;
        assert s[0] !in r;
        forall i, j | 0 <= i < j < |[s[0]] + r| ensures ([s[0]] + r)[i] != ([s[0]] + r)[j] {
          if i > 0 {
            assert ([s[0]] + r)[i] == r[i - 1];
          }
          assert ([s[0]] + r)[j] == r[j - 1];
        }
      }
    }
  }

  /** The hidden gems that have been collected, in list order (GetCollectedGems). */
  function CollectedGems(gems: seq<GemRecord>, hidden: seq<Handle>): (r: seq<Handle>)
    requires AllHandles(gems, hidden)
    ensures |r| <= |hidden|
    ensures forall h :: h in r <==> h in hidden && gems[h].isCollected
  {
    if |hidden| == 0 then []
    else
      var last := hidden[|hidden| - 1];
      assert last in hidden;
      AllHandlesPrefix(gems, hidden, |hidden| - 1);
      var init := CollectedGems(gems, hidden[..|hidden| - 1]);
      assert hidden == hidden[..|hidden| - 1] + [last];
      if gems[last].isCollected then init + [last] else init
  }

  /** IsFullyRevealed read off the board: a non-empty cell list, every entry on the board and revealed. */
  predicate FullyRevealed(board: Grid, width: int, height: int, g: GemRecord)
    requires WellFormed(board, width, height)
  {
    |g.cells| > 0 && forall k | 0 <= k < |g.cells| :: InBoard(g.cells[k], width, height) && board[g.cells[k].0][g.cells[k].1].isRevealed
  }

  /** `Random.Range(0, 2) == 0 ? 1 : 2`: one or two stone layers. */
  method RandomStoneLayers() returns (layers: int)
    ensures layers == 1 || layers == 2
  {
    var coin: bool :| true;
    layers := if coin then 1 else 2;
  }

  /** The cells of the rectangle at (x0, y0) that the column-major double loop has visited before (x0 + i, y0 + j). */
  predicate Visited(c: Coord, x0: int, y0: int, h: int, i: int, j: int)
  {
    x0 <= c.0 && y0 <= c.1 < y0 + h && (c.0 < x0 + i || (c.0 == x0 + i && c.1 < y0 + j))
  }

  /** Two boards agree on everything a placement test or a dig looks at: gem, exclusion, reveal, dynamite. */
  predicate SameOccupancy(b1: Grid, b2: Grid, width: int, height: int)
    requires WellFormed(b1, width, height) && WellFormed(b2, width, height)
  {
    forall i, j | 0 <= i < width && 0 <= j < height ::
      b1[i][j].gem == b2[i][j].gem && b1[i][j].isExcludedFromGemSpawn == b2[i][j].isExcludedFromGemSpawn
      && b1[i][j].isRevealed == b2[i][j].isRevealed && b1[i][j].isDynamite == b2[i][j].isDynamite
  }

  /** Two boards agree on what digging reads and writes: reveal, dynamite and stone layers. */
  predicate SameDigState(b1: Grid, b2: Grid, width: int, height: int)
    requires WellFormed(b1, width, height) && WellFormed(b2, width, height)
  {
    forall i, j | 0 <= i < width && 0 <= j < height ::
      b1[i][j].isRevealed == b2[i][j].isRevealed && b1[i][j].isDynamite == b2[i][j].isDynamite
      && b1[i][j].stoneLayers == b2[i][j].stoneLayers
  }

  /** Boards that agree on occupancy admit the same rectangles under every rule. */
  lemma SameOccupancyAdmits(b1: Grid, b2: Grid, width: int, height: int, x: int, y: int, w: int, h: int, rule: Rule)
    requires WellFormed(b1, width, height) && WellFormed(b2, width, height)
    requires SameOccupancy(b1, b2, width, height)
    ensures RectAdmits(b1, x, y, w, h, rule) <==> RectAdmits(b2, x, y, w, h, rule)
  {
    forall i, j | x <= i < x + w && y <= j < y + h ensures AdmitsAt(b1, i, j, rule) <==> AdmitsAt(b2, i, j, rule) {
      if 0 <= i < width && 0 <= j < height {
        assert b1[i][j].gem == b2[i][j].gem;
      }
    }
  }

  /** Placing a gem on a rectangle takes exactly that rectangle away from the open cells. */
  lemma OpenAfterPlacing(b1: Grid, b2: Grid, width: int, height: int, rect: set<Coord>, g: Handle)
    requires WellFormed(b1, width, height) && WellFormed(b2, width, height)
    requires forall c | c in rect :: InBoard(c, width, height)
    requires forall i, j | 0 <= i < width && 0 <= j < height ::
               b2[i][j] == if (i, j) in rect then b1[i][j].SetGem(Some(g)) else b1[i][j]
    ensures OpenCells(b2, width, height, None) == OpenCells(b1, width, height, None) - rect
  {
    forall c | c in OpenCells(b2, width, height, None) ensures c in OpenCells(b1, width, height, None) - rect {
    }
    forall c | c in OpenCells(b1, width, height, None) - rect ensures c in OpenCells(b2, width, height, None) {
    }
  }

  /** What the search is told about a gem depends only on its id. */
  lemma SpecsSameIds(g1: seq<GemRecord>, g2: seq<GemRecord>, configs: seq<GemConfig>,
                     orientations: map<Handle, GemOrientation>, hs: seq<Handle>)
    requires |g1| == |g2| && forall m | 0 <= m < |g1| :: g1[m].gemId == g2[m].gemId
    requires AllHandles(g1, hs)
    ensures Specs(g1, configs, orientations, hs) == Specs(g2, configs, orientations, hs)
  {
    assert AllHandles(g2, hs);
    forall k | 0 <= k < |hs|
      ensures Specs(g1, configs, orientations, hs)[k] == Specs(g2, configs, orientations, hs)[k]
    {
      assert hs[k] in hs;
    }
  }

  /** The targeted rule does not look at exclusion flags, so clearing them changes nothing it admits. */
  lemma AroundTargetIgnoresExclusion(b1: Grid, b2: Grid, width: int, height: int, x: int, y: int, w: int, h: int, t: Coord)
    requires WellFormed(b1, width, height) && WellFormed(b2, width, height)
    requires forall i, j | 0 <= i < width && 0 <= j < height ::
               b2[i][j].gem == b1[i][j].gem && b2[i][j].isRevealed == b1[i][j].isRevealed && b2[i][j].isDynamite == b1[i][j].isDynamite
    ensures RectAdmits(b1, x, y, w, h, AroundTarget(t)) <==> RectAdmits(b2, x, y, w, h, AroundTarget(t))
  {
    forall i, j | x <= i < x + w && y <= j < y + h
      ensures AdmitsAt(b1, i, j, AroundTarget(t)) <==> AdmitsAt(b2, i, j, AroundTarget(t))
    {
      if 0 <= i < width && 0 <= j < height {
        assert b1[i][j].gem == b2[i][j].gem;
      }
    }
  }

  lemma SameDigStateTrans(b1: Grid, b2: Grid, b3: Grid, width: int, height: int)
    requires WellFormed(b1, width, height) && WellFormed(b2, width, height) && WellFormed(b3, width, height)
    requires SameDigState(b1, b2, width, height) && SameDigState(b2, b3, width, height)
    ensures SameDigState(b1, b3, width, height)
  {
  }

  /** Whether (i, j) lies in the 3-by-3 neighbourhood of (x, y) at offset (a, b) reached before offset (di, dj), `a` outer. */
  predicate BlastedBefore(i: int, j: int, x: int, y: int, di: int, dj: int)
  {
    -1 <= i - x <= 1 && -1 <= j - y <= 1 && (i - x < di || (i - x == di && j - y < dj))
  }

  /** The cell step `k` (0 to 8) of an explosion at (x, y) reaches: offsets -1 to 1, the x offset outer. */
  function BlastTarget(x: int, y: int, k: int): Coord
  {
    (x + k / 3 - 1, y + k % 3 - 1)
  }

  /** The double loop visits offset (i, j) at step 3 (i + 1) + (j + 1). */
  lemma BlastTargetAt(x: int, y: int, i: int, j: int)
    requires -1 <= i <= 1 && -1 <= j <= 1
    ensures BlastTarget(x, y, 3 * (i + 1) + (j + 1)) == (x + i, y + j)
  {
  }

  /**
   * The dig state of `b` is that of `b0` with every unrevealed cell of the
   * neighbourhood reached before (di, dj) dug: revealed, no stone layers left.
   */
  predicate DugBefore(b0: Grid, b: Grid, width: int, height: int, x: int, y: int, di: int, dj: int)
    requires WellFormed(b0, width, height) && WellFormed(b, width, height)
  {
    forall i, j | 0 <= i < width && 0 <= j < height ::
      b[i][j].isDynamite == b0[i][j].isDynamite
      && b[i][j].isRevealed == (b0[i][j].isRevealed || BlastedBefore(i, j, x, y, di, dj))
      && b[i][j].stoneLayers == (if BlastedBefore(i, j, x, y, di, dj) && !b0[i][j].isRevealed then 0 else b0[i][j].stoneLayers)
  }

  /** Later steps that keep the dig state keep what DugBefore says. */
  lemma DugBeforeStable(b0: Grid, b1: Grid, b2: Grid, width: int, height: int, x: int, y: int, di: int, dj: int)
    requires WellFormed(b0, width, height) && WellFormed(b1, width, height) && WellFormed(b2, width, height)
    requires DugBefore(b0, b1, width, height, x, y, di, dj) && SameDigState(b1, b2, width, height)
    ensures DugBefore(b0, b2, width, height, x, y, di, dj)
  {
  }

  /** What stays fixed through a dig: the board size, the stage's gem configs and the gems' orientation entries. */
  datatype Setting = Setting(width: int, height: int, configs: seq<GemConfig>, orientations: map<Handle, GemOrientation>)

  /** What a dig reads and writes: the board, the gem table, the two gem lists and the OnGemCollected events. */
  datatype EngineState = EngineState(board: Grid, gems: seq<GemRecord>, unplaced: seq<Handle>, hidden: seq<Handle>,
                                     events: seq<Handle>)

  /** `board` with the exclusion flag of the cell `t` cleared, as the spawners do first. */
  function ResetAt(board: Grid, t: Coord): Grid
    requires 0 <= t.0 < |board| && 0 <= t.1 < |board[t.0]|
  {
    SetCell(board, t.0, t.1, board[t.0][t.1].ResetExcludedFromGemSpawn())
  }

  /** Clearing the flag of a cell whose flag is already clear changes nothing. */
  lemma ResetAtTwice(board: Grid, t: Coord)
    requires 0 <= t.0 < |board| && 0 <= t.1 < |board[t.0]|
    ensures ResetAt(ResetAt(board, t), t) == ResetAt(board, t)
  {
    var c := board[t.0][t.1].ResetExcludedFromGemSpawn();
    var row := board[t.0][t.1 := c];
    assert ResetAt(board, t)[t.0][t.1] == c;
    assert c.ResetExcludedFromGemSpawn() == c;
    assert row[t.1 := c] == row;
  }

  /**
   * The spawn of gem `g` on the placement `p` took the board `b0` and the gem
   * table `g0` to `b1` and `g1`: exactly the placement's cells come to hold
   * the gem (SetGem also clears their exclusion flag), the gem lists exactly
   * those cells and takes the placement's corner as its position, and every
   * other cell and every other gem is unchanged.
   */
  ghost predicate SpawnedOn(b0: Grid, g0: seq<GemRecord>, b1: Grid, g1: seq<GemRecord>, width: int, height: int,
                            g: Handle, p: PlacementOption)
  {
    WellFormed(b0, width, height) && WellFormed(b1, width, height)
    && OnBoard(p, width, height) && g < |g0| && |g1| == |g0|
    && (forall m | 0 <= m < |g0| && m != g :: g1[m] == g0[m])
    && g1[g] == g0[g].(cells := g1[g].cells, position := (p.x, p.y))
    && (forall c :: c in g1[g].cells <==> c in OptionCells(p))
    && forall i, j | 0 <= i < width && 0 <= j < height ::
         b1[i][j] == if (i, j) in OptionCells(p) then b0[i][j].SetGem(Some(g)) else b0[i][j]
  }

  /** The placement has the shape of the gem's config in the gem's orientation. */
  predicate ConfiguredShape(configs: seq<GemConfig>, orientations: map<Handle, GemOrientation>, gems: seq<GemRecord>,
                            g: Handle, p: PlacementOption)
    requires g < |gems|
  {
    var config := GetGemConfig(configs, gems[g].gemId);
    config.Some? && HasShape(p, config.value, OrientationOf(orientations, g))
  }

  /**
   * A gem spawned by ProcessGemReveal: the gem, its placement, and how it was
   * found. Stage 0 is SpawnGemAtExactCell; stages 1 to 3 are those of
   * ForceSpawnGemAtCellIgnoringRemainingGems.
   */
  datatype Spawn = Spawn(gem: Handle, at: PlacementOption, stage: nat)

  /**
   * ProcessGemReveal on cell `t` took `s0` to `s1` with the given roll. A
   * cell holding an uncollected gem only collects it, firing the event,
   * exactly when the gem is fully revealed. Any other cell: a miss is forced
   * into a hit (`forced`) only with a non-empty pool, and always when the
   * pool does not pack without the cell; an unforced miss marks the cell
   * excluded (`marked`), which happens only when the pool packs without it;
   * a spawn moves one pool gem (`spawned`) to the end of the hidden list,
   * only on a hit, and puts it on a placement of its shape on the board with
   * the cell's exclusion flag cleared; that placement contains the cell
   * unless the gem came from the last two stages of the forced spawn, and the
   * rest of the pool still packs unless it came from the last. Without a
   * spawn the gems and lists stay, and the board is the old one with the
   * cell's flag cleared (a non-empty pool) or untouched, unless the cell was
   * marked. In every case no dig state changes and the total of gems needed
   * stays.
   */
  ghost predicate Processed(env: Setting, s0: EngineState, s1: EngineState, t: Coord, hitRoll: bool,
                            forced: bool, marked: bool, spawned: Option<Spawn>)
  {
    WellFormed(s0.board, env.width, env.height) && WellFormed(s1.board, env.width, env.height)
    && InBoard(t, env.width, env.height) && AllHandles(s0.gems, s0.unplaced)
    && |s1.unplaced| + |s1.hidden| == |s0.unplaced| + |s0.hidden|
    && SameDigState(s0.board, s1.board, env.width, env.height)
    && var occupant := s0.board[t.0][t.1].gem;
       var fits := Packable(OpenCells(s0.board, env.width, env.height, Some(t)),
                            Specs(s0.gems, env.configs, env.orientations, s0.unplaced));
       if occupant.Some? && occupant.value < |s0.gems| && !s0.gems[occupant.value].isCollected then
         var g := occupant.value;
         s1.board == s0.board && s1.unplaced == s0.unplaced && s1.hidden == s0.hidden
         && !forced && !marked && spawned.None?
         && if FullyRevealed(s0.board, env.width, env.height, s0.gems[g])
            then s1.gems == s0.gems[g := s0.gems[g].Collect()] && s1.events == s0.events + [g]
            else s1.gems == s0.gems && s1.events == s0.events
       else
         s1.events == s0.events
         && (forced ==> !hitRoll && |s0.unplaced| > 0)
         && (!hitRoll && |s0.unplaced| > 0 && !fits ==> forced)
         && (marked <==> !hitRoll && !forced)
         && (marked ==> s1.board == SetCell(s0.board, t.0, t.1, s0.board[t.0][t.1].MarkAsExcludedFromGemSpawn())
                        && (|s0.unplaced| == 0 || fits))
         && (spawned.Some? ==>
               var sp := spawned.value;
               (hitRoll || forced) && sp.gem in s0.unplaced && sp.stage <= 3
               && s1.unplaced == RemoveFirst(s0.unplaced, sp.gem) && s1.hidden == s0.hidden + [sp.gem]
               && SpawnedOn(ResetAt(s0.board, t), s0.gems, s1.board, s1.gems, env.width, env.height, sp.gem, sp.at)
               && ConfiguredShape(env.configs, env.orientations, s0.gems, sp.gem, sp.at)
               && (sp.stage <= 1 ==> ContainsCell(sp.at, t))
               && (sp.stage <= 2 ==> AllHandles(s1.gems, s1.unplaced)
                                     && Packable(OpenCells(s1.board, env.width, env.height, None),
                                                 Specs(s1.gems, env.configs, env.orientations, s1.unplaced))))
         && (spawned.None? ==> s1.gems == s0.gems && s1.unplaced == s0.unplaced && s1.hidden == s0.hidden
                               && (!marked ==> s1.board == if |s0.unplaced| > 0 then ResetAt(s0.board, t) else s0.board))
  }

  /** `s` with the cell `c` dug. */
  function DigAt(s: EngineState, c: Coord): EngineState
    requires 0 <= c.0 < |s.board| && 0 <= c.1 < |s.board[c.0]|
  {
    s.(board := SetCell(s.board, c.0, c.1, s.board[c.0][c.1].Dig()))
  }

  /**
   * One step of an explosion, on the cell `c`: when it is on the board and
   * unrevealed it is dug and goes through ProcessGemReveal with some roll;
   * otherwise nothing changes.
   */
  ghost predicate BlastStep(env: Setting, s0: EngineState, s1: EngineState, c: Coord)
  {
    if WellFormed(s0.board, env.width, env.height) && InBoard(c, env.width, env.height) && !s0.board[c.0][c.1].isRevealed then
      exists hitRoll, forced, marked, spawned :: Processed(env, DigAt(s0, c), s1, c, hitRoll, forced, marked, spawned)
    else
      s1 == s0
  }

  /** Each state of `trace` after the first follows from the one before by the step of an explosion at (x, y). */
  ghost predicate BlastSteps(env: Setting, x: int, y: int, trace: seq<EngineState>)
  {
    forall k | 0 <= k < |trace| - 1 :: BlastStep(env, trace[k], trace[k + 1], BlastTarget(x, y, k))
  }

  /** An explosion at (x, y): `trace` holds the state before each of its nine steps and after the last. */
  ghost predicate BlastTrace(env: Setting, x: int, y: int, trace: seq<EngineState>)
  {
    |trace| == 10 && BlastSteps(env, x, y, trace)
  }

  /** A trace of explosion steps grows by one step. */
  lemma BlastStepsSnoc(env: Setting, x: int, y: int, trace: seq<EngineState>, s: EngineState)
    requires |trace| > 0 && BlastSteps(env, x, y, trace)
    requires BlastStep(env, trace[|trace| - 1], s, BlastTarget(x, y, |trace| - 1))
    ensures BlastSteps(env, x, y, trace + [s])
  {
    var t := trace + [s];
    forall k | 0 <= k < |t| - 1 ensures BlastStep(env, t[k], t[k + 1], BlastTarget(x, y, k)) {
      if k < |trace| - 1 {
        assert t[k] == trace[k] && t[k + 1] == trace[k + 1];
      }
    }
  }

  /** Every cell a listed gem records is on the board and holds that gem: the board's back-pointers agree with the gems' cell lists. */
  ghost predicate Backed(board: Grid, width: int, height: int, gems: seq<GemRecord>, hs: seq<Handle>)
    requires WellFormed(board, width, height) && AllHandles(gems, hs)
  {
    forall h, c | h in hs && c in gems[h].cells ::
      InBoard(c, width, height) && board[c.0][c.1].gem == Some(h)
  }

  /** With back-pointers in place, no two different listed gems share a cell. */
  lemma BackedGemsAreDisjoint(board: Grid, width: int, height: int, gems: seq<GemRecord>, hs: seq<Handle>)
    requires WellFormed(board, width, height) && AllHandles(gems, hs)
    requires Backed(board, width, height, gems, hs)
    ensures forall h1, h2, c | h1 in hs && h2 in hs && h1 != h2 && c in gems[h1].cells :: c !in gems[h2].cells
  {
    forall h1, h2, c | h1 in hs && h2 in hs && h1 != h2 && c in gems[h1].cells ensures c !in gems[h2].cells {
      assert board[c.0][c.1].gem == Some(h1);
    }
  }

  /**
   * Placing a gem on a gem-free, unexcluded rectangle, whatever happens
   * next with occupancy kept, and then removing it from that rectangle
   * again, leaves occupancy as it was before the placement.
   */
  lemma PlaceThenRemoveRestores(b0: Grid, b1: Grid, b2: Grid, b3: Grid, width: int, height: int, rect: set<Coord>, g: Handle)
    requires WellFormed(b0, width, height) && WellFormed(b1, width, height)
    requires WellFormed(b2, width, height) && WellFormed(b3, width, height)
    requires forall i, j | 0 <= i < width && 0 <= j < height && (i, j) in rect ::
               b0[i][j].gem.None? && !b0[i][j].isExcludedFromGemSpawn
    requires forall i, j | 0 <= i < width && 0 <= j < height ::
               b1[i][j] == if (i, j) in rect then b0[i][j].SetGem(Some(g)) else b0[i][j]
    requires SameOccupancy(b1, b2, width, height)
    requires forall i, j | 0 <= i < width && 0 <= j < height ::
               if (i, j) in rect then b3[i][j] == b2[i][j].SetGem(None).SetStoneLayers(b3[i][j].stoneLayers)
               else b3[i][j] == b2[i][j]
    ensures SameOccupancy(b0, b3, width, height)
  {
  }

  /** List.Remove undoes List.Add of an element that was not in the list. */
  lemma {:induction false} RemoveFirstUndoesAppend(s: seq<Handle>, h: Handle)
    requires h !in s
    ensures RemoveFirst(s + [h], h) == s
    decreases |s|
  {
    if |s| > 0 {
      assert (s + [h])[1..] == s[1..] + [h];
      RemoveFirstUndoesAppend(s[1..], h);
      assert s == [s[0]] + s[1..];
    }
  }

  /** In a list without duplicates, an element does not occur after its own position. */
  lemma NoDuplicatesSuffix(s: seq<Handle>, i: int)
    requires NoDuplicates(s) && 0 <= i < |s|
    ensures s[i] !in s[i + 1..]
  {
    var t := s[i + 1..];
    forall k | 0 <= k < |t| ensures t[k] != s[i] {
      assert t[k] == s[i + 1 + k];
    }
  }

  /** In a list without duplicates, an element does not occur before its own position. */
  lemma NoDuplicatesPrefix(s: seq<Handle>, i: int)
    requires NoDuplicates(s) && 0 <= i < |s|
    ensures s[i] !in s[..i]
  {
    forall k | 0 <= k < i ensures s[..i][k] != s[i] {
      assert s[..i][k] == s[k];
    }
  }

  /** Every position of a list of handles holds a handle of the gem table. */
  lemma AllHandlesAt(gems: seq<GemRecord>, s: seq<Handle>)
    requires AllHandles(gems, s)
    ensures forall k | 0 <= k < |s| :: s[k] < |gems|
  {
    forall k | 0 <= k < |s| ensures s[k] < |gems| {
      assert s[k] in s;
    }
  }

  /** A prefix of a list of handles holds only handles of the list. */
  lemma AllHandlesPrefix(gems: seq<GemRecord>, s: seq<Handle>, k: int)
    requires AllHandles(gems, s) && 0 <= k <= |s|
    ensures AllHandles(gems, s[..k])
  {
    forall h | h in s[..k] ensures h < |gems| {
      var i :| 0 <= i < k && s[..k][i] == h;
      assert s[i] == h && s[i] in s;
    }
  }

  /** The largest-first order only looks at the gems' dimensions. */
  lemma SizesKept(g1: seq<GemRecord>, g2: seq<GemRecord>, s: seq<Handle>)
    requires |g1| == |g2| && LargestFirst(g1, s)
    requires forall h | 0 <= h < |g2| :: g2[h] == g1[h].(cells := g2[h].cells, position := g2[h].position)
    ensures LargestFirst(g2, s)
  {
    forall i, j | 0 <= i < j < |s| ensures SizeOrdered(g2, s[i], s[j]) {
      assert SizeOrdered(g1, s[i], s[j]);
      SizeKept(g1, g2, s[i]);
      SizeKept(g1, g2, s[j]);
    }
  }

  lemma SizeKept(g1: seq<GemRecord>, g2: seq<GemRecord>, h: Handle)
    requires h < |g1| == |g2| && g2[h] == g1[h].(cells := g2[h].cells, position := g2[h].position)
    ensures Size(g2, h) == Size(g1, h)
  {
    assert g2[h].width == g1[h].width && g2[h].height == g1[h].height;
  }

  // ---------------------------------------------------------------- the engine

  class BoardManager {
    var board: Grid
    var boardWidth: int
    var boardHeight: int
    /** Every gem object the engine refers to; the lists below hold indexes into it. */
    var gems: seq<GemRecord>
    var hiddenGems: seq<Handle>
    var unplacedGems: seq<Handle>
    var dynamitePositions: seq<Coord>
    /** The gem configs of the loaded stage (gemConfigData) and each gem's orientation entry. */
    var gemConfigs: seq<GemConfig>
    var gemOrientations: map<Handle, GemOrientation>
    var isInputEnabled: bool
    /** When the last accepted dig happened, in milliseconds. */
    var lastDigTime: int
    /** The gems announced through OnGemCollected, in order. */
    ghost var collectedEvents: seq<Handle>

    /** The engine's shape invariant: a board of the recorded size and only handles into the gem table. */
    ghost predicate Valid()
      reads this
    {
      WellFormed(board, boardWidth, boardHeight)
      && AllHandles(gems, hiddenGems) && AllHandles(gems, unplacedGems)
      && (forall i, j | 0 <= i < boardWidth && 0 <= j < boardHeight ::
            board[i][j].gem.Some? ==> board[i][j].gem.value < |gems|)
      && (forall h, k | 0 <= h < |gems| && 0 <= k < |gems[h].cells| :: InBoard(gems[h].cells[k], boardWidth, boardHeight))
    }

    /**
     * The lazy-spawn flow's pool invariant: no gem is twice in the pool and
     * a pool gem holds no cells yet.
     */
    ghost predicate PoolReady()
      reads this
      requires Valid()
    {
      NoDuplicates(unplacedGems) && forall h | h in unplacedGems :: gems[h].cells == []
    }

    /** The open cells the search is given: the board's own, with `ignored` treated as gem-free. */
    ghost function Open(ignored: Option<Coord>): set<Coord>
      reads this
      requires Valid()
    {
      OpenCells(board, boardWidth, boardHeight, ignored)
    }

    /** What the search is told about the pool. */
    function PoolSpecs(pool: seq<Handle>): seq<GemSpec>
      reads this
      requires AllHandles(gems, pool)
    {
      Specs(gems, gemConfigs, gemOrientations, pool)
    }

    /** GetTotalGemsNeeded: the gems still in the pool plus those on the board. */
    function GetTotalGemsNeeded(): (total: int)
      reads this
      ensures total >= 0 && (total == 0 <==> unplacedGems == [] && hiddenGems == [])
    {
      |unplacedGems| + |hiddenGems|
    }

    /** The part of the engine a dig leaves alone. */
    function Env(): Setting
      reads this
    {
      Setting(boardWidth, boardHeight, gemConfigs, gemOrientations)
    }

    /** The part of the engine a dig changes. */
    ghost function Snapshot(): EngineState
      reads this
    {
      EngineState(board, gems, unplacedGems, hiddenGems, collectedEvents)
    }

    constructor ()
      ensures Valid() && PoolReady()
      ensures board == [] && boardWidth == 0 && boardHeight == 0 && gems == []
      ensures hiddenGems == [] && unplacedGems == [] && dynamitePositions == []
      ensures isInputEnabled && lastDigTime == 0 && collectedEvents == []
    {
      board, boardWidth, boardHeight := [], 0, 0;
      gems, hiddenGems, unplacedGems, dynamitePositions := [], [], [], [];
      gemConfigs, gemOrientations := [], map[];
      isInputEnabled, lastDigTime := true, 0;
      collectedEvents := [];
    }

    method SetInputEnabled(enabled: bool)
      modifies this`isInputEnabled
      ensures isInputEnabled == enabled
      ensures old(Valid()) ==> Valid() && (old(PoolReady()) ==> PoolReady())
    {
      isInputEnabled := enabled;
    }

    /**
     * InitializeBoard: a width-by-height board of freshly initialised cells,
     * each given one or two stone layers at random; the gem lists and the
     * dynamite list start empty and input is enabled.
     */
    method InitializeBoard(width: int, height: int)
      requires width >= 0 && height >= 0
      modifies this
      ensures Valid() && PoolReady()
      ensures boardWidth == width && boardHeight == height
      ensures forall x, y | 0 <= x < width && 0 <= y < height ::
                var c := board[x][y];
                (c.stoneLayers == 1 || c.stoneLayers == 2)
                && c == InitializedCell<Handle>(x, y).SetStoneLayers(c.stoneLayers)
      ensures gems == [] && hiddenGems == [] && unplacedGems == [] && dynamitePositions == []
      ensures isInputEnabled
      ensures gemConfigs == old(gemConfigs) && gemOrientations == old(gemOrientations)
      ensures lastDigTime == old(lastDigTime) && collectedEvents == old(collectedEvents)
    {
      var cells: Grid := [];
      var x := 0;
      while x < width
        invariant 0 <= x <= width && |cells| == x
        modifies {}
        invariant forall a | 0 <= a < x :: |cells[a]| == height
        invariant forall a, b | 0 <= a < x && 0 <= b < height ::
                    (cells[a][b].stoneLayers == 1 || cells[a][b].stoneLayers == 2)
                    && cells[a][b] == InitializedCell<Handle>(a, b).SetStoneLayers(cells[a][b].stoneLayers)
      {
        var column: seq<Cell<Handle>> := [];
        var y := 0;
        while y < height
          invariant 0 <= y <= height && |column| == y
          modifies {}
          invariant forall b | 0 <= b < y ::
                      (column[b].stoneLayers == 1 || column[b].stoneLayers == 2)
                      && column[b] == InitializedCell<Handle>(x, b).SetStoneLayers(column[b].stoneLayers)
        {
          var layers := RandomStoneLayers();
          column := column + [InitializedCell<Handle>(x, y).SetStoneLayers(layers)];
          y := y + 1;
        }
        cells := cells + [column];
        x := x + 1;
      }
      board, boardWidth, boardHeight := cells, width, height;
      gems, hiddenGems, unplacedGems, dynamitePositions := [], [], [], [];
      isInputEnabled := true;
    }

    /** ClearAllGems: every cell drops its gem (nothing else about it changes) and no gem is hidden. */
    method ClearAllGems()
      requires Valid()
      modifies this`board, this`hiddenGems
      ensures Valid()
      ensures |board| == |old(board)| && forall i | 0 <= i < |board| :: |board[i]| == |old(board)[i]|
      ensures forall i, j | 0 <= i < boardWidth && 0 <= j < boardHeight :: board[i][j] == old(board)[i][j].SetGem(None)
      ensures hiddenGems == []
      ensures old(PoolReady()) ==> PoolReady()
    {
      var x := 0;
      while x < boardWidth
        invariant 0 <= x <= boardWidth
        invariant WellFormed(board, boardWidth, boardHeight)
        invariant forall i, j | 0 <= i < boardWidth && 0 <= j < boardHeight ::
                    board[i][j] == if i < x then old(board)[i][j].SetGem(None) else old(board)[i][j]
      {
        var y := 0;
        while y < boardHeight
          invariant 0 <= y <= boardHeight
          invariant WellFormed(board, boardWidth, boardHeight)
          invariant forall i, j | 0 <= i < boardWidth && 0 <= j < boardHeight ::
                      board[i][j] == if i < x || (i == x && j < y) then old(board)[i][j].SetGem(None) else old(board)[i][j]
        {
          if board[x][y].gem.Some? {
            board := SetCell(board, x, y, board[x][y].SetGem(None));
          }
          y := y + 1;
        }
        x := x + 1;
      }
      hiddenGems := [];
    }

    /**
     * InitializeGemPool: the board drops every gem, the given gems become the
     * pool, in order, and the configs and orientations are stored; no gem is
     * hidden.
     */
    method InitializeGemPool(newGems: seq<GemRecord>, configs: seq<GemConfig>, orientations: map<Handle, GemOrientation>)
      requires Valid()
      requires forall k | 0 <= k < |newGems| :: newGems[k].cells == []
      modifies this
      ensures Valid() && PoolReady()
      ensures gems == newGems && |unplacedGems| == |newGems| && forall k | 0 <= k < |newGems| :: unplacedGems[k] == k
      ensures hiddenGems == [] && gemConfigs == configs && gemOrientations == orientations
      ensures boardWidth == old(boardWidth) && boardHeight == old(boardHeight)
      ensures forall i, j | 0 <= i < boardWidth && 0 <= j < boardHeight :: board[i][j] == old(board)[i][j].SetGem(None)
      ensures dynamitePositions == old(dynamitePositions) && isInputEnabled == old(isInputEnabled)
      ensures lastDigTime == old(lastDigTime) && collectedEvents == old(collectedEvents)
    {
      ClearAllGems();
      gems := newGems;
      unplacedGems := seq(|newGems|, k requires 0 <= k < |newGems| => k);
      gemConfigs := configs;
      gemOrientations := orientations;
      hiddenGems := [];
    }

    /** GetCollectedGems: the collected gems among the hidden ones, in their order. */
    method GetCollectedGems() returns (collected: seq<Handle>)
      requires Valid()
      ensures collected == CollectedGems(gems, hiddenGems)
    {
      collected := [];
      var k := 0;
      while k < |hiddenGems|
        invariant 0 <= k <= |hiddenGems|
        invariant AllHandles(gems, hiddenGems[..k])
        invariant collected == CollectedGems(gems, hiddenGems[..k])
      {
        assert hiddenGems[k] in hiddenGems;
        assert hiddenGems[..k + 1] == hiddenGems[..k] + [hiddenGems[k]];
        assert hiddenGems[..k + 1][..k] == hiddenGems[..k];
        if gems[hiddenGems[k]].isCollected {
          collected := collected + [hiddenGems[k]];
        }
        k := k + 1;
      }
      assert hiddenGems[..k] == hiddenGems;
    }

    /**
     * PlaceGemAt: the gem moves to the placement's corner and takes every
     * cell of the rectangle it does not list yet (AddCellUI), each of which
     * is made to hold the gem; stone layers are left as they are.
     */
    method PlaceGemAt(g: Handle, p: PlacementOption)
      requires Valid() && g < |gems| && OnBoard(p, boardWidth, boardHeight)
      requires NoDuplicates(gems[g].cells)
      modifies this`board, this`gems
      ensures Valid()
      ensures |gems| == old(|gems|) && forall m | 0 <= m < |gems| && m != g :: gems[m] == old(gems[m])
      ensures gems[g] == old(gems[g]).(cells := gems[g].cells, position := (p.x, p.y))
      ensures NoDuplicates(gems[g].cells)
      ensures forall c :: c in gems[g].cells <==> c in old(gems[g].cells) || c in OptionCells(p)
      ensures forall i, j | 0 <= i < boardWidth && 0 <= j < boardHeight ::
                board[i][j] == if (i, j) in OptionCells(p) && (i, j) !in old(gems[g].cells)
                               then old(board[i][j]).SetGem(Some(g)) else old(board[i][j])
    {
      gems := gems[g := gems[g].SetPosition((p.x, p.y))];
      var i := 0;
      while i < p.actualWidth
        invariant 0 <= i && (i <= p.actualWidth || i == 0)
        invariant Valid() && |gems| == old(|gems|)
        invariant forall m | 0 <= m < |gems| && m != g :: gems[m] == old(gems[m])
        invariant gems[g] == old(gems[g]).(cells := gems[g].cells, position := (p.x, p.y))
        invariant NoDuplicates(gems[g].cells)
        invariant forall c :: c in gems[g].cells <==> c in old(gems[g].cells) || Visited(c, p.x, p.y, p.actualHeight, i, 0)
        invariant forall a, b | 0 <= a < boardWidth && 0 <= b < boardHeight ::
                    board[a][b] == if Visited((a, b), p.x, p.y, p.actualHeight, i, 0) && (a, b) !in old(gems[g].cells)
                                   then old(board[a][b]).SetGem(Some(g)) else old(board[a][b])
      {
        AddGemColumn(g, p.x + i, p.y, p.actualHeight);
        i := i + 1;
      }
    }

    /** The inner loop of PlaceGemAt: the cells (x, y0) .. (x, y0 + h - 1), in order. */
    method AddGemColumn(g: Handle, x: int, y0: int, h: int)
      requires Valid() && g < |gems| && 0 <= x < boardWidth && 0 <= y0 && y0 + h <= boardHeight
      requires NoDuplicates(gems[g].cells)
      modifies this`board, this`gems
      ensures Valid() && |gems| == old(|gems|)
      ensures forall m | 0 <= m < |gems| && m != g :: gems[m] == old(gems[m])
      ensures gems[g] == old(gems[g]).(cells := gems[g].cells)
      ensures NoDuplicates(gems[g].cells)
      ensures forall c :: c in gems[g].cells <==> c in old(gems[g].cells) || (c.0 == x && y0 <= c.1 < y0 + h)
      ensures forall a, b | 0 <= a < boardWidth && 0 <= b < boardHeight ::
                board[a][b] == if a == x && y0 <= b < y0 + h && (a, b) !in old(gems[g].cells)
                               then old(board[a][b]).SetGem(Some(g)) else old(board[a][b])
    {
      var j := 0;
      while j < h
        invariant 0 <= j && (j <= h || j == 0)
        invariant Valid() && |gems| == old(|gems|)
        invariant forall m | 0 <= m < |gems| && m != g :: gems[m] == old(gems[m])
        invariant gems[g] == old(gems[g]).(cells := gems[g].cells)
        invariant NoDuplicates(gems[g].cells)
        invariant forall c :: c in gems[g].cells <==> c in old(gems[g].cells) || (c.0 == x && y0 <= c.1 < y0 + j)
        invariant forall a, b | 0 <= a < boardWidth && 0 <= b < boardHeight ::
                    board[a][b] == if a == x && y0 <= b < y0 + j && (a, b) !in old(gems[g].cells)
                                   then old(board[a][b]).SetGem(Some(g)) else old(board[a][b])
      {
        AddGemCell(g, (x, y0 + j));
        j := j + 1;
      }
    }

    /** One step of PlaceGemAt: AddCellUI on the record, and a new cell made to hold the gem. */
    method AddGemCell(g: Handle, c: Coord)
      requires Valid() && g < |gems| && InBoard(c, boardWidth, boardHeight)
      modifies this`board, this`gems
      ensures Valid()
      ensures gems == old(gems)[g := old(gems[g]).AddCell(c)]
      ensures WellFormed(board, boardWidth, boardHeight)
      ensures forall a, b | 0 <= a < boardWidth && 0 <= b < boardHeight ::
                board[a][b] == if (a, b) == c && c !in old(gems[g].cells) then old(board[a][b]).SetGem(Some(g)) else old(board[a][b])
    {
      if c !in gems[g].cells {
        gems := gems[g := gems[g].AddCell(c)];
        board := SetCell(board, c.0, c.1, board[c.0][c.1].SetGem(Some(g)));
      }
    }

    /**
     * RemoveGem: every cell the gem lists drops its gem and is given one or
     * two stone layers afresh; the gem's cell list is emptied.
     */
    method RemoveGem(g: Handle)
      requires Valid() && g < |gems|
      modifies this`board, this`gems
      ensures Valid()
      ensures gems == old(gems)[g := old(gems[g]).(cells := [])]
      ensures forall i, j | 0 <= i < boardWidth && 0 <= j < boardHeight ::
                if (i, j) in old(gems[g].cells) then
                  (board[i][j].stoneLayers == 1 || board[i][j].stoneLayers == 2)
                  && board[i][j] == old(board[i][j]).SetGem(None).SetStoneLayers(board[i][j].stoneLayers)
                else board[i][j] == old(board[i][j])
    {
      var cells := gems[g].cells;
      var k := 0;
      while k < |cells|
        invariant 0 <= k <= |cells| && WellFormed(board, boardWidth, boardHeight)
        modifies this`board
        invariant forall i, j | 0 <= i < boardWidth && 0 <= j < boardHeight ::
                    if (i, j) in cells[..k] then
                      (board[i][j].stoneLayers == 1 || board[i][j].stoneLayers == 2)
                      && board[i][j] == old(board[i][j]).SetGem(None).SetStoneLayers(board[i][j].stoneLayers)
                    else board[i][j] == old(board[i][j])
      {
        var c := cells[k];
        assert InBoard(c, boardWidth, boardHeight);
        var layers := RandomStoneLayers();
        board := SetCell(board, c.0, c.1, board[c.0][c.1].SetGem(None).SetStoneLayers(layers));
        assert cells[..k + 1] == cells[..k] + [c];
        k := k + 1;
      }
      assert cells[..k] == cells;
      gems := gems[g := gems[g].(cells := [])];
    }

    /** Clears the exclusion flag of every cell of the placement's rectangle, as the spawners do first. */
    method ResetExcludedIn(p: PlacementOption)
      requires Valid() && OnBoard(p, boardWidth, boardHeight)
      modifies this`board
      ensures Valid()
      ensures forall i, j | 0 <= i < boardWidth && 0 <= j < boardHeight ::
                board[i][j] == if (i, j) in OptionCells(p) then old(board[i][j]).ResetExcludedFromGemSpawn() else old(board[i][j])
    {
      var i := 0;
      while i < p.actualWidth
        invariant 0 <= i && (i <= p.actualWidth || i == 0) && Valid()
        invariant forall a, b | 0 <= a < boardWidth && 0 <= b < boardHeight ::
                    board[a][b] == if Visited((a, b), p.x, p.y, p.actualHeight, i, 0)
                                   then old(board[a][b]).ResetExcludedFromGemSpawn() else old(board[a][b])
      {
        ResetColumn(p.x + i, p.y, p.actualHeight);
        i := i + 1;
      }
    }

    /** The inner loop of ResetExcludedIn: the cells (x, y0) .. (x, y0 + h - 1). */
    method ResetColumn(x: int, y0: int, h: int)
      requires Valid() && 0 <= x < boardWidth && 0 <= y0 && y0 + h <= boardHeight
      modifies this`board
      ensures Valid()
      ensures forall a, b | 0 <= a < boardWidth && 0 <= b < boardHeight ::
                board[a][b] == if a == x && y0 <= b < y0 + h then old(board[a][b]).ResetExcludedFromGemSpawn() else old(board[a][b])
    {
      var j := 0;
      while j < h
        invariant 0 <= j && (j <= h || j == 0) && Valid()
        invariant forall a, b | 0 <= a < boardWidth && 0 <= b < boardHeight ::
                    board[a][b] == if a == x && y0 <= b < y0 + j then old(board[a][b]).ResetExcludedFromGemSpawn() else old(board[a][b])
      {
        board := SetCell(board, x, y0 + j, board[x][y0 + j].ResetExcludedFromGemSpawn());
        j := j + 1;
      }
    }

    /**
     * The scratch board both feasibility checks build: a cell is open when
     * it has no gem, no dynamite, is not excluded and not revealed; the
     * ignored cell, if any, only needs to be unexcluded and unrevealed.
     */
    method BuildTestBoard(ignored: Option<Coord>) returns (testBoard: array2<bool>)
      requires Valid()
      ensures fresh(testBoard)
      ensures testBoard.Length0 == boardWidth && testBoard.Length1 == boardHeight
      ensures FreeCells(testBoard) == Open(ignored)
    {
      testBoard := new bool[boardWidth, boardHeight];
      var x := 0;
      while x < boardWidth
        invariant 0 <= x <= boardWidth
        invariant forall a, b | 0 <= a < x && 0 <= b < boardHeight :: testBoard[a, b] == OpenForSearch(board[a][b], (a, b), ignored)
      {
        var y := 0;
        while y < boardHeight
          invariant 0 <= y <= boardHeight
          invariant forall a, b | 0 <= a < x && 0 <= b < boardHeight :: testBoard[a, b] == OpenForSearch(board[a][b], (a, b), ignored)
          invariant forall b | 0 <= b < y :: testBoard[x, b] == OpenForSearch(board[x][b], (x, b), ignored)
        {
          var cell := board[x][y];
          var isEmpty := cell.gem.None? && !cell.isDynamite && !cell.isExcludedFromGemSpawn && !cell.isRevealed;
          if ignored == Some((x, y)) {
            isEmpty := !cell.isExcludedFromGemSpawn && !cell.isRevealed;
          }
          testBoard[x, y] := isEmpty;
          y := y + 1;
        }
        x := x + 1;
      }
      forall c | c in FreeCells(testBoard) ensures c in Open(ignored) {
      }
      forall c | c in Open(ignored) ensures c in FreeCells(testBoard) {
      }
    }

    /**
     * CanPlaceRemainingGemsIgnoringCell: an empty pool always fits; a true
     * answer means the pool fits on the open cells with `ignored` counted as
     * gem-free; a pool larger than those cells is refused.
     */
    method CanPlaceRemainingGemsIgnoringCell(ignored: Coord) returns (ok: bool)
      requires Valid()
      ensures |unplacedGems| == 0 ==> ok
      ensures ok ==> Packable(Open(Some(ignored)), PoolSpecs(unplacedGems))
      ensures |unplacedGems| > 0 && TotalArea(PoolSpecs(unplacedGems)) > |Open(Some(ignored))| ==> !ok
    {
      if |unplacedGems| == 0 {
        assert FitsAt(Open(Some(ignored)), PoolSpecs(unplacedGems), []);
        return true;
      }
      var testBoard := BuildTestBoard(Some(ignored));
      var gemsToPlace := PoolSpecs(unplacedGems);
      ghost var attempts;
      ok, attempts := CanPlaceAllGemsOnTestBoard(gemsToPlace, testBoard);
    }

    /**
     * CanPlaceRemainingGemsAfterPlacing: with the placement's rectangle taken,
     * the pool without the gem (List.Remove) still fits on the open cells.
     */
    method CanPlaceRemainingGemsAfterPlacing(g: Handle, p: PlacementOption) returns (ok: bool)
      requires Valid() && OnBoard(p, boardWidth, boardHeight)
      ensures |unplacedGems| == 0 ==> ok
      ensures ok ==> Packable(Open(None) - OptionCells(p), PoolSpecs(RemoveFirst(unplacedGems, g)))
      ensures (|RemoveFirst(unplacedGems, g)| > 0
               && TotalArea(PoolSpecs(RemoveFirst(unplacedGems, g))) > |Open(None) - OptionCells(p)|) ==> !ok
    {
      if |unplacedGems| == 0 {
        assert FitsAt(Open(None) - OptionCells(p), PoolSpecs(RemoveFirst(unplacedGems, g)), []);
        return true;
      }
      var testBoard := BuildTestBoard(None);
      PlaceGemOnTestBoard(p.x, p.y, p.actualWidth, p.actualHeight, testBoard, false);
      var remaining := RemoveFirst(unplacedGems, g);
      ghost var attempts;
      ok, attempts := CanPlaceAllGemsOnTestBoard(PoolSpecs(remaining), testBoard);
    }

    /**
     * The commit step every spawner repeats: clear the exclusion flags of the
     * rectangle, place the pool gem there, and move it from the pool to the
     * hidden gems. The open cells lose exactly the rectangle.
     */
    method SpawnAt(g: Handle, p: PlacementOption)
      requires Valid() && PoolReady() && g in unplacedGems && OnBoard(p, boardWidth, boardHeight)
      modifies this`board, this`gems, this`unplacedGems, this`hiddenGems
      ensures Valid() && PoolReady()
      ensures unplacedGems == RemoveFirst(old(unplacedGems), g) && hiddenGems == old(hiddenGems) + [g]
      ensures multiset(unplacedGems) + multiset(hiddenGems) == old(multiset(unplacedGems) + multiset(hiddenGems))
      ensures GetTotalGemsNeeded() == old(GetTotalGemsNeeded())
      ensures |gems| == old(|gems|) && forall m | 0 <= m < |gems| && m != g :: gems[m] == old(gems[m])
      ensures gems[g] == old(gems[g]).(cells := gems[g].cells, position := (p.x, p.y))
      ensures forall c :: c in gems[g].cells <==> c in OptionCells(p)
      ensures forall i, j | 0 <= i < boardWidth && 0 <= j < boardHeight ::
                board[i][j] == if (i, j) in OptionCells(p) then old(board[i][j]).SetGem(Some(g)) else old(board[i][j])
      ensures Open(None) == old(Open(None)) - OptionCells(p)
      ensures SameDigState(old(board), board, boardWidth, boardHeight)
      ensures SpawnedOn(old(board), old(gems), board, gems, boardWidth, boardHeight, g, p)
    {
      ghost var pool := unplacedGems;
      assert gems[g].cells == [];
      ClearAndPlace(g, p);
      unplacedGems := RemoveFirst(unplacedGems, g);
      hiddenGems := hiddenGems + [g];
      RemoveFirstMembers(pool, g);
      RemoveFirstNoDuplicates(pool, g);
      OpenAfterPlacing(old(board), board, boardWidth, boardHeight, OptionCells(p), g);
    }

    /** The board half of SpawnAt: ResetExcludedIn on the rectangle, then PlaceGemAt of a gem that holds no cells yet. */
    method ClearAndPlace(g: Handle, p: PlacementOption)
      requires Valid() && g < |gems| && gems[g].cells == [] && OnBoard(p, boardWidth, boardHeight)
      modifies this`board, this`gems
      ensures Valid()
      ensures |gems| == old(|gems|) && forall m | 0 <= m < |gems| && m != g :: gems[m] == old(gems[m])
      ensures gems[g] == old(gems[g]).(cells := gems[g].cells, position := (p.x, p.y))
      ensures forall c :: c in gems[g].cells <==> c in OptionCells(p)
      ensures forall i, j | 0 <= i < boardWidth && 0 <= j < boardHeight ::
                board[i][j] == if (i, j) in OptionCells(p) then old(board[i][j]).SetGem(Some(g)) else old(board[i][j])
    {
      ResetExcludedIn(p);
      PlaceGemAt(g, p);
    }

    /** SpawnAt after a passed feasibility check: the rest of the pool is packable on the cells still open. */
    method SpawnChecked(g: Handle, p: PlacementOption)
      requires Valid() && PoolReady() && g in unplacedGems && OnBoard(p, boardWidth, boardHeight)
      requires Packable(Open(None) - OptionCells(p), PoolSpecs(RemoveFirst(unplacedGems, g)))
      modifies this`board, this`gems, this`unplacedGems, this`hiddenGems
      ensures Valid() && PoolReady()
      ensures unplacedGems == RemoveFirst(old(unplacedGems), g) && hiddenGems == old(hiddenGems) + [g]
      ensures GetTotalGemsNeeded() == old(GetTotalGemsNeeded())
      ensures |gems| == old(|gems|) && forall m | 0 <= m < |gems| && m != g :: gems[m] == old(gems[m])
      ensures gems[g] == old(gems[g]).(cells := gems[g].cells, position := (p.x, p.y))
      ensures forall c :: c in gems[g].cells <==> c in OptionCells(p)
      ensures forall i, j | 0 <= i < boardWidth && 0 <= j < boardHeight ::
                board[i][j] == if (i, j) in OptionCells(p) then old(board[i][j]).SetGem(Some(g)) else old(board[i][j])
      ensures Packable(Open(None), PoolSpecs(unplacedGems))
      ensures SameDigState(old(board), board, boardWidth, boardHeight)
      ensures SpawnedOn(old(board), old(gems), board, gems, boardWidth, boardHeight, g, p)
    {
      ghost var before := gems;
      SpawnAt(g, p);
      SpecsSameIds(before, gems, gemConfigs, gemOrientations, unplacedGems);
    }

    /**
     * The inner loop of the spawners: the placements, taken in some order,
     * until one leaves the rest of the pool packable; the gem is spawned
     * there. False means none did, and nothing changed.
     */
    method TrySpawnAtCell(g: Handle, t: Coord, placements: seq<PlacementOption>) returns (success: bool, ghost chosen: PlacementOption)
      requires Valid() && PoolReady() && g in unplacedGems && InBoard(t, boardWidth, boardHeight)
      requires forall p | p in placements :: OnBoard(p, boardWidth, boardHeight)
      modifies this`board, this`gems, this`unplacedGems, this`hiddenGems
      ensures Valid() && PoolReady()
      ensures GetTotalGemsNeeded() == old(GetTotalGemsNeeded())
      ensures SameDigState(old(board), board, boardWidth, boardHeight)
      ensures !success ==> board == old(board) && gems == old(gems) && unplacedGems == old(unplacedGems)
                           && hiddenGems == old(hiddenGems)
      ensures success ==> chosen in placements && unplacedGems == RemoveFirst(old(unplacedGems), g)
                          && hiddenGems == old(hiddenGems) + [g]
      ensures success ==> |gems| == old(|gems|) && gems[g].gemId == old(gems[g].gemId)
                          && (forall c :: c in gems[g].cells <==> c in OptionCells(chosen))
      ensures success && ContainsCell(chosen, t) ==> board[t.0][t.1].gem == Some(g) && t in gems[g].cells
      ensures success ==> Packable(Open(None), PoolSpecs(unplacedGems))
      ensures success ==> SpawnedOn(old(board), old(gems), board, gems, boardWidth, boardHeight, g, chosen)
    {
      chosen := PlacementOption(0, 0, false, 0, 0);
      var order := Shuffle(placements);
      var m := 0;
      while m < |order|
        invariant 0 <= m <= |order|
        invariant board == old(board) && gems == old(gems) && unplacedGems == old(unplacedGems) && hiddenGems == old(hiddenGems)
      {
        var p := order[m];
        assert p in multiset(order);
        assert p in placements;
        var ok := CanPlaceRemainingGemsAfterPlacing(g, p);
        if ok {
          SpawnChecked(g, p);
          assert SameDigState(old(board), board, boardWidth, boardHeight);
          return true, p;
        }
        m := m + 1;
      }
      return false, chosen;
    }

    /**
     * The gem loop of the spawners: the given pool gems in order, skipping
     * those without a config; each one's placements (those containing the
     * target when `targeted`, otherwise every position that ignores the
     * exclusion flags) are tried until one leaves the rest of the pool
     * packable. False means none did, and nothing changed.
     */
    method TrySpawnEachGem(t: Coord, order: seq<Handle>, targeted: bool)
      returns (success: bool, ghost spawned: Handle, ghost placement: PlacementOption)
      requires Valid() && PoolReady() && InBoard(t, boardWidth, boardHeight)
      requires forall h | h in order :: h in unplacedGems
      modifies this`board, this`gems, this`unplacedGems, this`hiddenGems
      ensures Valid() && PoolReady()
      ensures GetTotalGemsNeeded() == old(GetTotalGemsNeeded())
      ensures SameDigState(old(board), board, boardWidth, boardHeight)
      ensures !success ==> board == old(board) && gems == old(gems) && unplacedGems == old(unplacedGems)
                           && hiddenGems == old(hiddenGems)
      ensures success ==> spawned in order && unplacedGems == RemoveFirst(old(unplacedGems), spawned)
                          && hiddenGems == old(hiddenGems) + [spawned] && spawned < |gems|
      ensures success && targeted ==>
                ContainsCell(placement, t) && board[t.0][t.1].gem == Some(spawned) && t in gems[spawned].cells
                && RectAdmits(old(board), placement.x, placement.y, placement.actualWidth, placement.actualHeight, AroundTarget(t))
      ensures success && !targeted ==>
                RectAdmits(old(board), placement.x, placement.y, placement.actualWidth, placement.actualHeight, IgnoreExclude)
      ensures success ==> Packable(Open(None), PoolSpecs(unplacedGems))
      ensures success ==> SpawnedOn(old(board), old(gems), board, gems, boardWidth, boardHeight, spawned, placement)
                          && ConfiguredShape(gemConfigs, gemOrientations, old(gems), spawned, placement)
    {
      spawned, placement := 0, PlacementOption(0, 0, false, 0, 0);
      var k := 0;
      while k < |order|
        invariant 0 <= k <= |order|
        invariant board == old(board) && gems == old(gems) && unplacedGems == old(unplacedGems) && hiddenGems == old(hiddenGems)
      {
        var g := order[k];
        assert g in order && g in unplacedGems;
        var orientation := OrientationOf(gemOrientations, g);
        var config := GetGemConfig(gemConfigs, gems[g].gemId);
        if config.Some? {
          var placements;
          if targeted {
            placements := GetPlacementsContainingCell(board, boardWidth, boardHeight, gemConfigs, gems[g], orientation, t);
          } else {
            placements := GetAllValidPlacementsIgnoringExclude(board, boardWidth, boardHeight, gemConfigs, gems[g], orientation);
          }
          if |placements| > 0 {
            var ok;
            ok, placement := TrySpawnAtCell(g, t, placements);
            if ok {
              return true, g, placement;
            }
          }
        }
        k := k + 1;
      }
      return false, spawned, placement;
    }

    /**
     * SpawnGemAtExactCell: with an empty pool, false and nothing changes.
     * Otherwise the target's exclusion flag is cleared and the pool gems are
     * tried in some order; a gem is spawned on a placement that contains the
     * target, has the gem's shape, passes the targeted cell test, and leaves
     * the rest of the pool packable on the cells still open. False means no
     * gem and placement passed, and nothing but the target's flag changed.
     */
    method SpawnGemAtExactCell(t: Coord) returns (success: bool, ghost spawned: Handle, ghost placement: PlacementOption)
      requires Valid() && PoolReady() && InBoard(t, boardWidth, boardHeight)
      modifies this`board, this`gems, this`unplacedGems, this`hiddenGems
      ensures Valid() && PoolReady()
      ensures GetTotalGemsNeeded() == old(GetTotalGemsNeeded())
      ensures SameDigState(old(board), board, boardWidth, boardHeight)
      ensures old(|unplacedGems|) == 0 ==> !success && board == old(board)
      ensures !success ==> unplacedGems == old(unplacedGems) && hiddenGems == old(hiddenGems) && gems == old(gems)
      ensures !success && old(|unplacedGems|) > 0 ==>
                board == SetCell(old(board), t.0, t.1, old(board[t.0][t.1]).ResetExcludedFromGemSpawn())
      ensures success ==> spawned in old(unplacedGems) && unplacedGems == RemoveFirst(old(unplacedGems), spawned)
                          && hiddenGems == old(hiddenGems) + [spawned]
      ensures success ==> board[t.0][t.1].gem == Some(spawned) && t in gems[spawned].cells && ContainsCell(placement, t)
                          && RectAdmits(old(board), placement.x, placement.y, placement.actualWidth, placement.actualHeight, AroundTarget(t))
      ensures success ==> Packable(Open(None), PoolSpecs(unplacedGems))
      ensures success ==> SpawnedOn(ResetAt(old(board), t), old(gems), board, gems, boardWidth, boardHeight, spawned, placement)
                          && ConfiguredShape(gemConfigs, gemOrientations, old(gems), spawned, placement)
    {
      spawned, placement := 0, PlacementOption(0, 0, false, 0, 0);
      if |unplacedGems| == 0 {
        return false, spawned, placement;
      }
      board := SetCell(board, t.0, t.1, board[t.0][t.1].ResetExcludedFromGemSpawn());
      ghost var reset := board;
      assert SameDigState(old(board), reset, boardWidth, boardHeight);
      var shuffled := Shuffle(unplacedGems);
      forall h | h in shuffled ensures h in unplacedGems {
        assert h in multiset(shuffled);
      }
      success, spawned, placement := TrySpawnEachGem(t, shuffled, true);
      if success {
        SameDigStateTrans(old(board), reset, board, boardWidth, boardHeight);
        AroundTargetIgnoresExclusion(old(board), reset, boardWidth, boardHeight,
                                     placement.x, placement.y, placement.actualWidth, placement.actualHeight, t);
      }
    }

    /**
     * The emergency stage of ForceSpawnGemAtCellIgnoringRemainingGems: the
     * first gem of `order` with any position at all (exclusion ignored) is
     * spawned on one of them, chosen at random, without a feasibility check.
     */
    method EmergencySpawn(order: seq<Handle>) returns (success: bool, ghost spawned: Handle, ghost placement: PlacementOption)
      requires Valid() && PoolReady()
      requires forall h | h in order :: h in unplacedGems
      modifies this`board, this`gems, this`unplacedGems, this`hiddenGems
      ensures Valid() && PoolReady()
      ensures GetTotalGemsNeeded() == old(GetTotalGemsNeeded())
      ensures SameDigState(old(board), board, boardWidth, boardHeight)
      ensures !success ==> board == old(board) && gems == old(gems) && unplacedGems == old(unplacedGems)
                           && hiddenGems == old(hiddenGems)
                           && forall h | h in order :: h < |gems| && NoRoomFor(h)
      ensures success ==> spawned in order && unplacedGems == RemoveFirst(old(unplacedGems), spawned)
                          && hiddenGems == old(hiddenGems) + [spawned] && spawned < |gems|
                          && RectAdmits(old(board), placement.x, placement.y, placement.actualWidth, placement.actualHeight, IgnoreExclude)
      ensures success ==> SpawnedOn(old(board), old(gems), board, gems, boardWidth, boardHeight, spawned, placement)
                          && ConfiguredShape(gemConfigs, gemOrientations, old(gems), spawned, placement)
    {
      spawned, placement := 0, PlacementOption(0, 0, false, 0, 0);
      var k := 0;
      while k < |order|
        invariant 0 <= k <= |order|
        invariant board == old(board) && gems == old(gems) && unplacedGems == old(unplacedGems) && hiddenGems == old(hiddenGems)
        invariant forall m | 0 <= m < k :: order[m] < |gems| && NoRoomFor(order[m])
      {
        var h := order[k];
        assert h in order;
        success, placement := EmergencySpawnOne(h);
        if success {
          return true, h, placement;
        }
        k := k + 1;
      }
      success := false;
      forall h | h in order ensures h < |gems| && NoRoomFor(h) {
        var m :| 0 <= m < |order| && order[m] == h;
      }
    }

    /** One gem of EmergencySpawn: spawned on a random position that ignores exclusion, if there is one. */
    method EmergencySpawnOne(h: Handle) returns (success: bool, ghost placement: PlacementOption)
      requires Valid() && PoolReady() && h in unplacedGems
      modifies this`board, this`gems, this`unplacedGems, this`hiddenGems
      ensures Valid() && PoolReady()
      ensures GetTotalGemsNeeded() == old(GetTotalGemsNeeded())
      ensures SameDigState(old(board), board, boardWidth, boardHeight)
      ensures !success ==> board == old(board) && gems == old(gems) && unplacedGems == old(unplacedGems)
                           && hiddenGems == old(hiddenGems) && h < |gems| && NoRoomFor(h)
      ensures success ==> unplacedGems == RemoveFirst(old(unplacedGems), h)
                          && hiddenGems == old(hiddenGems) + [h] && h < |gems|
                          && RectAdmits(old(board), placement.x, placement.y, placement.actualWidth, placement.actualHeight, IgnoreExclude)
      ensures success ==> SpawnedOn(old(board), old(gems), board, gems, boardWidth, boardHeight, h, placement)
                          && ConfiguredShape(gemConfigs, gemOrientations, old(gems), h, placement)
    {
      placement := PlacementOption(0, 0, false, 0, 0);
      var orientation := OrientationOf(gemOrientations, h);
      var config := GetGemConfig(gemConfigs, gems[h].gemId);
      if config.Some? {
        var allPlacements := GetAllValidPlacementsIgnoringExclude(board, boardWidth, boardHeight, gemConfigs, gems[h], orientation);
        if |allPlacements| > 0 {
          var index :| 0 <= index < |allPlacements|;
          var emergencyPlacement := allPlacements[index];
          assert emergencyPlacement in allPlacements;
          SpawnAt(h, emergencyPlacement);
          return true, emergencyPlacement;
        }
        assert NoRoomFor(h);
      }
      return false, placement;
    }

    /** No position of the board takes the gem in its one shape, even with exclusion flags ignored. */
    ghost predicate NoRoomFor(g: Handle)
      reads this
      requires Valid() && g < |gems|
    {
      var config := GetGemConfig(gemConfigs, gems[g].gemId);
      config.Some? ==>
        var d := ActualDims(config.value, OrientationOf(gemOrientations, g));
        forall x, y | 0 <= x && x + d.0 <= boardWidth && 0 <= y && y + d.1 <= boardHeight ::
          !RectAdmits(board, x, y, d.0, d.1, IgnoreExclude)
    }

    /**
     * ForceSpawnGemAtCellIgnoringRemainingGems, used when the pool would no
     * longer fit without the dug cell: with an empty pool nothing happens.
     * Otherwise the target's exclusion flag is cleared, the pool is shuffled
     * and the three stages of SpawnInStages run.
     */
    method ForceSpawnGemAtCellIgnoringRemainingGems(t: Coord) returns (ghost spawned: Option<Spawn>)
      requires Valid() && PoolReady() && InBoard(t, boardWidth, boardHeight)
      modifies this`board, this`gems, this`unplacedGems, this`hiddenGems
      ensures Valid() && PoolReady()
      ensures GetTotalGemsNeeded() == old(GetTotalGemsNeeded())
      ensures SameDigState(old(board), board, boardWidth, boardHeight)
      ensures old(|unplacedGems|) == 0 ==> spawned == None && board == old(board)
      ensures spawned.None? ==> gems == old(gems) && unplacedGems == old(unplacedGems) && hiddenGems == old(hiddenGems)
      ensures spawned.None? && old(|unplacedGems|) > 0 ==>
                board == ResetAt(old(board), t) && forall h | h in unplacedGems :: NoRoomFor(h)
      ensures spawned.Some? ==> var sp := spawned.value;
                sp.gem in old(unplacedGems) && 1 <= sp.stage <= 3
                && unplacedGems == RemoveFirst(old(unplacedGems), sp.gem) && hiddenGems == old(hiddenGems) + [sp.gem]
                && SpawnedOn(ResetAt(old(board), t), old(gems), board, gems, boardWidth, boardHeight, sp.gem, sp.at)
                && ConfiguredShape(gemConfigs, gemOrientations, old(gems), sp.gem, sp.at)
      ensures spawned.Some? && spawned.value.stage == 1 ==>
                ContainsCell(spawned.value.at, t) && board[t.0][t.1].gem == Some(spawned.value.gem)
                && t in gems[spawned.value.gem].cells
      ensures spawned.Some? && spawned.value.stage <= 2 ==> Packable(Open(None), PoolSpecs(unplacedGems))
    {
      spawned := None;
      if |unplacedGems| == 0 {
        return;
      }
      board := ResetAt(board, t);
      ghost var reset := board;
      assert SameDigState(old(board), reset, boardWidth, boardHeight);
      var shuffled := Shuffle(unplacedGems);
      spawned := SpawnInStages(t, shuffled);
      SameDigStateTrans(old(board), reset, board, boardWidth, boardHeight);
    }

    /**
     * The three stages of the forced spawn over a shuffled pool: (1) a gem on
     * a placement containing the target that keeps the rest of the pool
     * packable; (2) a gem anywhere (exclusion ignored) that keeps it packable,
     * trying the gems largest area first;
     * (3) the first gem with any room, without a check. When all three fail,
     * no pool gem has room anywhere.
     */
    method SpawnInStages(t: Coord, shuffled: seq<Handle>) returns (ghost spawned: Option<Spawn>)
      requires Valid() && PoolReady() && InBoard(t, boardWidth, boardHeight)
      requires multiset(shuffled) == multiset(unplacedGems)
      modifies this`board, this`gems, this`unplacedGems, this`hiddenGems
      ensures Valid() && PoolReady()
      ensures GetTotalGemsNeeded() == old(GetTotalGemsNeeded())
      ensures SameDigState(old(board), board, boardWidth, boardHeight)
      ensures spawned.None? ==> board == old(board) && gems == old(gems) && unplacedGems == old(unplacedGems)
                                && hiddenGems == old(hiddenGems)
                                && forall h | h in unplacedGems :: NoRoomFor(h)
      ensures spawned.Some? ==> var sp := spawned.value;
                sp.gem in old(unplacedGems) && 1 <= sp.stage <= 3
                && unplacedGems == RemoveFirst(old(unplacedGems), sp.gem) && hiddenGems == old(hiddenGems) + [sp.gem]
                && SpawnedOn(old(board), old(gems), board, gems, boardWidth, boardHeight, sp.gem, sp.at)
                && ConfiguredShape(gemConfigs, gemOrientations, old(gems), sp.gem, sp.at)
      ensures spawned.Some? && spawned.value.stage == 1 ==>
                ContainsCell(spawned.value.at, t) && board[t.0][t.1].gem == Some(spawned.value.gem)
                && t in gems[spawned.value.gem].cells
      ensures spawned.Some? && spawned.value.stage <= 2 ==> Packable(Open(None), PoolSpecs(unplacedGems))
    {
      spawned := None;
      forall h | h in shuffled ensures h in unplacedGems {
        assert h in multiset(shuffled);
      }
      // Stage 1: a placement containing the target.
      var ok, g, p := TrySpawnEachGem(t, shuffled, true);
      if ok {
        return Some(Spawn(g, p, 1));
      }
      // Stage 2: any placement, largest area first (in any order once some gem id has no config).
      var table, configs, orients := gems, gemConfigs, gemOrientations;
      var sorted := SortByKeyDescending<Handle>(shuffled,
                                                (h: Handle) => if h < |table| then SpecArea(SpecOf(table, configs, orients, h)) else 0,
                                                (h: Handle) => h < |table| && HasConfig(SpecOf(table, configs, orients, h)));
      forall h | h in sorted ensures h in unplacedGems {
        assert h in multiset(sorted);
      }
      ok, g, p := TrySpawnEachGem(t, sorted, false);
      if ok {
        return Some(Spawn(g, p, 2));
      }
      // Stage 3: the first gem with any room at all, on a position chosen at random.
      ok, g, p := EmergencySpawn(shuffled);
      if ok {
        return Some(Spawn(g, p, 3));
      }
      forall h | h in unplacedGems ensures NoRoomFor(h) {
        assert h in multiset(unplacedGems);
        assert h in shuffled;
      }
    }

    /** Gem.IsFullyRevealed on the engine's table: false for no cells, otherwise every listed cell is revealed. */
    method IsGemFullyRevealed(g: Handle) returns (r: bool)
      requires Valid() && g < |gems|
      ensures r <==> FullyRevealed(board, boardWidth, boardHeight, gems[g])
    {
      var cells := gems[g].cells;
      if |cells| == 0 {
        return false;
      }
      var k := 0;
      while k < |cells|
        invariant 0 <= k <= |cells|
        invariant forall m | 0 <= m < k :: board[cells[m].0][cells[m].1].isRevealed
      {
        assert InBoard(cells[k], boardWidth, boardHeight);
        if !board[cells[k].0][cells[k].1].isRevealed {
          return false;
        }
        k := k + 1;
      }
      return true;
    }

    /**
     * The first branch of ProcessGemReveal: the dug cell already holds an
     * uncollected gem, which is collected (and OnGemCollected fired) exactly
     * when all its cells are revealed.
     */
    method CollectIfFullyRevealed(g: Handle)
      requires Valid() && PoolReady() && g < |gems| && !gems[g].isCollected
      modifies this`gems, this`collectedEvents
      ensures Valid() && PoolReady()
      ensures FullyRevealed(board, boardWidth, boardHeight, old(gems[g])) ==>
                gems == old(gems)[g := old(gems[g]).Collect()] && collectedEvents == old(collectedEvents) + [g]
      ensures !FullyRevealed(board, boardWidth, boardHeight, old(gems[g])) ==>
                gems == old(gems) && collectedEvents == old(collectedEvents)
    {
      var full := IsGemFullyRevealed(g);
      if full && !gems[g].isCollected {
        gems := gems[g := gems[g].Collect()];
        collectedEvents := collectedEvents + [g];
      }
    }

    /**
     * The second branch of ProcessGemReveal, on a cell without an uncollected
     * gem. A miss is turned into a hit when the pool does not fit without the
     * cell; a hit spawns a pool gem covering the cell, falling back to the
     * forced spawn when the pool did not fit without it; an unforced miss
     * marks the cell excluded.
     */
    method SpawnOrExclude(t: Coord, hitRoll: bool) returns (ghost forced: bool, ghost marked: bool, ghost spawned: Option<Spawn>)
      requires Valid() && PoolReady() && InBoard(t, boardWidth, boardHeight)
      modifies this`board, this`gems, this`unplacedGems, this`hiddenGems
      ensures Valid() && PoolReady()
      ensures GetTotalGemsNeeded() == old(GetTotalGemsNeeded())
      ensures SameDigState(old(board), board, boardWidth, boardHeight)
      ensures forced ==> !hitRoll && old(|unplacedGems|) > 0
      ensures !hitRoll && old(|unplacedGems|) > 0 && !Packable(old(Open(Some(t))), old(PoolSpecs(unplacedGems))) ==> forced
      ensures marked <==> !hitRoll && !forced
      ensures marked ==> board == SetCell(old(board), t.0, t.1, old(board[t.0][t.1]).MarkAsExcludedFromGemSpawn())
                         && gems == old(gems) && unplacedGems == old(unplacedGems) && hiddenGems == old(hiddenGems)
                         && (old(|unplacedGems|) == 0 || Packable(old(Open(Some(t))), old(PoolSpecs(unplacedGems))))
      ensures spawned.Some? ==> var sp := spawned.value;
                (hitRoll || forced) && sp.gem in old(unplacedGems) && sp.stage <= 3
                && unplacedGems == RemoveFirst(old(unplacedGems), sp.gem) && hiddenGems == old(hiddenGems) + [sp.gem]
                && SpawnedOn(ResetAt(old(board), t), old(gems), board, gems, boardWidth, boardHeight, sp.gem, sp.at)
                && ConfiguredShape(gemConfigs, gemOrientations, old(gems), sp.gem, sp.at)
                && (sp.stage <= 1 ==> ContainsCell(sp.at, t))
                && (sp.stage <= 2 ==> Packable(Open(None), PoolSpecs(unplacedGems)))
      ensures spawned.None? ==> gems == old(gems) && unplacedGems == old(unplacedGems) && hiddenGems == old(hiddenGems)
      ensures spawned.None? && !marked ==> board == if old(|unplacedGems|) > 0 then ResetAt(old(board), t) else old(board)
      ensures old(|unplacedGems|) == 0 ==> spawned.None? && (board == old(board) || marked)
    {
      forced, marked, spawned := false, false, None;
      var hitGem := hitRoll;
      if !hitGem && |unplacedGems| > 0 {
        var canPlace := CanPlaceRemainingGemsIgnoringCell(t);
        if !canPlace {
          hitGem, forced := true, true;
        }
      }
      if hitGem && |unplacedGems| > 0 {
        var canPlaceRemainingWithoutThisCell := CanPlaceRemainingGemsIgnoringCell(t);
        ghost var g, p;
        var spawnSuccess;
        spawnSuccess, g, p := SpawnGemAtExactCell(t);
        if spawnSuccess {
          spawned := Some(Spawn(g, p, 0));
        } else if |unplacedGems| > 0 && !canPlaceRemainingWithoutThisCell {
          ghost var before := board;
          ResetAtTwice(old(board), t);
          spawned := ForceSpawnGemAtCellIgnoringRemainingGems(t);
          SameDigStateTrans(old(board), before, board, boardWidth, boardHeight);
        }
      } else if !hitGem {
        board := SetCell(board, t.0, t.1, board[t.0][t.1].MarkAsExcludedFromGemSpawn());
        marked := true;
      }
    }

    /**
     * ProcessGemReveal, run on every cell a dig reveals: collect the cell's
     * gem when there is an uncollected one, otherwise the spawn-or-exclude
     * step with the given roll (true for the 30% hit).
     */
    method ProcessGemReveal(t: Coord, hitRoll: bool) returns (ghost forced: bool, ghost marked: bool, ghost spawned: Option<Spawn>)
      requires Valid() && PoolReady() && InBoard(t, boardWidth, boardHeight)
      modifies this`board, this`gems, this`unplacedGems, this`hiddenGems, this`collectedEvents
      ensures Valid() && PoolReady()
      ensures Processed(Env(), old(Snapshot()), Snapshot(), t, hitRoll, forced, marked, spawned)
    {
      var occupant := board[t.0][t.1].gem;
      if occupant.Some? && !gems[occupant.value].isCollected {
        CollectIfFullyRevealed(occupant.value);
        return false, false, None;
      }
      forced, marked, spawned := SpawnOrExclude(t, hitRoll);
    }

    /**
     * ExplodeDynamite: every in-bounds, unrevealed cell of the 3-by-3
     * neighbourhood of (x, y) is dug and then goes through ProcessGemReveal
     * with a roll of its own; a dynamite cell among them does not explode in
     * turn. `trace` holds the state before and after each of the nine steps.
     */
    method ExplodeDynamite(x: int, y: int) returns (ghost trace: seq<EngineState>)
      requires Valid() && PoolReady()
      modifies this`board, this`gems, this`unplacedGems, this`hiddenGems, this`collectedEvents
      ensures Valid() && PoolReady()
      ensures BlastTrace(Env(), x, y, trace) && trace[0] == old(Snapshot()) && trace[9] == Snapshot()
      ensures GetTotalGemsNeeded() == old(GetTotalGemsNeeded())
      ensures DugBefore(old(board), board, boardWidth, boardHeight, x, y, 2, -1)
    {
      ghost var env := Env();
      trace := [Snapshot()];
      var i := -1;
      while i <= 1
        invariant -1 <= i <= 2
        invariant Valid() && PoolReady()
        invariant |trace| == 1 + 3 * (i + 1) && trace[0] == old(Snapshot()) && trace[|trace| - 1] == Snapshot()
        invariant Env() == env && BlastSteps(env, x, y, trace)
        invariant GetTotalGemsNeeded() == old(GetTotalGemsNeeded())
        invariant DugBefore(old(board), board, boardWidth, boardHeight, x, y, i, -1)
      {
        trace := BlastRow(x, y, i, old(board), env, trace);
        i := i + 1;
      }
    }

    /** The three cells (x + i, y - 1), (x + i, y) and (x + i, y + 1) of the explosion, extending `trace0` by their steps. */
    method BlastRow(x: int, y: int, i: int, ghost b0: Grid, ghost env: Setting, ghost trace0: seq<EngineState>)
      returns (ghost trace: seq<EngineState>)
      requires Valid() && PoolReady() && WellFormed(b0, boardWidth, boardHeight) && -1 <= i <= 1
      requires |trace0| == 1 + 3 * (i + 1) && trace0[|trace0| - 1] == Snapshot()
      requires Env() == env && BlastSteps(env, x, y, trace0)
      requires DugBefore(b0, board, boardWidth, boardHeight, x, y, i, -1)
      modifies this`board, this`gems, this`unplacedGems, this`hiddenGems, this`collectedEvents
      ensures Valid() && PoolReady()
      ensures |trace| == |trace0| + 3 && trace[0] == trace0[0] && trace[|trace| - 1] == Snapshot()
      ensures Env() == env && BlastSteps(env, x, y, trace)
      ensures GetTotalGemsNeeded() == old(GetTotalGemsNeeded())
      ensures DugBefore(b0, board, boardWidth, boardHeight, x, y, i + 1, -1)
    {
      trace := trace0;
      var j := -1;
      while j <= 1
        invariant -1 <= j <= 2
        invariant Valid() && PoolReady()
        invariant |trace| == |trace0| + (j + 1) && trace[0] == trace0[0] && trace[|trace| - 1] == Snapshot()
        invariant Env() == env && BlastSteps(env, x, y, trace)
        invariant GetTotalGemsNeeded() == old(GetTotalGemsNeeded())
        invariant DugBefore(b0, board, boardWidth, boardHeight, x, y, i, j)
      {
        trace := BlastStepInto(x, y, i, j, b0, env, trace);
        j := j + 1;
      }
    }

    /** BlastCell on (x + i, y + j), with its step appended to the explosion's trace. */
    method BlastStepInto(x: int, y: int, i: int, j: int, ghost b0: Grid, ghost env: Setting, ghost trace0: seq<EngineState>)
      returns (ghost trace: seq<EngineState>)
      requires Valid() && PoolReady() && WellFormed(b0, boardWidth, boardHeight) && -1 <= i <= 1 && -1 <= j <= 1
      requires |trace0| == 1 + 3 * (i + 1) + (j + 1) && trace0[|trace0| - 1] == Snapshot()
      requires Env() == env && BlastSteps(env, x, y, trace0)
      requires DugBefore(b0, board, boardWidth, boardHeight, x, y, i, j)
      modifies this`board, this`gems, this`unplacedGems, this`hiddenGems, this`collectedEvents
      ensures Valid() && PoolReady()
      ensures trace == trace0 + [Snapshot()] && Env() == env && BlastSteps(env, x, y, trace)
      ensures GetTotalGemsNeeded() == old(GetTotalGemsNeeded())
      ensures DugBefore(b0, board, boardWidth, boardHeight, x, y, i, j + 1)
    {
      BlastTargetAt(x, y, i, j);
      BlastCell(x, y, i, j, b0);
      BlastStepsSnoc(env, x, y, trace0, Snapshot());
      trace := trace0 + [Snapshot()];
    }

    /**
     * One cell (x + i, y + j) of the explosion: when on the board and
     * unrevealed, dug and put through ProcessGemReveal with a roll of its own.
     */
    method BlastCell(x: int, y: int, i: int, j: int, ghost b0: Grid)
      requires Valid() && PoolReady() && WellFormed(b0, boardWidth, boardHeight)
      requires DugBefore(b0, board, boardWidth, boardHeight, x, y, i, j)
      requires -1 <= i <= 1 && -1 <= j <= 1
      modifies this`board, this`gems, this`unplacedGems, this`hiddenGems, this`collectedEvents
      ensures Valid() && PoolReady()
      ensures BlastStep(Env(), old(Snapshot()), Snapshot(), (x + i, y + j))
      ensures GetTotalGemsNeeded() == old(GetTotalGemsNeeded())
      ensures DugBefore(b0, board, boardWidth, boardHeight, x, y, i, j + 1)
    {
      var newX, newY := x + i, y + j;
      if 0 <= newX < boardWidth && 0 <= newY < boardHeight && !board[newX][newY].isRevealed {
        ghost var dug := SetCell(board, newX, newY, board[newX][newY].Dig());
        assert DugBefore(b0, dug, boardWidth, boardHeight, x, y, i, j + 1);
        DigAndReveal((newX, newY));
        DugBeforeStable(b0, dug, board, boardWidth, boardHeight, x, y, i, j + 1);
      }
    }

    /** The dig of one unrevealed explosion cell and its ProcessGemReveal, with a roll of its own. */
    method DigAndReveal(c: Coord)
      requires Valid() && PoolReady() && InBoard(c, boardWidth, boardHeight) && !board[c.0][c.1].isRevealed
      modifies this`board, this`gems, this`unplacedGems, this`hiddenGems, this`collectedEvents
      ensures Valid() && PoolReady()
      ensures BlastStep(Env(), old(Snapshot()), Snapshot(), c)
      ensures SameDigState(SetCell(old(board), c.0, c.1, old(board[c.0][c.1]).Dig()), board, boardWidth, boardHeight)
      ensures GetTotalGemsNeeded() == old(GetTotalGemsNeeded())
    {
      board := SetCell(board, c.0, c.1, board[c.0][c.1].Dig());
      assert Snapshot() == DigAt(old(Snapshot()), c);
      var roll: bool :| true;
      ghost var forced, marked, spawned := ProcessGemReveal(c, roll);
      assert Processed(Env(), DigAt(old(Snapshot()), c), Snapshot(), c, roll, forced, marked, spawned);
    }

    /**
     * Why DigCell refuses, checked in the source's order: input disabled,
     * outside the board, inside the cooldown, already revealed, or fewer
     * pickaxes than the cell's stone layers.
     */
    predicate DigRefused(x: int, y: int, now: int, pickaxes: int): (refused: bool)
      reads this
      requires Valid()
      ensures !refused ==> isInputEnabled && InBoard((x, y), boardWidth, boardHeight) && !board[x][y].isRevealed
                           && lastDigTime + DIG_COOLDOWN_MS <= now && board[x][y].stoneLayers <= pickaxes
      ensures !isInputEnabled || !InBoard((x, y), boardWidth, boardHeight) ==> refused
    {
      !isInputEnabled || !InBoard((x, y), boardWidth, boardHeight) || now - lastDigTime < DIG_COOLDOWN_MS
      || board[x][y].isRevealed || pickaxes < board[x][y].stoneLayers
    }

    /**
     * DigCell at time `now` (ms) with the roll for the dug cell. A refused
     * dig changes nothing except that a pickaxe shortage asks for the "add
     * pickaxes" popup. An accepted dig records the time, debits exactly the
     * cell's stone layers, digs the cell, explodes a dynamite cell's
     * neighbourhood, and runs ProcessGemReveal on the cell.
     */
    method DigCell(x: int, y: int, now: int, hitRoll: bool, ledger: PickaxeManager)
      returns (dug: bool, ghost trace: seq<EngineState>, ghost forced: bool, ghost marked: bool, ghost spawned: Option<Spawn>)
      requires Valid() && PoolReady()
      modifies this`board, this`gems, this`unplacedGems, this`hiddenGems, this`collectedEvents, this`lastDigTime
      modifies ledger
      ensures Valid() && PoolReady()
      ensures GetTotalGemsNeeded() == old(GetTotalGemsNeeded())
      ensures dug <==> !old(DigRefused(x, y, now, ledger.currentPickaxes))
      ensures !dug ==> board == old(board) && gems == old(gems) && unplacedGems == old(unplacedGems)
                       && hiddenGems == old(hiddenGems) && collectedEvents == old(collectedEvents)
                       && lastDigTime == old(lastDigTime) && ledger.currentPickaxes == old(ledger.currentPickaxes)
      ensures ledger.popupRequests == old(ledger.popupRequests) + (if !dug && old(isInputEnabled)
                                        && InBoard((x, y), boardWidth, boardHeight) && now - old(lastDigTime) >= DIG_COOLDOWN_MS
                                        && !old(board[x][y].isRevealed) then 1 else 0)
      ensures dug ==> lastDigTime == now && ledger.currentPickaxes == old(ledger.currentPickaxes) - old(board[x][y].stoneLayers)
      ensures dug && old(board[x][y].isDynamite) ==>
                DugBefore(SetCell(old(board), x, y, old(board[x][y]).Dig()), board, boardWidth, boardHeight, x, y, 2, -1)
      ensures dug && !old(board[x][y].isDynamite) ==>
                SameDigState(SetCell(old(board), x, y, old(board[x][y]).Dig()), board, boardWidth, boardHeight)
      ensures dug && old(board[x][y].isDynamite) ==>
                BlastTrace(Env(), x, y, trace) && trace[0] == DigAt(old(Snapshot()), (x, y))
                && Processed(Env(), trace[9], Snapshot(), (x, y), hitRoll, forced, marked, spawned)
      ensures dug && !old(board[x][y].isDynamite) ==>
                Processed(Env(), DigAt(old(Snapshot()), (x, y)), Snapshot(), (x, y), hitRoll, forced, marked, spawned)
    {
      trace, forced, marked, spawned := [], false, false, None;
      if !isInputEnabled {
        return false, trace, forced, marked, spawned;
      }
      if x < 0 || x >= boardWidth || y < 0 || y >= boardHeight {
        return false, trace, forced, marked, spawned;
      }
      if now - lastDigTime < DIG_COOLDOWN_MS {
        return false, trace, forced, marked, spawned;
      }
      var cell := board[x][y];
      if cell.isRevealed {
        return false, trace, forced, marked, spawned;
      }
      var pickaxesNeeded := cell.stoneLayers;
      if !ledger.HasEnoughPickaxes(pickaxesNeeded) {
        ledger.ShowAddPickaxePopup();
        return false, trace, forced, marked, spawned;
      }
      lastDigTime := now;
      var _ := ledger.UsePickaxe(pickaxesNeeded);
      trace, forced, marked, spawned := DigUnrevealed(x, y, hitRoll);
      return true, trace, forced, marked, spawned;
    }

    /**
     * The accepted half of DigCell: Dig on the cell, the explosion when it
     * holds dynamite, then ProcessGemReveal of the cell with `hitRoll`.
     */
    method DigUnrevealed(x: int, y: int, hitRoll: bool)
      returns (ghost trace: seq<EngineState>, ghost forced: bool, ghost marked: bool, ghost spawned: Option<Spawn>)
      requires Valid() && PoolReady() && InBoard((x, y), boardWidth, boardHeight) && !board[x][y].isRevealed
      modifies this`board, this`gems, this`unplacedGems, this`hiddenGems, this`collectedEvents
      ensures Valid() && PoolReady()
      ensures GetTotalGemsNeeded() == old(GetTotalGemsNeeded())
      ensures old(board[x][y].isDynamite) ==>
                DugBefore(SetCell(old(board), x, y, old(board[x][y]).Dig()), board, boardWidth, boardHeight, x, y, 2, -1)
      ensures !old(board[x][y].isDynamite) ==>
                SameDigState(SetCell(old(board), x, y, old(board[x][y]).Dig()), board, boardWidth, boardHeight)
      ensures old(board[x][y].isDynamite) ==>
                BlastTrace(Env(), x, y, trace) && trace[0] == DigAt(old(Snapshot()), (x, y))
                && Processed(Env(), trace[9], Snapshot(), (x, y), hitRoll, forced, marked, spawned)
      ensures !old(board[x][y].isDynamite) ==>
                Processed(Env(), DigAt(old(Snapshot()), (x, y)), Snapshot(), (x, y), hitRoll, forced, marked, spawned)
    {
      trace := [];
      var cell := board[x][y];
      board := SetCell(board, x, y, cell.Dig());
      ghost var afterDig := board;
      if cell.isDynamite {
        trace := ExplodeDynamite(x, y);
      }
      ghost var beforeReveal := board;
      forced, marked, spawned := ProcessGemReveal((x, y), hitRoll);
      if cell.isDynamite {
        DugBeforeStable(afterDig, beforeReveal, board, boardWidth, boardHeight, x, y, 2, -1);
      } else {
        SameDigStateTrans(afterDig, beforeReveal, board, boardWidth, boardHeight);
      }
    }

    /** Every listed dynamite position is on the board, holds dynamite and no gem. */
    ghost predicate DynamiteListed()
      reads this
      requires Valid()
    {
      NoDuplicates(dynamitePositions)
      && forall p | p in dynamitePositions ::
           InBoard(p, boardWidth, boardHeight) && board[p.0][p.1].isDynamite && board[p.0][p.1].gem.None?
    }

    /**
     * PlaceDynamiteRandomly: up to MAX_DYNAMITE_ATTEMPTS random cells; the
     * first without a gem and without dynamite gets dynamite and is listed.
     * After that many misses nothing changes.
     */
    method PlaceDynamiteRandomly() returns (ghost placed: bool, ghost pos: Coord)
      requires Valid() && boardWidth >= 1 && boardHeight >= 1
      modifies this`board, this`dynamitePositions
      ensures Valid()
      ensures !placed ==> board == old(board) && dynamitePositions == old(dynamitePositions)
      ensures placed ==> InBoard(pos, boardWidth, boardHeight)
                         && old(board[pos.0][pos.1].gem).None? && !old(board[pos.0][pos.1].isDynamite)
                         && board == SetCell(old(board), pos.0, pos.1, old(board[pos.0][pos.1]).SetDynamite(true))
                         && dynamitePositions == old(dynamitePositions) + [pos]
    {
      placed, pos := false, (0, 0);
      var attempt := 0;
      while attempt < MAX_DYNAMITE_ATTEMPTS
        invariant board == old(board) && dynamitePositions == old(dynamitePositions)
      {
        var x :| 0 <= x < boardWidth;
        var y :| 0 <= y < boardHeight;
        if board[x][y].gem.None? && !board[x][y].isDynamite {
          board := SetCell(board, x, y, board[x][y].SetDynamite(true));
          dynamitePositions := dynamitePositions + [(x, y)];
          return true, (x, y);
        }
        attempt := attempt + 1;
      }
    }

    /**
     * PlaceDynamites: the list is cleared, then `count` placement attempts
     * run. Each new dynamite lands on a cell that had neither a gem nor
     * dynamite, and no other cell changes.
     */
    method PlaceDynamites(count: int)
      requires Valid() && (count > 0 ==> boardWidth >= 1 && boardHeight >= 1)
      modifies this`board, this`dynamitePositions
      ensures Valid() && DynamiteListed()
      ensures |dynamitePositions| <= (if count < 0 then 0 else count)
      ensures forall i, j | 0 <= i < boardWidth && 0 <= j < boardHeight ::
                board[i][j] == old(board[i][j])
                || (board[i][j] == old(board[i][j]).SetDynamite(true) && old(board[i][j]).gem.None? && !old(board[i][j]).isDynamite
                    && (i, j) in dynamitePositions)
    {
      dynamitePositions := [];
      var i := 0;
      while i < count
        invariant Valid() && DynamiteListed()
        invariant boardWidth == old(boardWidth) && boardHeight == old(boardHeight)
        invariant 0 <= i <= (if count < 0 then 0 else count) && |dynamitePositions| <= i
        invariant forall a, b | 0 <= a < boardWidth && 0 <= b < boardHeight ::
                    board[a][b] == old(board[a][b])
                    || (board[a][b] == old(board[a][b]).SetDynamite(true) && old(board[a][b]).gem.None? && !old(board[a][b]).isDynamite
                        && (a, b) in dynamitePositions)
        invariant forall a, b | 0 <= a < boardWidth && 0 <= b < boardHeight && (a, b) !in dynamitePositions ::
                    board[a][b] == old(board[a][b])
      {
        ghost var placed, pos := PlaceDynamiteRandomly();
        i := i + 1;
      }
    }

    /**
     * What the full-board packer may assume at level `index` of `order`:
     * the gems before it are hidden, in order, with their back-pointers on
     * the board; the gems from it on hold no cells yet.
     */
    ghost predicate PackerReady(order: seq<Handle>, index: int)
      reads this
      requires Valid()
    {
      0 <= index <= |order| && AllHandles(gems, order) && NoDuplicates(order)
      && hiddenGems == order[..index]
      && Backed(board, boardWidth, boardHeight, gems, order[..index])
      && forall k | index <= k < |order| :: order[k] < |gems| && gems[order[k]].cells == []
    }

    /** The gem at `order[index]` covers exactly the placement, of its one shape, on the board. */
    ghost predicate CoversPlacement(g: Handle, p: PlacementOption)
      reads this
      requires Valid() && g < |gems|
    {
      var config := GetGemConfig(gemConfigs, gems[g].gemId);
      config.Some? && HasShape(p, config.value, OrientationOf(gemOrientations, g))
      && OnBoard(p, boardWidth, boardHeight)
      && forall c :: c in gems[g].cells <==> c in OptionCells(p)
    }

    /** After PlaceGemAt of `order[index]` on a gem-free rectangle and List.Add, the next level may start. */
    lemma PlacedIsReady(order: seq<Handle>, index: int, g: Handle, p: PlacementOption, b0: Grid, g0: seq<GemRecord>)
      requires Valid() && 0 <= index < |order| && g == order[index] && AllHandles(gems, order) && NoDuplicates(order)
      requires WellFormed(b0, boardWidth, boardHeight) && |g0| == |gems| && AllHandles(g0, order[..index])
      requires hiddenGems == order[..index + 1]
      requires Backed(b0, boardWidth, boardHeight, g0, order[..index])
      requires forall k | index <= k < |order| :: order[k] < |g0| && g0[order[k]].cells == []
      requires OnBoard(p, boardWidth, boardHeight) && RectAdmits(b0, p.x, p.y, p.actualWidth, p.actualHeight, Strict)
      requires forall i, j | 0 <= i < boardWidth && 0 <= j < boardHeight ::
                 board[i][j] == if (i, j) in OptionCells(p) && (i, j) !in g0[g].cells
                                then b0[i][j].SetGem(Some(g)) else b0[i][j]
      requires forall m | 0 <= m < |gems| && m != g :: gems[m] == g0[m]
      requires forall c :: c in gems[g].cells <==> c in g0[g].cells || c in OptionCells(p)
      ensures PackerReady(order, index + 1)
    {
      assert g0[g].cells == [];
      assert order[..index + 1] == order[..index] + [g];
      forall h, c | h in order[..index + 1] && c in gems[h].cells
        ensures InBoard(c, boardWidth, boardHeight) && board[c.0][c.1].gem == Some(h)
      {
        if h == g {
          assert c in OptionCells(p);
        } else {
          assert h in order[..index];
          assert gems[h] == g0[h];
          assert InBoard(c, boardWidth, boardHeight) && b0[c.0][c.1].gem == Some(h);
          assert c in OptionCells(p) ==> AdmitsAt(b0, c.0, c.1, Strict);
        }
      }
      forall k | index + 1 <= k < |order| ensures order[k] < |gems| && gems[order[k]].cells == [] {
        assert order[k] != g;
      }
    }

    /**
     * PlaceGemsRecursive: places `order[index..]` one after the other,
     * trying each valid placement of the next gem in a shuffled order and
     * undoing it (RemoveGem, List.Remove) when the rest cannot be placed.
     * On success every gem of `order` is hidden, covers one placement of its
     * shape, and the board points back to it. On failure the hidden list,
     * every gem's cells and the board's occupancy are as before; only
     * stone layers and gem positions may differ.
     */
    method PlaceGemsRecursive(order: seq<Handle>, index: int) returns (ok: bool, ghost placements: seq<PlacementOption>)
      requires Valid() && PackerReady(order, index)
      modifies this`board, this`gems, this`hiddenGems
      ensures Valid() && |gems| == old(|gems|)
      ensures ok ==> hiddenGems == order && Backed(board, boardWidth, boardHeight, gems, order)
                     && |placements| == |order| - index
                     && forall k | 0 <= k < |placements| :: CoversPlacement(order[index + k], placements[k])
      ensures forall h | 0 <= h < |gems| && h !in order[index..] :: gems[h] == old(gems[h])
      ensures forall h | 0 <= h < |gems| :: gems[h] == old(gems[h]).(cells := gems[h].cells, position := gems[h].position)
      ensures !ok ==> hiddenGems == old(hiddenGems) && SameOccupancy(old(board), board, boardWidth, boardHeight)
                      && forall h | 0 <= h < |gems| :: gems[h] == old(gems[h]).(position := gems[h].position)
      decreases |order| - index, 2
    {
      placements := [];
      if index >= |order| {
        return true, [];
      }
      var gem := order[index];
      assert gem in order;
      var orientation := OrientationOf(gemOrientations, gem);
      var allPlacements := GetAllValidPlacements(board, boardWidth, boardHeight, gemConfigs, gems[gem], orientation);
      var validPlacements := Shuffle(allPlacements);
      ghost var start := board;
      var k := 0;
      while k < |validPlacements|
        invariant 0 <= k <= |validPlacements|
        invariant Valid() && PackerReady(order, index) && |gems| == old(|gems|)
        invariant hiddenGems == old(hiddenGems) && SameOccupancy(old(board), board, boardWidth, boardHeight)
        invariant forall h | 0 <= h < |gems| :: gems[h] == old(gems[h]).(position := gems[h].position)
        invariant forall h | 0 <= h < |gems| && h !in order[index..] :: gems[h] == old(gems[h])
        invariant forall h | 0 <= h < |gems| :: gems[h] == old(gems[h]).(cells := gems[h].cells, position := gems[h].position)
      {
        var placement := validPlacements[k];
        assert placement in multiset(validPlacements);
        assert placement in allPlacements;
        var config := GetGemConfig(gemConfigs, gems[gem].gemId);
        if config.Some? {
          SameOccupancyAdmits(old(board), board, boardWidth, boardHeight, placement.x, placement.y,
                              placement.actualWidth, placement.actualHeight, Strict);
          var placed;
          placed, placements := PlaceAttempt(order, index, placement);
          if placed {
            return true, placements;
          }
        }
        k := k + 1;
      }
      return false, [];
    }

    /**
     * One try of PlaceGemsRecursive: PlaceGemAt and List.Add, the recursive
     * call for the next gem, and on its failure RemoveGem and List.Remove.
     */
    method PlaceAttempt(order: seq<Handle>, index: int, p: PlacementOption) returns (ok: bool, ghost placements: seq<PlacementOption>)
      requires Valid() && PackerReady(order, index) && index < |order|
      requires OnBoard(p, boardWidth, boardHeight) && RectAdmits(board, p.x, p.y, p.actualWidth, p.actualHeight, Strict)
      requires var config := GetGemConfig(gemConfigs, gems[order[index]].gemId);
               config.Some? && HasShape(p, config.value, OrientationOf(gemOrientations, order[index]))
      modifies this`board, this`gems, this`hiddenGems
      ensures Valid() && |gems| == old(|gems|)
      ensures ok ==> hiddenGems == order && Backed(board, boardWidth, boardHeight, gems, order)
                     && |placements| == |order| - index
                     && forall k | 0 <= k < |placements| :: CoversPlacement(order[index + k], placements[k])
      ensures forall h | 0 <= h < |gems| && h !in order[index..] :: gems[h] == old(gems[h])
      ensures forall h | 0 <= h < |gems| :: gems[h] == old(gems[h]).(cells := gems[h].cells, position := gems[h].position)
      ensures !ok ==> hiddenGems == old(hiddenGems) && SameOccupancy(old(board), board, boardWidth, boardHeight)
                      && forall h | 0 <= h < |gems| :: gems[h] == old(gems[h]).(position := gems[h].position)
      decreases |order| - index, 1
    {
      forall i, j | 0 <= i < boardWidth && 0 <= j < boardHeight && (i, j) in OptionCells(p)
        ensures board[i][j].gem.None? && !board[i][j].isExcludedFromGemSpawn
      {
        assert AdmitsAt(board, i, j, Strict);
      }
      PlaceAndAdd(order, index, p);
      ok, placements := RecurseOrUndo(order, index, p, old(board), old(gems));
    }

    /**
     * The rest of PlaceAttempt once `order[index]` covers `p`: the recursive
     * call for the next gem and, on its failure, RemoveGem and List.Remove.
     * `b0` and `g0` are the board and the gem table before the placement.
     */
    method RecurseOrUndo(order: seq<Handle>, index: int, p: PlacementOption, ghost b0: Grid, ghost g0: seq<GemRecord>)
      returns (ok: bool, ghost placements: seq<PlacementOption>)
      requires Valid() && 0 <= index < |order| && order[index] < |gems| && PackerReady(order, index + 1)
      requires CoversPlacement(order[index], p)
      requires WellFormed(b0, boardWidth, boardHeight) && |g0| == |gems|
      requires forall i, j | 0 <= i < boardWidth && 0 <= j < boardHeight && (i, j) in OptionCells(p) ::
                 b0[i][j].gem.None? && !b0[i][j].isExcludedFromGemSpawn
      requires forall i, j | 0 <= i < boardWidth && 0 <= j < boardHeight ::
                 board[i][j] == if (i, j) in OptionCells(p) then b0[i][j].SetGem(Some(order[index])) else b0[i][j]
      requires forall m | 0 <= m < |gems| && m != order[index] :: gems[m] == g0[m]
      requires g0[order[index]].cells == []
      requires gems[order[index]] == g0[order[index]].(cells := gems[order[index]].cells, position := (p.x, p.y))
      modifies this`board, this`gems, this`hiddenGems
      ensures Valid() && |gems| == old(|gems|)
      ensures ok ==> hiddenGems == order && Backed(board, boardWidth, boardHeight, gems, order)
                     && |placements| == |order| - index
                     && forall k | 0 <= k < |placements| :: CoversPlacement(order[index + k], placements[k])
      ensures forall h | 0 <= h < |gems| && h !in order[index..] :: gems[h] == g0[h]
      ensures forall h | 0 <= h < |gems| :: gems[h] == g0[h].(cells := gems[h].cells, position := gems[h].position)
      ensures !ok ==> hiddenGems == order[..index] && SameOccupancy(b0, board, boardWidth, boardHeight)
                      && forall h | 0 <= h < |gems| :: gems[h] == g0[h].(position := gems[h].position)
      decreases |order| - index, 0
    {
      var gem := order[index];
      ghost var placedBoard := board;
      ghost var placedGem := gems[gem];
      ghost var rest;
      ok, rest := PlaceGemsRecursive(order, index + 1);
      if ok {
        NoDuplicatesSuffix(order, index);
        assert gems[gem] == placedGem;
        placements := [p] + rest;
        assert forall k | 0 <= k < |placements| :: CoversPlacement(order[index + k], placements[k]) by {
          AllHandlesAt(gems, order);
          CoversAll(order, index, p, rest);
        }
        return;
      }
      UndoAttempt(order, index, p, b0, placedBoard);
      placements := [];
    }

    /** The placement of `order[index]` in front of those of the rest covers all of `order[index..]`. */
    lemma CoversAll(order: seq<Handle>, index: int, p: PlacementOption, rest: seq<PlacementOption>)
      requires Valid() && 0 <= index < |order| && |rest| == |order| - index - 1
      requires forall k | 0 <= k < |order| :: order[k] < |gems|
      requires CoversPlacement(order[index], p)
      requires forall k | 0 <= k < |rest| :: CoversPlacement(order[index + 1 + k], rest[k])
      ensures forall k | 0 <= k < 1 + |rest| :: CoversPlacement(order[index + k], ([p] + rest)[k])
    {
      forall k | 0 <= k < 1 + |rest|
        ensures CoversPlacement(order[index + k], ([p] + rest)[k])
      {
        if k > 0 {
          assert ([p] + rest)[k] == rest[k - 1] && index + k == index + 1 + (k - 1);
        }
      }
    }

    /**
     * RemoveGem and List.Remove after the rest failed: with the rest's
     * failure having kept the occupancy, the board's occupancy is back to
     * what it was before the gem was placed.
     */
    method UndoAttempt(order: seq<Handle>, index: int, p: PlacementOption, ghost b0: Grid, ghost placedBoard: Grid)
      requires Valid() && 0 <= index < |order| && NoDuplicates(order) && hiddenGems == order[..index + 1]
      requires order[index] < |gems| && forall c :: c in gems[order[index]].cells <==> c in OptionCells(p)
      requires WellFormed(b0, boardWidth, boardHeight) && WellFormed(placedBoard, boardWidth, boardHeight)
      requires forall i, j | 0 <= i < boardWidth && 0 <= j < boardHeight && (i, j) in OptionCells(p) ::
                 b0[i][j].gem.None? && !b0[i][j].isExcludedFromGemSpawn
      requires forall i, j | 0 <= i < boardWidth && 0 <= j < boardHeight ::
                 placedBoard[i][j] == if (i, j) in OptionCells(p) then b0[i][j].SetGem(Some(order[index])) else b0[i][j]
      requires SameOccupancy(placedBoard, board, boardWidth, boardHeight)
      modifies this`board, this`gems, this`hiddenGems
      ensures Valid() && hiddenGems == order[..index]
      ensures gems == old(gems)[order[index] := old(gems[order[index]]).(cells := [])]
      ensures SameOccupancy(b0, board, boardWidth, boardHeight)
    {
      var gem := order[index];
      ghost var failedBoard := board;
      NoDuplicatesPrefix(order, index);
      assert order[..index + 1] == order[..index] + [gem];
      UndoPlacement(gem, order[..index]);
      PlaceThenRemoveRestores(b0, placedBoard, failedBoard, board, boardWidth, boardHeight, OptionCells(p), gem);
    }

    /** PlaceGemAt of `order[index]` followed by List.Add: the first half of PlaceAttempt. */
    method PlaceAndAdd(order: seq<Handle>, index: int, p: PlacementOption)
      requires Valid() && PackerReady(order, index) && index < |order|
      requires OnBoard(p, boardWidth, boardHeight) && RectAdmits(board, p.x, p.y, p.actualWidth, p.actualHeight, Strict)
      modifies this`board, this`gems, this`hiddenGems
      ensures Valid() && PackerReady(order, index + 1) && |gems| == old(|gems|)
      ensures hiddenGems == old(hiddenGems) + [order[index]]
      ensures forall m | 0 <= m < |gems| && m != order[index] :: gems[m] == old(gems[m])
      ensures gems[order[index]] == old(gems[order[index]]).(cells := gems[order[index]].cells, position := (p.x, p.y))
      ensures forall c :: c in gems[order[index]].cells <==> c in OptionCells(p)
      ensures forall i, j | 0 <= i < boardWidth && 0 <= j < boardHeight ::
                board[i][j] == if (i, j) in OptionCells(p) then old(board[i][j]).SetGem(Some(order[index])) else old(board[i][j])
    {
      var gem := order[index];
      assert gems[gem].cells == [];
      PlaceGemAt(gem, p);
      hiddenGems := hiddenGems + [gem];
      assert order[..index + 1] == order[..index] + [gem];
      PlacedIsReady(order, index, gem, p, old(board), old(gems));
    }

    /** RemoveGem of the gem last added to the hidden list, followed by List.Remove: the undo half of PlaceAttempt. */
    method UndoPlacement(g: Handle, prefix: seq<Handle>)
      requires Valid() && g < |gems| && g !in prefix && hiddenGems == prefix + [g]
      modifies this`board, this`gems, this`hiddenGems
      ensures Valid()
      ensures hiddenGems == prefix
      ensures gems == old(gems)[g := old(gems[g]).(cells := [])]
      ensures forall i, j | 0 <= i < boardWidth && 0 <= j < boardHeight ::
                if (i, j) in old(gems[g].cells) then
                  board[i][j] == old(board[i][j]).SetGem(None).SetStoneLayers(board[i][j].stoneLayers)
                else board[i][j] == old(board[i][j])
    {
      RemoveGem(g);
      DropLastHidden(g, prefix);
    }

    /** List.Remove of the gem last added to the hidden list. */
    method DropLastHidden(g: Handle, prefix: seq<Handle>)
      requires Valid() && g !in prefix && hiddenGems == prefix + [g]
      modifies this`hiddenGems
      ensures Valid() && hiddenGems == prefix
    {
      RemoveFirstUndoesAppend(prefix, g);
      assert AllHandles(gems, prefix) by {
        forall h | h in prefix ensures h < |gems| {
          assert h in hiddenGems;
        }
      }
      hiddenGems := RemoveFirst(hiddenGems, g);
    }

    /**
     * ValidateBoardCapacity: the oriented areas of the gems with a config
     * (gems without one are skipped) must not exceed 9/10 of the board.
     */
    method ValidateBoardCapacity(order: seq<Handle>) returns (ok: bool)
      requires Valid() && AllHandles(gems, order)
      ensures ok <==> CAPACITY_DENOMINATOR * TotalArea(PoolSpecs(order)) <= CAPACITY_NUMERATOR * (boardWidth * boardHeight)
    {
      var totalBoardArea := boardWidth * boardHeight;
      var totalGemArea := 0;
      var k := 0;
      AllHandlesPrefix(gems, order, 0);
      while k < |order|
        invariant 0 <= k <= |order|
        invariant AllHandles(gems, order[..k]) && totalGemArea == TotalArea(PoolSpecs(order[..k]))
      {
        var gem := order[k];
        assert gem in order;
        AllHandlesPrefix(gems, order, k + 1);
        assert order[..k + 1] == order[..k] + [gem];
        assert PoolSpecs(order[..k + 1]) == PoolSpecs(order[..k]) + [SpecOf(gems, gemConfigs, gemOrientations, gem)];
        TotalAreaSnoc(PoolSpecs(order[..k]), SpecOf(gems, gemConfigs, gemOrientations, gem));
        var config := GetGemConfig(gemConfigs, gems[gem].gemId);
        if config.Some? {
          var orientation := OrientationOf(gemOrientations, gem);
          var gemArea := GetGemArea(config.value, orientation);
          totalGemArea := totalGemArea + gemArea;
        }
        k := k + 1;
      }
      assert order[..|order|] == order;
      ok := !(CAPACITY_DENOMINATOR * totalGemArea > CAPACITY_NUMERATOR * totalBoardArea);
    }

    /**
     * PlaceGemsRandomly, the full-board packer: no gem is hidden, and when
     * the capacity test fails nothing else happens. Otherwise up to
     * MAX_RETRIES rounds (PackRound) each clear the board's gems, order the
     * gems largest first and run PlaceGemsRecursive. Success hides every gem
     * exactly once, largest first, each on one placement of its shape, with
     * no two sharing a cell; after the last failed round the board holds no gem.
     */
    method PlaceGemsRandomly(order: seq<Handle>) returns (ok: bool, ghost attempts: nat, ghost placements: seq<PlacementOption>)
      requires Valid() && AllHandles(gems, order) && NoDuplicates(order)
      requires forall h | h in order :: gems[h].cells == []
      modifies this`board, this`gems, this`hiddenGems
      ensures Valid() && |gems| == old(|gems|)
      ensures forall h | 0 <= h < |gems| && h !in order :: gems[h] == old(gems[h])
      ensures var fits := CAPACITY_DENOMINATOR * TotalArea(old(PoolSpecs(order))) <= CAPACITY_NUMERATOR * (boardWidth * boardHeight);
              (!fits ==> !ok && attempts == 0 && hiddenGems == [] && board == old(board) && gems == old(gems))
              && (ok ==> fits && 1 <= attempts <= MAX_RETRIES)
              && (fits && !ok ==> attempts == MAX_RETRIES && hiddenGems == []
                                  && forall i, j | 0 <= i < boardWidth && 0 <= j < boardHeight :: board[i][j].gem.None?)
      ensures ok ==> multiset(hiddenGems) == multiset(order) && NoDuplicates(hiddenGems) && LargestFirst(gems, hiddenGems)
                     && Backed(board, boardWidth, boardHeight, gems, hiddenGems)
                     && |placements| == |hiddenGems|
                     && forall k | 0 <= k < |placements| :: hiddenGems[k] < |gems| && CoversPlacement(hiddenGems[k], placements[k])
    {
      attempts, placements := 0, [];
      hiddenGems := [];
      var fits := ValidateBoardCapacity(order);
      if !fits {
        return false, 0, [];
      }
      var retry := 0;
      while retry < MAX_RETRIES
        invariant 0 <= retry <= MAX_RETRIES
        invariant Valid() && |gems| == old(|gems|) && hiddenGems == []
        invariant forall h | 0 <= h < |gems| :: gems[h] == old(gems[h]).(position := gems[h].position)
        invariant forall h | 0 <= h < |gems| && h !in order :: gems[h] == old(gems[h])
        invariant retry > 0 ==> forall i, j | 0 <= i < boardWidth && 0 <= j < boardHeight :: board[i][j].gem.None?
      {
        ok, placements := PackRound(order);
        if ok {
          return true, retry + 1, placements;
        }
        retry := retry + 1;
      }
      return false, MAX_RETRIES, [];
    }

    /**
     * One round of PlaceGemsRandomly: ClearAllGems, a largest-first
     * permutation of the gems, and PlaceGemsRecursive on it. A failed round
     * leaves no gem on the board and none hidden.
     */
    method PackRound(order: seq<Handle>) returns (ok: bool, ghost placements: seq<PlacementOption>)
      requires Valid() && AllHandles(gems, order) && NoDuplicates(order)
      requires forall h | h in order :: gems[h].cells == []
      modifies this`board, this`gems, this`hiddenGems
      ensures Valid() && |gems| == old(|gems|)
      ensures forall h | 0 <= h < |gems| && h !in order :: gems[h] == old(gems[h])
      ensures !ok ==> hiddenGems == [] && (forall h | 0 <= h < |gems| :: gems[h] == old(gems[h]).(position := gems[h].position))
                      && forall i, j | 0 <= i < boardWidth && 0 <= j < boardHeight :: board[i][j].gem.None?
      ensures ok ==> multiset(hiddenGems) == multiset(order) && NoDuplicates(hiddenGems) && LargestFirst(gems, hiddenGems)
                     && Backed(board, boardWidth, boardHeight, gems, hiddenGems)
                     && |placements| == |hiddenGems|
                     && forall k | 0 <= k < |placements| :: hiddenGems[k] < |gems| && CoversPlacement(hiddenGems[k], placements[k])
    {
      ClearAllGems();
      var sortedGems := SortLargestFirst(gems, order);
      SortedIsReady(order, sortedGems);
      ghost var sizes := gems;
      ok, placements := PlaceGemsRecursive(sortedGems, 0);
      if ok {
        SizesKept(sizes, gems, sortedGems);
        forall k | 0 <= k < |placements|
          ensures hiddenGems[k] < |gems| && CoversPlacement(hiddenGems[k], placements[k])
        {
          assert sortedGems[0 + k] == hiddenGems[k] && hiddenGems[k] in hiddenGems;
          assert CoversPlacement(sortedGems[0 + k], placements[k]);
        }
      }
    }

    /** A largest-first permutation of the given gems, on a cleared board, is where PlaceGemsRecursive starts. */
    lemma SortedIsReady(order: seq<Handle>, sortedGems: seq<Handle>)
      requires Valid() && AllHandles(gems, order) && NoDuplicates(order) && hiddenGems == []
      requires forall h | h in order :: gems[h].cells == []
      requires multiset(sortedGems) == multiset(order)
      ensures PackerReady(sortedGems, 0)
      ensures sortedGems[0..] == sortedGems && forall h | h in sortedGems :: h in order
    {
      NoDuplicatesPermutation(order, sortedGems);
      forall h | h in sortedGems ensures h in order {
        assert h in multiset(sortedGems);
      }
      assert sortedGems[..0] == [];
      forall k | 0 <= k < |sortedGems| ensures sortedGems[k] < |gems| && gems[sortedGems[k]].cells == [] {
        assert sortedGems[k] in sortedGems;
      }
    }
  }
}
