/**
 * The stage flow of Assets/Scripts/Manager/StageManager.cs. Loading a stage
 * builds a fresh board, turns the stage's gem requests into gems (one per
 * unit of count, skipping ids without a gem config) with their
 * orientations, hands them to the board as the spawn pool and scatters the
 * dynamite. A stage completes once, when every gem has been collected, and
 * the next stage follows while there is one.
 *
 * The serialized references (stage table, gem table, board) may be missing,
 * as in the source: the tables are Option values and the board a nullable
 * reference. What the scene only shows (the stage-changed event, unlocking
 * a reward button, the scheduled delayed advance) is kept as ghost records.
 */
module Stages {
  import opened Wrappers
  import opened GemConfigs
  import opened StageConfigs
  import opened Cells
  import opened Gems
  import opened Placement
  import opened Board

  // ------------------------------------------------------------ gems of a stage

  /** How many gems a request asks for: its count, or none for a negative count (a `for` loop that never runs). */
  function Units(r: StageGemRequest): nat
  {
    if r.count < 0 then 0 else r.count
  }

  /** The gems one request asks for: Units(r) fresh gems of its config, none when no config has its id. */
  function RequestGems(r: StageGemRequest, configs: seq<GemConfig>): (gs: seq<GemRecord>)
    ensures GetGemConfig(configs, r.gemId).None? ==> gs == []
    ensures GetGemConfig(configs, r.gemId).Some? ==> |gs| == Units(r)
    ensures forall k | 0 <= k < |gs| ::
              GetGemConfig(configs, r.gemId).Some?
              && gs[k].gemId == r.gemId
              && gs[k].width == GetGemConfig(configs, r.gemId).value.width
              && gs[k].height == GetGemConfig(configs, r.gemId).value.height
              && gs[k].cells == [] && !gs[k].isCollected
  {
    match GetGemConfig(configs, r.gemId)
    case None => []
    case Some(c) => seq(Units(r), _ => InitializedGem(c.gemId, c.width, c.height, c.gemColor))
  }

  /** The orientation entry of each gem RequestGems creates: the request's own. */
  function RequestOrientations(r: StageGemRequest, configs: seq<GemConfig>): (os: seq<GemOrientation>)
  {
    seq(|RequestGems(r, configs)|, _ => r.orientation)
  }

  /** The gems CreateStageGems builds: those of each request, request after request. */
  function ExpandGems(requests: seq<StageGemRequest>, configs: seq<GemConfig>): (gs: seq<GemRecord>)
    ensures forall k | 0 <= k < |gs| :: gs[k].cells == [] && !gs[k].isCollected
  {
    if |requests| == 0 then []
    else ExpandGems(requests[..|requests| - 1], configs) + RequestGems(requests[|requests| - 1], configs)
  }

  /** The orientation entries CreateStageGems records, in the order of the gems. */
  function ExpandOrientations(requests: seq<StageGemRequest>, configs: seq<GemConfig>): (os: seq<GemOrientation>)
    ensures |os| == |ExpandGems(requests, configs)|
  {
    if |requests| == 0 then []
    else ExpandOrientations(requests[..|requests| - 1], configs) + RequestOrientations(requests[|requests| - 1], configs)
  }

  /** The orientation dictionary, keyed by the gem's position in the stage's gem list. */
  function OrientationMap(os: seq<GemOrientation>): (m: map<Handle, GemOrientation>)
  {
    map k: Handle | k < |os| :: os[k]
  }

  /** Every request's id has a gem config and no count is negative. */
  predicate AllKnown(requests: seq<StageGemRequest>, configs: seq<GemConfig>)
  {
    forall k | 0 <= k < |requests| :: GetGemConfig(configs, requests[k].gemId).Some? && requests[k].count >= 0
  }

  /** With every id known, a stage has exactly as many gems as StageConfig.GetTotalGemCount adds up. */
  lemma {:induction false} ExpandedCountIsTotal(requests: seq<StageGemRequest>, configs: seq<GemConfig>)
    requires AllKnown(requests, configs)
    ensures |ExpandGems(requests, configs)| == TotalGemCount(requests)
  {
    if |requests| > 0 {
      var init, last := requests[..|requests| - 1], requests[|requests| - 1];
      assert AllKnown(init, configs) by {
        forall k | 0 <= k < |init| ensures GetGemConfig(configs, init[k].gemId).Some? && init[k].count >= 0 {
          assert init[k] == requests[k];
        }
      }
      ExpandedCountIsTotal(init, configs);
      assert requests == init + [last];
      TotalGemCountAppend(init, [last]);
      assert [last][1..] == [];
    }
  }

  /**
   * The request the k-th created gem comes from: a request whose id has a
   * config, whose id the gem carries, and whose orientation is the gem's
   * orientation entry.
   */
  function Origin(requests: seq<StageGemRequest>, configs: seq<GemConfig>, k: int): (i: int)
    requires 0 <= k < |ExpandGems(requests, configs)|
    ensures 0 <= i < |requests| && GetGemConfig(configs, requests[i].gemId).Some?
    ensures ExpandGems(requests, configs)[k].gemId == requests[i].gemId
    ensures ExpandOrientations(requests, configs)[k] == requests[i].orientation
    decreases |requests|
  {
    var init := requests[..|requests| - 1];
    if k < |ExpandGems(init, configs)| then
      var i := Origin(init, configs, k);
      assert init[i] == requests[i];
      i
    else
      |requests| - 1
  }

  /** The gems come in the order of their requests. */
  lemma {:induction false} OriginsInOrder(requests: seq<StageGemRequest>, configs: seq<GemConfig>, k1: int, k2: int)
    requires 0 <= k1 <= k2 < |ExpandGems(requests, configs)|
    ensures Origin(requests, configs, k1) <= Origin(requests, configs, k2)
    decreases |requests|
  {
    var init := requests[..|requests| - 1];
    if k2 < |ExpandGems(init, configs)| {
      OriginsInOrder(init, configs, k1, k2);
    }
  }

  // ------------------------------------------------------------ stage records

  /** A stage's board can be built: a non-negative size, and at least one cell when it has dynamite. */
  predicate BoardFits(c: StageConfig)
  {
    c.boardWidth >= 0 && c.boardHeight >= 0 && (c.dynamiteCount > 0 ==> c.boardWidth >= 1 && c.boardHeight >= 1)
  }

  /** Every stage of the table can be built. */
  predicate UsableStages(table: StageConfigData)
  {
    forall k | 0 <= k < |table.stageConfigs| :: BoardFits(table.stageConfigs[k])
  }

  /** A cell as a freshly loaded stage has it: stone of one or two layers, no gem, not revealed, not excluded. */
  predicate FreshCell(c: Cell<Handle>)
  {
    (c.stoneLayers == 1 || c.stoneLayers == 2) && c.gem.None? && !c.isRevealed && !c.isExcludedFromGemSpawn
  }

  /**
   * The board after LoadStage built stage `c`: its size, only fresh cells,
   * no hidden gem, the stage's gems as the whole spawn pool in order, the
   * gem table and orientations stored, at most the stage's dynamite count
   * of dynamite, and input enabled.
   */
  ghost predicate BoardLoaded(bm: BoardManager, c: StageConfig, gems: seq<GemRecord>, configs: seq<GemConfig>,
                              orientations: map<Handle, GemOrientation>)
    reads bm
  {
    bm.Valid() && bm.PoolReady()
    && bm.boardWidth == c.boardWidth && bm.boardHeight == c.boardHeight
    && (forall i, j | 0 <= i < bm.boardWidth && 0 <= j < bm.boardHeight :: FreshCell(bm.board[i][j]))
    && bm.gems == gems && bm.hiddenGems == []
    && |bm.unplacedGems| == |gems| && (forall k | 0 <= k < |gems| :: bm.unplacedGems[k] == k)
    && bm.gemConfigs == configs && bm.gemOrientations == orientations
    && |bm.dynamitePositions| <= (if c.dynamiteCount < 0 then 0 else c.dynamiteCount)
    && bm.isInputEnabled
  }

  /** Stage `c` is built: its gems and orientation entries come from its requests, and the board holds them. */
  ghost predicate StageBuilt(bm: BoardManager, c: StageConfig, configs: seq<GemConfig>, gems: seq<GemRecord>,
                             orientations: map<Handle, GemOrientation>)
    reads bm
  {
    gems == ExpandGems(c.gemRequests, configs)
    && orientations == OrientationMap(ExpandOrientations(c.gemRequests, configs))
    && BoardLoaded(bm, c, gems, configs, orientations)
  }

  /** Every gem of the stage is collected: none left in the pool, at least one hidden, all hidden ones collected. */
  ghost predicate AllGemsCollected(bm: BoardManager)
    reads bm
    requires bm.Valid()
  {
    bm.unplacedGems == [] && |bm.hiddenGems| > 0 && forall h | h in bm.hiddenGems :: bm.gems[h].isCollected
  }

  /** The collected list is as long as the hidden list exactly when every hidden gem is collected. */
  lemma {:induction false} AllCollectedExactly(gems: seq<GemRecord>, hidden: seq<Handle>)
    requires AllHandles(gems, hidden)
    ensures |CollectedGems(gems, hidden)| == |hidden| <==> forall h | h in hidden :: gems[h].isCollected
    decreases |hidden|
  {
    if |hidden| > 0 {
      var init, last := hidden[..|hidden| - 1], hidden[|hidden| - 1];
      assert hidden == init + [last];
      AllHandlesPrefix(gems, hidden, |hidden| - 1);
      AllCollectedExactly(gems, init);
      assert last in hidden;
      assert (forall h | h in hidden :: gems[h].isCollected)
             <==> (forall h | h in init :: gems[h].isCollected) && gems[last].isCollected;
    }
  }

  /**
   * The completion test of both stage managers, `collected >= total &&
   * total > 0` with total = pool + hidden gems, holds exactly when every
   * gem of the stage is collected.
   */
  lemma CompletionTestMeansAllCollected(bm: BoardManager)
    requires bm.Valid()
    ensures (|CollectedGems(bm.gems, bm.hiddenGems)| >= bm.GetTotalGemsNeeded() && bm.GetTotalGemsNeeded() > 0)
            <==> AllGemsCollected(bm)
  {
    AllCollectedExactly(bm.gems, bm.hiddenGems);
  }

  // ------------------------------------------------------------ the manager

  class StageManager {
    var stageConfigData: Option<StageConfigData>
    var gemConfigData: Option<seq<GemConfig>>
    var boardManager: BoardManager?
    var currentStageId: int
    var currentStageConfig: Option<StageConfig>
    var stageGems: seq<GemRecord>
    /** Each stage gem's orientation, keyed by its position in `stageGems`. */
    var gemOrientations: map<Handle, GemOrientation>
    var isStageCompleted: bool
    /** The stage ids announced through OnStageChanged, in order. */
    ghost var stageChanged: seq<int>
    /** The stage ids whose reward button was unlocked, in order. */
    ghost var unlockedRewardButtons: seq<int>
    /** How many delayed advances to the next stage were scheduled. */
    ghost var scheduledAdvances: nat

    /** The component as the scene creates it, with its serialized references. */
    constructor (stageData: Option<StageConfigData>, gemData: Option<seq<GemConfig>>, board: BoardManager?)
      ensures stageConfigData == stageData && gemConfigData == gemData && boardManager == board
      ensures currentStageId == 1 && currentStageConfig.None? && stageGems == [] && gemOrientations == map[]
      ensures !isStageCompleted && stageChanged == [] && unlockedRewardButtons == []
      ensures scheduledAdvances == 0
    {
      stageConfigData, gemConfigData, boardManager := stageData, gemData, board;
      currentStageId, currentStageConfig := 1, None;
      stageGems, gemOrientations := [], map[];
      isStageCompleted := false;
      stageChanged, unlockedRewardButtons := [], [];
      scheduledAdvances := 0;
    }

    /** One of the references LoadStage needs is missing. */
    predicate Unwired()
      reads this
    {
      stageConfigData.None? || boardManager == null || gemConfigData.None?
    }

    /**
     * What LoadStage(stageId) leaves once its references are present: the
     * stage id and its config (None when the table has no such stage) are
     * current and the completion flag is down. A missing stage touches
     * nothing else; a found one has its gems and orientations built from
     * its requests, the board loaded with them, and the change announced.
     */
    twostate predicate Loaded(bm: BoardManager, stageId: int)
      reads this, bm
      requires !Unwired() && boardManager == bm
    {
      var c := GetStageConfig(stageConfigData.value.stageConfigs, stageId);
      currentStageId == stageId && currentStageConfig == c && !isStageCompleted
      && unlockedRewardButtons == old(unlockedRewardButtons) && scheduledAdvances == old(scheduledAdvances)
      && (c.None? ==> unchanged(bm) && stageGems == old(stageGems) && gemOrientations == old(gemOrientations)
                      && stageChanged == old(stageChanged))
      && (c.Some? ==> StageBuilt(bm, c.value, gemConfigData.value, stageGems, gemOrientations)
                      && stageChanged == old(stageChanged) + [stageId])
    }

    /**
     * LoadStage: nothing happens while a reference is missing; otherwise the
     * stage is loaded as Loaded says.
     */
    method LoadStage(stageId: int)
      requires stageConfigData.Some? ==> UsableStages(stageConfigData.value)
      modifies this, boardManager
      ensures stageConfigData == old(stageConfigData) && gemConfigData == old(gemConfigData)
      ensures boardManager == old(boardManager)
      ensures old(Unwired()) ==> unchanged(this) && (boardManager != null ==> unchanged(boardManager))
      ensures !old(Unwired()) ==> Loaded(boardManager, stageId)
    {
      if stageConfigData.None? {
        return;
      }
      if boardManager == null {
        return;
      }
      if gemConfigData.None? {
        return;
      }
      currentStageId := stageId;
      currentStageConfig := GetStageConfig(stageConfigData.value.stageConfigs, stageId);
      isStageCompleted := false;
      if currentStageConfig.None? {
        return;
      }
      var config := currentStageConfig.value;
      ghost var k :| 0 <= k < |stageConfigData.value.stageConfigs| && stageConfigData.value.stageConfigs[k] == config;
      assert BoardFits(config);
      BuildStage(boardManager, stageId, config, gemConfigData.value);
    }

    /**
     * The rest of LoadStage for a stage the table has: a new board of its
     * size, its gems built and handed to the board as the pool, its
     * dynamite placed, input enabled, and the change announced.
     */
    method BuildStage(bm: BoardManager, stageId: int, config: StageConfig, configs: seq<GemConfig>)
      requires bm == boardManager && currentStageConfig == Some(config) && gemConfigData == Some(configs)
      requires BoardFits(config)
      modifies this`stageGems, this`gemOrientations, this`stageChanged, bm
      ensures StageBuilt(bm, config, configs, stageGems, gemOrientations)
      ensures stageChanged == old(stageChanged) + [stageId]
    {
      bm.InitializeBoard(config.boardWidth, config.boardHeight);
      assert forall i, j | 0 <= i < bm.boardWidth && 0 <= j < bm.boardHeight :: FreshCell(bm.board[i][j]);
      CreateStageGems();
      FillBoard(bm, config, stageGems, configs, gemOrientations);
      stageChanged := stageChanged + [stageId];
    }

    /**
     * CreateStageGems: for each request whose id has a gem config, `count`
     * fresh gems of that config, each with the request's orientation; other
     * requests are skipped.
     */
    method CreateStageGems()
      requires currentStageConfig.Some? && gemConfigData.Some?
      modifies this`stageGems, this`gemOrientations
      ensures stageGems == ExpandGems(currentStageConfig.value.gemRequests, gemConfigData.value)
      ensures gemOrientations == OrientationMap(ExpandOrientations(currentStageConfig.value.gemRequests, gemConfigData.value))
    {
      var requests := currentStageConfig.value.gemRequests;
      var configs := gemConfigData.value;
      stageGems := [];
      gemOrientations := map[];
      var k := 0;
      while k < |requests|
        invariant 0 <= k <= |requests|
        invariant stageGems == ExpandGems(requests[..k], configs)
        invariant gemOrientations == OrientationMap(ExpandOrientations(requests[..k], configs))
      {
        var request := requests[k];
        assert requests[..k + 1][..k] == requests[..k];
        var gemConfig := GetGemConfig(configs, request.gemId);
        if gemConfig.Some? {
          AddRequestGems(request, gemConfig.value, configs, ExpandOrientations(requests[..k], configs));
        }
        k := k + 1;
      }
      assert requests[..k] == requests;
    }

    /**
     * The inner loop of CreateStageGems: the gems of one request with a
     * config, appended one by one; `os` lists the orientation entries so far.
     */
    method AddRequestGems(request: StageGemRequest, config: GemConfig, configs: seq<GemConfig>,
                          ghost os: seq<GemOrientation>)
      requires GetGemConfig(configs, request.gemId) == Some(config)
      requires |os| == |stageGems| && gemOrientations == OrientationMap(os)
      modifies this`stageGems, this`gemOrientations
      ensures stageGems == old(stageGems) + RequestGems(request, configs)
      ensures gemOrientations == OrientationMap(os + RequestOrientations(request, configs))
    {
      var i := 0;
      while i < request.count
        invariant 0 <= i <= Units(request)
        invariant stageGems == old(stageGems) + RequestGems(request, configs)[..i]
        invariant gemOrientations == OrientationMap(os + RequestOrientations(request, configs)[..i])
      {
        var gem := InitializedGem(config.gemId, config.width, config.height, config.gemColor);
        assert RequestGems(request, configs)[..i + 1] == RequestGems(request, configs)[..i] + [gem];
        assert RequestOrientations(request, configs)[..i + 1] == RequestOrientations(request, configs)[..i] + [request.orientation];
        OrientationMapSnoc(os + RequestOrientations(request, configs)[..i], request.orientation);
        stageGems := stageGems + [gem];
        gemOrientations := gemOrientations[|stageGems| - 1 := request.orientation];
        i := i + 1;
      }
      assert RequestGems(request, configs)[..i] == RequestGems(request, configs);
      assert RequestOrientations(request, configs)[..i] == RequestOrientations(request, configs);
    }

    /**
     * CheckStageComplete: never once the stage is completed; otherwise
     * exactly when every gem of the stage has been collected.
     */
    method CheckStageComplete() returns (complete: bool)
      requires boardManager != null && boardManager.Valid()
      ensures complete <==> !isStageCompleted && AllGemsCollected(boardManager)
    {
      if isStageCompleted {
        return false;
      }
      var collectedGems := boardManager.GetCollectedGems();
      var totalGemsNeeded := boardManager.GetTotalGemsNeeded();
      CompletionTestMeansAllCollected(boardManager);
      return |collectedGems| >= totalGemsNeeded && totalGemsNeeded > 0;
    }

    /**
     * CompleteStage: a second call does nothing. The first raises the
     * completion flag, disables the board's input, unlocks the stage's
     * reward button and schedules the delayed advance.
     */
    method CompleteStage()
      modifies this`isStageCompleted, this`unlockedRewardButtons, this`scheduledAdvances
      modifies (if boardManager == null then {} else {boardManager})`isInputEnabled
      ensures old(isStageCompleted) ==> unchanged(this) && (boardManager != null ==> unchanged(boardManager))
      ensures !old(isStageCompleted) ==>
                isStageCompleted && unlockedRewardButtons == old(unlockedRewardButtons) + [currentStageId]
                && scheduledAdvances == old(scheduledAdvances) + 1
                && (boardManager != null ==> !boardManager.isInputEnabled)
    {
      if isStageCompleted {
        return;
      }
      isStageCompleted := true;
      if boardManager != null {
        boardManager.SetInputEnabled(false);
      }
      var completedStageId := currentStageId;
      unlockedRewardButtons := unlockedRewardButtons + [completedStageId];
      scheduledAdvances := scheduledAdvances + 1;
    }

    /** LoadNextStage: LoadStage of the following id while the table has more stages than the current id. */
    method LoadNextStage()
      requires stageConfigData.Some? && UsableStages(stageConfigData.value)
      modifies this, boardManager
      ensures stageConfigData == old(stageConfigData) && gemConfigData == old(gemConfigData)
      ensures boardManager == old(boardManager)
      ensures old(currentStageId) >= |stageConfigData.value.stageConfigs| || old(Unwired()) ==>
                unchanged(this) && (boardManager != null ==> unchanged(boardManager))
      ensures old(currentStageId) < |stageConfigData.value.stageConfigs| && !old(Unwired()) ==>
                Loaded(boardManager, old(currentStageId) + 1)
    {
      if currentStageId < |stageConfigData.value.stageConfigs| {
        LoadStage(currentStageId + 1);
      }
    }

    /** GetCollectedGems: the board's collected gems, or none without a board. */
    method GetCollectedGems() returns (collected: seq<Handle>)
      requires boardManager != null ==> boardManager.Valid()
      ensures boardManager == null ==> collected == []
      ensures boardManager != null ==> collected == CollectedGems(boardManager.gems, boardManager.hiddenGems)
    {
      if boardManager == null {
        return [];
      }
      collected := boardManager.GetCollectedGems();
    }
  }

  /**
   * The last steps of LoadStage on a new board of the stage's size: the
   * stage's gems become the pool, the dynamite is placed and input enabled.
   */
  method FillBoard(bm: BoardManager, config: StageConfig, gems: seq<GemRecord>, configs: seq<GemConfig>,
                   orientations: map<Handle, GemOrientation>)
    requires bm.Valid() && bm.boardWidth == config.boardWidth && bm.boardHeight == config.boardHeight
    requires BoardFits(config)
    requires forall i, j | 0 <= i < bm.boardWidth && 0 <= j < bm.boardHeight :: FreshCell(bm.board[i][j])
    requires forall k | 0 <= k < |gems| :: gems[k].cells == []
    modifies bm
    ensures BoardLoaded(bm, config, gems, configs, orientations)
  {
    bm.InitializeGemPool(gems, configs, orientations);
    assert forall i, j | 0 <= i < bm.boardWidth && 0 <= j < bm.boardHeight :: FreshCell(bm.board[i][j]);
    bm.PlaceDynamites(config.dynamiteCount);
    bm.SetInputEnabled(true);
  }

  /** Appending an entry to the list adds one key to the dictionary. */
  lemma OrientationMapSnoc(os: seq<GemOrientation>, o: GemOrientation)
    ensures OrientationMap(os + [o]) == OrientationMap(os)[|os| := o]
  {
    assert forall k: Handle | k < |os| :: (os + [o])[k] == os[k];
  }
}
