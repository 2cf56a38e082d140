/**
 * The older stage flow of Assets/Scripts/StageManager.cs. It drives the same
 * board API and builds the stage's gems exactly as the newer one does
 * (`Stages` holds the shared definitions), but it checks none of its
 * references, never disables input, and its CompleteStage grants the
 * stage's pickaxe reward, once per stage load, before scheduling the next
 * stage. The ledger is the pickaxe singleton, passed in; the reward chest
 * shown and the automatic advance scheduled are ghost records.
 */
module LegacyStages {
  import opened Wrappers
  import opened GemConfigs
  import opened StageConfigs
  import opened Gems
  import opened Placement
  import opened Pickaxes
  import opened Board
  import opened Stages

  class StageManager {
    const stageConfigData: StageConfigData
    const gemConfigData: seq<GemConfig>
    const boardManager: BoardManager
    var currentStageId: int
    var currentStageConfig: Option<StageConfig>
    var stageGems: seq<GemRecord>
    /** Each stage gem's orientation, keyed by its position in `stageGems`. */
    var gemOrientations: map<Handle, GemOrientation>
    var isStageCompleted: bool
    /** The stage ids announced through OnStageChanged, in order. */
    ghost var stageChanged: seq<int>
    /** The rewards the reward chest was shown with, in order (None: the stage has no reward). */
    ghost var rewardChests: seq<Option<StageRewardConfig>>
    /** How many automatic advances (AutoLoadNextStage) were scheduled. */
    ghost var scheduledAdvances: nat
    /** How many pickaxe rewards were granted since the current stage was loaded. */
    ghost var rewardsGranted: nat

    /** The reward is granted at most once per stage load, and only once the stage is completed. */
    ghost predicate RewardOnce()
      reads this
    {
      rewardsGranted <= 1 && (!isStageCompleted ==> rewardsGranted == 0)
    }

    /** The component as the scene creates it, with its serialized references. */
    constructor (stageData: StageConfigData, gemData: seq<GemConfig>, board: BoardManager)
      ensures stageConfigData == stageData && gemConfigData == gemData && boardManager == board
      ensures currentStageId == 1 && currentStageConfig.None? && stageGems == [] && gemOrientations == map[]
      ensures !isStageCompleted && stageChanged == [] && rewardChests == [] && scheduledAdvances == 0
      ensures rewardsGranted == 0 && RewardOnce()
    {
      stageConfigData, gemConfigData, boardManager := stageData, gemData, board;
      currentStageId, currentStageConfig := 1, None;
      stageGems, gemOrientations := [], map[];
      isStageCompleted := false;
      stageChanged, rewardChests := [], [];
      scheduledAdvances, rewardsGranted := 0, 0;
    }

    /**
     * What LoadStage(stageId) leaves: the stage id and its config (None
     * when the table has no such stage) are current, the completion flag is
     * down and no reward has been granted for this load. A missing stage
     * touches nothing else; a found one has its gems and orientations built
     * from its requests, the board loaded with them, and the change
     * announced.
     */
    twostate predicate Loaded(stageId: int)
      reads this, boardManager
    {
      var c := GetStageConfig(stageConfigData.stageConfigs, stageId);
      currentStageId == stageId && currentStageConfig == c && !isStageCompleted && rewardsGranted == 0
      && rewardChests == old(rewardChests) && scheduledAdvances == old(scheduledAdvances)
      && (c.None? ==> unchanged(boardManager) && stageGems == old(stageGems) && gemOrientations == old(gemOrientations)
                      && stageChanged == old(stageChanged))
      && (c.Some? ==> StageBuilt(boardManager, c.value, gemConfigData, stageGems, gemOrientations)
                      && stageChanged == old(stageChanged) + [stageId])
    }

    /** LoadStage: with no check of its references, the stage is loaded as Loaded says. */
    method LoadStage(stageId: int)
      requires UsableStages(stageConfigData)
      modifies this, boardManager
      ensures Loaded(stageId) && RewardOnce()
    {
      currentStageId := stageId;
      currentStageConfig := GetStageConfig(stageConfigData.stageConfigs, stageId);
      isStageCompleted := false;
      rewardsGranted := 0;
      if currentStageConfig.None? {
        return;
      }
      var config := currentStageConfig.value;
      ghost var k :| 0 <= k < |stageConfigData.stageConfigs| && stageConfigData.stageConfigs[k] == config;
      assert BoardFits(config);
      BuildStage(stageId, config);
    }

    /**
     * The rest of LoadStage for a stage the table has: a new board of its
     * size, its gems built and handed to the board as the pool, its
     * dynamite placed, and the change announced.
     */
    method BuildStage(stageId: int, config: StageConfig)
      requires currentStageConfig == Some(config) && BoardFits(config)
      modifies this`stageGems, this`gemOrientations, this`stageChanged, boardManager
      ensures StageBuilt(boardManager, config, gemConfigData, stageGems, gemOrientations)
      ensures stageChanged == old(stageChanged) + [stageId]
    {
      boardManager.InitializeBoard(config.boardWidth, config.boardHeight);
      assert forall i, j | 0 <= i < boardManager.boardWidth && 0 <= j < boardManager.boardHeight ::
               FreshCell(boardManager.board[i][j]);
      CreateStageGems();
      boardManager.InitializeGemPool(stageGems, gemConfigData, gemOrientations);
      assert forall i, j | 0 <= i < boardManager.boardWidth && 0 <= j < boardManager.boardHeight ::
               FreshCell(boardManager.board[i][j]);
      boardManager.PlaceDynamites(config.dynamiteCount);
      stageChanged := stageChanged + [stageId];
    }

    /**
     * CreateStageGems: for each request whose id has a gem config, `count`
     * fresh gems of that config, each with the request's orientation; other
     * requests are skipped.
     */
    method CreateStageGems()
      requires currentStageConfig.Some?
      modifies this`stageGems, this`gemOrientations
      ensures stageGems == ExpandGems(currentStageConfig.value.gemRequests, gemConfigData)
      ensures gemOrientations == OrientationMap(ExpandOrientations(currentStageConfig.value.gemRequests, gemConfigData))
    {
      var requests := currentStageConfig.value.gemRequests;
      stageGems := [];
      gemOrientations := map[];
      var k := 0;
      while k < |requests|
        invariant 0 <= k <= |requests|
        invariant stageGems == ExpandGems(requests[..k], gemConfigData)
        invariant gemOrientations == OrientationMap(ExpandOrientations(requests[..k], gemConfigData))
      {
        var request := requests[k];
        assert requests[..k + 1][..k] == requests[..k];
        var gemConfig := GetGemConfig(gemConfigData, request.gemId);
        if gemConfig.Some? {
          AddRequestGems(request, gemConfig.value, ExpandOrientations(requests[..k], gemConfigData));
        }
        k := k + 1;
      }
      assert requests[..k] == requests;
    }

    /**
     * The inner loop of CreateStageGems: the gems of one request with a
     * config, appended one by one; `os` lists the orientation entries so far.
     */
    method AddRequestGems(request: StageGemRequest, config: GemConfig, ghost os: seq<GemOrientation>)
      requires GetGemConfig(gemConfigData, request.gemId) == Some(config)
      requires |os| == |stageGems| && gemOrientations == OrientationMap(os)
      modifies this`stageGems, this`gemOrientations
      ensures stageGems == old(stageGems) + RequestGems(request, gemConfigData)
      ensures gemOrientations == OrientationMap(os + RequestOrientations(request, gemConfigData))
    {
      var i := 0;
      while i < request.count
        invariant 0 <= i <= Units(request)
        invariant stageGems == old(stageGems) + RequestGems(request, gemConfigData)[..i]
        invariant gemOrientations == OrientationMap(os + RequestOrientations(request, gemConfigData)[..i])
      {
        var gem := InitializedGem(config.gemId, config.width, config.height, config.gemColor);
        assert RequestGems(request, gemConfigData)[..i + 1] == RequestGems(request, gemConfigData)[..i] + [gem];
        assert RequestOrientations(request, gemConfigData)[..i + 1]
               == RequestOrientations(request, gemConfigData)[..i] + [request.orientation];
        OrientationMapSnoc(os + RequestOrientations(request, gemConfigData)[..i], request.orientation);
        stageGems := stageGems + [gem];
        gemOrientations := gemOrientations[|stageGems| - 1 := request.orientation];
        i := i + 1;
      }
      assert RequestGems(request, gemConfigData)[..i] == RequestGems(request, gemConfigData);
      assert RequestOrientations(request, gemConfigData)[..i] == RequestOrientations(request, gemConfigData);
    }

    /**
     * CheckStageComplete: never once the stage is completed; otherwise
     * exactly when every gem of the stage has been collected.
     */
    method CheckStageComplete() returns (complete: bool)
      requires boardManager.Valid()
      ensures complete <==> !isStageCompleted && AllGemsCollected(boardManager)
    {
      if isStageCompleted {
        return false;
      }
      var collectedGems := boardManager.GetCollectedGems();
      var totalGemsNeeded := boardManager.GetTotalGemsNeeded();
      CompletionTestMeansAllCollected(boardManager);
      return |collectedGems| >= totalGemsNeeded && totalGemsNeeded > 0;
    }

    /**
     * CompleteStage: a second call does nothing. The first raises the
     * completion flag, credits the stage's pickaxe reward when the reward
     * table has one, shows the reward chest, and schedules the next stage
     * while the table has more stages than the current id.
     */
    method CompleteStage(ledger: PickaxeManager)
      requires RewardOnce()
      modifies this`isStageCompleted, this`rewardChests, this`scheduledAdvances, this`rewardsGranted
      modifies ledger`currentPickaxes
      ensures RewardOnce()
      ensures old(isStageCompleted) ==> unchanged(this) && ledger.currentPickaxes == old(ledger.currentPickaxes)
      ensures !old(isStageCompleted) ==>
                var reward := GetRewardConfig(stageConfigData.rewardConfigs, currentStageId);
                var granted := reward.Some? && reward.value.rewardType == Pickaxe;
                isStageCompleted
                && ledger.currentPickaxes == old(ledger.currentPickaxes) + (if granted then reward.value.amount else 0)
                && rewardsGranted == (if granted then 1 else 0)
                && rewardChests == old(rewardChests) + [reward]
                && scheduledAdvances == old(scheduledAdvances)
                                        + (if currentStageId < |stageConfigData.stageConfigs| then 1 else 0)
    {
      if isStageCompleted {
        return;
      }
      isStageCompleted := true;
      var reward := GetRewardConfig(stageConfigData.rewardConfigs, currentStageId);
      if reward.Some? {
        if reward.value.rewardType == Pickaxe {
          ledger.AddPickaxes(reward.value.amount);
          rewardsGranted := rewardsGranted + 1;
        }
      }
      rewardChests := rewardChests + [reward];
      if currentStageId < |stageConfigData.stageConfigs| {
        scheduledAdvances := scheduledAdvances + 1;
      }
    }

    /**
     * LoadNextStage (also what AutoLoadNextStage runs after its delay):
     * LoadStage of the following id while the table has more stages than
     * the current id.
     */
    method LoadNextStage()
      requires UsableStages(stageConfigData) && RewardOnce()
      modifies this, boardManager
      ensures RewardOnce()
      ensures old(currentStageId) >= |stageConfigData.stageConfigs| ==> unchanged(this) && unchanged(boardManager)
      ensures old(currentStageId) < |stageConfigData.stageConfigs| ==> Loaded(old(currentStageId) + 1)
    {
      if currentStageId < |stageConfigData.stageConfigs| {
        LoadStage(currentStageId + 1);
      }
    }
  }
}
