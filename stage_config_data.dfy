/**
 * Stage layouts and rewards as authored in the stage config asset
 * (Assets/Scripts/Config/StageConfigData.cs): a stage names its board size,
 * its dynamite count and the gems it asks for, each request with an
 * orientation; lookups by stage id are first-match scans.
 */
module StageConfigs {
  import opened Wrappers

  datatype GemOrientation = Horizontal | Vertical

  datatype StageGemRequest = StageGemRequest(gemId: int, count: int, orientation: GemOrientation)

  datatype StageConfig = StageConfig(stageId: int, boardWidth: int, boardHeight: int, dynamiteCount: int,
                                     gemRequests: seq<StageGemRequest>)

  datatype RewardType = Pickaxe

  datatype StageRewardConfig = StageRewardConfig(stageId: int, rewardType: RewardType, amount: int)

  /** The stage config asset: the stage table and the reward table. */
  datatype StageConfigData = StageConfigData(stageConfigs: seq<StageConfig>, rewardConfigs: seq<StageRewardConfig>)

  /** The parameterless request constructor: id 0, count 0, Vertical. */
  function DefaultGemRequest(): (r: StageGemRequest)
    ensures r.gemId == 0 && r.count == 0 && r.orientation == Vertical
  {
    StageGemRequest(0, 0, Vertical)
  }

  /** The two-argument request constructor also defaults to Vertical. */
  function NewGemRequest(id: int, cnt: int): (r: StageGemRequest)
    ensures r.gemId == id && r.count == cnt && r.orientation == Vertical
  {
    StageGemRequest(id, cnt, Vertical)
  }

  function NewOrientedGemRequest(id: int, cnt: int, orient: GemOrientation): (r: StageGemRequest)
    ensures r.gemId == id && r.count == cnt && r.orientation == orient
  {
    StageGemRequest(id, cnt, orient)
  }

  /** The parameterless stage constructor: every number zero, no requests. */
  function DefaultStageConfig(): (c: StageConfig)
    ensures c.stageId == 0 && c.boardWidth == 0 && c.boardHeight == 0 && c.dynamiteCount == 0
    ensures c.gemRequests == []
  {
    StageConfig(0, 0, 0, 0, [])
  }

  function NewStageConfig(id: int, width: int, height: int, dynamite: int, gems: seq<StageGemRequest>): (c: StageConfig)
    ensures c.stageId == id && c.boardWidth == width && c.boardHeight == height
    ensures c.dynamiteCount == dynamite && c.gemRequests == gems
  {
    StageConfig(id, width, height, dynamite, gems)
  }

  function DefaultRewardConfig(): (r: StageRewardConfig)
    ensures r.stageId == 0 && r.rewardType == Pickaxe && r.amount == 0
  {
    StageRewardConfig(0, Pickaxe, 0)
  }

  function NewRewardConfig(id: int, rewardType: RewardType, amt: int): (r: StageRewardConfig)
    ensures r.stageId == id && r.rewardType == rewardType && r.amount == amt
  {
    StageRewardConfig(id, rewardType, amt)
  }

  /** The counts of all requests added up. */
  function TotalGemCount(requests: seq<StageGemRequest>): int
  {
    if |requests| == 0 then 0 else requests[0].count + TotalGemCount(requests[1..])
  }

  /** StageConfig.GetTotalGemCount: the foreach loop that adds up the requests' counts. */
  method GetTotalGemCount(requests: seq<StageGemRequest>) returns (total: int)
    ensures total == TotalGemCount(requests)
  {
    total := 0;
    var k := 0;
    while k < |requests|
      invariant 0 <= k <= |requests| && total == TotalGemCount(requests[..k])
    {
      assert requests[..k + 1] == requests[..k] + [requests[k]];
      TotalGemCountAppend(requests[..k], [requests[k]]);
      total := total + requests[k].count;
      k := k + 1;
    }
    assert requests[..k] == requests;
  }

  /** The total over a concatenation is the sum of the totals. */
  lemma {:induction false} TotalGemCountAppend(a: seq<StageGemRequest>, b: seq<StageGemRequest>)
    ensures TotalGemCount(a + b) == TotalGemCount(a) + TotalGemCount(b)
  {
    if |a| > 0 {
      assert (a + b)[1..] == a[1..] + b;
      TotalGemCountAppend(a[1..], b);
    } else {
      assert a + b == b;
    }
  }

  /** With no negative counts, the total bounds every single count. */
  lemma {:induction false} TotalGemCountBoundsEach(requests: seq<StageGemRequest>, i: int)
    requires forall k | 0 <= k < |requests| :: requests[k].count >= 0
    requires 0 <= i < |requests|
    ensures 0 <= requests[i].count <= TotalGemCount(requests)
  {
    if i > 0 {
      TotalGemCountBoundsEach(requests[1..], i - 1);
    } else {
      TotalGemCountNonNegative(requests[1..]);
    }
  }

  lemma {:induction false} TotalGemCountNonNegative(requests: seq<StageGemRequest>)
    requires forall k | 0 <= k < |requests| :: requests[k].count >= 0
    ensures TotalGemCount(requests) >= 0
  {
    if |requests| > 0 {
      TotalGemCountNonNegative(requests[1..]);
    }
  }

  /** StageConfigData.GetStageConfig: the first config with the stage id, or None. */
  function GetStageConfig(configs: seq<StageConfig>, stageId: int): (r: Option<StageConfig>)
    ensures r.None? <==> forall i | 0 <= i < |configs| :: configs[i].stageId != stageId
    ensures r.Some? ==> exists i | 0 <= i < |configs| :: configs[i] == r.value && configs[i].stageId == stageId
                          && forall j | 0 <= j < i :: configs[j].stageId != stageId
  {
    if |configs| == 0 then None
    else if configs[0].stageId == stageId then Some(configs[0])
    else
      var r := GetStageConfig(configs[1..], stageId);
      assert r.Some? ==> exists i | 1 <= i < |configs| :: configs[i] == r.value && configs[i].stageId == stageId
                           && forall j | 0 <= j < i :: configs[j].stageId != stageId by {
        if r.Some? {
          var k :| 0 <= k < |configs[1..]| && configs[1..][k] == r.value && configs[1..][k].stageId == stageId
                   && forall j | 0 <= j < k :: configs[1..][j].stageId != stageId;
          assert configs[k + 1] == r.value;
          forall j | 0 <= j < k + 1 ensures configs[j].stageId != stageId {
            if j > 0 { assert configs[j] == configs[1..][j - 1]; }
          }
        }
      }
      r
  }

  /** StageConfigData.GetRewardConfig: the first reward with the stage id, or None. */
  function GetRewardConfig(rewards: seq<StageRewardConfig>, stageId: int): (r: Option<StageRewardConfig>)
    ensures r.None? <==> forall i | 0 <= i < |rewards| :: rewards[i].stageId != stageId
    ensures r.Some? ==> exists i | 0 <= i < |rewards| :: rewards[i] == r.value && rewards[i].stageId == stageId
                          && forall j | 0 <= j < i :: rewards[j].stageId != stageId
  {
    if |rewards| == 0 then None
    else if rewards[0].stageId == stageId then Some(rewards[0])
    else
      var r := GetRewardConfig(rewards[1..], stageId);
      assert r.Some? ==> exists i | 1 <= i < |rewards| :: rewards[i] == r.value && rewards[i].stageId == stageId
                           && forall j | 0 <= j < i :: rewards[j].stageId != stageId by {
        if r.Some? {
          var k :| 0 <= k < |rewards[1..]| && rewards[1..][k] == r.value && rewards[1..][k].stageId == stageId
                   && forall j | 0 <= j < k :: rewards[1..][j].stageId != stageId;
          assert rewards[k + 1] == r.value;
          forall j | 0 <= j < k + 1 ensures rewards[j].stageId != stageId {
            if j > 0 { assert rewards[j] == rewards[1..][j - 1]; }
          }
        }
      }
      r
  }

  /** The five stages the game ships with (Assets/Scripts/Editor/GameDataEditor.cs:96-147). */
  function ShippedStageConfigs(): seq<StageConfig>
  {
    [ NewStageConfig(1, 4, 4, 0, [NewGemRequest(1, 2), NewGemRequest(2, 1), NewGemRequest(5, 1)]),
      NewStageConfig(2, 5, 5, 0, [NewGemRequest(1, 2), NewGemRequest(2, 2), NewGemRequest(6, 1)]),
      NewStageConfig(3, 6, 6, 1, [NewGemRequest(1, 1), NewGemRequest(2, 2), NewGemRequest(5, 1), NewGemRequest(6, 2)]),
      NewStageConfig(4, 7, 7, 2, [NewGemRequest(1, 1), NewGemRequest(3, 2), NewGemRequest(5, 2), NewGemRequest(6, 1),
                                  NewGemRequest(8, 1)]),
      NewStageConfig(5, 8, 8, 2, [NewGemRequest(1, 2), NewGemRequest(2, 2), NewGemRequest(4, 2), NewGemRequest(7, 1),
                                  NewGemRequest(9, 1)]) ]
  }

  /** Stage n of the shipped table is found by its id and asks for the listed number of gems. */
  lemma ShippedStageTotals()
    ensures GetStageConfig(ShippedStageConfigs(), 0).None?
    ensures GetStageConfig(ShippedStageConfigs(), 1).Some?
    ensures TotalGemCount(GetStageConfig(ShippedStageConfigs(), 1).value.gemRequests) == 4
    ensures TotalGemCount(GetStageConfig(ShippedStageConfigs(), 5).value.gemRequests) == 8
  {
    var cs := ShippedStageConfigs();
    assert cs[0].stageId == 1;
    assert cs[4].stageId == 5;
  }
}
