/**
 * The older stage config asset (Assets/Scripts/StageConfig.cs): the same
 * layout as the current one, but requests carry no orientation and every
 * record has only its field-storing constructor.
 */
module LegacyStageConfigs {
  import opened Wrappers

  datatype StageGemRequest = StageGemRequest(gemId: int, count: int)

  datatype StageConfig = StageConfig(stageId: int, boardWidth: int, boardHeight: int, dynamiteCount: int,
                                     gemRequests: seq<StageGemRequest>)

  datatype RewardType = Pickaxe

  datatype StageRewardConfig = StageRewardConfig(stageId: int, rewardType: RewardType, amount: int)

  function NewGemRequest(id: int, cnt: int): (r: StageGemRequest)
    ensures r.gemId == id && r.count == cnt
  {
    StageGemRequest(id, cnt)
  }

  function NewStageConfig(id: int, width: int, height: int, dynamite: int, gems: seq<StageGemRequest>): (c: StageConfig)
    ensures c.stageId == id && c.boardWidth == width && c.boardHeight == height
    ensures c.dynamiteCount == dynamite && c.gemRequests == gems
  {
    StageConfig(id, width, height, dynamite, gems)
  }

  function NewRewardConfig(id: int, rewardType: RewardType, amt: int): (r: StageRewardConfig)
    ensures r.stageId == id && r.rewardType == rewardType && r.amount == amt
  {
    StageRewardConfig(id, rewardType, amt)
  }

  /** The counts of all requests added up. */
  function TotalGemCount(requests: seq<StageGemRequest>): int
  {
    if |requests| == 0 then 0 else requests[0].count + TotalGemCount(requests[1..])
  }

  /** StageConfig.GetTotalGemCount: the foreach loop that adds up the requests' counts. */
  method GetTotalGemCount(requests: seq<StageGemRequest>) returns (total: int)
    ensures total == TotalGemCount(requests)
  {
    total := 0;
    var k := 0;
    while k < |requests|
      invariant 0 <= k <= |requests| && total == TotalGemCount(requests[..k])
    {
      assert requests[..k + 1] == requests[..k] + [requests[k]];
      TotalGemCountAppend(requests[..k], [requests[k]]);
      total := total + requests[k].count;
      k := k + 1;
    }
    assert requests[..k] == requests;
  }

  lemma {:induction false} TotalGemCountAppend(a: seq<StageGemRequest>, b: seq<StageGemRequest>)
    ensures TotalGemCount(a + b) == TotalGemCount(a) + TotalGemCount(b)
  {
    if |a| > 0 {
      assert (a + b)[1..] == a[1..] + b;
      TotalGemCountAppend(a[1..], b);
    } else {
      assert a + b == b;
    }
  }

  /** StageConfigData.GetStageConfig: the first config with the stage id, or None. */
  function GetStageConfig(configs: seq<StageConfig>, stageId: int): (r: Option<StageConfig>)
    ensures r.None? <==> forall i | 0 <= i < |configs| :: configs[i].stageId != stageId
    ensures r.Some? ==> exists i | 0 <= i < |configs| :: configs[i] == r.value && configs[i].stageId == stageId
                          && forall j | 0 <= j < i :: configs[j].stageId != stageId
  {
    if |configs| == 0 then None
    else if configs[0].stageId == stageId then Some(configs[0])
    else
      var r := GetStageConfig(configs[1..], stageId);
      assert r.Some? ==> exists i | 1 <= i < |configs| :: configs[i] == r.value && configs[i].stageId == stageId
                           && forall j | 0 <= j < i :: configs[j].stageId != stageId by {
        if r.Some? {
          var k :| 0 <= k < |configs[1..]| && configs[1..][k] == r.value && configs[1..][k].stageId == stageId
                   && forall j | 0 <= j < k :: configs[1..][j].stageId != stageId;
          assert configs[k + 1] == r.value;
          forall j | 0 <= j < k + 1 ensures configs[j].stageId != stageId {
            if j > 0 { assert configs[j] == configs[1..][j - 1]; }
          }
        }
      }
      r
  }

  /** StageConfigData.GetRewardConfig: the first reward with the stage id, or None. */
  function GetRewardConfig(rewards: seq<StageRewardConfig>, stageId: int): (r: Option<StageRewardConfig>)
    ensures r.None? <==> forall i | 0 <= i < |rewards| :: rewards[i].stageId != stageId
    ensures r.Some? ==> exists i | 0 <= i < |rewards| :: rewards[i] == r.value && rewards[i].stageId == stageId
                          && forall j | 0 <= j < i :: rewards[j].stageId != stageId
  {
    if |rewards| == 0 then None
    else if rewards[0].stageId == stageId then Some(rewards[0])
    else
      var r := GetRewardConfig(rewards[1..], stageId);
      assert r.Some? ==> exists i | 1 <= i < |rewards| :: rewards[i] == r.value && rewards[i].stageId == stageId
                           && forall j | 0 <= j < i :: rewards[j].stageId != stageId by {
        if r.Some? {
          var k :| 0 <= k < |rewards[1..]| && rewards[1..][k] == r.value && rewards[1..][k].stageId == stageId
                   && forall j | 0 <= j < k :: rewards[1..][j].stageId != stageId;
          assert rewards[k + 1] == r.value;
          forall j | 0 <= j < k + 1 ensures rewards[j].stageId != stageId {
            if j > 0 { assert rewards[j] == rewards[1..][j - 1]; }
          }
        }
      }
      r
  }
}
