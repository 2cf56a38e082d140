/**
 * Gem shapes as authored in the gem config asset: each config gives a gem id
 * its base width and height, a colour and an optional sprite, and the asset
 * answers "which config has this id" by a first-match scan
 * (Assets/Scripts/Config/GemConfigData.cs).
 */
module GemConfigs {
  import opened Wrappers

  /** A Unity colour, four float channels. Only equality is ever used. */
  datatype Color = Color(r: real, g: real, b: real, a: real)

  const White: Color := Color(1.0, 1.0, 1.0, 1.0)

  /** A sprite asset, identified by an opaque handle. */
  type SpriteRef = nat

  datatype GemConfig = GemConfig(gemId: int, width: int, height: int, gemColor: Color, gemSprite: Option<SpriteRef>)

  /** The parameterless constructor. */
  function DefaultGemConfig(): (c: GemConfig)
    ensures c.gemId == 0 && c.width == 1 && c.height == 1
    ensures c.gemColor == White && c.gemSprite == None
  {
    GemConfig(0, 1, 1, White, None)
  }

  /** The four-argument constructor: no sprite. */
  function NewGemConfig(id: int, w: int, h: int, color: Color): (c: GemConfig)
    ensures c.gemId == id && c.width == w && c.height == h && c.gemColor == color
    ensures c.gemSprite == None
  {
    GemConfig(id, w, h, color, None)
  }

  /** The five-argument constructor: the sprite is stored too. */
  function NewGemConfigWithSprite(id: int, w: int, h: int, color: Color, sprite: Option<SpriteRef>): (c: GemConfig)
    ensures c.gemId == id && c.width == w && c.height == h && c.gemColor == color
    ensures c.gemSprite == sprite
  {
    GemConfig(id, w, h, color, sprite)
  }

  /**
   * GemConfigData.GetGemConfig: the first config whose id matches, or None
   * when no config has that id.
   */
  function GetGemConfig(configs: seq<GemConfig>, gemId: int): (r: Option<GemConfig>)
    ensures r.None? <==> forall i | 0 <= i < |configs| :: configs[i].gemId != gemId
    ensures r.Some? ==> exists i | 0 <= i < |configs| :: configs[i] == r.value && configs[i].gemId == gemId
                          && forall j | 0 <= j < i :: configs[j].gemId != gemId
  {
    if |configs| == 0 then None
    else if configs[0].gemId == gemId then Some(configs[0])
    else
      var r := GetGemConfig(configs[1..], gemId);
      assert r.Some? ==> exists i | 1 <= i < |configs| :: configs[i] == r.value && configs[i].gemId == gemId
                           && forall j | 0 <= j < i :: configs[j].gemId != gemId by {
        if r.Some? {
          var k :| 0 <= k < |configs[1..]| && configs[1..][k] == r.value && configs[1..][k].gemId == gemId
                   && forall j | 0 <= j < k :: configs[1..][j].gemId != gemId;
          assert configs[k + 1] == r.value;
          assert forall j | 0 <= j < k + 1 :: configs[j].gemId != gemId by {
            forall j | 0 <= j < k + 1 ensures configs[j].gemId != gemId {
              if j > 0 { assert configs[j] == configs[1..][j - 1]; }
            }
          }
        }
      }
      r
  }

  /**
   * The gem table the game ships with (Assets/Scripts/Editor/GameDataEditor.cs:59-70), with Unity's
   * named colours written out as their channel values.
   */
  function ShippedGemConfigs(): seq<GemConfig>
  {
    [ NewGemConfig(1, 1, 2, Color(1.0, 0.0, 0.0, 1.0)), NewGemConfig(2, 1, 3, Color(0.0, 0.0, 1.0, 1.0)),
      NewGemConfig(3, 1, 4, Color(0.0, 1.0, 0.0, 1.0)), NewGemConfig(4, 1, 5, Color(1.0, 0.92, 0.016, 1.0)),
      NewGemConfig(5, 2, 2, Color(1.0, 0.0, 1.0, 1.0)), NewGemConfig(6, 2, 3, Color(0.0, 1.0, 1.0, 1.0)),
      NewGemConfig(7, 2, 4, Color(1.0, 0.5, 0.0, 1.0)), NewGemConfig(8, 3, 3, White),
      NewGemConfig(9, 4, 4, Color(0.5, 0.0, 0.5, 1.0)) ]
  }

  /** Every shipped id 1..9 resolves, and every other id misses. */
  lemma ShippedLookups(id: int)
    ensures GetGemConfig(ShippedGemConfigs(), id).Some? <==> 1 <= id <= 9
    ensures 1 <= id <= 9 ==> GetGemConfig(ShippedGemConfigs(), id).value.gemId == id
  {
    var cs := ShippedGemConfigs();
    if 1 <= id <= 9 {
      assert cs[id - 1].gemId == id;
    }
  }
}
