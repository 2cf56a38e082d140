# Hidden gem board engine, modelled in Dafny

This project models the core of a grid-digging game. The player digs a board
of stone cells with pickaxes, one stone layer costing one pickaxe. Under the
stone lie rectangular gems, and a stage is complete once every gem of the
stage is dug out and collected.

The newer board engine in `Assets/Scripts/Manager/BoardManager.cs` places
gems lazily. A stage starts with an empty board and a pool of unplaced gems.
An unrevealed cell that is dug either spawns a gem from the pool so that the
gem covers that cell (a 30% roll), or is marked as excluded from later
spawns. The miss is forced into a hit whenever the remaining pool could no
longer be packed into the board without the dug cell. That decision is made
by a feasibility oracle: a recursive backtracking packer on a scratch
`bool[,]` grid with an attempt budget. The older engine in
`Assets/Scripts/BoardManager.cs` instead packs the whole board up front,
with up to 50 retries of a largest-first backtracking search.

Modules, one per source file:

- `Cells` (`cell_ui.dfy`) holds the cell state. It is a value type `Cell`
  with one transition function per `CellUI` method, and a class `CellUI`
  whose methods are proved to perform exactly those transitions.
- `Gems` (`gem.dfy`) holds the `Gem` class. It also has the value record
  `GemRecord` that the board engines store, where a gem's cells are board
  coordinates.
- `GemConfigs`, `StageConfigs` and `LegacyStageConfigs` hold the
  configuration records. They provide first-match lookups, the gem-count
  sum and the shipped tables.
- `Placement` covers the orientation rule, the three occupancy rules and
  the placement enumerators.
- `TestBoard` holds the feasibility oracle. It works on an `array2<bool>`
  and is specified against a packing predicate over the set of free cells.
- `GemOrder` holds the largest-first order of the packers.
- `Board` is the newer engine. It is a class whose fields are the board
  grid and its size, the gem table, the unplaced and hidden gem lists, the
  dynamite list, the stage's gem configs and orientation dictionary, the
  input flag and the dig clock.
- `LegacyBoard` is the older engine. It is a class whose fields are the
  board grid and its size, the gem table, the hidden gem list and the
  dynamite list. It has no pool of unplaced gems, no input flag and no dig
  cooldown.
- `Pickaxes` is the pickaxe ledger.
- `Stages` and `LegacyStages` are the newer and older stage flows.
- `Game` is the click handler that digs and then checks for completion.

A gem object is modelled as a handle, which is its index in the board's gem
table. The stage's orientation dictionary is keyed by that handle. Nothing
is random in the model:

- A shuffle is some permutation, chosen with `:|`.
- A `Random.Range` position is some element, chosen with `:|`.
- A random stone count is some value in {1, 2}.
- The 30% hit roll is a `bool` parameter.
- `Time.time` is an integer parameter in milliseconds, and the 0.3 s
  cooldown is `DIG_COOLDOWN_MS = 300`.
- The `0.9f` capacity test reads "10 × total area ≤ 9 × board area".

Every property is proved for every possible choice.

## Model

| member | source | states |
|---|---|---|
| Cells.Cell.ResetCell | Assets/Scripts/CellUI.cs:58-67 | one stone layer, type Stone1Layer, no gem, not dynamite, not revealed, not excluded; the coordinates are kept |
| Cells.Cell.SetStoneLayers | Assets/Scripts/CellUI.cs:69-74 | the layers are stored; the type is Stone1Layer iff layers == 1 and Stone2Layer otherwise; nothing else changes |
| Cells.Cell.SetGem | Assets/Scripts/CellUI.cs:76-86 | a gem sets the gem, the type Gem and clears the exclusion flag; null clears only the gem field |
| Cells.Cell.MarkAsExcludedFromGemSpawn | Assets/Scripts/CellUI.cs:88-91 | only the exclusion flag is set |
| Cells.Cell.ResetExcludedFromGemSpawn | Assets/Scripts/CellUI.cs:93-96 | only the exclusion flag is cleared |
| Cells.Cell.SetDynamite | Assets/Scripts/CellUI.cs:266-273 | true sets the flag and the type Dynamite; false only clears the flag |
| Cells.Cell.Dig | Assets/Scripts/CellUI.cs:275-289 | a revealed cell is unchanged; otherwise layers drop to 0 and the cell is revealed |
| Cells.Cell.DigCost | Assets/Scripts/CellUI.cs:275-289 | a dig costs 0 on a revealed cell and the previous stone layers otherwise |
| Cells.Cell.Reveal | Assets/Scripts/CellUI.cs:291-295 | only the revealed flag is set |
| Cells.Cell.Clear | Assets/Scripts/CellUI.cs:297-305 | type Empty, no gem, no dynamite, no stone, revealed; the exclusion flag and coordinates are kept |
| Cells.InitializedCell | Assets/Scripts/CellUI.cs:51-56 | the cell gets its coordinates and the reset state |
| Cells.RevealIsMonotone | Assets/Scripts/CellUI.cs:58-67 | no operation other than ResetCell clears the revealed flag; Dig, Reveal and Clear set it; no operation moves a cell |
| Cells.DigAfterInitialize | Assets/Scripts/CellUI.cs:51-74 | digging a fresh cell with n layers costs n and reveals it, and a second dig costs nothing and changes nothing |
| Cells.CellUI.ResetCell | Assets/Scripts/CellUI.cs:58-67 | the object's new state is the ResetCell transition of its old state |
| Cells.CellUI.SetStoneLayers | Assets/Scripts/CellUI.cs:69-74 | the new state is the SetStoneLayers transition of the old state |
| Cells.CellUI.SetGem | Assets/Scripts/CellUI.cs:76-86 | the gem reference is stored and the new state is the SetGem transition of the old state |
| Cells.CellUI.MarkAsExcludedFromGemSpawn | Assets/Scripts/CellUI.cs:88-91 | the new state is the old state with the exclusion flag set |
| Cells.CellUI.ResetExcludedFromGemSpawn | Assets/Scripts/CellUI.cs:93-96 | the new state is the old state with the exclusion flag cleared |
| Cells.CellUI.SetDynamite | Assets/Scripts/CellUI.cs:266-273 | the new state is the SetDynamite transition of the old state |
| Cells.CellUI.Dig | Assets/Scripts/CellUI.cs:275-289 | it returns the old state's dig cost and leaves the Dig transition of the old state |
| Cells.CellUI.Reveal | Assets/Scripts/CellUI.cs:291-295 | the new state is the old state revealed |
| Cells.CellUI.Clear | Assets/Scripts/CellUI.cs:297-305 | the new state is the Clear transition of the old state |
| Cells.CellUI.Initialize | Assets/Scripts/CellUI.cs:51-56 | the new cell's state is the reset state at its coordinates |
| Gems.Gem.Initialize | Assets/Scripts/Gem.cs:22-30 | id, dimensions and colour are stored, with no cells and not collected |
| Gems.Gem.SetPosition | Assets/Scripts/Gem.cs:32-35 | only the position changes |
| Gems.Gem.AddCellUI | Assets/Scripts/Gem.cs:37-44 | the cell ends up in the list; a cell already listed changes nothing; a new one is appended and points back to this gem; a duplicate-free list stays duplicate-free |
| Gems.Gem.IsFullyRevealed | Assets/Scripts/Gem.cs:46-57 | false for an empty cell list, otherwise true iff every cell is revealed |
| Gems.Gem.Collect | Assets/Scripts/Gem.cs:59-64 | the gem is collected |
| Gems.GemRecord.AddCell | Assets/Scripts/Gem.cs:37-44 | the value form of AddCellUI: no duplicate is added and a duplicate-free list stays so |
| Gems.GemRecord.Collect | Assets/Scripts/Gem.cs:59-64 | only the collected flag is set |
| Gems.GemRecord.SetPosition | Assets/Scripts/Gem.cs:32-35 | only the position changes |
| Gems.InitializedGem | Assets/Scripts/Gem.cs:22-30 | id, dimensions and colour are stored, with no cells and not collected |
| Gems.CollectIsIdempotent | Assets/Scripts/Gem.cs:59-64 | collecting twice equals collecting once, and the result is collected |
| GemConfigs.DefaultGemConfig | Assets/Scripts/Config/GemConfigData.cs:14-21 | id 0, 1×1, white, no sprite |
| GemConfigs.NewGemConfig | Assets/Scripts/Config/GemConfigData.cs:23-30 | the arguments are stored, with no sprite |
| GemConfigs.NewGemConfigWithSprite | Assets/Scripts/Config/GemConfigData.cs:32-39 | the arguments are stored, the sprite included |
| GemConfigs.GetGemConfig | Assets/Scripts/Config/GemConfigData.cs:47-55 | None iff no config has the id; otherwise the first config with the id |
| GemConfigs.ShippedLookups | Assets/Scripts/Editor/GameDataEditor.cs:59-70 | in the shipped gem table exactly the ids 1 to 9 are found, each to a config of that id |
| StageConfigs.DefaultGemRequest | Assets/Scripts/Config/StageConfigData.cs:19-24 | id 0, count 0, Vertical |
| StageConfigs.NewGemRequest | Assets/Scripts/Config/StageConfigData.cs:26-31 | id and count are stored and the orientation is Vertical |
| StageConfigs.NewOrientedGemRequest | Assets/Scripts/Config/StageConfigData.cs:33-38 | id, count and orientation are stored |
| StageConfigs.DefaultStageConfig | Assets/Scripts/Config/StageConfigData.cs:51-58 | every number is 0 and the request list is empty |
| StageConfigs.NewStageConfig | Assets/Scripts/Config/StageConfigData.cs:60-67 | the arguments are stored unchanged |
| StageConfigs.DefaultRewardConfig | Assets/Scripts/Config/StageConfigData.cs:115-120 | stage 0, reward Pickaxe, amount 0 |
| StageConfigs.NewRewardConfig | Assets/Scripts/Config/StageConfigData.cs:122-127 | the arguments are stored unchanged |
| StageConfigs.GetTotalGemCount | Assets/Scripts/Config/StageConfigData.cs:69-77 | the foreach loop returns `TotalGemCount`, the sum of every request's count; the lemmas below show that sum is additive over concatenation and, with no negative count, non-negative and at least each single count |
| StageConfigs.TotalGemCountAppend | Assets/Scripts/Config/StageConfigData.cs:69-77 | the gem count of a concatenation is the sum of the two counts, so the count is the sum over the requests |
| StageConfigs.TotalGemCountBoundsEach | Assets/Scripts/Config/StageConfigData.cs:69-77 | with non-negative counts, each request's count lies between 0 and the total |
| StageConfigs.TotalGemCountNonNegative | Assets/Scripts/Config/StageConfigData.cs:69-77 | non-negative counts give a non-negative total |
| StageConfigs.GetStageConfig | Assets/Scripts/Config/StageConfigData.cs:86-94 | None iff no stage has the id; otherwise the first stage with the id |
| StageConfigs.GetRewardConfig | Assets/Scripts/Config/StageConfigData.cs:96-104 | None iff no reward has the id; otherwise the first reward with the id |
| StageConfigs.ShippedStageTotals | Assets/Scripts/Editor/GameDataEditor.cs:96-147 | the shipped table has no stage 0, has stage 1 with 4 gems, and stage 5 has 8 gems |
| LegacyStageConfigs.NewGemRequest | Assets/Scripts/StageConfig.cs:11-15 | id and count are stored |
| LegacyStageConfigs.NewStageConfig | Assets/Scripts/StageConfig.cs:27-34 | the arguments are stored unchanged |
| LegacyStageConfigs.NewRewardConfig | Assets/Scripts/StageConfig.cs:81-86 | the arguments are stored unchanged |
| LegacyStageConfigs.GetTotalGemCount | Assets/Scripts/StageConfig.cs:36-44 | the foreach loop returns `TotalGemCount`, the sum of every request's count; the lemmas below show that sum is additive over concatenation |
| LegacyStageConfigs.TotalGemCountAppend | Assets/Scripts/StageConfig.cs:36-44 | the gem count of a concatenation is the sum of the two counts |
| LegacyStageConfigs.GetStageConfig | Assets/Scripts/StageConfig.cs:53-61 | None iff no stage has the id; otherwise the first stage with the id |
| LegacyStageConfigs.GetRewardConfig | Assets/Scripts/StageConfig.cs:63-71 | None iff no reward has the id; otherwise the first reward with the id |
| Pickaxes.PickaxeManager.constructor | Assets/Scripts/Manager/PickaxeManager.cs:8 | a fresh ledger holds 100 pickaxes |
| Pickaxes.PickaxeManager.HasEnoughPickaxes | Assets/Scripts/Manager/PickaxeManager.cs:49-52 | the ledger covers the amount exactly when debiting it would leave a non-negative count; UsePickaxe succeeds exactly then |
| Pickaxes.PickaxeManager.UsePickaxe | Assets/Scripts/Manager/PickaxeManager.cs:30-52 | it succeeds iff HasEnoughPickaxes holds, then debits exactly the amount and leaves a non-negative count; a failure changes nothing |
| Pickaxes.PickaxeManager.AddPickaxes | Assets/Scripts/Manager/PickaxeManager.cs:42-47 | it credits exactly the amount, so it undoes a successful UsePickaxe of the same amount |
| Pickaxes.PickaxeManager.ShowAddPickaxePopup | Assets/Scripts/Manager/PickaxeManager.cs:54-58 | exactly one popup request is recorded |
| Placement.OrientationOf | Assets/Scripts/Manager/BoardManager.cs:323-327 | a gem listed in the orientation map gets its entry; an unlisted one gets Horizontal |
| Placement.RotationFor | Assets/Scripts/Manager/BoardManager.cs:391-405 | a square is never rotated; any other gem is rotated exactly when its base shape runs across the requested orientation: a Horizontal gem whose base is taller than wide, a Vertical gem whose base is wider than tall |
| Placement.TestBoardRotationFor | Assets/Scripts/Manager/BoardManager.cs:1593-1602 | the backtracking search's spelling of the rule: a square is never rotated; any other gem is rotated exactly when its base shape runs across the requested orientation |
| Placement.ActualDims | Assets/Scripts/Manager/BoardManager.cs:391-410 | the actual dimensions are the base ones, possibly swapped; a square is never swapped; a non-square Horizontal gem is wider than tall and a Vertical one taller than wide |
| Placement.OrientationRulesAgree | Assets/Scripts/Manager/BoardManager.cs:1593-1605 | the oracle's rotation rule is the placement rule; a square is never rotated; the actual dimensions are swapped exactly when rotated |
| Placement.GetGemArea | Assets/Scripts/Manager/BoardManager.cs:1561-1570 | the area is width × height in every branch, equal to the product of the actual dimensions |
| Placement.CheckRect | Assets/Scripts/Manager/BoardManager.cs:583-600 | the result is true iff every cell of the rectangle admits a gem under the given occupancy rule |
| Placement.CanPlaceGem | Assets/Scripts/Manager/BoardManager.cs:583-600 | true iff no cell of the rectangle has a gem, is excluded, is revealed or holds dynamite |
| Placement.CollectPlacements | Assets/Scripts/Manager/BoardManager.cs:407-429 | the scan returns exactly the admissible positions of its range, without duplicates |
| Placement.GetAllValidPlacements | Assets/Scripts/Manager/BoardManager.cs:384-432 | no options for an unknown gem id; every option has the gem's oriented shape, lies on the board and passes CanPlaceGem; every such position is listed; no duplicates |
| Placement.GetAllValidPlacementsIgnoringExclude | Assets/Scripts/Manager/BoardManager.cs:1109-1173 | the same as GetAllValidPlacements with the exclusion flag not looked at |
| Placement.GetPlacementsContainingCell | Assets/Scripts/Manager/BoardManager.cs:1259-1345 | exactly the on-board positions containing the target where the target has no gem and every other covered cell has no gem, is unrevealed and holds no dynamite |
| Placement.Shuffle | Assets/Scripts/Manager/BoardManager.cs:834-841 | the result is a permutation of the input |
| TestBoard.FitsAtIffPacking | Assets/Scripts/Manager/BoardManager.cs:1573-1653 | the recursive packing witness is the same as a list of pairwise disjoint rectangles of free cells |
| TestBoard.FitsAtMoveToFront | Assets/Scripts/Manager/BoardManager.cs:1573-1653 | any gem of a packing can be moved to the front and the packing still fits |
| TestBoard.PackablePermutation | Assets/Scripts/Manager/BoardManager.cs:834-841 | whether a pool can be packed does not depend on its order |
| TestBoard.CanPlaceGemOnTestBoard | Assets/Scripts/Manager/BoardManager.cs:1656-1674 | true iff the rectangle is on the scratch board and all its cells are free |
| TestBoard.PlaceGemOnTestBoard | Assets/Scripts/Manager/BoardManager.cs:1676-1685 | exactly the rectangle's cells are set to the given value, so placing removes it from the free set and unplacing adds it back |
| TestBoard.PackableCons | Assets/Scripts/Manager/BoardManager.cs:1630-1650 | placing the first gem at free cells and packing the rest packs the whole list |
| TestBoard.PackableHead | Assets/Scripts/Manager/BoardManager.cs:1608-1618 | any packing places its first gem at one of the enumerated positions, with the rest packed in what is left |
| TestBoard.CollectTestBoardPositions | Assets/Scripts/Manager/BoardManager.cs:1608-1618 | exactly the in-range positions whose rectangle is free are collected |
| TestBoard.CanPlaceAllGemsOnTestBoardRecursive | Assets/Scripts/Manager/BoardManager.cs:1573-1653 | true only within the attempt budget and only when the remaining gems can be packed into the free cells; false at once when the budget is spent; a false result leaves the scratch board unchanged; a false result within the budget means no packing exists |
| TestBoard.TryEachPosition | Assets/Scripts/Manager/BoardManager.cs:1630-1650 | each candidate is placed, recursed into and unplaced; a false result within the budget rules out every candidate |
| TestBoard.TotalAreaSnoc | Assets/Scripts/Manager/BoardManager.cs:1522-1534 | the total area is the sum of the areas of the gems |
| TestBoard.RectCardinality | Assets/Scripts/Manager/BoardManager.cs:1561-1570 | a w × h rectangle has w × h cells |
| TestBoard.TotalAreaBound | Assets/Scripts/Manager/BoardManager.cs:1522-1534 | a packable pool has a total area of at most the number of free cells |
| TestBoard.CountAvailableArea | Assets/Scripts/Manager/BoardManager.cs:1522-1534 | the count is the number of free scratch cells |
| TestBoard.CanPlaceAllGemsOnTestBoard | Assets/Scripts/Manager/BoardManager.cs:1503-1558 | an empty pool fits; a true result means the pool can be packed and came within the attempt budget; a pool larger than the free area is rejected before any search; a false result leaves the scratch board unchanged; a false result within the budget, for gems of positive size, means no packing exists; the search runs on the gems sorted largest area first |
| TestBoard.TooLargeNotPackable | Assets/Scripts/Manager/BoardManager.cs:1533-1534 | the area pre-check only rejects pools that cannot be packed: gems of positive size whose total area exceeds the open cells have no packing |
| GemOrder.LargestFirstHead | Assets/Scripts/Manager/BoardManager.cs:223-228 | the head of a largest-first order is at least as large as every gem in it, and the tail is again largest-first |
| GemOrder.LargestFirstCons | Assets/Scripts/Manager/BoardManager.cs:223-228 | a gem at least as large as every gem of a largest-first order can be put in front of it |
| GemOrder.InsertBySize | Assets/Scripts/Manager/BoardManager.cs:223-228 | inserting keeps the order largest-first and adds exactly the one gem |
| GemOrder.SortBySize | Assets/Scripts/Manager/BoardManager.cs:203-228 | an insertion sort by gem size: a largest-first permutation of the input, so such an order always exists |
| GemOrder.SortLargestFirst | Assets/Scripts/Manager/BoardManager.cs:210-228 | the sort, ties broken arbitrarily, yields some largest-first permutation of the input |
| GemOrder.NoDuplicatesPermutation | Assets/Scripts/Manager/BoardManager.cs:204-229 | a permutation of a duplicate-free list is duplicate-free |
| GemOrder.InsertByKey | Assets/Scripts/Manager/BoardManager.cs:1538-1552 | inserting into a list sorted by key, largest first, adds exactly the one element and keeps the order |
| GemOrder.SortByKey | Assets/Scripts/Manager/BoardManager.cs:1538-1552 | an insertion sort by key: a largest-first permutation of the input |
| GemOrder.SortByKeyDescending | Assets/Scripts/Manager/BoardManager.cs:1538-1552 | `List.Sort` with the area comparator: a permutation of the input, sorted largest key first whenever every element has a key (the comparator answers "equal" for a gem without a config) |
| Board.Specs | Assets/Scripts/Manager/BoardManager.cs:1513-1519 | the oracle receives one shape per gem, in the list's order, each with its config and orientation |
| Board.RemoveFirst | Assets/Scripts/Manager/BoardManager.cs:1241-1242 | one occurrence of the gem is removed: an absent gem changes nothing and the multiset loses exactly one copy |
| Board.RemoveFirstMembers | Assets/Scripts/Manager/BoardManager.cs:1241-1242 | on a duplicate-free list, exactly the gem itself is no longer a member |
| Board.RemoveFirstNoDuplicates | Assets/Scripts/Manager/BoardManager.cs:1241-1242 | removing keeps a list duplicate-free |
| Board.RemoveFirstUndoesAppend | Assets/Scripts/Manager/BoardManager.cs:349-359 | removing a gem just appended to a list it was not in restores the list |
| Board.CollectedGems | Assets/Scripts/Manager/BoardManager.cs:1972-1981 | exactly the hidden gems that are collected, no more of them than hidden gems |
| Board.RandomStoneLayers | Assets/Scripts/Manager/BoardManager.cs:376 | the stone count is 1 or 2 |
| Board.SameOccupancyAdmits | Assets/Scripts/Manager/BoardManager.cs:583-600 | boards with the same gem, exclusion, reveal and dynamite flags admit the same rectangles |
| Board.OpenAfterPlacing | Assets/Scripts/Manager/BoardManager.cs:1688-1725 | the cells open to the oracle after a placement are the old ones minus the placed rectangle |
| Board.SpecsSameIds | Assets/Scripts/Manager/BoardManager.cs:1513-1519 | the oracle's shapes depend only on the gem ids |
| Board.AroundTargetIgnoresExclusion | Assets/Scripts/Manager/BoardManager.cs:1289-1338 | resetting exclusion flags does not change which positions contain the target |
| Board.SameDigStateTrans | Assets/Scripts/Manager/BoardManager.cs:1784-1819 | spawning never changes dig state, and that relation composes |
| Board.DugBeforeStable | Assets/Scripts/Manager/BoardManager.cs:1796-1818 | cells already dug by the blast stay dug while later reveals only spawn or collect |
| Board.BlastStepsSnoc | Assets/Scripts/Manager/BoardManager.cs:1786-1818 | a trace of explosion steps extended by one more step is still a trace of explosion steps |
| Board.BackedGemsAreDisjoint | Assets/Scripts/Manager/BoardManager.cs:602-640 | gems whose cells point back to them never share a cell |
| Board.PlaceThenRemoveRestores | Assets/Scripts/Manager/BoardManager.cs:348-358 | placing a gem and removing it again restores the board's occupancy |
| Board.BoardManager.SetInputEnabled | Assets/Scripts/Manager/BoardManager.cs:37-40 | the input flag is set and every board invariant is kept |
| Board.BoardManager.InitializeBoard | Assets/Scripts/Manager/BoardManager.cs:50-123 | a fresh board of the given size, every cell reset with one or two random stone layers; no gems, no hidden or unplaced gems, no dynamite; input enabled |
| Board.BoardManager.ClearAllGems | Assets/Scripts/Manager/BoardManager.cs:293-307 | every cell loses its gem and nothing else; no gem is hidden |
| Board.BoardManager.InitializeGemPool | Assets/Scripts/Manager/BoardManager.cs:148-183 | the given gems become the whole pool in order; no gem is hidden; the gem table and orientations are stored; cells lose their gems |
| Board.BoardManager.GetCollectedGems | Assets/Scripts/Manager/BoardManager.cs:1972-1981 | exactly the collected hidden gems |
| Board.BoardManager.GetTotalGemsNeeded | Assets/Scripts/Manager/BoardManager.cs:1967-1970 | never negative, and zero exactly when both the pool and the hidden list are empty; every spawn, dig and explosion keeps it unchanged (their rows) |
| Board.BoardManager.PlaceGemAt | Assets/Scripts/Manager/BoardManager.cs:602-640 | the gem's position is the corner; its cell list becomes the old one plus the rectangle, without duplicates; exactly the new cells point to the gem; every other gem and cell is unchanged |
| Board.BoardManager.AddGemColumn | Assets/Scripts/Manager/BoardManager.cs:606-639 | one column of the rectangle is added to the gem as PlaceGemAt says |
| Board.BoardManager.AddGemCell | Assets/Scripts/Manager/BoardManager.cs:610-611 | one cell is added to the gem as AddCellUI says |
| Board.BoardManager.RemoveGem | Assets/Scripts/Manager/BoardManager.cs:365-382 | every cell of the gem loses it and gets one or two stone layers; the gem's cell list is emptied; nothing else changes |
| Board.BoardManager.ResetExcludedIn | Assets/Scripts/Manager/BoardManager.cs:875-881 | exactly the rectangle's cells have their exclusion flag cleared |
| Board.BoardManager.BuildTestBoard | Assets/Scripts/Manager/BoardManager.cs:1467-1497 | the scratch board is fresh and a cell is free exactly when it is gem-free, without dynamite, not excluded and not revealed; the ignored cell is free exactly when it is not excluded and not revealed, whatever its gem or dynamite |
| Board.BoardManager.CanPlaceRemainingGemsIgnoringCell | Assets/Scripts/Manager/BoardManager.cs:1467-1497 | an empty pool is accepted; a true result means the pool can be packed without the ignored cell; a pool larger than that area is rejected |
| Board.BoardManager.CanPlaceRemainingGemsAfterPlacing | Assets/Scripts/Manager/BoardManager.cs:1688-1725 | a true result means the pool minus the gem can be packed around the placement; a pool larger than what is left is rejected |
| Board.BoardManager.SpawnAt | Assets/Scripts/Manager/BoardManager.cs:884-888 | exactly one gem moves from the unplaced pool to the hidden list, so the unplaced and hidden gems are conserved and the gems needed stay the same; `SpawnedOn`: exactly the placement's cells come to hold the gem (and lose their exclusion flag), the gem lists exactly those cells with the corner as its position, every other cell and gem is unchanged, and the open cells lose exactly the placement |
| Board.BoardManager.SpawnChecked | Assets/Scripts/Manager/BoardManager.cs:872-891 | the same full effect as SpawnAt, and a spawn that passed the pool check leaves a pool that can still be packed |
| Board.BoardManager.TrySpawnAtCell | Assets/Scripts/Manager/BoardManager.cs:869-893 | either nothing changes, or one of the given placements is spawned with the full `SpawnedOn` effect, covering the target when it contains it, and the pool stays packable |
| Board.BoardManager.TrySpawnEachGem | Assets/Scripts/Manager/BoardManager.cs:844-969 | either nothing changes, or one of the listed gems is spawned with the full `SpawnedOn` effect on a placement of its configured oriented shape; a targeted spawn contains and covers the cell and kept to the target rule, an untargeted one to the rule that ignores exclusion; the pool stays packable |
| Board.BoardManager.SpawnGemAtExactCell | Assets/Scripts/Manager/BoardManager.cs:1177-1256 | an empty pool changes nothing; a failure only resets the cell's exclusion flag; a success puts one pooled gem, with the full `SpawnedOn` effect on the board with the cell's flag reset, on a placement of its configured oriented shape that contains the cell and kept to the target rule, and leaves a packable pool |
| Board.BoardManager.EmergencySpawn | Assets/Scripts/Manager/BoardManager.cs:975-1010 | either the first listed gem with room is spawned with the full `SpawnedOn` effect on a placement of its configured shape that ignores only the exclusion flag, or nothing changes and no listed gem has room |
| Board.BoardManager.EmergencySpawnOne | Assets/Scripts/Manager/BoardManager.cs:977-1009 | the same for one gem |
| Board.BoardManager.ForceSpawnGemAtCellIgnoringRemainingGems | Assets/Scripts/Manager/BoardManager.cs:825-1013 | an empty pool changes nothing; otherwise at most one gem moves from the pool to the hidden list, with the full `SpawnedOn` effect on the board with the target's flag reset and on a placement of its configured shape; stage 1 contains and covers the target; stages 1 and 2 keep the pool packable; when nothing spawns no pooled gem has room anywhere and only the target's exclusion flag is reset |
| Board.BoardManager.SpawnInStages | Assets/Scripts/Manager/BoardManager.cs:844-1010 | the three stages over a shuffled pool, stage 2 trying the gems largest area first, with the same guarantees relative to the board it is given |
| Board.BoardManager.IsGemFullyRevealed | Assets/Scripts/Manager/BoardManager.cs:723 | true iff the gem has cells and all of them are revealed |
| Board.BoardManager.CollectIfFullyRevealed | Assets/Scripts/Manager/BoardManager.cs:720-744 | a fully revealed gem is collected and its collection event fires once; otherwise nothing changes |
| Board.BoardManager.SpawnOrExclude | Assets/Scripts/Manager/BoardManager.cs:746-820 | a miss is forced only when the pool is non-empty; a miss becomes forced when the pool could not be packed without the cell; only an unforced miss marks the cell excluded; a spawn moves exactly one pooled gem to the hidden list with the full `SpawnedOn` effect on the board with the cell's flag reset, on a placement of its configured shape that contains the cell unless it came from the forced spawn's last two stages, leaving a packable pool unless it came from the last; with no spawn and no mark the board is the old one with the cell's flag reset (non-empty pool) or the old one |
| Board.BoardManager.ProcessGemReveal | Assets/Scripts/Manager/BoardManager.cs:717-821 | the step `Processed`: a cell holding an uncollected gem only collects it, firing the event, iff it is fully revealed, and never spawns; on any other cell a miss is forced only with a non-empty pool and always when the pool does not pack without the cell, only an unforced miss marks the cell excluded (and then the pool packs without it), and a spawn moves one pooled gem to the end of the hidden list and sets exactly its placement's cells (the `SpawnedOn` frame, on the board with the cell's flag reset), as SpawnOrExclude states; with neither, the board only has the cell's flag reset, or is unchanged when the pool is empty; the gems needed stay constant and no dig state changes |
| Board.BoardManager.ExplodeDynamite | Assets/Scripts/Manager/BoardManager.cs:1784-1819 | the nine offsets are visited x outer, and each in-bounds, unrevealed cell is dug and then taken through the `Processed` step of ProcessGemReveal with a roll of its own, the others left alone (the trace of the nine steps); the 3×3 dig state results and the gems needed stay constant |
| Board.BoardManager.BlastCell | Assets/Scripts/Manager/BoardManager.cs:1796-1818 | one neighbour, when in bounds and unrevealed, is dug and then goes through the `Processed` step with some roll; otherwise nothing changes |
| Board.BoardManager.DigRefused | Assets/Scripts/Manager/BoardManager.cs:668-696 | an accepted dig has input enabled, an on-board cell, the cooldown passed, an unrevealed cell and pickaxes covering its stone layers; with input off or off the board the dig is always refused; DigCell refuses exactly when it holds |
| Board.BoardManager.DigCell | Assets/Scripts/Manager/BoardManager.cs:669-715 | it refuses, changing nothing, when input is off, the cell is off the board, the cooldown has not passed, the cell is revealed or the pickaxes fall short (only the last shows the popup); otherwise it debits exactly the stone layers, digs the cell and records the time, runs the explosion trace when the cell holds dynamite, and then takes the dug cell through the `Processed` step with the given roll; the gems needed stay constant |
| Board.BoardManager.PlaceDynamiteRandomly | Assets/Scripts/Manager/BoardManager.cs:652-667 | either nothing changes, or one gem-free cell without dynamite becomes dynamite and is listed |
| Board.BoardManager.PlaceDynamites | Assets/Scripts/Manager/BoardManager.cs:642-650 | at most the requested count of dynamite; every changed cell was gem-free without dynamite, now holds dynamite and is listed |
| Board.BoardManager.PlacedIsReady | Assets/Scripts/Manager/BoardManager.cs:342-352 | after placing the next gem the packer's invariant holds one position further |
| Board.BoardManager.PlaceGemsRecursive | Assets/Scripts/Manager/BoardManager.cs:314-363 | success places every remaining gem, each covering a valid placement, with no two gems sharing a cell; failure undoes every attempt: the hidden list and occupancy are the old ones |
| Board.BoardManager.PlaceAttempt | Assets/Scripts/Manager/BoardManager.cs:344-359 | one candidate is placed, recursed into and undone on failure, with the same guarantees |
| Board.BoardManager.UndoAttempt | Assets/Scripts/Manager/BoardManager.cs:358-359 | removing the gem and its hidden entry restores the occupancy from before the attempt |
| Board.BoardManager.PlaceAndAdd | Assets/Scripts/Manager/BoardManager.cs:348-349 | the gem covers exactly the placement and is appended to the hidden list |
| Board.BoardManager.UndoPlacement | Assets/Scripts/Manager/BoardManager.cs:358-359 | the gem is removed and the hidden list loses its last entry |
| Board.BoardManager.ValidateBoardCapacity | Assets/Scripts/Manager/BoardManager.cs:243-291 | true iff 10 × the total oriented gem area is at most 9 × the board area |
| Board.BoardManager.PlaceGemsRandomly | Assets/Scripts/Manager/BoardManager.cs:185-241 | a pool over capacity fails with no attempt and no change; success takes 1 to 50 attempts and leaves a largest-first permutation of the gems hidden, each on a valid placement and no two sharing a cell; failure after 50 attempts leaves the board gem-free |
| Board.BoardManager.PackRound | Assets/Scripts/Manager/BoardManager.cs:199-236 | one attempt from a gem-free board in a largest-first order |
| Board.BoardManager.SortedIsReady | Assets/Scripts/Manager/BoardManager.cs:204-232 | a sorted permutation of the pool starts the packer with its invariant |
| LegacyBoard.Covered | Assets/Scripts/BoardManager.cs:526-566 | a cell covered by the older PlaceGemAt: the gem is set unless the cell was listed already, the layers are re-rolled, and reveal and dynamite are kept |
| LegacyBoard.CoverThenRemoveRestores | Assets/Scripts/BoardManager.cs:278-289 | placing a gem and removing it again restores the board's occupancy |
| LegacyBoard.RevealedCount | Assets/Scripts/BoardManager.cs:681-690 | the count is at most the number of hidden gems, and equal to it iff every hidden gem is fully revealed and not yet collected |
| LegacyBoard.AsWrittenSkipsExactly | Assets/Scripts/BoardManager.cs:627-651 | a completed gem on the dug cell is skipped exactly on a roll miss with every hidden gem fully revealed and uncollected |
| LegacyBoard.RevealAsWritten | Assets/Scripts/BoardManager.cs:627-651 | the gem table the as-written rule leaves: only fully revealed gems are collected, and the dug cell keeps a complete, uncollected gem exactly when it had one and the rule skipped it |
| LegacyBoard.SingleHiddenGemIsStranded | Assets/Scripts/BoardManager.cs:627-651 | for one hidden 1×1 gem at the dug cell, a roll miss leaves the fully revealed gem uncollected in the gem table DigCell ends with, and every one of its cells refuses a further dig |
| LegacyBoard.OnlyCollectedGrows | Assets/Scripts/BoardManager.cs:653-679 | revealing more cells keeps every collection justified |
| LegacyBoard.OnlyCollectedTrans | Assets/Scripts/BoardManager.cs:653-679 | justified collection composes over several reveals |
| LegacyBoard.BoardManager.InitializeBoard | Assets/Scripts/BoardManager.cs:26-90 | a fresh board of the given size, every cell reset; no gems, no hidden gems, no dynamite |
| LegacyBoard.BoardManager.ClearAllGems | Assets/Scripts/BoardManager.cs:223-237 | every cell loses its gem and nothing else; no gem is hidden |
| LegacyBoard.BoardManager.GetCollectedGems | Assets/Scripts/BoardManager.cs:692-701 | exactly the collected hidden gems |
| LegacyBoard.BoardManager.CanPlaceGem | Assets/Scripts/BoardManager.cs:513-524 | true iff no cell of the rectangle has a gem; no other flag is looked at |
| LegacyBoard.BoardManager.GetAllValidPlacements | Assets/Scripts/BoardManager.cs:314-362 | no options for an unknown gem id; every option has the oriented shape, lies on the board and is gem-free; every such position is listed; no duplicates |
| LegacyBoard.BoardManager.PlaceGemAt | Assets/Scripts/BoardManager.cs:526-566 | the gem's position is the corner; its cells become the old ones plus the rectangle without duplicates; each rectangle cell is covered with one or two fresh stone layers; nothing else changes |
| LegacyBoard.BoardManager.CoverColumn | Assets/Scripts/BoardManager.cs:530-565 | one column of the rectangle is covered as PlaceGemAt says |
| LegacyBoard.BoardManager.CoverCell | Assets/Scripts/BoardManager.cs:534-563 | one cell is covered as PlaceGemAt says |
| LegacyBoard.BoardManager.RemoveGem | Assets/Scripts/BoardManager.cs:295-312 | every cell of the gem loses it and gets one or two stone layers; the gem's cell list is emptied |
| LegacyBoard.BoardManager.PlacedIsReady | Assets/Scripts/BoardManager.cs:272-282 | after placing the next gem the packer's invariant holds one position further |
| LegacyBoard.BoardManager.PlaceGemsRecursive | Assets/Scripts/BoardManager.cs:244-293 | success places every remaining gem on a valid placement, with no two gems sharing a cell; failure removes every gem tried from the hidden list and restores occupancy |
| LegacyBoard.BoardManager.PlaceAttempt | Assets/Scripts/BoardManager.cs:272-290 | one candidate is placed and then recursed into or undone, with the same guarantees |
| LegacyBoard.BoardManager.RecurseOrUndo | Assets/Scripts/BoardManager.cs:282-290 | after the placement, success completes the packing, and failure undoes that gem back to the board before the attempt |
| LegacyBoard.BoardManager.PlaceAndAdd | Assets/Scripts/BoardManager.cs:278-279 | the gem covers exactly the placement and is appended to the hidden list |
| LegacyBoard.BoardManager.UndoAttempt | Assets/Scripts/BoardManager.cs:288-289 | removing the gem and its hidden entry restores the occupancy from before the attempt |
| LegacyBoard.BoardManager.UndoPlacement | Assets/Scripts/BoardManager.cs:288-289 | the gem is removed and the hidden list loses its last entry |
| LegacyBoard.BoardManager.ValidateBoardCapacity | Assets/Scripts/BoardManager.cs:173-221 | true iff 10 × the total oriented gem area is at most 9 × the board area |
| LegacyBoard.BoardManager.PlaceGemsRandomly | Assets/Scripts/BoardManager.cs:115-171 | a pool over capacity fails with no attempt and no change; success takes 1 to 50 attempts and hides a largest-first permutation of the gems, no two sharing a cell; failure after 50 attempts leaves the board gem-free |
| LegacyBoard.BoardManager.PackRound | Assets/Scripts/BoardManager.cs:128-166 | one attempt from a gem-free board in a largest-first order |
| LegacyBoard.BoardManager.SortedIsReady | Assets/Scripts/BoardManager.cs:134-162 | a sorted permutation of the gems starts the packer with its invariant |
| LegacyBoard.BoardManager.IsGemFullyRevealed | Assets/Scripts/Gem.cs:46-57 | Gem.IsFullyRevealed as the older engine calls it (BoardManager.cs lines 646 and 686): true iff the gem has cells and all of them are revealed |
| LegacyBoard.BoardManager.CountRevealedGems | Assets/Scripts/BoardManager.cs:681-690 | the number of hidden gems that are fully revealed and not yet collected |
| LegacyBoard.BoardManager.ProcessGemRevealAsWritten | Assets/Scripts/BoardManager.cs:627-651 | the older rule as written (`RevealAsWritten`): the dug cell's gem is collected exactly when it is complete and uncollected and the roll hits or fewer gems are revealed than hidden; afterwards the cell holds a complete, uncollected gem exactly when it did before and the rule skipped it |
| LegacyBoard.BoardManager.ProcessGemReveal | Assets/Scripts/BoardManager.cs:627-651 | corrected: the dug cell's gem is collected exactly when it is uncollected and fully revealed, so no completed gem is left behind |
| LegacyBoard.BoardManager.ExplodeDynamite | Assets/Scripts/BoardManager.cs:653-679 | the nine offsets are visited x outer, and each in-bounds, unrevealed cell is dug and then taken through the as-written rule with a roll of its own, the others left alone (the trace of the nine steps); the 3×3 dig results and only fully revealed gems are collected |
| LegacyBoard.BoardManager.BlastCell | Assets/Scripts/BoardManager.cs:660-677 | one neighbour, when in bounds and unrevealed, is dug and then goes through the as-written rule with a hit or a miss; otherwise nothing changes |
| LegacyBoard.BoardManager.DigCell | Assets/Scripts/BoardManager.cs:595-625 | it refuses, changing nothing, off the board, on a revealed cell or when pickaxes fall short (only the last shows the popup); otherwise it debits exactly the stone layers, digs the cell, runs the explosion trace when the cell holds dynamite, and then applies the as-written rule for the given roll to the dug cell; only fully revealed gems are collected |
| Stages.RequestGems | Assets/Scripts/Manager/StageManager.cs:143-169 | an unknown id gives no gems; a known one gives count fresh gems of its config |
| Stages.ExpandGems | Assets/Scripts/Manager/StageManager.cs:141-170 | every created gem is fresh: no cells, not collected |
| Stages.ExpandOrientations | Assets/Scripts/Manager/StageManager.cs:166-168 | one orientation entry per created gem |
| Stages.ExpandedCountIsTotal | Assets/Scripts/Manager/StageManager.cs:141-170 | with every id known, the number of gems created is the stage's total gem count |
| Stages.Origin | Assets/Scripts/Manager/StageManager.cs:141-170 | every created gem comes from a known request, with that request's id and orientation |
| Stages.OriginsInOrder | Assets/Scripts/Manager/StageManager.cs:141-170 | the gems appear in the order of their requests |
| Stages.AllCollectedExactly | Assets/Scripts/Manager/StageManager.cs:173-180 | as many collected gems as hidden ones means every hidden gem is collected, and conversely |
| Stages.CompletionTestMeansAllCollected | Assets/Scripts/Manager/StageManager.cs:173-180 | the count test "collected ≥ needed and needed > 0" holds iff the pool is empty, a gem is hidden and every hidden gem is collected |
| Stages.StageManager.LoadStage | Assets/Scripts/Manager/StageManager.cs:70-122 | a missing stage table, board or gem table changes nothing; otherwise the id and config are current and the flag is down; a missing stage stops there; a found one is built, the board loaded with its gems as the pool, dynamite placed, input enabled and the change announced |
| Stages.StageManager.BuildStage | Assets/Scripts/Manager/StageManager.cs:102-121 | the stage's gems are built and the board is loaded with them |
| Stages.StageManager.CreateStageGems | Assets/Scripts/Manager/StageManager.cs:124-171 | the gems and orientation map are exactly the expansion of the stage's requests |
| Stages.StageManager.AddRequestGems | Assets/Scripts/Manager/StageManager.cs:146-169 | one request's gems and orientation entries are appended |
| Stages.StageManager.CheckStageComplete | Assets/Scripts/Manager/StageManager.cs:173-180 | false once completed; otherwise true iff every gem of the stage is collected |
| Stages.StageManager.CompleteStage | Assets/Scripts/Manager/StageManager.cs:182-207 | a second call does nothing; the first raises the flag, disables input, unlocks the stage's reward button and schedules one delayed advance |
| Stages.StageManager.LoadNextStage | Assets/Scripts/Manager/StageManager.cs:244-255 | the next id is loaded iff the current id is below the number of stages; otherwise nothing changes |
| Stages.StageManager.GetCollectedGems | Assets/Scripts/Manager/StageManager.cs:28-32 | the board's collected gems, or none without a board |
| Stages.FillBoard | Assets/Scripts/Manager/StageManager.cs:112-118 | the pool, dynamite and input calls leave the board loaded with the stage |
| LegacyStages.StageManager.constructor | Assets/Scripts/StageManager.cs:16-20 | stage 1, no config, no gems, not completed, nothing granted |
| LegacyStages.StageManager.LoadStage | Assets/Scripts/StageManager.cs:44-74 | the id and config are current, the flag is down and no reward is granted; a missing stage stops there; a found one is built and announced |
| LegacyStages.StageManager.BuildStage | Assets/Scripts/StageManager.cs:56-73 | the stage's gems are built and the board is loaded with them |
| LegacyStages.StageManager.CreateStageGems | Assets/Scripts/StageManager.cs:76-111 | the gems and orientation map are exactly the expansion of the stage's requests |
| LegacyStages.StageManager.AddRequestGems | Assets/Scripts/StageManager.cs:86-109 | one request's gems and orientation entries are appended |
| LegacyStages.StageManager.CheckStageComplete | Assets/Scripts/StageManager.cs:113-120 | false once completed; otherwise true iff every gem of the stage is collected |
| LegacyStages.StageManager.CompleteStage | Assets/Scripts/StageManager.cs:122-150 | a second call does nothing; the first raises the flag, credits the stage's pickaxe reward (at most once per load), shows the chest and schedules the advance iff more stages follow |
| LegacyStages.StageManager.LoadNextStage | Assets/Scripts/StageManager.cs:158-169 | the next id is loaded iff the current id is below the number of stages; otherwise nothing changes |
| Game.GameManager.InitializeGame | Assets/Scripts/Manager/GameManager.cs:27-30 | stage 1 is loaded |
| Game.GameManager.DigCellUI | Assets/Scripts/Manager/GameManager.cs:34-47 | no cell or a revealed cell changes nothing; a refused dig changes no board state and no pickaxes; completion is checked only after an accepted dig, and the stage is completed exactly when it already was or that dig collected every gem |
| Game.GameManager.OnAddPickaxeConfirmed | Assets/Scripts/Manager/GameManager.cs:50-56 | exactly 100 pickaxes iff confirmed, otherwise nothing |

## Left out

- Rendering, layout, visuals, effects and audio are not modelled. This covers cell images, gem sprites and UV materials, `SetGemInfo`, `SetupBoardBackground`, the explosion effect and every sound call; all of these are engine calls with no state the game logic reads.
- Persistence to player preferences is not modelled: the pickaxe count save and load.
- The pickaxe change event is not modelled.
- The coroutines `DelayedLoadNextStage`, `AutoLoadNextStage`, `ShowCompletionScreen` and the board-visibility toggle are wall-clock sequencing. The model records only that an advance was scheduled (`scheduledAdvances`); the advance itself is `LoadNextStage`.
- `Awake`'s fallback loading of the tables with `Resources.Load` is not modelled, and neither is the singleton `Instance` wiring. The pickaxe ledger is passed as a parameter, and the stage and board managers are fields.
- `Instantiate` and `Destroy` of gem objects are not modelled. Gems are handles into the board's gem table, so two references to one gem object are the same handle, and aliasing between separate gem objects is not captured.
- The orientation dictionary is keyed by handle rather than by object reference.
- Uniform distributions are not modelled: shuffles, random positions, random stone counts, random tie-breaks and the 30% roll are arbitrary choices or inputs.
- `List.Sort` is not a stable or specified algorithm, so a sort is modelled as some permutation in the comparator's order. When the area comparator meets a gem without a config it answers "equal"; it is then not an order, and the model only promises a permutation.
- Placement.Shuffle: only states a permutation, not a Fisher-Yates distribution.
- Board.BoardManager.ValidateBoardCapacity: the integer test "10 × total ≤ 9 × area" can differ from the source's `0.9f` float product at exact multiples because of float rounding.
- LegacyBoard.BoardManager.ValidateBoardCapacity: the same float caveat.
- The private helpers of the newer engine that nothing calls are not modelled: `PlaceGemRandomly`, `PlaceGemWithAllPositions`, `ForceSpawnGemAtCell`, `SpawnRandomGemFromPool`, `PlaceSingleGem` and `CanPlaceRemainingGems` with its 1.1 buffer. The same goes for the older engine's `PlaceGemRandomly` and `PlaceGemWithAllPositions`.
- The older engine's `PlaceDynamites` / `PlaceDynamiteRandomly` are not modelled separately. Its `ExplodeDynamite` and `DigCell` are modelled on whatever dynamite the board holds.
- Integer overflow is not modelled for pickaxe counts, gem counts and areas; they are unbounded integers.
- The board engines' null checks of the gem table are not modelled. Once a stage is loaded the table is always present, and a missing config is modelled as a failed lookup.
- Board.BoardManager.PlaceGemsRandomly: requires a gem list without duplicates whose gems list no cells yet. The public source method takes any list, but nothing in the sources calls it. A second call on the same gems would start with stale cell lists, because ClearAllGems keeps them. `Gem.AddCellUI` then skips a cell it already lists without pointing the cell back, so the cells-to-gem agreement the model proves would not hold, and it is not modelled.
- Board.BoardManager.PackRound: the same requirement on the round's gems, for the same reason.
- LegacyBoard.BoardManager.PlaceGemsRandomly: the same requirement as the newer engine's, for the same reason. Nothing in the sources calls it either, and the stale-list case is not modelled.
- LegacyBoard.BoardManager.PackRound: the same requirement on the round's gems, for the same reason.
- Stages.StageManager.LoadStage: requires that every stage of the table has a non-negative size and room for its dynamite. On such a table the source would fail inside Unity instead.
- LegacyStages.StageManager.LoadStage: requires the same of the stage table. The older stage manager checks none of its references, so the model makes them non-null.
- Game.GameManager.DigCellUI: requires that the stage manager and the game manager refer to the same board, as the scene wires them.
- Game.GameManager.DigCellUI: the clicked `CellUI` object is not tied to the board's cell at its coordinates. In the source it is that cell; here its coordinates address the board's grid, and its own revealed flag is only the view's first guard. A cell the view shows unrevealed but the board holds revealed is refused by DigCell either way.
- The older stage manager drives the newer board API here (`InitializeGemPool`, `PlaceDynamites`), since that is what its code calls.
- `Time.time` is an integer millisecond parameter of `DigCell`.
- The shipped gem colours are transcribed as reals. Unity's named colours are used for the ones the editor names.
- UI panels, popups and the home and stage screens are not modelled.

## Findings

| source | as written | input that shows it | evidently intended | confidence | as-written member | corrected member |
|---|---|---|---|---|---|---|
| Assets/Scripts/BoardManager.cs:627-651 | On a roll miss, when every hidden gem is fully revealed and not yet collected (so the count is not below the number of hidden gems), the dug cell's gem is not collected even though it is now fully revealed. The cell is revealed, so it is never dug again and the gem stays uncollected. | one hidden 1×1 gem lying on the dug cell, roll = miss | collect the dug cell's gem whenever it is uncollected and fully revealed | not executed | LegacyBoard.BoardManager.ProcessGemRevealAsWritten, LegacyBoard.BoardManager.DigCell, LegacyBoard.SingleHiddenGemIsStranded | LegacyBoard.BoardManager.ProcessGemReveal |
