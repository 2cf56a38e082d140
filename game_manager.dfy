/**
 * The game flow of Assets/Scripts/Manager/GameManager.cs: a click on a cell
 * digs it, and a dig the board accepts is followed by the stage's
 * completion check; confirming the "add pickaxes" popup credits a fixed
 * hundred pickaxes. The pickaxe singleton is passed in as `ledger`; the
 * dig's time and roll are parameters, as in the board engine.
 */
module Game {
  import opened Cells
  import opened Pickaxes
  import opened Board
  import opened Stages

  /** What confirming the "add pickaxes" popup credits. */
  const PopupPickaxes: int := 100

  class GameManager {
    const stageManager: StageManager
    const boardManager: BoardManager

    /** The component with its serialized references. */
    constructor (stage: StageManager, board: BoardManager)
      ensures stageManager == stage && boardManager == board
    {
      stageManager, boardManager := stage, board;
    }

    /** The scene wires the stage manager to the same board the game manager digs on. */
    predicate Wired()
      reads this, stageManager
    {
      stageManager.boardManager == boardManager
    }

    /** InitializeGame (run from Start): stage 1 is loaded. */
    method InitializeGame()
      requires Wired() && stageManager.stageConfigData.Some? && UsableStages(stageManager.stageConfigData.value)
      requires stageManager.gemConfigData.Some?
      modifies stageManager, boardManager
      ensures Wired() && !stageManager.Unwired() && stageManager.Loaded(boardManager, 1)
    {
      stageManager.LoadStage(1);
    }

    /**
     * DigCellUI: nothing happens for no cell or a cell the view shows
     * revealed. Otherwise the board digs at the cell's coordinates, and only
     * when that dig was accepted the stage is checked, and completed when
     * CheckStageComplete says so: the stage is then completed exactly when it was
     * before or the accepted dig left every gem of the stage collected.
     */
    method DigCellUI(cell: CellUI?, now: int, hitRoll: bool, ledger: PickaxeManager)
      requires Wired() && boardManager.Valid() && boardManager.PoolReady()
      modifies boardManager, ledger, stageManager
      ensures Wired() && boardManager.Valid() && boardManager.PoolReady()
      ensures cell == null || cell.isRevealed ==>
                unchanged(boardManager) && unchanged(stageManager) && unchanged(ledger)
      ensures cell != null && !cell.isRevealed ==>
                var dug := !old(boardManager.DigRefused(cell.boardX, cell.boardY, now, ledger.currentPickaxes));
                var completes := dug && !old(stageManager.isStageCompleted) && AllGemsCollected(boardManager);
                (stageManager.isStageCompleted <==> old(stageManager.isStageCompleted) || completes)
                && (!dug ==> boardManager.board == old(boardManager.board) && boardManager.gems == old(boardManager.gems)
                             && boardManager.hiddenGems == old(boardManager.hiddenGems)
                             && ledger.currentPickaxes == old(ledger.currentPickaxes))
                && (dug ==> ledger.currentPickaxes
                            == old(ledger.currentPickaxes) - old(boardManager.board[cell.boardX][cell.boardY].stoneLayers))
                && (completes ==> stageManager.unlockedRewardButtons
                                  == old(stageManager.unlockedRewardButtons) + [stageManager.currentStageId]
                                  && !boardManager.isInputEnabled)
                && (!completes ==> stageManager.unlockedRewardButtons == old(stageManager.unlockedRewardButtons)
                                   && stageManager.scheduledAdvances == old(stageManager.scheduledAdvances))
    {
      if cell == null || cell.isRevealed {
        return;
      }
      var success;
      ghost var trace, forced, marked, spawned;
      success, trace, forced, marked, spawned := boardManager.DigCell(cell.boardX, cell.boardY, now, hitRoll, ledger);
      if success {
        var complete := stageManager.CheckStageComplete();
        if complete {
          stageManager.CompleteStage();
        }
      }
    }

    /** OnAddPickaxeConfirmed: exactly the popup's pickaxes when confirmed, nothing otherwise. */
    method OnAddPickaxeConfirmed(confirmed: bool, ledger: PickaxeManager)
      modifies ledger`currentPickaxes
      ensures ledger.currentPickaxes == old(ledger.currentPickaxes) + (if confirmed then PopupPickaxes else 0)
    {
      if confirmed {
        ledger.AddPickaxes(PopupPickaxes);
      }
    }
  }
}
