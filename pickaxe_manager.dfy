/**
 * The pickaxe ledger (Assets/Scripts/Manager/PickaxeManager.cs): a counter
 * that digging debits and purchases credit. Saving the count to player
 * preferences and the change event are not part of this model; the request
 * to show the "add pickaxes" popup is kept as a ghost counter so that callers
 * can say when it happens.
 */
module Pickaxes {
  /** The count a fresh ledger starts with. */
  const InitialPickaxes: int := 100

  class PickaxeManager {
    var currentPickaxes: int
    /** How many times the "add pickaxes" popup was requested. */
    ghost var popupRequests: nat

    constructor ()
      ensures currentPickaxes == InitialPickaxes && popupRequests == 0
    {
      currentPickaxes := InitialPickaxes;
      popupRequests := 0;
    }

    /** HasEnoughPickaxes: the ledger covers the amount. */
    predicate HasEnoughPickaxes(amount: int): (enough: bool)
      reads this
      ensures enough <==> currentPickaxes - amount >= 0
    {
      currentPickaxes >= amount
    }

    /**
     * UsePickaxe: succeeds exactly when the ledger covers the amount, and
     * then debits exactly that amount; a failed call changes nothing.
     */
    method UsePickaxe(amount: int) returns (ok: bool)
      modifies this`currentPickaxes
      ensures ok <==> old(HasEnoughPickaxes(amount))
      ensures ok ==> currentPickaxes == old(currentPickaxes) - amount
      ensures !ok ==> currentPickaxes == old(currentPickaxes)
      ensures ok ==> currentPickaxes >= 0
    {
      if currentPickaxes >= amount {
        currentPickaxes := currentPickaxes - amount;
        ok := true;
      } else {
        ok := false;
      }
    }

    /** AddPickaxes: credits exactly the amount, so it undoes a successful UsePickaxe of the same amount. */
    method AddPickaxes(amount: int)
      modifies this`currentPickaxes
      ensures currentPickaxes == old(currentPickaxes) + amount
    {
      currentPickaxes := currentPickaxes + amount;
    }

    /** ShowAddPickaxePopup: only the request is recorded. */
    method ShowAddPickaxePopup()
      modifies this`popupRequests
      ensures popupRequests == old(popupRequests) + 1
    {
      popupRequests := popupRequests + 1;
    }
  }
}
