/**
 * A gem instance (Assets/Scripts/Gem.cs): its id, its base size, the cells it
 * covers, where it sits and whether it has been collected.
 *
 * The class `Gem` keeps the cell objects themselves. `GemRecord` is the same
 * state as a value, with the covered cells given by their board coordinates;
 * the board engines keep one record per gem.
 */
module Gems {
  import opened Wrappers
  import opened GemConfigs
  import opened Cells

  type Coord = (int, int)

  predicate NoDuplicates<T(==)>(s: seq<T>)
  {
    forall i, j | 0 <= i < j < |s| :: s[i] != s[j]
  }

  class Gem {
    var gemId: int
    var width: int
    var height: int
    var gemColor: Color
    var cells: seq<CellUI>
    var isCollected: bool
    var position: Coord

    /** Initialize: id and size stored, no cells, not collected. */
    constructor Initialize(id: int, w: int, h: int, color: Color)
      ensures gemId == id && width == w && height == h && gemColor == color
      ensures cells == [] && !isCollected
    {
      gemId, width, height, gemColor := id, w, h, color;
      cells := [];
      isCollected := false;
      position := (0, 0);
    }

    /** SetPosition: the position changes and nothing else. */
    method SetPosition(pos: Coord)
      modifies this`position
      ensures position == pos
    {
      position := pos;
    }

    /**
     * AddCellUI: a cell already in the list is ignored; any other is appended
     * and made to point back to this gem. The list never gains a duplicate.
     */
    method AddCellUI(cell: CellUI)
      modifies this`cells, cell
      ensures cell in cells
      ensures old(cell in cells) ==> cells == old(cells) && cell.State() == old(cell.State())
      ensures !old(cell in cells) ==> cells == old(cells) + [cell]
      ensures !old(cell in cells) ==> cell.gem == this && cell.State() == old(cell.State()).SetGem(Some(this as object))
      ensures old(NoDuplicates(cells)) ==> NoDuplicates(cells)
    {
      if cell !in cells {
        cells := cells + [cell];
        cell.SetGem(this);
      }
    }

    /** What IsFullyRevealed answers: some cells, and every one of them revealed. */
    predicate FullyRevealed()
      reads this, cells
    {
      |cells| > 0 && forall i | 0 <= i < |cells| :: cells[i].isRevealed
    }

    /** IsFullyRevealed: false with no cells, otherwise true exactly when every cell is revealed. */
    method IsFullyRevealed() returns (r: bool)
      ensures r <==> FullyRevealed()
      ensures |cells| == 0 ==> !r
    {
      if |cells| == 0 {
        return false;
      }
      var i := 0;
      while i < |cells|
        invariant 0 <= i <= |cells|
        invariant forall k | 0 <= k < i :: cells[k].isRevealed
      {
        if !cells[i].isRevealed {
          return false;
        }
        i := i + 1;
      }
      return true;
    }

    /** Collect: sets the collected flag; calling it again changes nothing. */
    method Collect()
      modifies this`isCollected
      ensures isCollected
    {
      isCollected := true;
    }
  }

  /** A gem's state as a value: the Gem fields, with cells given by their coordinates. */
  datatype GemRecord = GemRecord(gemId: int, width: int, height: int, gemColor: Color, cells: seq<Coord>,
                                 isCollected: bool, position: Coord)
  {
    /** AddCellUI on the record: a known coordinate is ignored, a new one appended. */
    function AddCell(c: Coord): (g: GemRecord)
      ensures c in g.cells
      ensures c in cells ==> g == this
      ensures c !in cells ==> g == this.(cells := cells + [c])
      ensures NoDuplicates(cells) ==> NoDuplicates(g.cells)
    {
      if c in cells then this else this.(cells := cells + [c])
    }

    function Collect(): (g: GemRecord)
      ensures g == this.(isCollected := true)
    {
      this.(isCollected := true)
    }

    function SetPosition(pos: Coord): (g: GemRecord)
      ensures g == this.(position := pos)
    {
      this.(position := pos)
    }
  }

  /** Gem.Initialize as a value. */
  function InitializedGem(id: int, w: int, h: int, color: Color): (g: GemRecord)
    ensures g.gemId == id && g.width == w && g.height == h && g.gemColor == color
    ensures g.cells == [] && !g.isCollected
  {
    GemRecord(id, w, h, color, [], false, (0, 0))
  }

  /** Collecting twice is collecting once. */
  lemma CollectIsIdempotent(g: GemRecord)
    ensures g.Collect().Collect() == g.Collect()
    ensures g.Collect().isCollected
  {
  }
}
