/**
 * One board cell (Assets/Scripts/CellUI.cs): its stone layers, the gem it
 * holds, and the dynamite, revealed and excluded-from-spawn flags.
 *
 * `Cell<G>` is the cell's state as a value and its member functions are the
 * transitions the source's methods perform; the class `CellUI` holds the same
 * fields and each of its methods is proved to perform exactly one of those
 * transitions. The board engines keep `Cell` values, with `G` the type they
 * use to refer to a gem.
 */
module Cells {
  import opened Wrappers

  /** The cell kinds the cell methods assign (the enum itself is not part of this model's sources). */
  datatype CellType = Stone1Layer | Stone2Layer | Gem | Dynamite | Empty

  datatype Cell<G> = Cell(cellType: CellType, stoneLayers: int, gem: Option<G>, isDynamite: bool,
                          isRevealed: bool, isExcludedFromGemSpawn: bool, boardX: int, boardY: int)
  {
    /** ResetCell: one stone layer, no gem, every flag cleared; the coordinates stay. */
    function ResetCell(): (c: Cell<G>)
      ensures c.cellType == Stone1Layer && c.stoneLayers == 1 && c.gem == None
      ensures !c.isDynamite && !c.isRevealed && !c.isExcludedFromGemSpawn
      ensures c.boardX == boardX && c.boardY == boardY
    {
      Cell(Stone1Layer, 1, None, false, false, false, boardX, boardY)
    }

    /** SetStoneLayers: stores the count; the kind is Stone1Layer exactly for one layer. */
    function SetStoneLayers(layers: int): (c: Cell<G>)
      ensures c.stoneLayers == layers
      ensures c.cellType == Stone1Layer <==> layers == 1
      ensures c.cellType == Stone2Layer <==> layers != 1
      ensures c == this.(stoneLayers := layers, cellType := c.cellType)
    {
      this.(stoneLayers := layers, cellType := if layers == 1 then Stone1Layer else Stone2Layer)
    }

    /**
     * SetGem: stores the gem; a present gem also makes the kind Gem and
     * clears the exclusion flag, while an absent one clears only the gem.
     */
    function SetGem(g: Option<G>): (c: Cell<G>)
      ensures c.gem == g
      ensures g.Some? ==> c.cellType == Gem && !c.isExcludedFromGemSpawn
      ensures g.Some? ==> c == this.(gem := g, cellType := Gem, isExcludedFromGemSpawn := false)
      ensures g.None? ==> c == this.(gem := None)
    {
      if g.Some? then this.(gem := g, cellType := Gem, isExcludedFromGemSpawn := false)
      else this.(gem := None)
    }

    function MarkAsExcludedFromGemSpawn(): (c: Cell<G>)
      ensures c == this.(isExcludedFromGemSpawn := true)
    {
      this.(isExcludedFromGemSpawn := true)
    }

    function ResetExcludedFromGemSpawn(): (c: Cell<G>)
      ensures c == this.(isExcludedFromGemSpawn := false)
    {
      this.(isExcludedFromGemSpawn := false)
    }

    /** SetDynamite: stores the flag; only setting it changes the kind, to Dynamite. */
    function SetDynamite(value: bool): (c: Cell<G>)
      ensures c.isDynamite == value
      ensures value ==> c == this.(isDynamite := true, cellType := Dynamite)
      ensures !value ==> c == this.(isDynamite := false)
    {
      if value then this.(isDynamite := true, cellType := Dynamite) else this.(isDynamite := false)
    }

    /** Reveal: sets the revealed flag and nothing else. */
    function Reveal(): (c: Cell<G>)
      ensures c == this.(isRevealed := true)
    {
      this.(isRevealed := true)
    }

    /** The cell after Dig: a revealed cell is left alone, any other loses its layers and is revealed. */
    function Dig(): (c: Cell<G>)
      ensures isRevealed ==> c == this
      ensures !isRevealed ==> c == this.(stoneLayers := 0, isRevealed := true)
    {
      if isRevealed then this else this.(stoneLayers := 0).Reveal()
    }

    /** What Dig returns: the layers it removed, 0 on a revealed cell. */
    function DigCost(): (used: int)
      ensures used == if isRevealed then 0 else stoneLayers
    {
      if isRevealed then 0 else stoneLayers
    }

    /** Clear: an empty, revealed cell with no gem, no dynamite and no layers; the exclusion flag is kept. */
    function Clear(): (c: Cell<G>)
      ensures c.cellType == Empty && c.gem == None && !c.isDynamite && c.stoneLayers == 0 && c.isRevealed
      ensures c.isExcludedFromGemSpawn == isExcludedFromGemSpawn
      ensures c.boardX == boardX && c.boardY == boardY
    {
      this.(cellType := Empty, gem := None, isDynamite := false, stoneLayers := 0, isRevealed := true)
    }
  }

  /** Initialize: a cell at the given coordinates in its reset state. */
  function InitializedCell<G>(x: int, y: int): (c: Cell<G>)
    ensures c.boardX == x && c.boardY == y
    ensures c.stoneLayers == 1 && c.cellType == Stone1Layer && c.gem == None
    ensures !c.isDynamite && !c.isRevealed && !c.isExcludedFromGemSpawn
  {
    Cell(Stone1Layer, 0, None, false, false, false, x, y).ResetCell()
  }

  /** Every cell operation the source defines, for stating facts about all of them at once. */
  datatype CellOp<G> =
    | ResetOp | SetStoneLayersOp(layers: int) | SetGemOp(g: Option<G>) | MarkExcludedOp | ResetExcludedOp
    | SetDynamiteOp(value: bool) | DigOp | RevealOp | ClearOp

  function Apply<G>(c: Cell<G>, op: CellOp<G>): Cell<G>
  {
    match op
    case ResetOp => c.ResetCell()
    case SetStoneLayersOp(layers) => c.SetStoneLayers(layers)
    case SetGemOp(g) => c.SetGem(g)
    case MarkExcludedOp => c.MarkAsExcludedFromGemSpawn()
    case ResetExcludedOp => c.ResetExcludedFromGemSpawn()
    case SetDynamiteOp(value) => c.SetDynamite(value)
    case DigOp => c.Dig()
    case RevealOp => c.Reveal()
    case ClearOp => c.Clear()
  }

  /**
   * Reveal is monotone: no operation but ResetCell clears the revealed flag,
   * and Dig, Reveal and Clear always leave it set. No operation moves a cell.
   */
  lemma RevealIsMonotone<G>(c: Cell<G>, op: CellOp<G>)
    ensures op != ResetOp && c.isRevealed ==> Apply(c, op).isRevealed
    ensures op == DigOp || op == RevealOp || op == ClearOp ==> Apply(c, op).isRevealed
    ensures Apply(c, op).boardX == c.boardX && Apply(c, op).boardY == c.boardY
  {
  }

  /** A cell with its stone layers set again, as the board does after creating it. */
  lemma DigAfterInitialize<G>(x: int, y: int, layers: int)
    ensures InitializedCell<G>(x, y).SetStoneLayers(layers).DigCost() == layers
    ensures InitializedCell<G>(x, y).SetStoneLayers(layers).Dig().isRevealed
    ensures InitializedCell<G>(x, y).SetStoneLayers(layers).Dig().Dig().isRevealed
    ensures InitializedCell<G>(x, y).SetStoneLayers(layers).Dig().DigCost() == 0
  {
  }

  /** The cell object; its gem field refers to a Gem object, or is null. */
  class CellUI {
    var cellType: CellType
    var stoneLayers: int
    var gem: object?
    var isDynamite: bool
    var isRevealed: bool
    var isExcludedFromGemSpawn: bool
    var boardX: int
    var boardY: int

    /** The fields as a value. */
    function State(): Cell<object>
      reads this
    {
      Cell(cellType, stoneLayers, if gem == null then None else Some(gem as object), isDynamite, isRevealed,
           isExcludedFromGemSpawn, boardX, boardY)
    }

    /** Initialize: stores the coordinates, then resets the cell. */
    constructor Initialize(x: int, y: int)
      ensures State() == InitializedCell(x, y)
    {
      boardX, boardY := x, y;
      cellType, stoneLayers, gem := Stone1Layer, 1, null;
      isDynamite, isRevealed, isExcludedFromGemSpawn := false, false, false;
    }

    method ResetCell()
      modifies this
      ensures State() == old(State()).ResetCell()
    {
      cellType, stoneLayers, gem := Stone1Layer, 1, null;
      isDynamite, isRevealed, isExcludedFromGemSpawn := false, false, false;
    }

    method SetStoneLayers(layers: int)
      modifies this
      ensures State() == old(State()).SetStoneLayers(layers)
    {
      stoneLayers := layers;
      cellType := if layers == 1 then Stone1Layer else Stone2Layer;
    }

    method SetGem(gemData: object?)
      modifies this
      ensures gem == gemData
      ensures State() == old(State()).SetGem(if gemData == null then None else Some(gemData as object))
    {
      gem := gemData;
      if gem != null {
        cellType := Gem;
        isExcludedFromGemSpawn := false;
      }
    }

    method MarkAsExcludedFromGemSpawn()
      modifies this
      ensures State() == old(State()).MarkAsExcludedFromGemSpawn()
    {
      isExcludedFromGemSpawn := true;
    }

    method ResetExcludedFromGemSpawn()
      modifies this
      ensures State() == old(State()).ResetExcludedFromGemSpawn()
    {
      isExcludedFromGemSpawn := false;
    }

    method SetDynamite(value: bool)
      modifies this
      ensures State() == old(State()).SetDynamite(value)
    {
      isDynamite := value;
      if value {
        cellType := Dynamite;
      }
    }

    /** Dig: returns the layers it removed and leaves the cell as `Cell.Dig` says. */
    method Dig() returns (pickaxesUsed: int)
      modifies this
      ensures pickaxesUsed == old(State()).DigCost()
      ensures State() == old(State()).Dig()
    {
      if isRevealed {
        return 0;
      }
      pickaxesUsed := stoneLayers;
      stoneLayers := 0;
      if stoneLayers == 0 {
        Reveal();
      }
    }

    method Reveal()
      modifies this
      ensures State() == old(State()).Reveal()
    {
      isRevealed := true;
    }

    method Clear()
      modifies this
      ensures State() == old(State()).Clear()
    {
      cellType := Empty;
      gem := null;
      isDynamite := false;
      stoneLayers := 0;
      isRevealed := true;
    }
  }
}
