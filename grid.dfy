/**
 * The block grid the fluid pool explores: positions, the few facts about a
 * cell that the pool reads (is it air, can it be fluid-logged, which fluid it
 * holds and how much), the six axis neighbours of a position, and the shared
 * world whose cells the fluid mixin changes.
 */
module Grid {

  /** Number of fluid units one cell can hold. */
  const Capacity: int := 8

  /** A block position (x, y, z); compared structurally. */
  datatype Pos = Pos(x: int, y: int, z: int)

  /** A fluid type. Source and flowing variants of one fluid are the same kind. */
  datatype FluidKind = FluidKind(id: nat)

  /** The kinds of block the pool tells apart. */
  datatype Block =
    | Air        // an air block
    | Solid      // any block that neither holds fluid nor can take it
    | Loggable   // a block with the fluid-level block property
    | Liquid     // a fluid block

  /**
   * What the pool can observe of one block: the kind of block, and its fluid
   * state as a fluid kind and an amount. A loggable block holds `amount`
   * units of `kind` when its level is above zero and no fluid at level zero;
   * a fluid block holds `amount` units of `kind`; air and solid blocks hold
   * nothing (`kind` is then meaningless).
   */
  datatype Cell = Cell(block: Block, kind: FluidKind, amount: int)

  type Cells = map<Pos, Cell>

  /** Positions outside the map are solid. */
  function CellAt(g: Cells, p: Pos): (c: Cell)
    ensures p !in g ==> c.block == Solid && c.amount == 0
    ensures p in g ==> c == g[p]
  {
    if p in g then g[p] else Cell(Solid, FluidKind(0), 0)
  }

  predicate IsAir(c: Cell) {
    c.block == Air
  }

  /** The fluid type of the cell's fluid state; None for the empty fluid. */
  function FluidOf(c: Cell): (r: Option<FluidKind>)
    ensures r.Some? <==> c.block == Liquid || (c.block == Loggable && c.amount > 0)
    ensures r.Some? ==> r.value == c.kind
  {
    if c.block == Liquid || (c.block == Loggable && c.amount > 0) then Some(c.kind) else None
  }

  /** The amount of the cell's fluid state. */
  function FluidAmount(c: Cell): int {
    c.amount
  }

  /** The fluid state's type is the same fluid as `f`. */
  predicate IsSame(c: Cell, f: FluidKind) {
    FluidOf(c) == Some(f)
  }

  /**
   * The block has the fluid-level property and its value is at most zero:
   * such a block can take fluid although it holds none.
   */
  predicate CanBeFluidlogged(c: Cell)
    ensures CanBeFluidlogged(c) ==> FluidOf(c) == None && !IsAir(c)
  {
    c.block == Loggable && c.amount <= 0
  }

  /** Every per-cell amount lies in 0..Capacity; air and solid blocks hold nothing. */
  predicate WellFormed(c: Cell) {
    0 <= c.amount <= Capacity && (c.block == Air || c.block == Solid ==> c.amount == 0)
  }

  predicate WellFormedCells(g: Cells) {
    forall p :: p in g ==> WellFormed(g[p])
  }

  /**
   * The cell after the fluid mixin moves `delta` units of `f` into it
   * (out of it when `delta` is negative). Fluid poured into air makes a
   * fluid block; a loggable block stays loggable.
   */
  function Changed(c: Cell, f: FluidKind, delta: int): (r: Cell)
    requires c.block != Solid && WellFormed(c)
    requires 0 <= FluidAmount(c) + delta <= Capacity
    ensures FluidAmount(r) == FluidAmount(c) + delta
    ensures WellFormed(r)
    ensures delta == 0 ==> r == c
    ensures delta < 0 ==> r.block == c.block && r.kind == c.kind
    ensures delta > 0 ==> IsSame(r, f) && (r.block == c.block || (c.block == Air && r.block == Liquid))
  {
    if delta == 0 then c
    else
      var block := if c.block == Air then Liquid else c.block;
      Cell(block, if delta > 0 then f else c.kind, c.amount + delta)
  }

  function Abs(d: int): nat {
    if d < 0 then -d else d
  }

  /** Positions that differ by one in exactly one coordinate. */
  predicate Adjacent(p: Pos, q: Pos) {
    Abs(q.x - p.x) + Abs(q.y - p.y) + Abs(q.z - p.z) == 1
  }

  /** The six neighbours, in the order down, up, north, south, west, east. */
  function Neighbours(p: Pos): (r: seq<Pos>)
    ensures |r| == 6
  {
    [Pos(p.x, p.y - 1, p.z), Pos(p.x, p.y + 1, p.z),
     Pos(p.x, p.y, p.z - 1), Pos(p.x, p.y, p.z + 1),
     Pos(p.x - 1, p.y, p.z), Pos(p.x + 1, p.y, p.z)]
  }

  /** The six neighbours are exactly the adjacent positions. */
  lemma NeighboursAdjacent(p: Pos)
    ensures forall q :: q in Neighbours(p) <==> Adjacent(p, q)
  {
  }

  datatype Option<T> = None | Some(value: T)

  /** The shared world. Only the fluid mixin (ChangeFluid) writes its cells. */
  class World {
    var cells: Cells

    ghost predicate Valid()
      reads this
    {
      WellFormedCells(cells)
    }

    constructor (cells: Cells)
      requires WellFormedCells(cells)
      ensures Valid() && this.cells == cells
    {
      this.cells := cells;
    }

    /** The fluid mixin: add `delta` units of `f` at `pos` (remove when negative). */
    method ChangeFluid(pos: Pos, f: FluidKind, delta: int)
      requires Valid()
      requires pos in cells && cells[pos].block != Solid
      requires 0 <= FluidAmount(cells[pos]) + delta <= Capacity
      modifies this
      ensures Valid()
      ensures cells == old(cells)[pos := Changed(old(cells)[pos], f, delta)]
    {
      cells := cells[pos := Changed(cells[pos], f, delta)];
    }
  }
}
