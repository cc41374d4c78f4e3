/** The 12 x 12 board: a grid of optional placed tiles. A placed tile is a
    bag tile together with the cell it claims to sit in and the two marks the
    scorer writes on it. */
module Board {
  import opened Options
  import opened Tiles
  import Rules

  datatype PlacedTile = PlacedTile(
    tile: Tile,
    gridX: int,
    gridY: int,
    isFound: bool,
    appliedRuleIds: seq<Rules.RuleId>)

  type Cell = Option<PlacedTile>
  type Grid = seq<seq<Cell>>

  /** A row or column of the board with the marks stripped off. */
  type Line = seq<Option<Tile>>

  /** GridHeight rows of GridWidth cells each. */
  predicate Shaped<T>(g: seq<seq<T>>) {
    |g| == GridHeight && forall y :: 0 <= y < |g| ==> |g[y]| == GridWidth
  }

  /** Every tile's recorded coordinates are those of the cell holding it. */
  ghost predicate Positioned(g: Grid) {
    forall y, x :: 0 <= y < |g| && 0 <= x < |g[y]| && g[y][x].Some? ==>
      g[y][x].value.gridX == x && g[y][x].value.gridY == y
  }

  /** The board of a fresh game: every cell empty. */
  function EmptyGrid(): (g: Grid)
    ensures Shaped(g)
    ensures forall y, x :: 0 <= y < |g| && 0 <= x < |g[y]| ==> g[y][x].None?
  {
    seq(GridHeight, y => seq(GridWidth, x => None))
  }

  function BaseCell(c: Cell): Option<Tile> {
    if c.Some? then Some(c.value.tile) else None
  }

  /** The board as the scanner sees it: which tile is in which cell. */
  function Base(g: Grid): (b: seq<seq<Option<Tile>>>)
    ensures |b| == |g|
    ensures forall y :: 0 <= y < |g| ==> |b[y]| == |g[y]|
    ensures forall y, x :: 0 <= y < |g| && 0 <= x < |g[y]| ==> b[y][x] == BaseCell(g[y][x])
  {
    seq(|g|, y requires 0 <= y < |g| => seq(|g[y]|, x requires 0 <= x < |g[y]| => BaseCell(g[y][x])))
  }

  /** Every tile on the board is worth at least one point. */
  ghost predicate PositiveValues(b: seq<seq<Option<Tile>>>) {
    forall y, x :: 0 <= y < |b| && 0 <= x < |b[y]| && b[y][x].Some? ==> b[y][x].value.value >= 1
  }
}
