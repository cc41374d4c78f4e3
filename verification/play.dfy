/** A game in progress, as the Game component holds it: the board, the hand,
    the bag, the day's rules, the last score, the countdown and the tile
    being dragged. Its transitions are the drag start and drag end handlers,
    the "Submit Final Board" button and the one-second countdown tick. */
module Play {
  import opened Options
  import opened Tiles
  import opened Board
  import JsMap
  import Scoring
  import Rules
  import Scanner

  /** Where a drag began: a board cell or a hand slot. */
  datatype Origin = OnGrid(x: int, y: int) | InHand(index: int)

  /** The tile being dragged, with the rule marks it carried on the board
      (a tile picked up from the hand carries none), and where it came from. */
  datatype Drag = Drag(tile: Tile, marks: seq<Rules.RuleId>, origin: Origin)

  /** The figures `checkForWords` last reported. */
  datatype Totals = Totals(
    basePoints: int,
    totalLengths: int,
    bonusPoints: int,
    finalScore: int,
    metRuleCounts: JsMap.AList<Rules.RuleId, int>)

  datatype Game = Game(
    grid: Grid,
    hand: seq<Option<Tile>>,
    bag: seq<Option<Tile>>,
    rules: seq<Rules.RuleId>,
    totals: Totals,
    timeLeft: int,
    over: bool,
    dragging: Option<Drag>)

  predicate InBounds(x: int, y: int) {
    0 <= x < GridWidth && 0 <= y < GridHeight
  }

  /** `grid[y][x] = c` on a copy of the grid. */
  function Put(g: Grid, x: int, y: int, c: Cell): (g': Grid)
    requires Shaped(g) && InBounds(x, y)
    ensures Shaped(g')
    ensures forall yy, xx :: 0 <= yy < |g| && 0 <= xx < |g[yy]| ==>
      g'[yy][xx] == if yy == y && xx == x then c else g[yy][xx]
  {
    g[y := g[y][x := c]]
  }

  /** The origin of a drag in progress names a real cell or slot... */
  ghost predicate DragInRange(g: Game) {
    g.dragging.Some? ==>
      match g.dragging.value.origin
      case OnGrid(x, y) => InBounds(x, y)
      case InHand(i) => 0 <= i < |g.hand|
  }

  /** ...and, as the drag start handler leaves it, that cell or slot still
      holds the dragged tile. */
  ghost predicate DragConsistent(g: Game) {
    && Shaped(g.grid)
    && DragInRange(g)
    && (g.dragging.Some? ==>
          var d := g.dragging.value;
          match d.origin
          case OnGrid(x, y) => BaseCell(g.grid[y][x]) == Some(d.tile)
          case InHand(i) => g.hand[i] == Some(d.tile))
  }

  /** `checkForWords(newGrid)` after a move: the scored, re-marked board and
      its totals replace the old ones. */
  function Rescore(g: Game, grid: Grid, dict: set<string>): Game
    requires Shaped(grid)
  {
    var s := Scoring.CheckForWords(grid, dict, g.rules);
    g.(grid := s.grid,
       totals := Totals(s.basePoints, s.totalLengths, s.bonusPoints, s.finalScore, s.metRuleCounts))
  }

  /* ----- dragging ----- */

  /** The tile held by a cell or slot that shows one. */
  predicate Occupied(g: Game, o: Origin) {
    && Shaped(g.grid)
    && match o
       case OnGrid(x, y) => InBounds(x, y) && g.grid[y][x].Some?
       case InHand(i) => 0 <= i < |g.hand| && g.hand[i].Some?
  }

  /** `startDrag`, which the board and the hand attach only to the tiles
      they show: nothing once the game is over or when the event has no
      coordinates; otherwise the tile becomes the dragged one. */
  function StartDrag(g: Game, o: Origin, hasCoords: bool): Game
    requires Occupied(g, o)
  {
    if g.over || !hasCoords then g
    else
      var d := match o
        case OnGrid(x, y) => Drag(g.grid[y][x].value.tile, g.grid[y][x].value.appliedRuleIds, o)
        case InHand(i) => Drag(g.hand[i].value, [], o);
      g.(dragging := Some(d))
  }

  /** The tile as it lands in cell (x, y): `{ ...tile, gridX, gridY,
      isFound: false }`. */
  function Landed(d: Drag, x: int, y: int): PlacedTile {
    PlacedTile(d.tile, x, y, false, d.marks)
  }

  /** `handleDragEnd` for a drop on cell `drop` (none when the event has no
      coordinates). With no drag or no mounted board it does nothing at all;
      otherwise the drag ends, and:
      - on an empty cell the tile lands there and its origin is cleared;
      - on an occupied cell, for a tile from the board, the two tiles swap;
      - anywhere else nothing moves. */
  function DragEnd(g: Game, mounted: bool, drop: Option<(int, int)>, dict: set<string>): Game
    requires Shaped(g.grid) && DragInRange(g)
  {
    if g.dragging.None? || !mounted then g
    else
      var d := g.dragging.value;
      var idle := g.(dragging := None);
      if drop.None? || !InBounds(drop.value.0, drop.value.1) then idle
      else
        var (x, y) := drop.value;
        if g.grid[y][x].None? then Land(g, x, y, dict)
        else if d.origin.OnGrid? then SwapWith(g, x, y, dict)
        else idle
  }

  /** Placing on the empty cell (x, y): the tile lands there, its origin
      cell or hand slot is emptied, and the new board is scored. */
  function Land(g: Game, x: int, y: int, dict: set<string>): Game
    requires Shaped(g.grid) && DragInRange(g) && g.dragging.Some? && InBounds(x, y)
  {
    Rescore(g.(dragging := None, hand := LandHand(g)), LandGrid(g, x, y), dict)
  }

  /** The board after a landing, before it is scored. */
  function LandGrid(g: Game, x: int, y: int): Grid
    requires Shaped(g.grid) && DragInRange(g) && g.dragging.Some? && InBounds(x, y)
  {
    var d := g.dragging.value;
    var placed := Put(g.grid, x, y, Some(Landed(d, x, y)));
    match d.origin
    case OnGrid(ox, oy) => Put(placed, ox, oy, None)
    case InHand(_) => placed
  }

  /** The hand after a landing: a tile from the hand leaves a hole. */
  function LandHand(g: Game): seq<Option<Tile>>
    requires DragInRange(g) && g.dragging.Some?
  {
    match g.dragging.value.origin
    case OnGrid(_, _) => g.hand
    case InHand(i) => g.hand[i := None]
  }

  /** Swapping with the tile in (x, y): that tile moves to the dragged
      tile's cell with the coordinates of that cell, the dragged tile lands
      in (x, y), and the new board is scored. */
  function SwapWith(g: Game, x: int, y: int, dict: set<string>): Game
    requires Shaped(g.grid) && DragInRange(g) && g.dragging.Some? && g.dragging.value.origin.OnGrid?
    requires InBounds(x, y) && g.grid[y][x].Some?
  {
    Rescore(g.(dragging := None), SwapGrid(g, x, y), dict)
  }

  /** The board after a swap, before it is scored. */
  function SwapGrid(g: Game, x: int, y: int): Grid
    requires Shaped(g.grid) && DragInRange(g) && g.dragging.Some? && g.dragging.value.origin.OnGrid?
    requires InBounds(x, y) && g.grid[y][x].Some?
  {
    var d := g.dragging.value;
    var (ox, oy) := (d.origin.x, d.origin.y);
    var moved := Put(g.grid, ox, oy, Some(g.grid[y][x].value.(gridX := ox, gridY := oy)));
    Put(moved, x, y, Some(Landed(d, x, y)))
  }

  /** The drop lands the tile: the drag is live, the board is mounted and
      the target cell is on the board and empty. */
  predicate Lands(g: Game, mounted: bool, drop: Option<(int, int)>)
    requires Shaped(g.grid)
  {
    && g.dragging.Some? && mounted && drop.Some?
    && InBounds(drop.value.0, drop.value.1)
    && g.grid[drop.value.1][drop.value.0].None?
  }

  /** The drop swaps: as above, but onto an occupied cell with a tile taken
      from the board. */
  predicate Swaps(g: Game, mounted: bool, drop: Option<(int, int)>)
    requires Shaped(g.grid)
  {
    && g.dragging.Some? && mounted && drop.Some?
    && InBounds(drop.value.0, drop.value.1)
    && g.grid[drop.value.1][drop.value.0].Some?
    && g.dragging.value.origin.OnGrid?
  }

  /** The figures of a score. */
  function TotalsOf(s: Scoring.Score): Totals {
    Totals(s.basePoints, s.totalLengths, s.bonusPoints, s.finalScore, s.metRuleCounts)
  }

  /** After a move the totals and marks are those of the board as it now
      stands: scoring it again changes nothing. */
  lemma RescoreSettled(g: Game, grid: Grid, dict: set<string>)
    requires Shaped(grid)
    ensures var r := Rescore(g, grid, dict);
      && Shaped(r.grid) && Base(r.grid) == Base(grid)
      && r.totals == TotalsOf(Scoring.CheckForWords(r.grid, dict, g.rules))
      && r.grid == Scoring.CheckForWords(r.grid, dict, g.rules).grid
      && (Positioned(grid) ==> Positioned(r.grid))
      && (forall yy, xx :: 0 <= yy < GridHeight && 0 <= xx < GridWidth && grid[yy][xx].Some? ==>
            && r.grid[yy][xx].Some?
            && r.grid[yy][xx].value.gridX == grid[yy][xx].value.gridX
            && r.grid[yy][xx].value.gridY == grid[yy][xx].value.gridY)
  {
    Scoring.RescanStable(grid, dict, g.rules);
    Scoring.AnnotateKeepsBoard(grid, Scanner.ScanContext(grid, dict), g.rules);
  }

  /** A landing puts the tile in the target cell and empties its origin cell
      or hand slot; every other cell and slot keeps its tile, and the totals
      are the score of the new board. */
  lemma DragEndLands(g: Game, mounted: bool, drop: Option<(int, int)>, dict: set<string>)
    requires DragConsistent(g) && Lands(g, mounted, drop)
    ensures var r := DragEnd(g, mounted, drop, dict);
      var d := g.dragging.value;
      var (x, y) := drop.value;
      && Shaped(r.grid) && r.dragging.None?
      && BaseCell(r.grid[y][x]) == Some(d.tile)
      && (d.origin.OnGrid? ==> r.grid[d.origin.y][d.origin.x].None? && r.hand == g.hand)
      && (d.origin.InHand? ==> r.hand == g.hand[d.origin.index := None])
      && (forall yy, xx ::
            (0 <= yy < GridHeight && 0 <= xx < GridWidth
             && (xx, yy) != (x, y) && d.origin != OnGrid(xx, yy)) ==>
            BaseCell(r.grid[yy][xx]) == BaseCell(g.grid[yy][xx]))
      && r.totals == TotalsOf(Scoring.CheckForWords(r.grid, dict, g.rules))
  {
    var (x, y) := drop.value;
    assert DragEnd(g, mounted, drop, dict) == Land(g, x, y, dict);
    LandSpec(g, x, y, dict);
  }

  lemma LandSpec(g: Game, x: int, y: int, dict: set<string>)
    requires DragConsistent(g) && g.dragging.Some? && InBounds(x, y) && g.grid[y][x].None?
    ensures var r := Land(g, x, y, dict);
      var d := g.dragging.value;
      && Shaped(r.grid) && r.dragging.None?
      && BaseCell(r.grid[y][x]) == Some(d.tile)
      && (d.origin.OnGrid? ==> r.grid[d.origin.y][d.origin.x].None? && r.hand == g.hand)
      && (d.origin.InHand? ==> r.hand == g.hand[d.origin.index := None])
      && (forall yy, xx ::
            (0 <= yy < GridHeight && 0 <= xx < GridWidth
             && (xx, yy) != (x, y) && d.origin != OnGrid(xx, yy)) ==>
            BaseCell(r.grid[yy][xx]) == BaseCell(g.grid[yy][xx]))
      && r.totals == TotalsOf(Scoring.CheckForWords(r.grid, dict, g.rules))
      && Pieces(r) == Pieces(g)
      && (Positioned(g.grid) ==> Positioned(r.grid))
  {
    var lg := LandGrid(g, x, y);
    LandGridSpec(g, x, y);
    LandGridPieces(g, x, y);
    RescoreSettled(g.(dragging := None, hand := LandHand(g)), lg, dict);
    var r := Land(g, x, y, dict);
    assert BaseCell(r.grid[y][x]) == Base(r.grid)[y][x] == Base(lg)[y][x];
    var d := g.dragging.value;
    if d.origin.OnGrid? {
      assert BaseCell(r.grid[d.origin.y][d.origin.x]) == Base(lg)[d.origin.y][d.origin.x];
    }
  }

  /** The raw board of a landing: the tile at (x, y) with those coordinates,
      its origin cell empty, every other cell untouched. */
  lemma LandGridSpec(g: Game, x: int, y: int)
    requires DragConsistent(g) && g.dragging.Some? && InBounds(x, y) && g.grid[y][x].None?
    ensures var lg := LandGrid(g, x, y);
      var d := g.dragging.value;
      && Shaped(lg)
      && lg[y][x] == Some(Landed(d, x, y))
      && (d.origin.OnGrid? ==> lg[d.origin.y][d.origin.x].None?)
      && (forall yy, xx ::
            (0 <= yy < GridHeight && 0 <= xx < GridWidth
             && (xx, yy) != (x, y) && d.origin != OnGrid(xx, yy)) ==>
            lg[yy][xx] == g.grid[yy][xx])
      && (Positioned(g.grid) ==> Positioned(lg))
  {
  }

  /** A landing trades the dragged tile's origin for the target cell. */
  lemma LandGridPieces(g: Game, x: int, y: int)
    requires DragConsistent(g) && g.dragging.Some? && InBounds(x, y) && g.grid[y][x].None?
    ensures multiset(Flatten(Base(LandGrid(g, x, y)))) + multiset(LandHand(g)) == Pieces(g)
  {
    var d := g.dragging.value;
    var placed := Put(g.grid, x, y, Some(Landed(d, x, y)));
    var m := multiset(Flatten(Base(g.grid)));
    PutPieces(g.grid, x, y, Some(Landed(d, x, y)));
    FlattenHas(Base(g.grid), y, x);
    match d.origin
    case OnGrid(ox, oy) =>
      PutPieces(placed, ox, oy, None);
      assert BaseCell(placed[oy][ox]) == Some(d.tile);
      TradeBack(m, None, Some(d.tile));
    case InHand(i) =>
      assert g.hand == g.hand[i := None][i := Some(d.tile)];
      UpdateMultiset(g.hand, i, None);
      TradeAcross(m, multiset(g.hand), None, Some(d.tile));
  }

  /** A swap puts the dragged tile in the target cell and the target's tile
      in the dragged tile's old cell, each with its new coordinates; every
      other cell and the hand stay as they were. */
  lemma DragEndSwaps(g: Game, mounted: bool, drop: Option<(int, int)>, dict: set<string>)
    requires DragConsistent(g) && Swaps(g, mounted, drop)
    ensures var r := DragEnd(g, mounted, drop, dict);
      var d := g.dragging.value;
      var (x, y) := drop.value;
      var (ox, oy) := (d.origin.x, d.origin.y);
      && Shaped(r.grid) && r.dragging.None? && r.hand == g.hand
      && BaseCell(r.grid[y][x]) == Some(d.tile)
      && r.grid[y][x].value.gridX == x && r.grid[y][x].value.gridY == y
      && ((ox, oy) != (x, y) ==>
            && BaseCell(r.grid[oy][ox]) == BaseCell(g.grid[y][x])
            && r.grid[oy][ox].value.gridX == ox && r.grid[oy][ox].value.gridY == oy)
      && (forall yy, xx ::
            (0 <= yy < GridHeight && 0 <= xx < GridWidth
             && (xx, yy) != (x, y) && (xx, yy) != (ox, oy)) ==>
            BaseCell(r.grid[yy][xx]) == BaseCell(g.grid[yy][xx]))
      && r.totals == TotalsOf(Scoring.CheckForWords(r.grid, dict, g.rules))
  {
    var (x, y) := drop.value;
    assert DragEnd(g, mounted, drop, dict) == SwapWith(g, x, y, dict);
    SwapSpec(g, x, y, dict);
  }

  lemma SwapSpec(g: Game, x: int, y: int, dict: set<string>)
    requires DragConsistent(g) && g.dragging.Some? && g.dragging.value.origin.OnGrid?
    requires InBounds(x, y) && g.grid[y][x].Some?
    ensures var r := SwapWith(g, x, y, dict);
      var d := g.dragging.value;
      var (ox, oy) := (d.origin.x, d.origin.y);
      && Shaped(r.grid) && r.dragging.None? && r.hand == g.hand
      && BaseCell(r.grid[y][x]) == Some(d.tile)
      && r.grid[y][x].value.gridX == x && r.grid[y][x].value.gridY == y
      && ((ox, oy) != (x, y) ==>
            && BaseCell(r.grid[oy][ox]) == BaseCell(g.grid[y][x])
            && r.grid[oy][ox].value.gridX == ox && r.grid[oy][ox].value.gridY == oy)
      && (forall yy, xx ::
            (0 <= yy < GridHeight && 0 <= xx < GridWidth
             && (xx, yy) != (x, y) && (xx, yy) != (ox, oy)) ==>
            BaseCell(r.grid[yy][xx]) == BaseCell(g.grid[yy][xx]))
      && r.totals == TotalsOf(Scoring.CheckForWords(r.grid, dict, g.rules))
      && Pieces(r) == Pieces(g)
      && (Positioned(g.grid) ==> Positioned(r.grid))
  {
    var d := g.dragging.value;
    var (ox, oy) := (d.origin.x, d.origin.y);
    var sg := SwapGrid(g, x, y);
    SwapGridSpec(g, x, y);
    SwapGridPieces(g, x, y);
    RescoreSettled(g.(dragging := None), sg, dict);
    var r := SwapWith(g, x, y, dict);
    assert BaseCell(r.grid[y][x]) == Base(r.grid)[y][x] == Base(sg)[y][x];
    assert BaseCell(r.grid[oy][ox]) == Base(r.grid)[oy][ox] == Base(sg)[oy][ox];
  }

  /** The raw board of a swap: each of the two tiles in the other's cell
      with that cell's coordinates, every other cell untouched. */
  lemma SwapGridSpec(g: Game, x: int, y: int)
    requires DragConsistent(g) && g.dragging.Some? && g.dragging.value.origin.OnGrid?
    requires InBounds(x, y) && g.grid[y][x].Some?
    ensures var sg := SwapGrid(g, x, y);
      var d := g.dragging.value;
      var (ox, oy) := (d.origin.x, d.origin.y);
      && Shaped(sg)
      && sg[y][x] == Some(Landed(d, x, y))
      && ((ox, oy) != (x, y) ==>
            sg[oy][ox] == Some(g.grid[y][x].value.(gridX := ox, gridY := oy)))
      && (forall yy, xx ::
            (0 <= yy < GridHeight && 0 <= xx < GridWidth
             && (xx, yy) != (x, y) && (xx, yy) != (ox, oy)) ==>
            sg[yy][xx] == g.grid[yy][xx])
      && (Positioned(g.grid) ==> Positioned(sg))
  {
  }

  /** A swap trades the two tiles between their cells. */
  lemma SwapGridPieces(g: Game, x: int, y: int)
    requires DragConsistent(g) && g.dragging.Some? && g.dragging.value.origin.OnGrid?
    requires InBounds(x, y) && g.grid[y][x].Some?
    ensures multiset(Flatten(Base(SwapGrid(g, x, y)))) == multiset(Flatten(Base(g.grid)))
  {
    var d := g.dragging.value;
    var (ox, oy) := (d.origin.x, d.origin.y);
    var target := g.grid[y][x].value;
    var moved := Put(g.grid, ox, oy, Some(target.(gridX := ox, gridY := oy)));
    PutPieces(g.grid, ox, oy, Some(target.(gridX := ox, gridY := oy)));
    PutPieces(moved, x, y, Some(Landed(d, x, y)));
    FlattenHas(Base(g.grid), oy, ox);
    assert BaseCell(moved[y][x]) == Some(target.tile);
    TradeBack(multiset(Flatten(Base(g.grid))), Some(d.tile), Some(target.tile));
  }

  /** Trading `a` for `b` and back restores the multiset. */
  lemma TradeBack<T>(m: multiset<T>, a: T, b: T)
    requires a in m
    ensures m - multiset{a} + multiset{b} - multiset{b} + multiset{a} == m
  {
  }

  /** Moving `b` from `h` into `m` in exchange for `a` keeps the union. */
  lemma TradeAcross<T>(m: multiset<T>, h: multiset<T>, a: T, b: T)
    requires a in m && b in h
    ensures (m - multiset{a} + multiset{b}) + (h - multiset{b} + multiset{a}) == m + h
  {
  }

  lemma UpdateMultiset<T>(s: seq<T>, i: int, v: T)
    requires 0 <= i < |s|
    ensures multiset(s[i := v]) == multiset(s) - multiset{s[i]} + multiset{v}
  {
  }

  /** Any other drag end moves nothing and keeps the score; it ends the
      drag unless there was none or the board is not mounted. */
  lemma DragEndOtherwise(g: Game, mounted: bool, drop: Option<(int, int)>, dict: set<string>)
    requires Shaped(g.grid) && DragInRange(g)
    requires !Lands(g, mounted, drop) && !Swaps(g, mounted, drop)
    ensures var r := DragEnd(g, mounted, drop, dict);
      && r.grid == g.grid && r.hand == g.hand && r.totals == g.totals
      && (r.dragging.None? <==> g.dragging.None? || mounted)
  {
  }

  /** A drag end never creates, loses or copies a tile: the board and the
      hand together hold the same tiles as before. Every tile's recorded
      coordinates stay those of its cell. */
  lemma DragEndKeepsTiles(g: Game, mounted: bool, drop: Option<(int, int)>, dict: set<string>)
    requires DragConsistent(g)
    ensures var r := DragEnd(g, mounted, drop, dict);
      && Shaped(r.grid)
      && Pieces(r) == Pieces(g)
      && (Positioned(g.grid) ==> Positioned(r.grid))
  {
    if Lands(g, mounted, drop) {
      var (x, y) := drop.value;
      assert DragEnd(g, mounted, drop, dict) == Land(g, x, y, dict);
      LandSpec(g, x, y, dict);
    } else if Swaps(g, mounted, drop) {
      var (x, y) := drop.value;
      assert DragEnd(g, mounted, drop, dict) == SwapWith(g, x, y, dict);
      SwapSpec(g, x, y, dict);
    } else {
      DragEndOtherwise(g, mounted, drop, dict);
    }
  }

  /* ----- tile accounting ----- */

  function Flatten<T>(rows: seq<seq<T>>): seq<T> {
    if |rows| == 0 then [] else rows[0] + Flatten(rows[1..])
  }

  /** Every tile on the board and in the hand, with the empty cells and
      slots. */
  function Pieces(g: Game): multiset<Option<Tile>> {
    multiset(Flatten(Base(g.grid))) + multiset(g.hand)
  }

  lemma {:induction false} FlattenHas<T>(rows: seq<seq<T>>, y: int, x: int)
    requires 0 <= y < |rows| && 0 <= x < |rows[y]|
    ensures rows[y][x] in multiset(Flatten(rows))
    decreases |rows|
  {
    if y == 0 {
      assert rows[0][x] in rows[0];
    } else {
      FlattenHas(rows[1..], y - 1, x);
    }
  }

  /** Overwriting one entry trades its old value for the new one. */
  lemma {:induction false} FlattenUpdate<T>(rows: seq<seq<T>>, y: int, x: int, v: T)
    requires 0 <= y < |rows| && 0 <= x < |rows[y]|
    ensures multiset(Flatten(rows[y := rows[y][x := v]]))
            == multiset(Flatten(rows)) - multiset{rows[y][x]} + multiset{v}
    decreases |rows|
  {
    var rows' := rows[y := rows[y][x := v]];
    assert rows'[1..] == if y == 0 then rows[1..] else rows[1..][y - 1 := rows[y][x := v]];
    if y == 0 {
      assert multiset(rows'[0]) == multiset(rows[0]) - multiset{rows[y][x]} + multiset{v};
    } else {
      FlattenUpdate(rows[1..], y - 1, x, v);
      FlattenHas(rows[1..], y - 1, x);
    }
  }

  /** What the scanner sees of a grid after `Put`. */
  lemma PutBase(g: Grid, x: int, y: int, c: Cell)
    requires Shaped(g) && InBounds(x, y)
    ensures Base(Put(g, x, y, c)) == Base(g)[y := Base(g)[y][x := BaseCell(c)]]
  {
    var b := Base(Put(g, x, y, c));
    var b' := Base(g)[y := Base(g)[y][x := BaseCell(c)]];
    forall yy | 0 <= yy < |b| ensures b[yy] == b'[yy] {
    }
  }

  lemma PutPieces(g: Grid, x: int, y: int, c: Cell)
    requires Shaped(g) && InBounds(x, y)
    ensures multiset(Flatten(Base(Put(g, x, y, c))))
            == multiset(Flatten(Base(g))) - multiset{BaseCell(g[y][x])} + multiset{BaseCell(c)}
  {
    PutBase(g, x, y, c);
    FlattenUpdate(Base(g), y, x, BaseCell(c));
  }

  /** Starting a drag changes nothing but the dragged tile, and leaves the
      drag consistent with the board and hand. */
  lemma StartDragSpec(g: Game, o: Origin, hasCoords: bool)
    requires Occupied(g, o)
    ensures var r := StartDrag(g, o, hasCoords);
      && r.(dragging := g.dragging) == g
      && (g.over || !hasCoords ==> r == g)
      && (!g.over && hasCoords ==>
            r.dragging.Some? && r.dragging.value.origin == o && DragConsistent(r))
  {
  }

  /* ----- finishing and the clock ----- */

  /** `handleDoneClick`: once the game is over nothing; otherwise a final
      score of the board as it stands, and the game is over. */
  function Done(g: Game, dict: set<string>): Game
    requires Shaped(g.grid)
  {
    if g.over then g else Rescore(g, g.grid, dict).(over := true)
  }

  /** Finishing ends the game with the board's score and without moving a
      tile, and finishing again does nothing more. */
  lemma DoneSpec(g: Game, dict: set<string>)
    requires Shaped(g.grid)
    ensures var r := Done(g, dict);
      && r.over && Shaped(r.grid) && Base(r.grid) == Base(g.grid)
      && r.hand == g.hand && r.bag == g.bag && r.timeLeft == g.timeLeft
      && (!g.over ==> r.totals == TotalsOf(Scoring.CheckForWords(g.grid, dict, g.rules)))
      && Done(r, dict) == r
  {
    RescoreSettled(g, g.grid, dict);
  }

  /** The seconds on a fresh clock. */
  const RoundSeconds: int := 60 * 5

  /** One firing of the one-second interval: at one second or less the game
      ends at zero, otherwise one second passes. The interval is neither
      guarded by nor cleared on game over, so a tick has no guard either. */
  function Tick(g: Game): Game {
    if g.timeLeft <= 1 then g.(timeLeft := 0, over := true)
    else g.(timeLeft := g.timeLeft - 1)
  }

  function Ticks(g: Game, n: nat): Game
    decreases n
  {
    if n == 0 then g else Ticks(Tick(g), n - 1)
  }

  /** From `t >= 1` seconds, `n < t` ticks leave `t - n` seconds and the game
      as it was; `t` ticks or more leave zero seconds and the game over.
      Nothing but the clock and the game-over flag changes. */
  lemma {:induction false} TicksCountDown(g: Game, n: nat)
    requires g.timeLeft >= 1
    ensures var r := Ticks(g, n);
      && r.(timeLeft := g.timeLeft, over := g.over) == g
      && (n < g.timeLeft ==> r.timeLeft == g.timeLeft - n && r.over == g.over)
      && (n >= g.timeLeft ==> r.timeLeft == 0 && r.over)
    decreases n
  {
    if n > 0 {
      if g.timeLeft > 1 {
        TicksCountDown(Tick(g), n - 1);
      } else {
        TicksAtZero(Tick(g), n - 1);
      }
    }
  }

  /** At zero the clock stays at zero and the game stays over. */
  lemma {:induction false} TicksAtZero(g: Game, n: nat)
    requires g.timeLeft == 0 && g.over
    ensures Ticks(g, n) == g
    decreases n
  {
    if n > 0 {
      TicksAtZero(Tick(g), n - 1);
    }
  }

  /** A fresh five-minute clock ends the game on exactly the 300th tick. */
  lemma FullRound(g: Game)
    requires g.timeLeft == RoundSeconds && !g.over
    ensures !Ticks(g, RoundSeconds - 1).over && Ticks(g, RoundSeconds - 1).timeLeft == 1
    ensures Ticks(g, RoundSeconds).over && Ticks(g, RoundSeconds).timeLeft == 0
  {
    TicksCountDown(g, RoundSeconds - 1);
    TicksCountDown(g, RoundSeconds);
  }

  /** A tick never leaves the clock negative and never reopens a finished
      game. */
  lemma TickBounds(g: Game)
    ensures Tick(g).timeLeft >= 0
    ensures Tick(g).timeLeft < g.timeLeft || (g.timeLeft <= 0 && Tick(g).timeLeft == 0)
    ensures g.over ==> Tick(g).over
  {
  }

  /** Once the game is over and no drag is under way, nothing the player
      does changes it: a drag cannot start, a drop has nothing to drop and
      the button does nothing. */
  lemma OverIsFrozen(g: Game, o: Origin, hasCoords: bool, mounted: bool, drop: Option<(int, int)>, dict: set<string>)
    requires g.over && g.dragging.None? && Occupied(g, o)
    ensures StartDrag(g, o, hasCoords) == g
    ensures DragEnd(g, mounted, drop, dict) == g
    ensures Done(g, dict) == g
  {
  }
}
