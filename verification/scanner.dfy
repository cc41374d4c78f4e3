/** The word scan of `checkForWords`: every row, then every column, is walked
    cell by cell; each maximal block of filled cells is a candidate, and it
    counts when it is longer than two letters and its lower-case text is in
    the dictionary. The counted runs feed the two JS maps of the rule
    context. */
module Scanner {
  import opened Options
  import opened Tiles
  import JsMap
  import Rules
  import opened Board

  /** `toLowerCase` on the letters a tile can carry. */
  function Lower(c: char): char {
    if 'A' <= c <= 'Z' then (c as int + 32) as char else c
  }

  function LowerText(s: string): (r: string)
    ensures |r| == |s|
    ensures forall i :: 0 <= i < |s| ==> r[i] == Lower(s[i])
  {
    seq(|s|, i requires 0 <= i < |s| => Lower(s[i]))
  }

  /** The word a run of tiles spells, letters in order. */
  function Text(ts: seq<Tile>): (w: string)
    ensures Rules.Spells(w, ts)
  {
    seq(|ts|, i requires 0 <= i < |ts| => ts[i].letter)
  }

  /** Cells a..b-1 of the line all hold a tile. */
  predicate Filled(line: Line, a: int, b: int)
    requires 0 <= a <= b <= |line|
  {
    forall k :: a <= k < b ==> line[k].Some?
  }

  function RunTiles(line: Line, a: int, b: int): (ts: seq<Tile>)
    requires 0 <= a <= b <= |line| && Filled(line, a, b)
    ensures |ts| == b - a
    ensures forall k :: 0 <= k < |ts| ==> line[a + k] == Some(ts[k])
  {
    seq(b - a, k requires 0 <= k < b - a => line[a + k].value)
  }

  /** The test `processCurrentWord` applies to the run it has collected. */
  predicate Counts(ts: seq<Tile>, dict: set<string>) {
    |ts| > 2 && LowerText(Text(ts)) in dict
  }

  /** `processCurrentWord` for the run a..b-1: the run as a range, or nothing. */
  function Flush(line: Line, a: int, b: int, dict: set<string>): seq<(int, int)>
    requires 0 <= a <= b <= |line| && Filled(line, a, b)
  {
    if Counts(RunTiles(line, a, b), dict) then [(a, b)] else []
  }

  /** `checkLine` from cell i on, where cells start..i-1 form the run collected
      so far: a filled cell extends the run, an empty one flushes it, and the
      end of the line flushes whatever is left. */
  function Walk(line: Line, i: int, start: int, dict: set<string>): (rs: seq<(int, int)>)
    requires 0 <= start <= i <= |line| && Filled(line, start, i)
    ensures forall k :: 0 <= k < |rs| ==>
      start <= rs[k].0 < rs[k].1 <= |line| && Filled(line, rs[k].0, rs[k].1)
    ensures forall k, l :: 0 <= k < l < |rs| ==> rs[k].1 < rs[l].0
    decreases |line| - i
  {
    if i == |line| then Flush(line, start, i, dict)
    else if line[i].Some? then Walk(line, i + 1, start, dict)
    else Flush(line, start, i, dict) + Walk(line, i + 1, i + 1, dict)
  }

  /** A block of filled cells that cannot be extended either way. */
  ghost predicate MaximalRun(line: Line, a: int, b: int) {
    && 0 <= a < b <= |line|
    && Filled(line, a, b)
    && (a == 0 || line[a - 1].None?)
    && (b == |line| || line[b].None?)
  }

  /** The walk reports exactly the maximal runs at or after `start` that
      count. */
  lemma {:induction false} WalkFindsCountedRuns(line: Line, i: int, start: int, dict: set<string>)
    requires 0 <= start <= i <= |line| && Filled(line, start, i)
    requires start == 0 || line[start - 1].None?
    ensures forall a, b :: (a, b) in Walk(line, i, start, dict) <==>
      start <= a && MaximalRun(line, a, b) && Counts(RunTiles(line, a, b), dict)
    decreases |line| - i
  {
    var rs := Walk(line, i, start, dict);
    if i == |line| {
      forall a, b | start <= a && MaximalRun(line, a, b)
        ensures a == start && b == i
      {
      }
    } else if line[i].Some? {
      WalkFindsCountedRuns(line, i + 1, start, dict);
    } else {
      WalkFindsCountedRuns(line, i + 1, i + 1, dict);
      WalkAtGap(line, i, start, dict);
    }
  }

  /** At an empty cell the walk reports the run it has collected, if that
      counts, followed by what the rest of the line reports. */
  lemma WalkAtGap(line: Line, i: int, start: int, dict: set<string>)
    requires 0 <= start <= i < |line| && Filled(line, start, i) && line[i].None?
    requires start == 0 || line[start - 1].None?
    requires forall a, b :: (a, b) in Walk(line, i + 1, i + 1, dict) <==>
      i + 1 <= a && MaximalRun(line, a, b) && Counts(RunTiles(line, a, b), dict)
    ensures forall a, b :: (a, b) in Walk(line, i, start, dict) <==>
      start <= a && MaximalRun(line, a, b) && Counts(RunTiles(line, a, b), dict)
  {
    var rs := Walk(line, i, start, dict);
    var head := Flush(line, start, i, dict);
    var tail := Walk(line, i + 1, i + 1, dict);
    assert rs == head + tail;
    forall a, b | start <= a <= i && MaximalRun(line, a, b)
      ensures a == start && b == i
    {
    }
    forall a, b ensures (a, b) in rs <==>
      start <= a && MaximalRun(line, a, b) && Counts(RunTiles(line, a, b), dict)
    {
      assert (a, b) in rs <==> (a, b) in head || (a, b) in tail;
      if start <= a <= i && MaximalRun(line, a, b) {
        assert (a, b) !in tail;
      }
    }
  }

  /** A whole row or column: the ranges of its counted runs, in order. */
  function CountedRanges(line: Line, dict: set<string>): (rs: seq<(int, int)>)
    ensures forall k :: 0 <= k < |rs| ==> 0 <= rs[k].0 < rs[k].1 <= |line| && Filled(line, rs[k].0, rs[k].1)
    ensures forall k, l :: 0 <= k < l < |rs| ==> rs[k].1 < rs[l].0
  {
    Walk(line, 0, 0, dict)
  }

  /** A range is reported iff it is a maximal run that counts; the ranges
      come in left-to-right order without overlap. */
  lemma LineScan(line: Line, dict: set<string>)
    ensures forall a, b :: (a, b) in CountedRanges(line, dict) <==>
      MaximalRun(line, a, b) && Counts(RunTiles(line, a, b), dict)
    ensures var rs := CountedRanges(line, dict);
      forall k, l :: 0 <= k < l < |rs| ==> rs[k].1 < rs[l].0
  {
    WalkFindsCountedRuns(line, 0, 0, dict);
  }

  /** The tiles of each counted run of one line, in scan order. */
  function LineWords(line: Line, dict: set<string>): (ws: seq<seq<Tile>>)
    ensures |ws| == |CountedRanges(line, dict)|
  {
    var rs := CountedRanges(line, dict);
    seq(|rs|, k requires 0 <= k < |rs| => RunTiles(line, rs[k].0, rs[k].1))
  }

  function Column(b: seq<seq<Option<Tile>>>, x: int): (col: Line)
    requires Shaped(b) && 0 <= x < GridWidth
    ensures |col| == |b|
    ensures forall y :: 0 <= y < |b| ==> col[y] == b[y][x]
  {
    seq(|b|, y requires 0 <= y < |b| => b[y][x])
  }

  /** The lines in scan order: rows 0..11, then columns 0..11. */
  function Lines(b: seq<seq<Option<Tile>>>): (ls: seq<Line>)
    requires Shaped(b)
    ensures |ls| == GridHeight + GridWidth
    ensures forall y :: 0 <= y < GridHeight ==> ls[y] == b[y]
    ensures forall x :: 0 <= x < GridWidth ==> ls[GridHeight + x] == Column(b, x)
  {
    seq(GridHeight, y requires 0 <= y < GridHeight => b[y])
      + seq(GridWidth, x requires 0 <= x < GridWidth => Column(b, x))
  }

  /** Counted runs of a sequence of lines, line after line. */
  function Words(lines: seq<Line>, dict: set<string>): seq<seq<Tile>> {
    if |lines| == 0 then [] else LineWords(lines[0], dict) + Words(lines[1..], dict)
  }

  /** Every counted run of the board, in the order `checkForWords` meets them. */
  function BoardWords(g: Grid, dict: set<string>): seq<seq<Tile>>
    requires Shaped(g)
  {
    Words(Lines(Base(g)), dict)
  }

  /* ----- the rule context ----- */

  /** The `wordToTilesMap.set(text, tiles)` calls, in order. */
  function WordEntries(ws: seq<seq<Tile>>): (es: seq<(string, seq<Tile>)>)
    ensures |es| == |ws|
    ensures forall k :: 0 <= k < |ws| ==> es[k] == (Text(ws[k]), ws[k])
  {
    seq(|ws|, k requires 0 <= k < |ws| => (Text(ws[k]), ws[k]))
  }

  function TileEntriesOf(w: seq<Tile>): (es: seq<(int, Tile)>)
    ensures |es| == |w|
    ensures forall k :: 0 <= k < |w| ==> es[k] == (w[k].id, w[k])
  {
    seq(|w|, k requires 0 <= k < |w| => (w[k].id, w[k]))
  }

  /** The `allValidTilesMap.set(tile.id, tile)` calls, in order. */
  function TileEntries(ws: seq<seq<Tile>>): seq<(int, Tile)> {
    if |ws| == 0 then [] else TileEntriesOf(ws[0]) + TileEntries(ws[1..])
  }

  /** `newTotalLengths`: the lengths of all counted runs, repeats included. */
  function TotalLength(ws: seq<seq<Tile>>): int {
    if |ws| == 0 then 0 else |ws[0]| + TotalLength(ws[1..])
  }

  /** The context handed to the rules, built from the counted runs. */
  function ContextOf(ws: seq<seq<Tile>>): Rules.Context {
    var words := JsMap.FromPairs(WordEntries(ws));
    var valid := JsMap.FromPairs(TileEntries(ws));
    Rules.Context(JsMap.Keys(words), words, valid, Rules.SumValues(JsMap.Values(valid)), TotalLength(ws))
  }

  function ScanContext(g: Grid, dict: set<string>): Rules.Context
    requires Shaped(g)
  {
    ContextOf(BoardWords(g, dict))
  }

  /* ----- what the scan guarantees ----- */

  /** Every tile in the line is worth at least one point. */
  ghost predicate PositiveLine(line: Line) {
    forall k :: 0 <= k < |line| && line[k].Some? ==> line[k].value.value >= 1
  }

  /** Each counted run of a line counts and is made of that line's tiles. */
  lemma LineWordsCount(line: Line, dict: set<string>)
    requires PositiveLine(line)
    ensures forall w :: w in LineWords(line, dict) ==>
      Counts(w, dict) && forall t :: t in w ==> t.value >= 1
  {
    var rs := CountedRanges(line, dict);
    WalkFindsCountedRuns(line, 0, 0, dict);
    forall w | w in LineWords(line, dict)
      ensures Counts(w, dict) && forall t :: t in w ==> t.value >= 1
    {
      var k :| 0 <= k < |rs| && w == RunTiles(line, rs[k].0, rs[k].1);
      assert rs[k] in rs;
      RunTilesPositive(line, rs[k].0, rs[k].1);
    }
  }

  /** A run of a line whose tiles are all worth something. */
  lemma RunTilesPositive(line: Line, a: int, b: int)
    requires PositiveLine(line)
    requires 0 <= a <= b <= |line| && Filled(line, a, b)
    ensures forall t :: t in RunTiles(line, a, b) ==> t.value >= 1
  {
    var w := RunTiles(line, a, b);
    forall t | t in w ensures t.value >= 1 {
      var m :| 0 <= m < |w| && w[m] == t;
      assert line[a + m] == Some(t);
    }
  }

  lemma {:induction false} WordsCount(lines: seq<Line>, dict: set<string>)
    requires forall l :: l in lines ==> PositiveLine(l)
    ensures forall w :: w in Words(lines, dict) ==>
      Counts(w, dict) && forall t :: t in w ==> t.value >= 1
  {
    if |lines| > 0 {
      LineWordsCount(lines[0], dict);
      assert forall l :: l in lines[1..] ==> l in lines;
      WordsCount(lines[1..], dict);
    }
  }

  /** Rows and columns of a board whose tiles are worth at least 1. */
  lemma LinesPositive(b: seq<seq<Option<Tile>>>)
    requires Shaped(b) && PositiveValues(b)
    ensures forall l :: l in Lines(b) ==> PositiveLine(l)
  {
    var ls := Lines(b);
    forall l | l in ls ensures PositiveLine(l) {
      var n :| 0 <= n < |ls| && ls[n] == l;
      if n >= GridHeight {
        var col := Column(b, n - GridHeight);
        forall y | 0 <= y < |col| && col[y].Some? ensures col[y].value.value >= 1 {
          assert col[y] == b[y][n - GridHeight];
        }
      }
    }
  }

  /** Every run the board scan counts spells a dictionary word of more than
      two letters, with tiles worth at least 1 each. */
  lemma BoardWordsCount(g: Grid, dict: set<string>)
    requires Shaped(g) && PositiveValues(Base(g))
    ensures forall w :: w in BoardWords(g, dict) ==>
      |w| > 2 && LowerText(Text(w)) in dict && forall t :: t in w ==> t.value >= 1
  {
    LinesPositive(Base(g));
    WordsCount(Lines(Base(g)), dict);
  }

  lemma {:induction false} TileEntriesMembers(ws: seq<seq<Tile>>)
    ensures forall w, t :: w in ws && t in w ==> (t.id, t) in TileEntries(ws)
    ensures forall p :: p in TileEntries(ws) ==>
      p.0 == p.1.id && exists w :: w in ws && p.1 in w
  {
    if |ws| > 0 {
      TileEntriesMembers(ws[1..]);
      var head := TileEntriesOf(ws[0]);
      assert TileEntries(ws) == head + TileEntries(ws[1..]);
      forall w, t | w in ws && t in w ensures (t.id, t) in TileEntries(ws) {
        if w == ws[0] {
          var m :| 0 <= m < |w| && w[m] == t;
          assert head[m] == (t.id, t);
        } else {
          assert w in ws[1..];
        }
      }
      forall p | p in TileEntries(ws) ensures p.0 == p.1.id && exists w :: w in ws && p.1 in w {
        if p in head {
          var m :| 0 <= m < |head| && head[m] == p;
          assert ws[0][m] == p.1 && ws[0][m] in ws[0] && ws[0] in ws;
        } else {
          assert p in TileEntries(ws[1..]);
          var w :| w in ws[1..] && p.1 in w;
          assert w in ws;
        }
      }
    }
  }

  /** The tiles of every run are among the valid tiles. */
  lemma RunTilesValid(ws: seq<seq<Tile>>)
    ensures forall w, t :: w in ws && t in w ==> t.id in JsMap.Keys(ContextOf(ws).allValidTiles)
  {
    var tes := TileEntries(ws);
    JsMap.FromPairsSemantics(tes);
    JsMap.FirstOccurrencesMembers(JsMap.PairKeys(tes));
    TileEntriesMembers(ws);
    forall w, t | w in ws && t in w ensures t.id in JsMap.Keys(ContextOf(ws).allValidTiles) {
      var i :| 0 <= i < |tes| && tes[i] == (t.id, t);
      assert JsMap.PairKeys(tes)[i] == t.id;
    }
  }

  /** The valid tiles are keyed by their own ids. */
  lemma ValidTilesKeyed(ws: seq<seq<Tile>>)
    ensures var vs := ContextOf(ws).allValidTiles;
      forall i :: 0 <= i < |vs| ==> vs[i].1.id == vs[i].0
  {
    var vs := ContextOf(ws).allValidTiles;
    JsMap.FromPairsEntries(TileEntries(ws));
    TileEntriesMembers(ws);
    forall i | 0 <= i < |vs| ensures vs[i].1.id == vs[i].0 {
      assert vs[i] in vs;
    }
  }

  /** Every word entry is a run's own text and tiles. */
  lemma WordMapEntries(ws: seq<seq<Tile>>)
    ensures forall e :: e in ContextOf(ws).wordToTiles ==> e.1 in ws && e.0 == Text(e.1)
  {
    var wes := WordEntries(ws);
    JsMap.FromPairsEntries(wes);
    forall e | e in ContextOf(ws).wordToTiles ensures e.1 in ws && e.0 == Text(e.1) {
      var k :| 0 <= k < |wes| && wes[k] == e;
    }
  }

  /** The context built from runs that each spell something longer than two
      letters out of tiles worth at least 1 is one every rule is sound on. */
  lemma ContextWellFormed(ws: seq<seq<Tile>>)
    requires forall w :: w in ws ==> |w| > 2 && forall t :: t in w ==> t.value >= 1
    ensures Rules.WellFormedContext(ContextOf(ws))
  {
    JsMap.FromPairsSemantics(WordEntries(ws));
    RunTilesValid(ws);
    ValidTilesKeyed(ws);
    WordMapEntries(ws);
  }

  /** The scan of any board whose tiles are worth at least 1 yields a
      well-formed context. */
  lemma ScanContextWellFormed(g: Grid, dict: set<string>)
    requires Shaped(g) && PositiveValues(Base(g))
    ensures Rules.WellFormedContext(ScanContext(g, dict))
  {
    BoardWordsCount(g, dict);
    ContextWellFormed(BoardWords(g, dict));
  }

  /** One map entry per distinct text, in order of first appearance, holding
      the tiles of the LAST run with that text; `totalLengths` meanwhile
      counts every run, repeats included. */
  lemma LastRunWins(ws: seq<seq<Tile>>)
    ensures var ctx := ContextOf(ws);
      && ctx.validWords == JsMap.FirstOccurrences(JsMap.PairKeys(WordEntries(ws)))
      && (forall w :: JsMap.Get(ctx.wordToTiles, w) == JsMap.LastValue(WordEntries(ws), w))
      && |ctx.validWords| <= |ws|
  {
    JsMap.FromPairsSemantics(WordEntries(ws));
  }

  /** The valid tiles are keyed by distinct ids, exactly the ids of tiles in
      counted runs, so a tile shared by two crossing words adds its value to
      `basePoints` once. */
  lemma ValidTilesDistinct(ws: seq<seq<Tile>>)
    ensures var ctx := ContextOf(ws);
      && JsMap.DistinctKeys(ctx.allValidTiles)
      && (forall id :: id in JsMap.Keys(ctx.allValidTiles) <==>
            exists w, t :: w in ws && t in w && t.id == id)
      && ctx.basePoints == Rules.SumValues(JsMap.Values(ctx.allValidTiles))
  {
    JsMap.FromPairsSemantics(TileEntries(ws));
    ValidTilesKeys(ws);
  }

  lemma ValidTilesKeys(ws: seq<seq<Tile>>)
    ensures forall id :: id in JsMap.Keys(ContextOf(ws).allValidTiles) <==>
      exists w, t :: w in ws && t in w && t.id == id
  {
    var tes := TileEntries(ws);
    JsMap.FromPairsSemantics(tes);
    JsMap.FirstOccurrencesMembers(JsMap.PairKeys(tes));
    TileEntriesMembers(ws);
    var keys := JsMap.Keys(ContextOf(ws).allValidTiles);
    forall id ensures id in keys <==> exists w, t :: w in ws && t in w && t.id == id {
      if id in keys {
        var i :| 0 <= i < |tes| && JsMap.PairKeys(tes)[i] == id;
        assert tes[i] in tes;
      }
      if exists w, t :: w in ws && t in w && t.id == id {
        var w, t :| w in ws && t in w && t.id == id;
        var i :| 0 <= i < |tes| && tes[i] == (t.id, t);
        assert JsMap.PairKeys(tes)[i] == id;
      }
    }
  }
}
