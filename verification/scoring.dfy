/** Scoring after a scan: the daily rules are applied to the scan context,
    their bonuses added up, the achieved ones recorded with their counts, and
    every tile on the board marked as found or not and with the rules it
    helped satisfy. */
module Scoring {
  import opened Options
  import opened Tiles
  import JsMap
  import opened Rules
  import opened Board
  import Scanner

  /** `newBonusPoints`: every rule's bonus, added in rule order. */
  function TotalBonus(rules: seq<RuleId>, ctx: Context): int {
    if |rules| == 0 then 0 else Apply(rules[0], ctx).bonus + TotalBonus(rules[1..], ctx)
  }

  /** `newMetRuleCounts`: a `set(rule.id, count)` for each rule whose count is
      positive, in rule order. */
  function MetCounts(rules: seq<RuleId>, ctx: Context): JsMap.AList<RuleId, int> {
    if |rules| == 0 then []
    else
      var m := MetCounts(rules[..|rules| - 1], ctx);
      var r := rules[|rules| - 1];
      if Apply(r, ctx).count > 0 then JsMap.Set(m, r, Apply(r, ctx).count) else m
  }

  /** The rules, in order, whose contributing set holds the tile id. */
  function Touching(rules: seq<RuleId>, ctx: Context, id: int): seq<RuleId> {
    if |rules| == 0 then []
    else
      var head := if id in Apply(rules[0], ctx).contributing then [rules[0]] else [];
      head + Touching(rules[1..], ctx, id)
  }

  /** `Array.from(tileToRuleIdsMap.get(id) || [])`: the touching rules in the
      order they were first added to the tile's set. */
  function AppliedRules(rules: seq<RuleId>, ctx: Context, id: int): seq<RuleId> {
    JsMap.FirstOccurrences(Touching(rules, ctx, id))
  }

  function Mark(c: Cell, ctx: Context, rules: seq<RuleId>): Cell {
    match c
    case None => None
    case Some(p) => Some(p.(isFound := p.tile.id in JsMap.Keys(ctx.allValidTiles),
                            appliedRuleIds := AppliedRules(rules, ctx, p.tile.id)))
  }

  /** The copied grid with every tile's two marks rewritten. */
  function Annotate(g: Grid, ctx: Context, rules: seq<RuleId>): (g': Grid)
    ensures |g'| == |g|
    ensures forall y :: 0 <= y < |g| ==> |g'[y]| == |g[y]|
  {
    seq(|g|, y requires 0 <= y < |g| =>
      seq(|g[y]|, x requires 0 <= x < |g[y]| => Mark(g[y][x], ctx, rules)))
  }

  datatype Score = Score(
    basePoints: int,
    totalLengths: int,
    bonusPoints: int,
    finalScore: int,
    metRuleCounts: JsMap.AList<RuleId, int>,
    grid: Grid)

  /** `checkForWords` on a board with the day's rules and a dictionary. */
  function CheckForWords(g: Grid, dict: set<string>, rules: seq<RuleId>): Score
    requires Shaped(g)
  {
    var ctx := Scanner.ScanContext(g, dict);
    var bonus := if |rules| > 0 then TotalBonus(rules, ctx) else 0;
    var met := if |rules| > 0 then MetCounts(rules, ctx) else [];
    Score(ctx.basePoints, ctx.totalLengths, bonus,
          ctx.basePoints * ctx.totalLengths + bonus, met, Annotate(g, ctx, rules))
  }

  /* ----- the bonus ----- */

  /** The sum of `f` over a list. */
  function SumOf<T>(xs: seq<T>, f: T -> int): int {
    if |xs| == 0 then 0 else f(xs[0]) + SumOf(xs[1..], f)
  }

  function BonusOf(ctx: Context): RuleId -> int {
    r => Apply(r, ctx).bonus
  }

  lemma {:induction false} TotalBonusIsSum(rules: seq<RuleId>, ctx: Context)
    ensures TotalBonus(rules, ctx) == SumOf(rules, BonusOf(ctx))
  {
    if |rules| > 0 {
      TotalBonusIsSum(rules[1..], ctx);
    }
  }

  /** Taking element `i` out of the list takes its term out of the sum. */
  lemma {:induction false} SumRemove<T>(xs: seq<T>, f: T -> int, i: int)
    requires 0 <= i < |xs|
    ensures SumOf(xs, f) == f(xs[i]) + SumOf(xs[..i] + xs[i + 1..], f)
    decreases |xs|
  {
    if i > 0 {
      SumRemove(xs[1..], f, i - 1);
      assert xs[1..][..i - 1] + xs[1..][i..] == (xs[..i] + xs[i + 1..])[1..];
    } else {
      assert xs[..0] + xs[1..] == xs[1..];
    }
  }

  /** A sum does not depend on the order of its terms. */
  lemma {:induction false} SumOrderFree<T>(x1: seq<T>, x2: seq<T>, f: T -> int)
    requires multiset(x1) == multiset(x2)
    ensures SumOf(x1, f) == SumOf(x2, f)
    decreases |x1|
  {
    if |x1| == 0 {
      assert |x2| == |multiset(x2)| == 0;
    } else {
      assert x1[0] in multiset(x2);
      var i :| 0 <= i < |x2| && x2[i] == x1[0];
      SumRemove(x2, f, i);
      MultisetRemove(x1, x2, i);
      SumOrderFree(x1[1..], x2[..i] + x2[i + 1..], f);
    }
  }

  /** The bonus does not depend on the order the rules are applied in. */
  lemma BonusOrderFree(r1: seq<RuleId>, r2: seq<RuleId>, ctx: Context)
    requires multiset(r1) == multiset(r2)
    ensures TotalBonus(r1, ctx) == TotalBonus(r2, ctx)
  {
    TotalBonusIsSum(r1, ctx);
    TotalBonusIsSum(r2, ctx);
    SumOrderFree(r1, r2, BonusOf(ctx));
  }

  /** Taking equal elements out of two permutations of each other leaves
      permutations of each other. */
  lemma MultisetRemove<T>(r1: seq<T>, r2: seq<T>, i: int)
    requires multiset(r1) == multiset(r2) && |r1| > 0 && 0 <= i < |r2| && r2[i] == r1[0]
    ensures multiset(r1[1..]) == multiset(r2[..i] + r2[i + 1..])
  {
    var rest := r2[..i] + r2[i + 1..];
    assert r2 == r2[..i] + [r2[i]] + r2[i + 1..];
    assert r1 == [r1[0]] + r1[1..];
    assert multiset(r2) == multiset(r2[..i]) + multiset([r2[i]]) + multiset(r2[i + 1..]);
    assert multiset(rest) == multiset(r2[..i]) + multiset(r2[i + 1..]);
    assert multiset(r1) == multiset([r1[0]]) + multiset(r1[1..]);
    assert multiset(r1[1..]) == multiset(r1) - multiset{r1[0]};
    assert multiset(rest) == multiset(r2) - multiset{r2[i]};
  }

  /** On a well-formed context the bonus is never negative, and it is zero
      exactly when no rule was achieved. */
  lemma {:induction false} TotalBonusSound(rules: seq<RuleId>, ctx: Context)
    requires WellFormedContext(ctx)
    ensures TotalBonus(rules, ctx) >= 0
    ensures TotalBonus(rules, ctx) == 0 <==> forall r :: r in rules ==> Apply(r, ctx).count == 0
  {
    if |rules| > 0 {
      ApplySound(rules[0], ctx);
      TotalBonusSound(rules[1..], ctx);
      assert forall r :: r in rules <==> r == rules[0] || r in rules[1..];
    }
  }

  /* ----- the achieved-rule counts ----- */

  /** What the counts map should hold for a rule: its count, if achieved. */
  function MetEntry(rules: seq<RuleId>, ctx: Context, r: RuleId): Option<int> {
    if r in rules && Apply(r, ctx).count > 0 then Some(Apply(r, ctx).count) else None
  }

  /** One entry per achieved rule, holding that rule's count. */
  lemma {:induction false} MetCountsSpec(rules: seq<RuleId>, ctx: Context)
    ensures JsMap.DistinctKeys(MetCounts(rules, ctx))
    ensures forall r :: JsMap.Get(MetCounts(rules, ctx), r) == MetEntry(rules, ctx, r)
  {
    if |rules| > 0 {
      var init := rules[..|rules| - 1];
      var last := rules[|rules| - 1];
      MetCountsSpec(init, ctx);
      assert forall r :: r in rules <==> r in init || r == last by {
        assert rules == init + [last];
      }
      if Apply(last, ctx).count > 0 {
        JsMap.SetDistinct(MetCounts(init, ctx), last, Apply(last, ctx).count);
        forall r ensures JsMap.Get(MetCounts(rules, ctx), r) ==
          MetEntry(rules, ctx, r)
        {
          JsMap.SetGet(MetCounts(init, ctx), last, Apply(last, ctx).count, r);
        }
      }
    }
  }

  /* ----- the tile marks ----- */

  /** A rule touches a tile iff it is one of the day's rules and holds the
      tile among its contributing ids. */
  lemma {:induction false} TouchingMembers(rules: seq<RuleId>, ctx: Context, id: int)
    ensures forall r :: r in Touching(rules, ctx, id) <==> r in rules && id in Apply(r, ctx).contributing
  {
    if |rules| > 0 {
      TouchingMembers(rules[1..], ctx, id);
      assert forall r :: r in rules <==> r == rules[0] || r in rules[1..];
    }
  }

  /** What annotation does to one cell: an empty cell stays empty; a tile
      keeps its letter, id, value and coordinates, is found iff its id is a
      valid tile, and lists each rule that touches it exactly once. */
  lemma MarkSpec(c: Cell, ctx: Context, rules: seq<RuleId>)
    ensures var c' := Mark(c, ctx, rules);
      && (c'.Some? <==> c.Some?)
      && BaseCell(c') == BaseCell(c)
      && (c.Some? ==>
            && c'.value.gridX == c.value.gridX && c'.value.gridY == c.value.gridY
            && (c'.value.isFound <==> c.value.tile.id in JsMap.Keys(ctx.allValidTiles))
            && (forall r :: r in c'.value.appliedRuleIds <==>
                  r in rules && c.value.tile.id in Apply(r, ctx).contributing)
            && JsMap.NoRepeats(c'.value.appliedRuleIds))
  {
    if c.Some? {
      var id := c.value.tile.id;
      TouchingMembers(rules, ctx, id);
      JsMap.FirstOccurrencesMembers(Touching(rules, ctx, id));
      JsMap.FirstOccurrencesDistinct(Touching(rules, ctx, id));
    }
  }

  /** Annotation leaves the board the scanner sees, and every tile's
      position, as they were. */
  lemma AnnotateKeepsBoard(g: Grid, ctx: Context, rules: seq<RuleId>)
    ensures Base(Annotate(g, ctx, rules)) == Base(g)
    ensures Shaped(g) ==> Shaped(Annotate(g, ctx, rules))
    ensures Positioned(g) ==> Positioned(Annotate(g, ctx, rules))
    ensures forall y, x :: 0 <= y < |g| && 0 <= x < |g[y]| && g[y][x].Some? ==>
      var c := Annotate(g, ctx, rules)[y][x];
      c.Some? && c.value.gridX == g[y][x].value.gridX && c.value.gridY == g[y][x].value.gridY
  {
    var g' := Annotate(g, ctx, rules);
    forall y, x | 0 <= y < |g| && 0 <= x < |g[y]|
      ensures BaseCell(g'[y][x]) == BaseCell(g[y][x])
      ensures g'[y][x].Some? ==> g'[y][x].value.gridX == g[y][x].value.gridX && g'[y][x].value.gridY == g[y][x].value.gridY
    {
      MarkSpec(g[y][x], ctx, rules);
    }
    forall y | 0 <= y < |g| ensures Base(g')[y] == Base(g)[y] {
    }
  }

  /** Marking twice is marking once. */
  lemma AnnotateIdempotent(g: Grid, ctx: Context, rules: seq<RuleId>)
    ensures Annotate(Annotate(g, ctx, rules), ctx, rules) == Annotate(g, ctx, rules)
  {
    var g1 := Annotate(g, ctx, rules);
    var g2 := Annotate(g1, ctx, rules);
    forall y | 0 <= y < |g| ensures g2[y] == g1[y] {
      forall x | 0 <= x < |g[y]| ensures g2[y][x] == g1[y][x] {
      }
    }
  }

  /** On a well-formed context, a tile marked with some rule is also marked
      found. */
  lemma AppliedImpliesFound(c: Cell, ctx: Context, rules: seq<RuleId>)
    requires WellFormedContext(ctx)
    requires Mark(c, ctx, rules).Some? && |Mark(c, ctx, rules).value.appliedRuleIds| > 0
    ensures Mark(c, ctx, rules).value.isFound
  {
    var p := Mark(c, ctx, rules).value;
    MarkSpec(c, ctx, rules);
    var r := p.appliedRuleIds[0];
    assert r in p.appliedRuleIds;
    ApplySound(r, ctx);
  }

  /* ----- the whole score ----- */

  lemma {:induction false} TotalLengthAtLeast(ws: seq<seq<Tile>>)
    requires forall w :: w in ws ==> |w| > 2
    ensures Scanner.TotalLength(ws) >= 3 * |ws|
  {
    if |ws| > 0 {
      assert forall w :: w in ws[1..] ==> w in ws;
      TotalLengthAtLeast(ws[1..]);
    }
  }

  /** With no counted run every rule comes back empty. */
  lemma EmptyContextNoAward(r: RuleId)
    ensures Apply(r, Scanner.ContextOf([])) == NoAward
  {
    var ctx := Scanner.ContextOf([]);
    assert ctx.wordToTiles == [] && ctx.allValidTiles == [] && ctx.validWords == [];
  }

  /** With no counted run there is no bonus. */
  lemma {:induction false} EmptyBoardNoBonus(rules: seq<RuleId>)
    ensures TotalBonus(rules, Scanner.ContextOf([])) == 0
  {
    if |rules| > 0 {
      EmptyContextNoAward(rules[0]);
      EmptyBoardNoBonus(rules[1..]);
    }
  }

  /** A single counted run already puts `basePoints` at 1 or more. */
  lemma BasePointsPositive(ws: seq<seq<Tile>>)
    requires |ws| > 0 && forall w :: w in ws ==> |w| > 2 && forall t :: t in w ==> t.value >= 1
    ensures Scanner.ContextOf(ws).basePoints >= 1
  {
    var vs := Scanner.ContextOf(ws).allValidTiles;
    ValidValuesPositive(ws);
    Scanner.ValidTilesDistinct(ws);
    assert ws[0][0] in ws[0];
    assert ws[0][0].id in JsMap.Keys(vs);
    SumValuesPositive(JsMap.Values(vs));
  }

  /** None of the three totals of a context built from counted runs is
      negative, and every run adds at least three letters. */
  lemma ScoreTermsNonNegative(ws: seq<seq<Tile>>, rules: seq<RuleId>)
    requires forall w :: w in ws ==> |w| > 2 && forall t :: t in w ==> t.value >= 1
    ensures var ctx := Scanner.ContextOf(ws);
      && ctx.basePoints >= 0 && ctx.totalLengths >= 3 * |ws| && TotalBonus(rules, ctx) >= 0
  {
    Scanner.ContextWellFormed(ws);
    TotalBonusSound(rules, Scanner.ContextOf(ws));
    TotalLengthAtLeast(ws);
    ValidValuesPositive(ws);
  }

  /** With no counted run all three totals are zero. */
  lemma NoRunsNoScore(rules: seq<RuleId>)
    ensures var ctx := Scanner.ContextOf([]);
      ctx.basePoints == 0 && ctx.totalLengths == 0 && TotalBonus(rules, ctx) == 0
  {
    EmptyBoardNoBonus(rules);
  }

  lemma ProductAtLeast(b: int, l: int)
    requires b >= 1 && l >= 3
    ensures b * l >= 3
  {
    FlatTimes(l, b);
  }

  /** The totals of a context built from counted runs: none is negative,
      and the score is zero exactly when there is no run. */
  lemma RunsScore(ws: seq<seq<Tile>>, rules: seq<RuleId>)
    requires forall w :: w in ws ==> |w| > 2 && forall t :: t in w ==> t.value >= 1
    ensures var ctx := Scanner.ContextOf(ws);
      && ctx.basePoints >= 0 && ctx.totalLengths >= 0 && TotalBonus(rules, ctx) >= 0
      && (ctx.basePoints * ctx.totalLengths + TotalBonus(rules, ctx) == 0 <==> |ws| == 0)
  {
    var ctx := Scanner.ContextOf(ws);
    ScoreTermsNonNegative(ws, rules);
    if |ws| == 0 {
      NoRunsNoScore(rules);
    } else {
      BasePointsPositive(ws);
    }
    ZeroScoreIff(ctx.basePoints, ctx.totalLengths, TotalBonus(rules, ctx), |ws|);
  }

  /** The arithmetic behind it: base times length plus bonus is zero exactly
      when there is no run. */
  lemma ZeroScoreIff(b: int, l: int, bonus: int, n: nat)
    requires b >= 0 && l >= 3 * n && bonus >= 0
    requires n == 0 ==> b == 0 && l == 0 && bonus == 0
    requires n > 0 ==> b >= 1
    ensures b * l + bonus == 0 <==> n == 0
  {
    if n > 0 {
      ProductAtLeast(b, l);
    }
  }

  /** `finalScore = basePoints * totalLengths + bonus`, nothing in it is
      negative, the bonus is zero when no rule is set, and the score is zero
      exactly when the board has no counted word. */
  lemma ScoreFacts(g: Grid, dict: set<string>, rules: seq<RuleId>)
    requires Shaped(g) && PositiveValues(Base(g))
    ensures var s := CheckForWords(g, dict, rules);
      && s.finalScore == s.basePoints * s.totalLengths + s.bonusPoints
      && s.basePoints >= 0 && s.totalLengths >= 0 && s.bonusPoints >= 0
      && (|rules| == 0 ==> s.bonusPoints == 0 && s.metRuleCounts == [])
      && (s.finalScore == 0 <==> |Scanner.BoardWords(g, dict)| == 0)
  {
    Scanner.BoardWordsCount(g, dict);
    RunsScore(Scanner.BoardWords(g, dict), rules);
  }

  /** Every valid tile is worth at least 1, so `basePoints` is never negative. */
  lemma ValidValuesPositive(ws: seq<seq<Tile>>)
    requires forall w :: w in ws ==> forall t :: t in w ==> t.value >= 1
    ensures forall t :: t in JsMap.Values(Scanner.ContextOf(ws).allValidTiles) ==> t.value >= 1
    ensures Scanner.ContextOf(ws).basePoints >= 0
  {
    var vs := Scanner.ContextOf(ws).allValidTiles;
    JsMap.FromPairsEntries(Scanner.TileEntries(ws));
    Scanner.TileEntriesMembers(ws);
    forall t | t in JsMap.Values(vs) ensures t.value >= 1 {
      var i :| 0 <= i < |vs| && JsMap.Values(vs)[i] == t;
      assert vs[i] in vs;
    }
    SumValuesNonNegative(JsMap.Values(vs));
  }

  /** Scoring the scored board again gives the same totals and the same
      board: annotation never changes what the scanner reads. */
  lemma RescanStable(g: Grid, dict: set<string>, rules: seq<RuleId>)
    requires Shaped(g)
    ensures Shaped(CheckForWords(g, dict, rules).grid)
    ensures CheckForWords(CheckForWords(g, dict, rules).grid, dict, rules) == CheckForWords(g, dict, rules)
  {
    var ctx := Scanner.ScanContext(g, dict);
    AnnotateKeepsBoard(g, ctx, rules);
    AnnotateIdempotent(g, ctx, rules);
  }
}
