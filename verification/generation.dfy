/** The fresh-game path of `initializeGame`: the day's rules are drawn
    first, then the tile bag is built and shuffled, then 24 tiles are
    popped into the hand. One generator stream feeds all three.

    Two steps can index one past the end of a list, because a draw may
    reach `n` (see `Mulberry.IndexReachesLength`): the rule pick then yields
    `undefined` and the first shuffle swap then writes past the end of the
    bag, growing it by one and leaving a hole. Both are modelled with
    optional cells. Each operation takes the draw-to-index step as a
    parameter: `Mulberry.Index` divides by 4284967296 as the code does,
    `IntendedScaling` divides by 2^32. */
module Generation {
  import opened Options
  import opened Tiles
  import opened Mulberry
  import Rules
  import Board

  /** The two ways a draw becomes a list index: as the code divides, or as
      it evidently means to. */
  datatype Scaling = AsWritten | Intended

  /** `Math.floor(seededRandom() * n)` under the given scaling. */
  function DrawIndex(how: Scaling, u: bv32, n: nat): nat {
    if how == AsWritten then Index(u, n)
    else if n > 0 then IntendedIndex(u, n)
    else 0
  }

  /** The code's index can reach `n` but never passes it for the list sizes
      here; the intended one stays below `n`. */
  lemma DrawIndexBounds(how: Scaling, u: bv32, n: nat)
    ensures n <= 428 ==> DrawIndex(how, u, n) <= n
    ensures how == Intended && n > 0 ==> DrawIndex(how, u, n) < n
  {
    if n <= 428 {
      IndexAtMost(u, n);
    }
  }

  /** The generator together with its scaling, seen as a function of the
      stream position `p` of a call and the length `n` of the list indexed:
      `pick(p, n)` is `Math.floor(seededRandom() * n)` for call number `p`. */
  type Picker = (nat, nat) -> nat

  /** The generator's numerators in call order: for the daily game,
      `Numerators(seed)`. */
  type Stream = nat -> bv32

  function Numerators(seed: int): Stream {
    (k: nat) => Call(seed, k)
  }

  function Picks(how: Scaling, draws: Stream): Picker {
    (p: nat, n: nat) => DrawIndex(how, draws(p), n)
  }

  /** No pick passes the end of the lists the game indexes... */
  ghost predicate AtMostLength(pick: Picker) {
    forall p: nat, n: nat :: n <= 428 ==> pick(p, n) <= n
  }

  /** ...and, as intended, none reaches it. */
  ghost predicate BelowLength(pick: Picker) {
    forall p: nat, n: nat :: n > 0 ==> pick(p, n) < n
  }

  lemma PicksBounds(how: Scaling, draws: Stream)
    ensures AtMostLength(Picks(how, draws))
    ensures how == Intended ==> BelowLength(Picks(how, draws))
  {
    forall p: nat, n: nat | n <= 428 ensures Picks(how, draws)(p, n) <= n {
      DrawIndexBounds(how, draws(p), n);
    }
    if how == Intended {
      forall p: nat, n: nat | n > 0 ensures Picks(how, draws)(p, n) < n {
        DrawIndexBounds(how, draws(p), n);
      }
    }
  }

  /* ----- rule selection ----- */

  datatype Selection = Selection(rules: seq<Option<Rules.RuleId>>, next: nat)

  /** `list[floor(r * |list|)]`: `undefined` when the index is past the end. */
  function PickAt(rules: seq<Rules.RuleId>, j: nat): Option<Rules.RuleId> {
    if j < |rules| then Some(rules[j]) else None
  }

  /** The selection loop from category `i` on, over the sorted categories:
      at most the first three are visited, an empty one is skipped without a
      draw, and every other one costs one draw and yields one pick. */
  function SelectFrom(cats: seq<Rules.Category>, i: nat, pick: Picker, pos: nat): Selection
    decreases |cats| - i
  {
    if i >= 3 || i >= |cats| then Selection([], pos)
    else if |cats[i].rules| == 0 then SelectFrom(cats, i + 1, pick, pos)
    else
      var rest := SelectFrom(cats, i + 1, pick, pos + 1);
      Selection([PickAt(cats[i].rules, pick(pos, |cats[i].rules|))] + rest.rules, rest.next)
  }

  /** The indices, from `i` on, of the categories that yield a pick. */
  function Visited(cats: seq<Rules.Category>, i: nat): seq<nat>
    decreases |cats| - i
  {
    if i >= 3 || i >= |cats| then []
    else if |cats[i].rules| == 0 then Visited(cats, i + 1)
    else [i] + Visited(cats, i + 1)
  }

  /** The visited categories are, in increasing order, exactly the
      non-empty ones among the first three; so there are at most three. */
  lemma {:induction false} VisitedSpec(cats: seq<Rules.Category>, i: nat)
    ensures var ks := Visited(cats, i);
      && (forall k, l :: 0 <= k < l < |ks| ==> ks[k] < ks[l])
      && (forall c :: c in ks <==> i <= c < 3 && c < |cats| && |cats[c].rules| > 0)
      && |ks| <= 3 && (i <= 3 ==> |ks| <= 3 - i)
    decreases |cats| - i
  {
    if i < 3 && i < |cats| {
      VisitedSpec(cats, i + 1);
    }
  }

  /** Every visited category costs exactly one draw and yields one pick. */
  lemma {:induction false} SelectDraws(cats: seq<Rules.Category>, i: nat, pick: Picker, pos: nat)
    ensures var sel := SelectFrom(cats, i, pick, pos);
      && |sel.rules| == |Visited(cats, i)|
      && sel.next == pos + |Visited(cats, i)|
    decreases |cats| - i
  {
    if i < 3 && i < |cats| {
      if |cats[i].rules| == 0 {
        SelectDraws(cats, i + 1, pick, pos);
      } else {
        SelectDraws(cats, i + 1, pick, pos + 1);
      }
    }
  }

  /** One pick per visited category, in order, the `k`-th drawn from its
      category's list with draw `pos + k`. */
  ghost predicate PicksMatch(cats: seq<Rules.Category>, i: nat, pick: Picker, pos: nat) {
    var sel := SelectFrom(cats, i, pick, pos);
    var ks := Visited(cats, i);
    && |sel.rules| == |ks|
    && forall k :: 0 <= k < |ks| ==>
         ks[k] < |cats| && sel.rules[k] == PickAt(cats[ks[k]].rules, pick(pos + k, |cats[ks[k]].rules|))
  }

  /** The selection makes its picks that way. With `VisitedSpec`: at most
      three picks, at most one per position, none from an empty category. */
  lemma {:induction false} SelectSpec(cats: seq<Rules.Category>, i: nat, pick: Picker, pos: nat)
    ensures PicksMatch(cats, i, pick, pos)
    decreases |cats| - i
  {
    if i < 3 && i < |cats| {
      if |cats[i].rules| == 0 {
        SelectSpec(cats, i + 1, pick, pos);
      } else {
        SelectSpec(cats, i + 1, pick, pos + 1);
        SelectStep(cats, i, pick, pos);
      }
    }
  }

  /** A visited category puts its pick in front of the later ones. */
  lemma SelectStep(cats: seq<Rules.Category>, i: nat, pick: Picker, pos: nat)
    requires i < 3 && i < |cats| && |cats[i].rules| > 0
    requires PicksMatch(cats, i + 1, pick, pos + 1)
    ensures PicksMatch(cats, i, pick, pos)
  {
    var rs := SelectFrom(cats, i, pick, pos).rules;
    var rest := SelectFrom(cats, i + 1, pick, pos + 1).rules;
    var ks := Visited(cats, i);
    var ls := Visited(cats, i + 1);
    SelectUnfold(cats, i, pick, pos);
    forall k | 0 <= k < |ks|
      ensures ks[k] < |cats| && rs[k] == PickAt(cats[ks[k]].rules, pick(pos + k, |cats[ks[k]].rules|))
    {
      if k > 0 {
        assert rs[k] == rest[k - 1] && ks[k] == ls[k - 1];
        assert pos + 1 + (k - 1) == pos + k;
      }
    }
  }

  /** A visited category contributes the first pick and the first index. */
  lemma SelectUnfold(cats: seq<Rules.Category>, i: nat, pick: Picker, pos: nat)
    requires i < 3 && i < |cats| && |cats[i].rules| > 0
    ensures SelectFrom(cats, i, pick, pos).rules
      == [PickAt(cats[i].rules, pick(pos, |cats[i].rules|))] + SelectFrom(cats, i + 1, pick, pos + 1).rules
    ensures Visited(cats, i) == [i] + Visited(cats, i + 1)
  {
  }

  /** With picks below the length every pick is a rule of its category. */
  lemma IntendedPicksDefined(cats: seq<Rules.Category>, pick: Picker, pos: nat)
    requires BelowLength(pick)
    ensures var sel := SelectFrom(cats, 0, pick, pos);
      var ks := Visited(cats, 0);
      && |sel.rules| == |ks|
      && forall k :: 0 <= k < |ks| ==> ks[k] < |cats| && sel.rules[k].Some? && sel.rules[k].value in cats[ks[k]].rules
  {
    var ks := Visited(cats, 0);
    SelectSpec(cats, 0, pick, pos);
    VisitedSpec(cats, 0);
    forall k | 0 <= k < |ks| ensures pick(pos + k, |cats[ks[k]].rules|) < |cats[ks[k]].rules| {
      assert ks[k] in ks;
    }
  }

  /** A list with no repeats holds each value at most once. */
  lemma {:induction false} OnceAtMost<T>(b: seq<T>, x: T)
    requires forall i, j :: 0 <= i < j < |b| ==> b[i] != b[j]
    ensures multiset(b)[x] <= 1
  {
    if |b| > 0 {
      assert b == [b[0]] + b[1..];
      OnceAtMost(b[1..], x);
    }
  }

  /** A reordering of a list with no repeats has no repeats. */
  lemma ReorderedDistinct<T>(a: seq<T>, b: seq<T>)
    requires multiset(a) == multiset(b)
    requires forall i, j :: 0 <= i < j < |b| ==> b[i] != b[j]
    ensures forall i, j :: 0 <= i < j < |a| ==> a[i] != a[j]
  {
    forall i, j | 0 <= i < j < |a| ensures a[i] != a[j] {
      if a[i] == a[j] {
        assert a == a[..j] + [a[j]] + a[j + 1..];
        assert a[i] in a[..j];
        OnceAtMost(b, a[i]);
      }
    }
  }

  /** A reordering has the same length and the same members. */
  lemma ReorderedMembers<T>(a: seq<T>, b: seq<T>)
    requires multiset(a) == multiset(b)
    ensures |a| == |b|
    ensures forall k :: 0 <= k < |a| ==> a[k] in b
  {
    assert |a| == |multiset(a)|;
    forall k | 0 <= k < |a| ensures a[k] in b {
      assert a[k] in multiset(a);
    }
  }

  /** Sorting a copy of the catalog gives three different catalog
      categories... */
  lemma CategoriesOnce(order: seq<Rules.Category>)
    requires multiset(order) == multiset(Rules.Catalog)
    ensures |order| == 3
    ensures forall k :: 0 <= k < 3 ==> order[k] in Rules.Catalog
    ensures forall k, l :: 0 <= k < l < 3 ==> order[k] != order[l]
  {
    Rules.CatalogDistinct();
    Rules.CatalogRules();
    ReorderedOnce(order, Rules.Catalog);
  }

  /** ...and the selection visits all three: at most one rule is drawn per
      category. */
  lemma CategoriesVisited(order: seq<Rules.Category>)
    requires multiset(order) == multiset(Rules.Catalog)
    ensures |order| == 3 && Visited(order, 0) == [0, 1, 2]
  {
    Rules.CatalogDistinct();
    Rules.CatalogRules();
    ReorderedOnce(order, Rules.Catalog);
  }

  /** The same for any three distinct categories with rules. */
  lemma ReorderedOnce(order: seq<Rules.Category>, cats: seq<Rules.Category>)
    requires multiset(order) == multiset(cats) && |cats| == 3
    requires forall i, j :: 0 <= i < j < |cats| ==> cats[i] != cats[j]
    requires forall i :: 0 <= i < |cats| ==> |cats[i].rules| > 0
    ensures |order| == 3 && Visited(order, 0) == [0, 1, 2]
    ensures forall k :: 0 <= k < 3 ==> order[k] in cats
    ensures forall k, l :: 0 <= k < l < 3 ==> order[k] != order[l]
  {
    ReorderedMembers(order, cats);
    ReorderedDistinct(order, cats);
    forall k | 0 <= k < 3 ensures |order[k].rules| > 0 {
      var i :| 0 <= i < |cats| && cats[i] == order[k];
    }
    VisitedAll(order);
  }

  /** Three categories that all have rules are all visited. */
  lemma VisitedAll(order: seq<Rules.Category>)
    requires |order| == 3 && forall k :: 0 <= k < 3 ==> |order[k].rules| > 0
    ensures Visited(order, 0) == [0, 1, 2]
  {
    assert Visited(order, 3) == [];
    assert Visited(order, 2) == [2];
    assert Visited(order, 1) == [1, 2];
  }

  /** On a reordering of the catalog the selection yields three picks, pick
      `k` from the `k`-th category; two defined picks are never the same
      rule. */
  lemma SelectOnce(order: seq<Rules.Category>, pick: Picker, pos: nat)
    requires multiset(order) == multiset(Rules.Catalog)
    ensures var rs := SelectFrom(order, 0, pick, pos).rules;
      && |order| == 3 && |rs| == 3
      && (forall k :: 0 <= k < 3 && rs[k].Some? ==> rs[k].value in order[k].rules)
      && (forall k, l :: 0 <= k < l < 3 && rs[k].Some? && rs[l].Some? ==> rs[k].value != rs[l].value)
  {
    var rs := SelectFrom(order, 0, pick, pos).rules;
    CategoriesOnce(order);
    CategoriesVisited(order);
    SelectSpec(order, 0, pick, pos);
    forall k | 0 <= k < 3 && rs[k].Some? ensures rs[k].value in order[k].rules {
      assert Visited(order, 0)[k] == k;
    }
    forall k, l | 0 <= k < l < 3 && rs[k].Some? && rs[l].Some?
      ensures rs[k].value != rs[l].value
    {
      Rules.CatalogDisjoint(order[k], order[l], rs[k].value);
    }
  }

  /** So a fresh game has three rule slots, slot `k` drawn from the `k`-th
      category, no rule twice, and with the intended scaling no slot empty. */
  lemma RulesOnce(how: Scaling, draws: Stream, order: seq<Rules.Category>, sortDraws: nat)
    requires multiset(order) == multiset(Rules.Catalog)
    ensures var g := NewGame(how, draws, order, sortDraws);
      && |order| == 3 && |g.rules| == 3
      && (forall k :: 0 <= k < 3 && g.rules[k].Some? ==> g.rules[k].value in order[k].rules)
      && (forall k, l :: 0 <= k < l < 3 && g.rules[k].Some? && g.rules[l].Some? ==>
            g.rules[k].value != g.rules[l].value)
      && (how == Intended ==> forall k :: 0 <= k < 3 ==> g.rules[k].Some?)
  {
    var pick := Picks(how, draws);
    assert NewGame(how, draws, order, sortDraws).rules == SelectFrom(order, 0, pick, sortDraws).rules;
    SelectOnce(order, pick, sortDraws);
    if how == Intended {
      CategoriesVisited(order);
      PicksBounds(how, draws);
      IntendedPicksDefined(order, pick, sortDraws);
    }
  }

  /* ----- the shuffle ----- */

  /** Cells nobody has written: what JS reads back from array holes. */
  function Holes(n: nat): (r: seq<Option<Tile>>)
    ensures |r| == n && forall k :: 0 <= k < n ==> r[k] == None
  {
    seq(n, k => None)
  }

  /** `[bag[i], bag[j]] = [bag[j], bag[i]]`. With `j >= |a|` the right-hand
      side reads `undefined`, so cell `i` becomes a hole and the array grows
      to `j + 1` cells, the last holding the old `bag[i]`. */
  function Swap(a: seq<Option<Tile>>, i: nat, j: nat): (r: seq<Option<Tile>>)
    requires i < |a|
    ensures |r| == if j < |a| then |a| else j + 1
  {
    if j < |a| then a[i := a[j]][j := a[i]] else a[i := None] + Holes(j - |a|) + [a[i]]
  }

  /** How many cells hold tile `t`. */
  function Held(cells: seq<Option<Tile>>, t: Tile): nat {
    multiset(cells)[Some(t)]
  }

  /** A swap moves tiles around without losing or copying any; inside the
      array it is a permutation. */
  lemma SwapPermutes(a: seq<Option<Tile>>, i: nat, j: nat)
    requires i < |a| && j < |a|
    ensures multiset(Swap(a, i, j)) == multiset(a)
  {
  }

  lemma SwapKeepsTiles(a: seq<Option<Tile>>, i: nat, j: nat)
    requires i < |a|
    ensures forall t :: Held(Swap(a, i, j), t) == Held(a, t)
  {
    if j >= |a| {
      var hs := Holes(j - |a|);
      assert multiset(a[i := None]) == multiset(a) - multiset{a[i]} + multiset{None};
      assert forall t :: Some(t) !in hs;
      assert forall t :: Held(Swap(a, i, j), t) == Held(a[i := None], t) + Held(hs, t) + Held([a[i]], t);
    }
  }

  datatype Shuffled = Shuffled(bag: seq<Option<Tile>>, next: nat)

  /** The Fisher-Yates loop from index `i` down to 1. */
  function ShuffleFrom(a: seq<Option<Tile>>, i: nat, pick: Picker, pos: nat): Shuffled
    requires i < |a|
    decreases i
  {
    if i == 0 then Shuffled(a, pos)
    else ShuffleFrom(Swap(a, i, pick(pos, i + 1)), i - 1, pick, pos + 1)
  }

  /** The shuffle uses one draw per step, keeps every tile exactly as often
      as before, and never shrinks the array. */
  lemma {:induction false} ShuffleKeepsTiles(a: seq<Option<Tile>>, i: nat, pick: Picker, pos: nat)
    requires i < |a|
    ensures var r := ShuffleFrom(a, i, pick, pos);
      && r.next == pos + i
      && (forall t :: Held(r.bag, t) == Held(a, t))
      && |a| <= |r.bag|
    decreases i
  {
    if i > 0 {
      SwapKeepsTiles(a, i, pick(pos, i + 1));
      ShuffleKeepsTiles(Swap(a, i, pick(pos, i + 1)), i - 1, pick, pos + 1);
    }
  }

  /** As written, the array grows by at most one cell, and only at the top
      step. */
  lemma ShuffleGrowth(a: seq<Option<Tile>>, i: nat, pick: Picker, pos: nat)
    requires AtMostLength(pick) && i < |a| && i < 428
    ensures |ShuffleFrom(a, i, pick, pos).bag| <= |a| + 1
  {
    if i > 0 {
      var j := pick(pos, i + 1);
      assert j <= i + 1;
      ShuffleNoGrowth(Swap(a, i, j), i - 1, pick, pos + 1);
    }
  }

  /** With picks below the length the shuffle is a permutation. */
  lemma {:induction false} ShufflePermutes(a: seq<Option<Tile>>, i: nat, pick: Picker, pos: nat)
    requires BelowLength(pick) && i < |a|
    ensures multiset(ShuffleFrom(a, i, pick, pos).bag) == multiset(a)
    decreases i
  {
    if i > 0 {
      SwapPermutes(a, i, pick(pos, i + 1));
      ShufflePermutes(Swap(a, i, pick(pos, i + 1)), i - 1, pick, pos + 1);
    }
  }

  /** Below the top index the swap partner is at most `i + 1 <= |a| - 1`, so
      a shuffle started under the top never grows the array. */
  lemma {:induction false} ShuffleNoGrowth(a: seq<Option<Tile>>, i: nat, pick: Picker, pos: nat)
    requires AtMostLength(pick) && i + 1 < |a| && i < 428
    ensures |ShuffleFrom(a, i, pick, pos).bag| == |a|
    ensures multiset(ShuffleFrom(a, i, pick, pos).bag) == multiset(a)
    decreases i
  {
    if i > 0 {
      var j := pick(pos, i + 1);
      assert j <= i + 1;
      SwapPermutes(a, i, j);
      ShuffleNoGrowth(Swap(a, i, j), i - 1, pick, pos + 1);
    }
  }

  /* ----- the deal ----- */

  datatype Dealt = Dealt(hand: seq<Option<Tile>>, bag: seq<Option<Tile>>)

  /** The deal loop from slot `i` on: each slot takes `bag.pop()` while the
      bag is not empty, and stays empty otherwise. */
  function DealFrom(hand: seq<Option<Tile>>, i: nat, bag: seq<Option<Tile>>): Dealt
    requires |hand| == HandSlots && i <= HandSlots
    decreases HandSlots - i
  {
    if i == HandSlots then Dealt(hand, bag)
    else if |bag| > 0 then DealFrom(hand[i := bag[|bag| - 1]], i + 1, bag[..|bag| - 1])
    else DealFrom(hand, i + 1, bag)
  }

  function Deal(bag: seq<Option<Tile>>): Dealt {
    DealFrom(seq(HandSlots, k => None), 0, bag)
  }

  /** Slot `i + k` receives the bag's `k`-th cell from the top, while there
      is one; the bag keeps its bottom part. */
  lemma {:induction false} DealFromPlaces(hand: seq<Option<Tile>>, i: nat, bag: seq<Option<Tile>>)
    requires |hand| == HandSlots && i <= HandSlots
    requires forall k :: i <= k < HandSlots ==> hand[k] == None
    ensures var r := DealFrom(hand, i, bag);
      var n := if |bag| < HandSlots - i then |bag| else HandSlots - i;
      && |r.hand| == HandSlots
      && r.bag == bag[..|bag| - n]
      && (forall k :: 0 <= k < i ==> r.hand[k] == hand[k])
      && (forall k :: i <= k < i + n ==> r.hand[k] == bag[|bag| - 1 - (k - i)])
      && (forall k :: i + n <= k < HandSlots ==> r.hand[k] == None)
    decreases HandSlots - i
  {
    if i < HandSlots {
      if |bag| > 0 {
        var top := bag[|bag| - 1];
        var rest := bag[..|bag| - 1];
        DealFromPlaces(hand[i := top], i + 1, rest);
        var n := if |bag| < HandSlots - i then |bag| else HandSlots - i;
        assert rest[..|rest| - (n - 1)] == bag[..|bag| - n];
      } else {
        DealFromPlaces(hand, i + 1, bag);
      }
    }
  }

  /** Moving the bag's last tile into an empty hand slot keeps every tile
      held exactly as often. */
  lemma PopIntoSlot(hand: seq<Option<Tile>>, i: nat, bag: seq<Option<Tile>>)
    requires i < |hand| && hand[i] == None && |bag| > 0
    ensures forall t :: Held(hand[i := bag[|bag| - 1]], t) + Held(bag[..|bag| - 1], t)
                        == Held(hand, t) + Held(bag, t)
  {
    var top := bag[|bag| - 1];
    var rest := bag[..|bag| - 1];
    assert bag == rest + [top];
    assert multiset(bag) == multiset(rest) + multiset{top};
    assert multiset(hand[i := top]) == multiset(hand) - multiset{None} + multiset{top};
    assert None in multiset(hand) by { assert hand[i] == None; }
    forall t ensures Held(hand[i := top], t) + Held(rest, t) == Held(hand, t) + Held(bag, t) {
      assert Held(hand[i := top], t) == Held(hand, t) + (if top == Some(t) then 1 else 0);
      assert Held(bag, t) == Held(rest, t) + (if top == Some(t) then 1 else 0);
    }
  }

  /** No tile is lost or copied by the deal. */
  lemma {:induction false} DealFromKeepsTiles(hand: seq<Option<Tile>>, i: nat, bag: seq<Option<Tile>>)
    requires |hand| == HandSlots && i <= HandSlots
    requires forall k :: i <= k < HandSlots ==> hand[k] == None
    ensures var r := DealFrom(hand, i, bag);
      forall t :: Held(r.hand, t) + Held(r.bag, t) == Held(hand, t) + Held(bag, t)
    decreases HandSlots - i
  {
    if i < HandSlots {
      if |bag| > 0 {
        var top := bag[|bag| - 1];
        var rest := bag[..|bag| - 1];
        DealFromKeepsTiles(hand[i := top], i + 1, rest);
        PopIntoSlot(hand, i, bag);
      } else {
        DealFromKeepsTiles(hand, i + 1, bag);
      }
    }
  }

  /** The deal fills the hand from the top of the bag, top first; the
      remaining bag is the untouched bottom part. */
  lemma DealSpec(bag: seq<Option<Tile>>)
    ensures var r := Deal(bag);
      var n := if |bag| < HandSlots then |bag| else HandSlots;
      && |r.hand| == HandSlots
      && r.bag == bag[..|bag| - n]
      && (forall k :: 0 <= k < n ==> r.hand[k] == bag[|bag| - 1 - k])
      && (forall k :: n <= k < HandSlots ==> r.hand[k] == None)
      && (forall t :: Held(r.hand, t) + Held(r.bag, t) == Held(bag, t))
  {
    var empty: seq<Option<Tile>> := seq(HandSlots, k => None);
    DealFromPlaces(empty, 0, bag);
    DealFromKeepsTiles(empty, 0, bag);
    forall t ensures Held(empty, t) == 0 {
      assert Some(t) !in empty;
    }
  }

  /* ----- a fresh game ----- */

  datatype FreshGame = FreshGame(
    rules: seq<Option<Rules.RuleId>>,
    hand: seq<Option<Tile>>,
    bag: seq<Option<Tile>>,
    grid: Board.Grid)

  function Cells(ts: seq<Tile>): (cs: seq<Option<Tile>>)
    ensures |cs| == |ts|
    ensures forall k :: 0 <= k < |ts| ==> cs[k] == Some(ts[k])
  {
    seq(|ts|, k requires 0 <= k < |ts| => Some(ts[k]))
  }

  /** The full tile set, built, shuffled from its last index down with
      picks from stream position `pos` on, and dealt into the hand. */
  function ShuffleAndDeal(pick: Picker, pos: nat): Dealt {
    InitialBagShape();
    Deal(ShuffleFrom(Cells(InitialBag()), 143, pick, pos).bag)
  }

  /** The fresh-game path for the generator's numerators `draws`
      (`Numerators(seed)` for the day's seed). The random-comparator sort of
      the categories is given as its outcome: the order it produced and the
      number of draws it used. */
  function NewGame(how: Scaling, draws: Stream, order: seq<Rules.Category>, sortDraws: nat): FreshGame {
    var pick := Picks(how, draws);
    var sel := SelectFrom(order, 0, pick, sortDraws);
    var dealt := ShuffleAndDeal(pick, sel.next);
    FreshGame(sel.rules, dealt.hand, dealt.bag, Board.EmptyGrid())
  }

  /** Each tile of a list with distinct ids sits in exactly one cell. */
  lemma {:induction false} CellsHoldOnce(ts: seq<Tile>)
    requires forall i, j :: 0 <= i < j < |ts| ==> ts[i].id != ts[j].id
    ensures forall t :: Held(Cells(ts), t) == if t in ts then 1 else 0
  {
    if |ts| > 0 {
      CellsHoldOnce(ts[1..]);
      assert Cells(ts) == [Some(ts[0])] + Cells(ts[1..]);
      forall t ensures Held(Cells(ts), t) == if t in ts then 1 else 0 {
        assert Held(Cells(ts), t) == (if t == ts[0] then 1 else 0) + Held(Cells(ts[1..]), t);
        assert t in ts <==> t == ts[0] || t in ts[1..];
        if t == ts[0] {
          assert t !in ts[1..] by {
            forall k | 0 <= k < |ts[1..]| ensures ts[1..][k] != t {
              assert ts[1..][k] == ts[k + 1];
            }
          }
        }
      }
    }
  }

  /** Shuffling and dealing 144 cells gives a 24-slot hand and a bag of
      120 or 121 cells that together hold every tile as often as before. */
  lemma ShuffledDeal(cells: seq<Option<Tile>>, pick: Picker, pos: nat)
    requires |cells| == 144 && AtMostLength(pick)
    ensures var d := Deal(ShuffleFrom(cells, 143, pick, pos).bag);
      && |d.hand| == HandSlots
      && 120 <= |d.bag| <= 121
      && forall t :: Held(d.hand, t) + Held(d.bag, t) == Held(cells, t)
  {
    ShuffleKeepsTiles(cells, 143, pick, pos);
    ShuffleGrowth(cells, 143, pick, pos);
    DealSpec(ShuffleFrom(cells, 143, pick, pos).bag);
  }

  /** The shuffled and dealt tile set holds every tile exactly once. */
  lemma DealtTiles(pick: Picker, pos: nat)
    requires AtMostLength(pick)
    ensures var d := ShuffleAndDeal(pick, pos);
      && |d.hand| == HandSlots
      && 120 <= |d.bag| <= 121
      && forall t :: Held(d.hand, t) + Held(d.bag, t) == if t in InitialBag() then 1 else 0
  {
    InitialBagShape();
    InitialCellsHoldOnce();
    ShuffledDeal(Cells(InitialBag()), pick, pos);
  }

  lemma InitialCellsHoldOnce()
    ensures forall t :: Held(Cells(InitialBag()), t) == if t in InitialBag() then 1 else 0
  {
    InitialBagShape();
    NumberedCellsHoldOnce(InitialBag());
  }

  /** Tiles numbered by position have distinct ids. */
  lemma NumberedCellsHoldOnce(ts: seq<Tile>)
    requires forall i :: 0 <= i < |ts| ==> ts[i].id == i
    ensures forall t :: Held(Cells(ts), t) == if t in ts then 1 else 0
  {
    CellsHoldOnce(ts);
  }

  /** A fresh game has an empty grid, a 24-slot hand, at most three rules,
      and every tile of the 144-tile set exactly once across hand and bag;
      the bag has 120 cells, or 121 when the shuffle grew it. */
  lemma NewGameTiles(how: Scaling, draws: Stream, order: seq<Rules.Category>, sortDraws: nat)
    ensures var g := NewGame(how, draws, order, sortDraws);
      && g.grid == Board.EmptyGrid()
      && |g.hand| == HandSlots
      && |g.rules| <= 3
      && 120 <= |g.bag| <= 121
      && forall t :: Held(g.hand, t) + Held(g.bag, t) == if t in InitialBag() then 1 else 0
  {
    var pick := Picks(how, draws);
    PicksBounds(how, draws);
    SelectDraws(order, 0, pick, sortDraws);
    VisitedSpec(order, 0);
    DealtTiles(pick, SelectFrom(order, 0, pick, sortDraws).next);
  }

  /** Dealing from a bag of 144 filled cells fills all 24 hand slots and
      keeps 120 filled cells. */
  lemma FullDeal(cells: seq<Option<Tile>>)
    requires |cells| == 144 && None !in cells
    ensures var d := Deal(cells);
      && (forall k :: 0 <= k < |d.hand| ==> d.hand[k].Some?)
      && |d.bag| == 120
      && (forall k :: 0 <= k < |d.bag| ==> d.bag[k].Some?)
  {
    DealSpec(cells);
    var d := Deal(cells);
    forall k | 0 <= k < |d.hand| ensures d.hand[k].Some? {
      assert d.hand[k] == cells[143 - k];
    }
    forall k | 0 <= k < |d.bag| ensures d.bag[k].Some? {
      assert d.bag[k] == cells[k];
    }
  }

  /** With picks below the length, a shuffled and dealt bag of 144 tiles
      fills all 24 hand slots and keeps 120 cells, none of them empty. */
  lemma IntendedDeal(cells: seq<Option<Tile>>, pick: Picker, pos: nat)
    requires |cells| == 144 && None !in cells && BelowLength(pick)
    ensures var d := Deal(ShuffleFrom(cells, 143, pick, pos).bag);
      && (forall k :: 0 <= k < |d.hand| ==> d.hand[k].Some?)
      && |d.bag| == 120
      && (forall k :: 0 <= k < |d.bag| ==> d.bag[k].Some?)
  {
    ShufflePermutes(cells, 143, pick, pos);
    var shuffled := ShuffleFrom(cells, 143, pick, pos).bag;
    assert |shuffled| == 144 by {
      assert |multiset(shuffled)| == |multiset(cells)|;
    }
    assert None !in multiset(shuffled);
    FullDeal(shuffled);
  }

  lemma DealtIntended(pick: Picker, pos: nat)
    requires BelowLength(pick)
    ensures var d := ShuffleAndDeal(pick, pos);
      && (forall k :: 0 <= k < |d.hand| ==> d.hand[k].Some?)
      && |d.bag| == 120
      && (forall k :: 0 <= k < |d.bag| ==> d.bag[k].Some?)
  {
    InitialBagShape();
    var cells := Cells(InitialBag());
    assert None !in cells;
    IntendedDeal(cells, pick, pos);
  }

  /** With the intended scaling a fresh game deals a full hand of 24 tiles
      and leaves 120 in the bag, with no empty cell anywhere, and each of
      its rules is a rule of its category. */
  lemma NewGameIntended(draws: Stream, order: seq<Rules.Category>, sortDraws: nat)
    ensures var g := NewGame(Intended, draws, order, sortDraws);
      && (forall k :: 0 <= k < |g.hand| ==> g.hand[k].Some?)
      && |g.bag| == 120
      && (forall k :: 0 <= k < |g.bag| ==> g.bag[k].Some?)
      && (forall k :: 0 <= k < |g.rules| ==> g.rules[k].Some?)
  {
    var pick := Picks(Intended, draws);
    PicksBounds(Intended, draws);
    IntendedPicksDefined(order, pick, sortDraws);
    DealtIntended(pick, SelectFrom(order, 0, pick, sortDraws).next);
  }

  /** When the first shuffle pick is 144, the swap writes past the end, so
      the bag grows to 145 cells with a hole among them. */
  lemma GrownShuffle(cells: seq<Option<Tile>>, pick: Picker, pos: nat)
    requires |cells| == 144 && AtMostLength(pick) && pick(pos, 144) == 144
    ensures var r := ShuffleFrom(cells, 143, pick, pos).bag;
      |r| == 145 && None in r
  {
    var b := Swap(cells, 143, 144);
    SwapPastEnd(cells);
    ShuffleNoGrowth(b, 142, pick, pos + 1);
    HoleKept(b, ShuffleFrom(b, 142, pick, pos + 1).bag);
  }

  lemma SwapPastEnd(cells: seq<Option<Tile>>)
    requires |cells| == 144
    ensures |Swap(cells, 143, 144)| == 145 && None in Swap(cells, 143, 144)
  {
    assert Swap(cells, 143, 144)[143] == None;
  }

  /** A permutation keeps a hole. */
  lemma HoleKept(a: seq<Option<Tile>>, b: seq<Option<Tile>>)
    requires multiset(a) == multiset(b) && None in a
    ensures None in b
  {
    assert None in multiset(a);
  }

  /** Dealing from 145 cells with a hole leaves 121 and the hole in hand or
      bag. */
  lemma HoleDealt(cells: seq<Option<Tile>>)
    requires |cells| == 145 && None in cells
    ensures var d := Deal(cells);
      |d.bag| == 121 && None in d.hand + d.bag
  {
    var m :| 0 <= m < |cells| && cells[m] == None;
    DealSpec(cells);
    var d := Deal(cells);
    if m < 121 {
      assert (d.hand + d.bag)[24 + m] == None;
    } else {
      assert (d.hand + d.bag)[144 - m] == None;
    }
  }

  lemma DealtGrown(pick: Picker, pos: nat)
    requires AtMostLength(pick) && pick(pos, 144) == 144
    ensures var d := ShuffleAndDeal(pick, pos);
      |d.bag| == 121 && None in d.hand + d.bag
  {
    InitialBagShape();
    GrownShuffle(Cells(InitialBag()), pick, pos);
    HoleDealt(ShuffleFrom(Cells(InitialBag()), 143, pick, pos).bag);
  }

  /** As written, a fresh game whose first shuffle draw (the one after the
      rule picks) is at or past the divisor has a hole in hand or bag. */
  lemma GrownBag(draws: Stream, order: seq<Rules.Category>, sortDraws: nat)
    requires draws(sortDraws + |Visited(order, 0)|) as nat >= Divisor
    ensures var g := NewGame(AsWritten, draws, order, sortDraws);
      |g.bag| == 121 && None in g.hand + g.bag
  {
    var pick := Picks(AsWritten, draws);
    var p := sortDraws + |Visited(order, 0)|;
    PicksBounds(AsWritten, draws);
    PickPastDivisor(draws, p);
    DealtGrown(pick, p);
    SelectDraws(order, 0, pick, sortDraws);
    assert SelectFrom(order, 0, pick, sortDraws).next == p;
    NewGameShuffles(AsWritten, draws, order, sortDraws);
  }

  /** The hand and bag of a fresh game are those of the shuffle and deal
      that start where the rule picks stop. */
  lemma NewGameShuffles(how: Scaling, draws: Stream, order: seq<Rules.Category>, sortDraws: nat)
    ensures var pick := Picks(how, draws);
      var d := ShuffleAndDeal(pick, SelectFrom(order, 0, pick, sortDraws).next);
      NewGame(how, draws, order, sortDraws).hand == d.hand && NewGame(how, draws, order, sortDraws).bag == d.bag
  {
  }

  lemma PickPastDivisor(draws: Stream, p: nat)
    requires draws(p) as nat >= Divisor
    ensures Picks(AsWritten, draws)(p, 144) == 144
  {
    IndexPastDivisor(draws(p), 144);
  }

  /** 2025-04-12 00:00 UTC: the seed `setHours(0, 0, 0, 0)` gives on that
      day where local time is UTC. */
  const April12Seed: int := 1744416000000

  lemma StateOfApril12()
    ensures InitialState(April12Seed) == 659277824
  {
    var m := April12Seed % TwoTo32;
    assert m == 659277824;
    assert InitialState(April12Seed) == m as bv32;
  }

  /** The numerators of calls 0, 1 and 5 for that seed. */
  lemma DrawsOfApril12()
    ensures Call(April12Seed, 0) == 3252706553
    ensures Call(April12Seed, 1) == 2790215769
    ensures Call(April12Seed, 5) == 4294101765
  {
    StateOfApril12();
    AdvanceStep(659277824, 0);
    AdvanceStep(659277824, 1);
    AdvanceStep(659277824, 2);
    AdvanceStep(659277824, 3);
    AdvanceStep(659277824, 4);
    assert Advance(659277824, 5) == 1227172297;
    assert Next(659277824).u == 3252706553;
    assert Next(2490843637).u == 2790215769;
    assert Next(1227172297).u == 4294101765;
  }

  /** On 2025-04-12 the sort's comparator `seededRandom() - 0.5` returns a
      non-negative value on both of its first two calls, and the sixth
      numerator is past the divisor. A sort that, like the timsort of V8,
      compares the second element with the first and the third with the
      second, and stops there when both comparisons agree, thus uses two
      draws and leaves the categories in catalog order; the three rule picks
      use draws 2 to 4, and draw 5 is the shuffle's first. */
  lemma SortDrawsOfApril12()
    ensures 2 * Call(April12Seed, 0) as nat >= Divisor
    ensures 2 * Call(April12Seed, 1) as nat >= Divisor
    ensures Numerators(April12Seed)(2 + |Visited(Rules.Catalog, 0)|) as nat >= Divisor
  {
    DrawsOfApril12();
    CatalogVisited();
  }

  /** So the game of 2025-04-12, with that sort outcome, deals a hole. */
  lemma GrownOnApril12()
    ensures var g := NewGame(AsWritten, Numerators(April12Seed), Rules.Catalog, 2);
      |g.bag| == 121 && None in g.hand + g.bag
  {
    SortDrawsOfApril12();
    GrownBag(Numerators(April12Seed), Rules.Catalog, 2);
  }

  /** Every catalog category has rules, so in catalog order all three are
      visited. */
  lemma CatalogVisited()
    ensures |Visited(Rules.Catalog, 0)| == 3
  {
    var c := Rules.Catalog;
    assert |c| == 3 && |c[0].rules| == 3 && |c[1].rules| == 3 && |c[2].rules| == 2;
    assert Visited(c, 3) == [];
    assert Visited(c, 2) == [2];
    assert Visited(c, 1) == [1, 2];
  }
}
