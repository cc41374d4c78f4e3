/** The rule catalog of rules.ts: three categories of two or three rules,
    each rule a pure function from the scan context to a bonus, the number
    of times its condition held, and the ids of the tiles that earned it. */
module Rules {
  import opened Options
  import opened Tiles
  import JsMap

  datatype RuleId =
    | Len3 | Len5Plus | Len7Plus
    | LetRare | LetNoVowels | LetEndsS
    | SbOver20 | SbAllOnes
  {
    /** The string id the source stores and persists. */
    function Name(): string {
      match this
      case Len3 => "len_3"
      case Len5Plus => "len_5_plus"
      case Len7Plus => "len_7_plus"
      case LetRare => "let_rare"
      case LetNoVowels => "let_no_vowels"
      case LetEndsS => "let_ends_s"
      case SbOver20 => "sb_over_20"
      case SbAllOnes => "sb_all_ones"
    }
  }

  datatype Category = Category(id: string, name: string, rules: seq<RuleId>)

  const Catalog: seq<Category> := [
    Category("cat_length", "Word Length Bonuses", [Len3, Len5Plus, Len7Plus]),
    Category("cat_letters", "Specific Letter Bonuses", [LetRare, LetNoVowels, LetEndsS]),
    Category("cat_word_score", "Word Score Bonuses", [SbOver20, SbAllOnes])
  ]

  /** No two rules share a string id, so the id is a faithful key for
      persisted rules and for the per-rule achievement counts. */
  lemma RuleNamesUnique(a: RuleId, b: RuleId)
    requires a.Name() == b.Name()
    ensures a == b
  {
    match a
    case Len3 => assert a.Name()[4] == '3';
    case Len5Plus => assert a.Name()[4] == '5';
    case Len7Plus => assert a.Name()[4] == '7';
    case LetRare => assert a.Name()[4] == 'r';
    case LetNoVowels => assert a.Name()[4] == 'n';
    case LetEndsS => assert a.Name()[4] == 'e';
    case SbOver20 => assert a.Name()[3] == 'o';
    case SbAllOnes => assert a.Name()[3] == 'a';
  }

  /** The catalog lists three different categories... */
  lemma CatalogDistinct()
    ensures forall i, j :: 0 <= i < j < |Catalog| ==> Catalog[i] != Catalog[j]
  {
    assert Catalog[0].rules[0] == Len3 && Catalog[1].rules[0] == LetRare && Catalog[2].rules[0] == SbOver20;
  }

  /** ...each with rules. */
  lemma CatalogRules()
    ensures forall i :: 0 <= i < |Catalog| ==> |Catalog[i].rules| > 0
  {
  }

  /** No rule belongs to two categories of the catalog. */
  lemma CatalogDisjoint(c: Category, d: Category, r: RuleId)
    requires c in Catalog && d in Catalog && c != d && r in c.rules
    ensures r !in d.rules
  {
  }

  /** The scan context every rule reads: the word texts in first-found order,
      the tiles of each text, every tile of any counted word keyed by id,
      and the two totals. */
  datatype Context = Context(
    validWords: seq<string>,
    wordToTiles: JsMap.AList<string, seq<Tile>>,
    allValidTiles: JsMap.AList<int, Tile>,
    basePoints: int,
    totalLengths: int)

  datatype RuleResult = RuleResult(bonus: int, contributing: set<int>, count: int)

  const NoAward := RuleResult(0, {}, 0)

  function SumValues(ts: seq<Tile>): int {
    if |ts| == 0 then 0 else ts[0].value + SumValues(ts[1..])
  }

  function IdSet(ts: seq<Tile>): (ids: set<int>)
    ensures forall t :: t in ts ==> t.id in ids
    ensures forall id :: id in ids ==> exists t :: t in ts && t.id == id
  {
    set t | t in ts :: t.id
  }

  /** `toUpperCase` on the characters a tile or a word can hold. */
  function Upper(c: char): char {
    if 'a' <= c <= 'z' then (c as int - 32) as char else c
  }

  predicate IsRare(c: char) {
    Upper(c) in ['J', 'Q', 'X', 'Z']
  }

  predicate IsVowel(c: char) {
    Upper(c) in ['A', 'E', 'I', 'O', 'U']
  }

  predicate HasVowel(w: string) {
    exists i :: 0 <= i < |w| && IsVowel(w[i])
  }

  predicate EndsWithS(w: string) {
    |w| > 0 && (w[|w| - 1] == 'S' || w[|w| - 1] == 's')
  }

  predicate AllOnes(ts: seq<Tile>) {
    forall i :: 0 <= i < |ts| ==> ts[i].value == 1
  }

  type Entries = seq<(string, seq<Tile>)>

  /** The entries a per-word rule awards, in map order. */
  function Qualifying(es: Entries, q: (string, seq<Tile>) -> bool): (r: Entries)
    ensures |r| <= |es|
    ensures forall e :: e in r <==> e in es && q(e.0, e.1)
  {
    if |es| == 0 then []
    else if q(es[0].0, es[0].1) then [es[0]] + Qualifying(es[1..], q)
    else Qualifying(es[1..], q)
  }

  function SumWordValues(es: Entries): int {
    if |es| == 0 then 0 else SumValues(es[0].1) + SumWordValues(es[1..])
  }

  function UnionIds(es: Entries): (ids: set<int>)
    ensures forall e, t :: e in es && t in e.1 ==> t.id in ids
  {
    if |es| == 0 then {} else IdSet(es[0].1) + UnionIds(es[1..])
  }

  /** The loop shared by five rules: for each `[word, tiles]` entry of
      `wordToTilesMap` that qualifies, add a flat award (plus the word's tile
      values when `addValues`), count one achievement and mark its tiles. */
  function PerWord(es: Entries, q: (string, seq<Tile>) -> bool, flat: int, addValues: bool): RuleResult {
    if |es| == 0 then NoAward
    else
      var rest := PerWord(es[1..], q, flat, addValues);
      var (w, ts) := es[0];
      if q(w, ts) then
        RuleResult(rest.bonus + flat + (if addValues then SumValues(ts) else 0),
                   IdSet(ts) + rest.contributing, rest.count + 1)
      else rest
  }

  /** A per-word rule counts one achievement per qualifying entry. */
  lemma {:induction false} PerWordCount(es: Entries, q: (string, seq<Tile>) -> bool, flat: int, addValues: bool)
    ensures PerWord(es, q, flat, addValues).count == |Qualifying(es, q)|
  {
    if |es| > 0 {
      PerWordCount(es[1..], q, flat, addValues);
    }
  }

  /** It awards the flat amount per qualifying entry, plus their tile values
      when `addValues`. */
  lemma MulSucc(a: int, n: int)
    ensures a * (n + 1) == a * n + a
  {}

  lemma {:induction false} PerWordBonus(es: Entries, q: (string, seq<Tile>) -> bool, flat: int, addValues: bool)
    ensures PerWord(es, q, flat, addValues).bonus
            == flat * |Qualifying(es, q)| + (if addValues then SumWordValues(Qualifying(es, q)) else 0)
  {
    if |es| > 0 {
      var tail := es[1..];
      PerWordBonus(tail, q, flat, addValues);
      if q(es[0].0, es[0].1) {
        var qt := Qualifying(tail, q);
        assert Qualifying(es, q) == [es[0]] + qt;
        assert ([es[0]] + qt)[1..] == qt;
        MulSucc(flat, |qt|);
      }
    }
  }

  /** It marks exactly the tiles of the qualifying entries. */
  lemma {:induction false} PerWordTiles(es: Entries, q: (string, seq<Tile>) -> bool, flat: int, addValues: bool)
    ensures PerWord(es, q, flat, addValues).contributing == UnionIds(Qualifying(es, q))
  {
    if |es| > 0 {
      var tail := es[1..];
      PerWordTiles(tail, q, flat, addValues);
      if q(es[0].0, es[0].1) {
        assert ([es[0]] + Qualifying(tail, q))[1..] == Qualifying(tail, q);
      }
    }
  }

  predicate ThreeLetters(w: string, ts: seq<Tile>) { |w| == 3 }
  predicate AtLeastFive(w: string, ts: seq<Tile>) { |w| >= 5 }
  predicate AtLeastSeven(w: string, ts: seq<Tile>) { |w| >= 7 }
  predicate EndsS(w: string, ts: seq<Tile>) { EndsWithS(w) }
  predicate OnesOnly(w: string, ts: seq<Tile>) { AllOnes(ts) }

  /** let_rare: 75 once, for the first valid tile carrying J, Q, X or Z. */
  function RareRule(vs: JsMap.AList<int, Tile>): RuleResult {
    if |vs| == 0 then NoAward
    else if IsRare(vs[0].1.letter) then RuleResult(75, {vs[0].1.id}, 1)
    else RareRule(vs[1..])
  }

  /** let_rare awards nothing exactly when no valid tile is rare; otherwise it
      awards 75 once and marks exactly the first rare tile in map order. */
  lemma {:induction false} RareRuleSemantics(vs: JsMap.AList<int, Tile>)
    ensures RareRule(vs) == NoAward <==> forall i :: 0 <= i < |vs| ==> !IsRare(vs[i].1.letter)
    ensures RareRule(vs) != NoAward ==>
      (exists i :: 0 <= i < |vs| && IsRare(vs[i].1.letter)
         && (forall j :: 0 <= j < i ==> !IsRare(vs[j].1.letter))
         && RareRule(vs) == RuleResult(75, {vs[i].1.id}, 1))
  {
    if |vs| > 0 && !IsRare(vs[0].1.letter) {
      var tail := vs[1..];
      RareRuleSemantics(tail);
      assert forall i :: 0 < i < |vs| ==> vs[i] == tail[i - 1];
      if RareRule(vs) != NoAward {
        var i :| 0 <= i < |tail| && IsRare(tail[i].1.letter)
          && (forall j :: 0 <= j < i ==> !IsRare(tail[j].1.letter))
          && RareRule(vs) == RuleResult(75, {tail[i].1.id}, 1);
        assert vs[i + 1] == tail[i];
      }
    }
  }

  /** let_no_vowels: 100 once, for the first word text with no A, E, I, O or
      U (Y does not count as a vowel). */
  function NoVowelRule(es: Entries): RuleResult {
    if |es| == 0 then NoAward
    else if !HasVowel(es[0].0) then RuleResult(100, IdSet(es[0].1), 1)
    else NoVowelRule(es[1..])
  }

  /** let_no_vowels awards nothing exactly when every word text has a vowel;
      otherwise it awards 100 once, for the tiles of the first word without. */
  lemma {:induction false} NoVowelRuleSemantics(es: Entries)
    ensures NoVowelRule(es) == NoAward <==> forall i :: 0 <= i < |es| ==> HasVowel(es[i].0)
    ensures NoVowelRule(es) != NoAward ==>
      (exists i :: 0 <= i < |es| && !HasVowel(es[i].0)
         && (forall j :: 0 <= j < i ==> HasVowel(es[j].0))
         && NoVowelRule(es) == RuleResult(100, IdSet(es[i].1), 1))
  {
    if |es| > 0 && HasVowel(es[0].0) {
      var tail := es[1..];
      NoVowelRuleSemantics(tail);
      assert forall i :: 0 < i < |es| ==> es[i] == tail[i - 1];
      if NoVowelRule(es) != NoAward {
        var i :| 0 <= i < |tail| && !HasVowel(tail[i].0)
          && (forall j :: 0 <= j < i ==> HasVowel(tail[j].0))
          && NoVowelRule(es) == RuleResult(100, IdSet(tail[i].1), 1);
        assert es[i + 1] == tail[i];
      }
    }
  }

  /** sb_over_20: 40 per valid word whose tiles, looked up by text, sum to
      more than 20; no tile is marked. */
  function Over20Rule(words: seq<string>, m: JsMap.AList<string, seq<Tile>>): (r: RuleResult)
    ensures r.bonus == 40 * r.count && r.contributing == {}
    ensures 0 <= r.count <= |words|
  {
    if |words| == 0 then NoAward
    else
      var rest := Over20Rule(words[1..], m);
      if SumValues(JsMap.Get(m, words[0]).GetOr([])) > 20 then RuleResult(rest.bonus + 40, {}, rest.count + 1)
      else rest
  }

  predicate Heavy(w: string, ts: seq<Tile>) { SumValues(ts) > 20 }

  /** Walking the word list and looking each text up gives one award per
      entry of the map whose tiles sum past 20. */
  lemma {:induction false} Over20Counts(es: Entries, m: JsMap.AList<string, seq<Tile>>)
    requires forall e :: e in es ==> JsMap.Get(m, e.0) == Some(e.1)
    ensures Over20Rule(JsMap.Keys(es), m).count == |Qualifying(es, Heavy)|
    decreases |es|
  {
    if |es| > 0 {
      assert JsMap.Keys(es)[1..] == JsMap.Keys(es[1..]);
      assert es[0] in es;
      Over20Counts(es[1..], m);
    }
  }

  /** sb_over_20 awards 40 for each distinct word text whose tiles are worth
      more than 20 together, and marks no tile. */
  lemma Over20Semantics(ctx: Context)
    requires ctx.validWords == JsMap.Keys(ctx.wordToTiles) && JsMap.DistinctKeys(ctx.wordToTiles)
    ensures var qs := Qualifying(ctx.wordToTiles, Heavy);
      Apply(SbOver20, ctx) == RuleResult(40 * |qs|, {}, |qs|)
  {
    assert Apply(SbOver20, ctx) == Over20Rule(ctx.validWords, ctx.wordToTiles);
    JsMap.GetEntries(ctx.wordToTiles);
    Over20Counts(ctx.wordToTiles, ctx.wordToTiles);
  }

  /** `rule.apply(context)`. */
  function Apply(r: RuleId, ctx: Context): RuleResult {
    match r
    case Len3 => PerWord(ctx.wordToTiles, ThreeLetters, 0, true)
    case Len5Plus => PerWord(ctx.wordToTiles, AtLeastFive, 50, true)
    case Len7Plus => PerWord(ctx.wordToTiles, AtLeastSeven, 100, true)
    case LetRare => RareRule(ctx.allValidTiles)
    case LetNoVowels => NoVowelRule(ctx.wordToTiles)
    case LetEndsS => PerWord(ctx.wordToTiles, EndsS, 50, false)
    case SbOver20 => Over20Rule(ctx.validWords, ctx.wordToTiles)
    case SbAllOnes => PerWord(ctx.wordToTiles, OnesOnly, 20, false)
  }

  predicate Spells(w: string, ts: seq<Tile>) {
    |w| == |ts| && forall i :: 0 <= i < |ts| ==> w[i] == ts[i].letter
  }

  /** What a scan guarantees about the context it builds: the word list is
      the map's key list, each text is longer than two letters and is spelt
      by its tiles, every tile is worth at least 1, and every tile of a word
      is among the valid tiles, which are keyed by their own ids. */
  ghost predicate WellFormedContext(ctx: Context) {
    && ctx.validWords == JsMap.Keys(ctx.wordToTiles)
    && JsMap.DistinctKeys(ctx.wordToTiles)
    && (forall e :: e in ctx.wordToTiles ==>
          |e.0| > 2 && Spells(e.0, e.1)
          && forall t :: t in e.1 ==> t.value >= 1 && t.id in JsMap.Keys(ctx.allValidTiles))
    && (forall i :: 0 <= i < |ctx.allValidTiles| ==> ctx.allValidTiles[i].1.id == ctx.allValidTiles[i].0)
  }

  /** What every rule result promises: nothing negative, a bonus exactly when
      the rule was achieved, and marks only on valid tiles. */
  ghost predicate SoundResult(r: RuleResult, ctx: Context) {
    && r.bonus >= 0 && r.count >= 0
    && (r.bonus == 0 <==> r.count == 0)
    && forall id :: id in r.contributing ==> id in JsMap.Keys(ctx.allValidTiles)
  }

  lemma {:induction false} SumValuesPositive(ts: seq<Tile>)
    requires |ts| > 0 && forall t :: t in ts ==> t.value >= 1
    ensures SumValues(ts) >= 1
  {
    if |ts| > 1 {
      assert ts[1..][0] in ts;
      SumValuesPositive(ts[1..]);
      assert forall t :: t in ts[1..] ==> t in ts;
    }
  }

  lemma {:induction false} SumValuesNonNegative(ts: seq<Tile>)
    requires forall t :: t in ts ==> t.value >= 1
    ensures SumValues(ts) >= 0
  {
    if |ts| > 0 {
      SumValuesNonNegative(ts[1..]);
      assert forall t :: t in ts[1..] ==> t in ts;
    }
  }

  /** With every word worth at least 1, the words together are worth at
      least one point each. */
  lemma {:induction false} SumWordValuesAtLeastCount(es: Entries)
    requires forall e :: e in es ==> |e.1| > 0 && forall t :: t in e.1 ==> t.value >= 1
    ensures SumWordValues(es) >= |es|
  {
    if |es| > 0 {
      SumValuesPositive(es[0].1);
      assert forall e :: e in es[1..] ==> e in es;
      SumWordValuesAtLeastCount(es[1..]);
    }
  }

  lemma PerWordSound(ctx: Context, q: (string, seq<Tile>) -> bool, flat: int, addValues: bool)
    requires WellFormedContext(ctx)
    requires flat >= 0 && (addValues || flat > 0)
    ensures SoundResult(PerWord(ctx.wordToTiles, q, flat, addValues), ctx)
  {
    var es := ctx.wordToTiles;
    var qs := Qualifying(es, q);
    var n := |qs|;
    PerWordCount(es, q, flat, addValues);
    PerWordBonus(es, q, flat, addValues);
    PerWordTiles(es, q, flat, addValues);
    assert forall e :: e in qs ==> e in es;
    var extra := if addValues then SumWordValues(qs) else 0;
    if addValues {
      SumWordValuesAtLeastCount(qs);
    }
    assert extra >= 0 && (addValues ==> extra >= n);
    FlatTimes(flat, n);
    UnionIdsWithin(qs, JsMap.Keys(ctx.allValidTiles));
  }

  lemma FlatTimes(flat: int, n: nat)
    requires flat >= 0
    ensures flat * n >= 0
    ensures n > 0 && flat > 0 ==> flat * n >= flat
    ensures n == 0 ==> flat * n == 0
  {}

  lemma {:induction false} UnionIdsWithin(es: Entries, keys: seq<int>)
    requires forall e, t :: e in es && t in e.1 ==> t.id in keys
    ensures forall id :: id in UnionIds(es) ==> id in keys
  {
    if |es| > 0 {
      assert forall e :: e in es[1..] ==> e in es;
      UnionIdsWithin(es[1..], keys);
    }
  }

  /** Every rule of the catalog, applied to any context a scan can build,
      returns a sound result: bonus and count are never negative, the bonus
      is zero exactly when the count is, and only valid tiles are marked. */
  lemma ApplySound(rule: RuleId, ctx: Context)
    requires WellFormedContext(ctx)
    ensures SoundResult(Apply(rule, ctx), ctx)
  {
    match rule
    case Len3 => PerWordSound(ctx, ThreeLetters, 0, true);
    case Len5Plus => PerWordSound(ctx, AtLeastFive, 50, true);
    case Len7Plus => PerWordSound(ctx, AtLeastSeven, 100, true);
    case LetEndsS => PerWordSound(ctx, EndsS, 50, false);
    case SbAllOnes => PerWordSound(ctx, OnesOnly, 20, false);
    case SbOver20 =>
    case LetRare =>
      RareRuleSemantics(ctx.allValidTiles);
      if Apply(rule, ctx) != NoAward {
        var vs := ctx.allValidTiles;
        var i :| 0 <= i < |vs| && Apply(rule, ctx) == RuleResult(75, {vs[i].1.id}, 1);
        assert vs[i].1.id == vs[i].0;
      }
    case LetNoVowels =>
      NoVowelRuleSemantics(ctx.wordToTiles);
      if Apply(rule, ctx) != NoAward {
        var es := ctx.wordToTiles;
        var i :| 0 <= i < |es| && Apply(rule, ctx) == RuleResult(100, IdSet(es[i].1), 1);
        assert es[i] in es;
      }
  }

  /** Filtering keeps the keys distinct... */
  lemma {:induction false} QualifyingDistinct(es: Entries, q: (string, seq<Tile>) -> bool)
    requires JsMap.DistinctKeys(es)
    ensures JsMap.DistinctKeys(Qualifying(es, q))
  {
    if |es| > 0 {
      QualifyingDistinct(es[1..], q);
      var rest := Qualifying(es[1..], q);
      assert forall e :: e in rest ==> e in es[1..];
      assert forall e :: e in es[1..] ==> e.0 != es[0].0;
    }
  }

  /** ...and keeps exactly the texts of the qualifying entries. */
  lemma QualifyingKeys(es: Entries, q: (string, seq<Tile>) -> bool)
    ensures forall w :: w in JsMap.Keys(Qualifying(es, q)) <==>
      exists e :: e in es && e.0 == w && q(e.0, e.1)
  {
    JsMap.KeysMembers(Qualifying(es, q));
  }

  /** len_3 counts each distinct 3-letter word text once, awards the summed
      values of their tiles, and marks exactly those tiles. */
  lemma Len3Semantics(ctx: Context)
    requires WellFormedContext(ctx)
    ensures var qs := Qualifying(ctx.wordToTiles, ThreeLetters);
      && JsMap.DistinctKeys(qs)
      && (forall w :: w in JsMap.Keys(qs) <==> w in ctx.validWords && |w| == 3)
      && Apply(Len3, ctx) == RuleResult(SumWordValues(qs), UnionIds(qs), |qs|)
  {
    var es := ctx.wordToTiles;
    QualifyingDistinct(es, ThreeLetters);
    QualifyingKeys(es, ThreeLetters);
    PerWordCount(es, ThreeLetters, 0, true);
    PerWordBonus(es, ThreeLetters, 0, true);
    PerWordTiles(es, ThreeLetters, 0, true);
    forall w ensures w in ctx.validWords <==> exists e :: e in es && e.0 == w {
      if w in ctx.validWords {
        var i :| 0 <= i < |es| && JsMap.Keys(es)[i] == w;
        assert es[i] in es;
      }
      if e :| e in es && e.0 == w {
        var i :| 0 <= i < |es| && es[i] == e;
        assert JsMap.Keys(es)[i] == w;
      }
    }
  }

  /** len_5_plus and len_7_plus award their flat amount per long word plus
      the long words' tile values. */
  lemma Len5Semantics(ctx: Context)
    ensures var q5 := Qualifying(ctx.wordToTiles, AtLeastFive);
      Apply(Len5Plus, ctx) == RuleResult(50 * |q5| + SumWordValues(q5), UnionIds(q5), |q5|)
  {
    var es := ctx.wordToTiles;
    PerWordCount(es, AtLeastFive, 50, true);
    PerWordBonus(es, AtLeastFive, 50, true);
    PerWordTiles(es, AtLeastFive, 50, true);
  }

  lemma Len7Semantics(ctx: Context)
    ensures var q7 := Qualifying(ctx.wordToTiles, AtLeastSeven);
      Apply(Len7Plus, ctx) == RuleResult(100 * |q7| + SumWordValues(q7), UnionIds(q7), |q7|)
  {
    var es := ctx.wordToTiles;
    PerWordCount(es, AtLeastSeven, 100, true);
    PerWordBonus(es, AtLeastSeven, 100, true);
    PerWordTiles(es, AtLeastSeven, 100, true);
  }

  /** Every word of seven letters or more also has five or more, so the
      seven-letter rule never credits more words or tiles than the five-letter
      one. */
  lemma LongWordsNest(ctx: Context)
    ensures Apply(Len7Plus, ctx).count <= Apply(Len5Plus, ctx).count
    ensures Apply(Len7Plus, ctx).contributing <= Apply(Len5Plus, ctx).contributing
  {
    Len5Semantics(ctx);
    Len7Semantics(ctx);
    FilterNarrows(ctx.wordToTiles);
  }

  lemma {:induction false} FilterNarrows(es: Entries)
    ensures Qualifying(Qualifying(es, AtLeastFive), AtLeastSeven) == Qualifying(es, AtLeastSeven)
    ensures |Qualifying(es, AtLeastSeven)| <= |Qualifying(es, AtLeastFive)|
    ensures UnionIds(Qualifying(es, AtLeastSeven)) <= UnionIds(Qualifying(es, AtLeastFive))
  {
    if |es| > 0 {
      FilterNarrows(es[1..]);
      if AtLeastFive(es[0].0, es[0].1) {
        assert ([es[0]] + Qualifying(es[1..], AtLeastFive))[1..] == Qualifying(es[1..], AtLeastFive);
      }
    }
  }

  /** let_ends_s pays 50 per word text ending in S or s and adds no tile
      values; it marks those words' tiles. */
  lemma EndsSSemantics(ctx: Context)
    ensures var qs := Qualifying(ctx.wordToTiles, EndsS);
      Apply(LetEndsS, ctx) == RuleResult(50 * |qs|, UnionIds(qs), |qs|)
  {
    PerWordCount(ctx.wordToTiles, EndsS, 50, false);
    PerWordBonus(ctx.wordToTiles, EndsS, 50, false);
    PerWordTiles(ctx.wordToTiles, EndsS, 50, false);
  }

  /** sb_all_ones pays 20 per word whose every tile is worth 1 and marks
      those words' tiles. */
  lemma AllOnesSemantics(ctx: Context)
    ensures var qs := Qualifying(ctx.wordToTiles, OnesOnly);
      Apply(SbAllOnes, ctx) == RuleResult(20 * |qs|, UnionIds(qs), |qs|)
  {
    PerWordCount(ctx.wordToTiles, OnesOnly, 20, false);
    PerWordBonus(ctx.wordToTiles, OnesOnly, 20, false);
    PerWordTiles(ctx.wordToTiles, OnesOnly, 20, false);
  }
}
