# scrabdle puzzle engine in Dafny

A model of the daily word-puzzle engine of scrabdle. Every player gets the same
puzzle each day: a seeded generator draws up to three bonus rules and shuffles
a 144-tile bag, and the game deals 24 tiles into a hand. Tiles are dragged
onto a 12×12 board. After every move the board is scanned for words in rows
and columns, and the score is the sum of the word tiles' values, times the
total length of the words, plus the rule bonuses. A five-minute countdown or
the "Submit Final Board" button ends the game. The player's local record keeps
the best score and the last game. A leaderboard route ranks the day's scores.

The modules follow the program:

- `Mulberry` (mulberry.dfy) is the 32-bit core of the seeded generator, as `bv32`.
- `Tiles` (tiles.dfy) holds the letter tables and the unshuffled bag.
- `Generation` (generation.dfy) is the fresh-game path: rule draw, shuffle, deal.
- `Board` (board.dfy) holds the grid of optional placed tiles.
- `JsMap` (jsmap.dfy) models JavaScript `Map` as an association list. `set` on an existing key keeps its position.
- `Rules` (rules.dfy) holds the rule catalog and the eight `apply` functions.
- `Scanner` (scanner.dfy) finds the counted words and builds the rule context.
- `Scoring` (scoring.dfy) is `checkForWords`: totals, rule bonuses and per-tile marks.
- `Play` (play.dfy) covers a game in progress: drag start, drag end, finishing and the countdown.
- `Stats` (stats.dfy) is the once-a-day update of the player's record.
- `Clock` (clock.dfy) holds the two `formatTime` renderings of whole seconds.
- `Leaderboard` (leaderboard.dfy) covers the route's top-ten slice and rank, and the table's rank labels and rows.
- `Decimal` (decimal.dfy) and `Options` (options.dfy) are helpers: numerals and `padStart`, and the `Option` type.

Some things are parameters rather than computed:

- The dictionary is a `set<string>` of lower-case words.
- The generator's output is a stream of numerators. `Generation.Numerators(seed)` gives the real one.
- The outcome of the random-comparator sort of the rule categories is given as an order plus the number of draws it used.
- A drop is given as a board cell, or none when the event has no coordinates.
- Today's date is a string.

The code draws the day's rules first and shuffles the bag after; the model
follows the code, so the shuffle starts at the stream position the rule draw
leaves.

## Model

| member | source | states |
|---|---|---|
| Mulberry.AdvanceStep | src/components/game/Game.tsx:10-11 | each call adds 0x6D2B79F5 to the 32-bit state, wrapping modulo 2^32 |
| Mulberry.IndexAtMost | src/components/game/Game.tsx:16 | with the divisor 4284967296, `floor(r·n)` never exceeds `n` for lists of up to 428 entries |
| Mulberry.IndexPastDivisor | src/components/game/Game.tsx:16 | a numerator at or above 4284967296 makes `floor(r·n)` exactly `n`, one past the end |
| Mulberry.FirstCallOf43 | src/components/game/Game.tsx:10-16 | seed 43's first numerator is 4294155937, which is above the divisor |
| Mulberry.IndexReachesLength | src/components/game/Game.tsx:16 | seed 43's first draw indexes position `n` of any list of up to 428 entries |
| Mulberry.IntendedIndex | src/components/game/Game.tsx:16 | dividing by 2^32 instead keeps every index below `n` |
| Tiles.TableTotal | src/components/game/Game.tsx:51-54 | the distribution table adds up to 144 tiles |
| Tiles.BuildFromLength | src/components/game/Game.tsx:231-237 | the bag loops emit one tile per counted letter |
| Tiles.BuildFromIds | src/components/game/Game.tsx:231-237 | ids come from the running counter with no gap |
| Tiles.BuildFromValues | src/components/game/Game.tsx:56-59 | every tile is a letter A-Z worth its `TileValues` entry |
| Tiles.BuildFromLetterCounts | src/components/game/Game.tsx:231-237 | each letter occurs exactly as often as its distribution entry says |
| Tiles.InitialBagShape | src/components/game/Game.tsx:231-237 | the fresh bag has 144 tiles, and tile `i` has id `i` |
| Tiles.InitialBagFacts | src/components/game/Game.tsx:51-59 | fresh bag: 144 tiles with ids 0-143, per-letter counts from the table, values from `TileValues` |
| Generation.DrawIndexBounds | src/components/game/Game.tsx:226 | as written an index can reach `n` but never pass it; the intended index stays below `n` |
| Generation.PicksBounds | src/components/game/Game.tsx:16 | every pick of the stream obeys those bounds, at every stream position |
| Generation.VisitedSpec | src/components/game/Game.tsx:222-224 | the categories that yield a pick are exactly the non-empty ones among the first three, in order |
| Generation.SelectDraws | src/components/game/Game.tsx:222-228 | the rule draw uses one draw per visited category, so the shuffle starts right after them |
| Generation.SelectSpec | src/components/game/Game.tsx:220-228 | pick `k` is `category.rules[floor(r·len)]` of the `k`-th visited category, with draw `pos + k` |
| Generation.IntendedPicksDefined | src/components/game/Game.tsx:226-227 | with in-range picks every selected rule is a rule of its category |
| Generation.CategoriesOnce | src/components/game/Game.tsx:221-223 | when the sorted categories are a reordering of the catalog, they are three different catalog categories |
| Generation.CategoriesVisited | src/components/game/Game.tsx:221-228 | on such a reordering the loop visits all three categories, so three draws precede the shuffle and each category yields one pick |
| Generation.SelectOnce | src/components/game/Game.tsx:222-228 | pick `k` comes from the `k`-th sorted category, and two defined picks are never the same rule |
| Generation.RulesOnce | src/components/game/Game.tsx:220-230 | a fresh game has three rule slots, one per category, no rule twice, and with the intended divisor none empty |
| Rules.CatalogDisjoint | src/data/rules.ts:29-187 | no rule belongs to two categories |
| Generation.SwapPermutes | src/components/game/Game.tsx:241 | a swap inside the array permutes it |
| Generation.SwapKeepsTiles | src/components/game/Game.tsx:241 | a swap, even past the end, keeps how often each tile is held |
| Generation.ShuffleKeepsTiles | src/components/game/Game.tsx:239-242 | the shuffle uses one draw per step, keeps every tile's count and never shrinks the array |
| Generation.ShuffleGrowth | src/components/game/Game.tsx:239-242 | as written the array grows by at most one cell |
| Generation.ShufflePermutes | src/components/game/Game.tsx:239-242 | with every `j ≤ i` the shuffle is a permutation |
| Generation.ShuffleNoGrowth | src/components/game/Game.tsx:239-242 | started below the top index, the shuffle keeps the length and is a permutation |
| Generation.DealFromPlaces | src/components/game/Game.tsx:244-249 | slot `i + k` gets the `k`-th cell from the top of the bag; the bag keeps its bottom |
| Generation.PopIntoSlot | src/components/game/Game.tsx:247 | popping the last cell into an empty slot moves a tile without losing or copying it |
| Generation.DealFromKeepsTiles | src/components/game/Game.tsx:244-249 | the deal loop loses and copies no tile |
| Generation.DealSpec | src/components/game/Game.tsx:244-251 | the deal fills the hand from the top of the bag, leaves the bottom and keeps every tile |
| Generation.ShuffledDeal | src/components/game/Game.tsx:239-251 | shuffle then deal of 144 cells: 24 slots, 120 or 121 bag cells, every tile kept |
| Generation.DealtTiles | src/components/game/Game.tsx:231-251 | after the deal each of the 144 tiles is in hand or bag exactly once |
| Generation.NewGameTiles | src/components/game/Game.tsx:220-256 | fresh game: empty grid, 24 slots, at most three rules, each tile exactly once across hand and bag |
| Generation.FullDeal | src/components/game/Game.tsx:244-251 | dealing from 144 filled cells fills all 24 slots and leaves 120 filled cells |
| Generation.IntendedDeal | src/components/game/Game.tsx:239-251 | with in-range picks the shuffled deal leaves no empty slot or cell |
| Generation.DealtIntended | src/components/game/Game.tsx:231-251 | the same for the real tile set |
| Generation.NewGameIntended | src/components/game/Game.tsx:220-251 | with the intended divisor: full hand, 120 tiles in the bag, no hole, every rule defined |
| Generation.GrownShuffle | src/components/game/Game.tsx:239-242 | a first shuffle pick of 144 grows the bag to 145 cells with a hole |
| Generation.HoleDealt | src/components/game/Game.tsx:244-251 | dealing from such a bag leaves 121 cells and the hole in hand or bag |
| Generation.DealtGrown | src/components/game/Game.tsx:231-251 | the real tile set, shuffled with a first pick of 144 and dealt, has a hole |
| Generation.GrownBag | src/components/game/Game.tsx:220-251 | as written, a shuffle draw at or above the divisor leaves a fresh game with a hole |
| Generation.SortDrawsOfApril12 | src/components/game/Game.tsx:10-16 | for the seed of 2025-04-12 00:00 UTC the first two draws are at least 0.5, so both comparator results `r - 0.5` are non-negative, and the sixth draw, the shuffle's first after two sort draws and three rule picks, is past the divisor |
| Generation.GrownOnApril12 | src/components/game/Game.tsx:216-251 | that day's game, with the categories in catalog order after two sort draws, deals a hole |
| Generation.CatalogVisited | src/components/game/Game.tsx:222-228 | in catalog order all three categories are visited, so three draws precede the shuffle |
| Rules.RuleNamesUnique | src/data/rules.ts:29-187 | the eight rule ids are pairwise distinct |
| Rules.PerWordCount | src/data/rules.ts:37-51 | a per-word rule counts one achievement per qualifying map entry |
| Rules.PerWordBonus | src/data/rules.ts:54-71 | its bonus is the flat award per entry plus, when the rule adds values, the entries' tile values |
| Rules.PerWordTiles | src/data/rules.ts:171-184 | it marks exactly the tiles of the qualifying entries |
| Rules.RareRuleSemantics | src/data/rules.ts:100-110 | let_rare awards nothing iff no valid tile is J/Q/X/Z; else 75, count 1, and only the first such tile's id |
| Rules.NoVowelRuleSemantics | src/data/rules.ts:113-125 | let_no_vowels awards nothing iff every word has a vowel; else 100, count 1, and the first vowelless word's tiles |
| Rules.Over20Rule | src/data/rules.ts:153-167 | sb_over_20 pays 40 per award, marks no tile, and awards at most once per word |
| Rules.Over20Counts | src/data/rules.ts:157-164 | looking each word up by text gives one award per entry whose tiles sum past 20 |
| Rules.Over20Semantics | src/data/rules.ts:153-167 | sb_over_20 gives 40 × (number of word texts whose tiles sum to more than 20), with no tiles |
| Rules.PerWordSound | src/data/rules.ts:29-187 | the shared per-word loop never goes negative and pays a bonus exactly when it counts an achievement |
| Rules.ApplySound | src/data/rules.ts:29-187 | every rule: bonus ≥ 0, count ≥ 0, bonus 0 iff count 0, contributing ids among the valid tiles |
| Rules.Len3Semantics | src/data/rules.ts:37-51 | len_3 counts the distinct 3-letter texts, pays their tile values and marks their tiles |
| Rules.Len5Semantics | src/data/rules.ts:54-71 | len_5_plus pays 50 per word of 5+ letters plus those words' tile values |
| Rules.Len7Semantics | src/data/rules.ts:74-91 | len_7_plus pays 100 per word of 7+ letters plus those words' tile values |
| Rules.LongWordsNest | src/data/rules.ts:54-91 | every len_7_plus word also counts for len_5_plus, so both its count and its marks are included |
| Rules.FilterNarrows | src/data/rules.ts:54-91 | the 7+ words are the 5+ words that are also 7+ |
| Rules.EndsSSemantics | src/data/rules.ts:128-145 | let_ends_s pays 50 per text ending in S or s, adds no tile values and marks those words' tiles |
| Rules.AllOnesSemantics | src/data/rules.ts:171-184 | sb_all_ones pays 20 per word whose tiles are all worth 1, and marks them |
| JsMap.SetGet | src/components/game/Game.tsx:298-299 | after `set(k, v)`, `get(k)` is `v` and every other key keeps its value |
| JsMap.SetKeys | src/components/game/Game.tsx:298-299 | `set` on an existing key keeps the key order; a new key is appended |
| JsMap.FromPairsSemantics | src/components/game/Game.tsx:298-299 | a map built by repeated `set` holds each key's last value, keys in first-seen order, with no repeats |
| JsMap.LastValueSpec | src/components/game/Game.tsx:299 | that value is the one of the last pair with the key |
| JsMap.GetEntry | src/components/game/Game.tsx:299 | with distinct keys, `get` of an entry's key returns that entry's value |
| Scanner.Walk | src/components/game/Game.tsx:304-312 | the ranges a line walk reports are filled, in bounds and in increasing order |
| Scanner.WalkFindsCountedRuns | src/components/game/Game.tsx:291-313 | a range is reported iff it is a maximal block of filled cells of length > 2 whose lowercase text is in the dictionary |
| Scanner.WalkAtGap | src/components/game/Game.tsx:308-309 | an empty cell ends the current run and restarts the walk after it |
| Scanner.LineScan | src/components/game/Game.tsx:291-313 | `checkLine` reports exactly the counted maximal runs of the line, in order |
| Scanner.LineWordsCount | src/components/game/Game.tsx:296 | each word found in a line passes the count test and has tiles worth at least 1 |
| Scanner.WordsCount | src/components/game/Game.tsx:315-321 | the same for every word of every line |
| Scanner.BoardWordsCount | src/components/game/Game.tsx:291-321 | every word of the board is longer than 2 letters and in the dictionary |
| Scanner.TileEntriesMembers | src/components/game/Game.tsx:298 | the valid-tile map is fed exactly the tiles of the counted runs, each under its id |
| Scanner.RunTilesValid | src/components/game/Game.tsx:298 | every tile of a counted run is a valid tile |
| Scanner.ValidTilesKeyed | src/components/game/Game.tsx:298 | each valid tile is stored under its own id |
| Scanner.WordMapEntries | src/components/game/Game.tsx:299 | each word-map entry is a counted run with its own text |
| Scanner.ContextWellFormed | src/components/game/Game.tsx:328-334 | the rule context's words are the map's keys, distinct, spelt by their tiles, and their tiles are valid |
| Scanner.ScanContextWellFormed | src/components/game/Game.tsx:286-334 | the context of any board with positive tile values is well formed |
| Scanner.LastRunWins | src/components/game/Game.tsx:299 | a repeated text keeps its first position and the tiles of its last run; there are at most as many texts as runs |
| Scanner.ValidTilesDistinct | src/components/game/Game.tsx:323-326 | `basePoints` sums the values of distinct tile ids, so a crossing tile counts once |
| Scanner.ValidTilesKeys | src/components/game/Game.tsx:298 | a tile id is valid iff some counted run holds a tile with that id |
| Scoring.BonusOrderFree | src/components/game/Game.tsx:339-341 | the bonus total does not depend on the order of the rules |
| Scoring.TotalBonusSound | src/components/game/Game.tsx:339-341 | the bonus total is never negative, and it is zero iff no rule is achieved |
| Scoring.MetCountsSpec | src/components/game/Game.tsx:342-344 | the counts map has one entry per achieved rule, holding its count, and no other |
| Scoring.TouchingMembers | src/components/game/Game.tsx:345-350 | the rules listed for a tile are those whose contributing set holds its id |
| Scoring.MarkSpec | src/components/game/Game.tsx:362-369 | marking keeps letter, id, value and coordinates; `isFound` iff the id is valid; `appliedRuleIds` = touching rules, no repeats |
| Scoring.AnnotateKeepsBoard | src/components/game/Game.tsx:362-372 | annotation keeps what the scanner sees and every tile's coordinates |
| Scoring.AnnotateIdempotent | src/components/game/Game.tsx:362-372 | annotating twice is annotating once |
| Scoring.AppliedImpliesFound | src/components/game/Game.tsx:367-368 | a tile carrying a rule mark is a found tile |
| Scoring.TotalLengthAtLeast | src/components/game/Game.tsx:297 | the length total is at least three per counted run, repeats included |
| Scoring.EmptyContextNoAward | src/data/rules.ts:29-187 | with no counted run every rule returns nothing |
| Scoring.EmptyBoardNoBonus | src/components/game/Game.tsx:331-351 | with no counted run the bonus total is zero |
| Scoring.BasePointsPositive | src/components/game/Game.tsx:323-326 | one counted run already makes `basePoints` at least 1 |
| Scoring.NoRunsNoScore | src/components/game/Game.tsx:323-354 | with no counted run all three terms of the score are zero |
| Scoring.RunsScore | src/components/game/Game.tsx:354 | the final score is zero iff there is no counted run |
| Scoring.ScoreFacts | src/components/game/Game.tsx:286-358 | `finalScore = basePoints × totalLengths + bonus`, all terms ≥ 0, no rules means no bonus and no counts, zero iff no word |
| Scoring.ValidValuesPositive | src/components/game/Game.tsx:323-326 | every valid tile is worth at least 1, so `basePoints ≥ 0` |
| Scoring.RescanStable | src/components/game/Game.tsx:286-373 | scoring the scored board again gives the same totals and board |
| Play.Put | src/components/game/Game.tsx:589-590 | a copied grid with one cell replaced and every other cell unchanged |
| Play.RescoreSettled | src/components/game/Game.tsx:605-606 | after a move the totals are the new board's score, the board is settled, and tiles and coordinates are kept |
| Play.StartDragSpec | src/components/game/Game.tsx:375-402 | over or no coordinates: no change; else only the drag is set, consistent with its origin |
| Play.DragEndLands | src/components/game/Game.tsx:588-608 | empty target: the tile lands there, its origin cell or slot is cleared, all else kept, totals rescored |
| Play.LandSpec | src/components/game/Game.tsx:590-608 | a landing also keeps the multiset of tiles over board and hand, and every tile's coordinates |
| Play.LandGridSpec | src/components/game/Game.tsx:589-596 | the raw board of a landing: the tile with its new coordinates, origin emptied, nothing else touched |
| Play.LandGridPieces | src/components/game/Game.tsx:589-603 | a landing only trades the origin for the target |
| Play.DragEndSwaps | src/components/game/Game.tsx:610-621 | occupied target, tile from the board: the two tiles swap, each with its new cell's coordinates |
| Play.SwapSpec | src/components/game/Game.tsx:610-621 | a swap also keeps the hand, the multiset of tiles and every tile's coordinates |
| Play.SwapGridSpec | src/components/game/Game.tsx:612-617 | the raw board of a swap: each tile in the other's cell, nothing else touched |
| Play.SwapGridPieces | src/components/game/Game.tsx:612-617 | a swap trades the two tiles between their cells |
| Play.DragEndOtherwise | src/components/game/Game.tsx:565-628 | any other drop moves nothing and keeps the score; the drag ends unless there is none or no board |
| Play.DragEndKeepsTiles | src/components/game/Game.tsx:565-628 | every drag end keeps the tiles of board and hand, and every tile's coordinates |
| Play.DoneSpec | src/components/game/Game.tsx:632-641 | finishing scores the board once, ends the game, moves no tile, and repeating it changes nothing |
| Play.TicksCountDown | src/components/game/Game.tsx:270-277 | `n` ticks lower the clock by `n` until it reaches 0, which ends the game |
| Play.TicksAtZero | src/components/game/Game.tsx:270-277 | at 0 the clock stays at 0 and the game stays over |
| Play.FullRound | src/components/game/Game.tsx:90 | a 300-second clock ends the game on exactly the 300th tick |
| Play.TickBounds | src/components/game/Game.tsx:271-276 | a tick never takes the clock below 0, always lowers a positive clock, and never reopens a game |
| Play.OverIsFrozen | src/components/game/Game.tsx:380 | once over, with no drag live, drag start, drag end and finishing change nothing |
| Stats.StatsUpdateSpec | src/components/game/Game.tsx:114-134 | an update happens iff over, stats and updater exist and today is not recorded; high score becomes the max, today's game recorded |
| Stats.OncePerDay | src/components/game/Game.tsx:120-122 | after today's update no further update on the same day goes through |
| Stats.HistoryBest | src/components/game/Game.tsx:116-134 | over games on fresh days the high score is the best of all scores and the last game is recorded |
| Stats.HistoryNeverDrops | src/components/game/Game.tsx:125-127 | the high score never drops and the username never changes |
| Clock.JsRem60 | src/components/game/Game.tsx:663 | JavaScript `%` by 60 is the remainder for non-negative counts and takes the dividend's sign otherwise |
| Clock.SecondsFieldDigits | src/components/game/PreGameModal.tsx:7-8 | the seconds field is two digits, has a leading '0' iff below 10, and reads back as `s mod 60` |
| Clock.GameClockRoundTrip | src/components/game/Game.tsx:661-665 | the countdown reads "M:SS", and 60·M + SS gives the seconds back |
| Clock.ModalClockRoundTrip | src/components/game/PreGameModal.tsx:5-9 | the pre-game clock reads "MM:SS", all digits, and 60·MM + SS gives the seconds back |
| Clock.PaddedMinutes | src/components/game/PreGameModal.tsx:6-8 | minutes padded to two characters are digits with the same value |
| Clock.ModalClockWidth | src/components/game/PreGameModal.tsx:8 | for 0 ≤ s < 6000 the pre-game clock is exactly 5 characters with ':' in the middle |
| Clock.ClocksAgree | src/components/game/PreGameModal.tsx:5-9 | the two clocks agree from ten minutes on; below that the pre-game clock has one more leading '0' |
| Decimal.ParseNatToString | src/components/game/PreGameModal.tsx:8 | a rendered number reads back as itself |
| Decimal.ParseLeadingZeros | src/components/game/PreGameModal.tsx:8 | leading zeros do not change the value of a numeral |
| Decimal.PadStart | src/components/game/PreGameModal.tsx:8 | `padStart` keeps a long string, widens a short one to the width, and only adds fill characters in front |
| Leaderboard.TopScores | src/app/api/leaderboard/route.ts:29 | the top slice is the first min(10, n) entries, in order |
| Leaderboard.FindIndexSpec | src/app/api/leaderboard/route.ts:34 | the index is the first entry of the player, and -1 iff there is none |
| Leaderboard.RankDataSpec | src/app/api/leaderboard/route.ts:31-42 | rank data is null iff the player is absent or in the top ten; otherwise rank = index + 1 ≥ 11 with that entry's score and time |
| Leaderboard.ShownOnce | src/app/api/leaderboard/route.ts:29-42 | a player with an entry appears exactly once: in the top slice or in the rank data |
| Leaderboard.TopAhead | src/app/api/leaderboard/route.ts:14-17 | under the query's order the top slice keeps it, and every top entry ranks at or above the player's |
| Leaderboard.FormatRankSpec | src/components/game/Leaderboard.tsx:7-12 | 1, 2 and 3 get "st", "nd", "rd"; every other rank, 11-13 and 21-23 included, gets its numeral + "th" |
| Leaderboard.FormatRankRoundTrip | src/components/game/Leaderboard.tsx:11 | for a positive rank the numeral before the suffix reads back as the rank |
| Leaderboard.RowsSpec | src/components/game/Leaderboard.tsx:94-103 | top rows are numbered 1, 2, … and show their entry's id, score and time, highlighted iff they are the player's; the extra row shows its rank in the ID column and the player's own score and time |

## Left out

- The float result of `mulberry32` is left out. The model keeps the 32-bit numerator `u`, and `Math.floor(u / 4284967296 * n)` becomes the exact quotient `u·n / 4284967296`. The double seed is exact below 2^53, so its reduction modulo 2^32 is exact too.
- The random-comparator `sort` of the rule categories is left out, because its result depends on the engine's sort algorithm. `Generation.NewGame` takes its outcome instead: an order and the number of draws the sort used.
- Deriving the seed from local midnight, and today's ISO date, are left out. The seed and the date are parameters.
- The dictionary module and its loading are left out. The dictionary is a set of lower-case strings.
- React state, effects, batching and `setInterval` scheduling are left out. Ticks, drags and finishing are pure transitions on one `Play.Game`. The countdown effect is not cleared by a manual finish, so ticks go on after `Done`; `Play.Tick` still applies then, and the game stays over.
- The pixel-to-cell arithmetic, the drag offsets, the drag size and the board resizing are left out. A drop is given as a cell, or none.
- The `appliedRuleIds` of a hand tile are `undefined` in the code. They are modelled as an empty list. The next scoring rewrites every tile's marks, so this does not show in any state after a move.
- A rule pick of `undefined` is left out of `Play`: a game's rules are defined rule ids. In the code such a pick makes `checkForWords` throw on `rule.apply`, and that exception is not modelled.
- A drag started before the game ends can still land after it, because the drag end handler does not check the game-over flag. `Play.DragEnd` follows the code, so `Play.OverIsFrozen` assumes no drag is live.
- Saved-state restore, localStorage and the JSON deep copy are left out. The copy is a value copy here.
- The leaderboard's Prisma query, the `parseInt` of the player id, the fetch and its `!currentPlayerId` guard are left out. The query's result is the input list.
- The separator row of the leaderboard table is left out. So is the time column's fractional `formatTime`, which works on floating point.
- Leaderboard.RenderRow: keeps the raw time instead of the formatted one, because that formatter works on floating point.
- Generation.NewGame: the outcome of the category sort is a parameter, so its statements hold for every order and draw count, not for the one a given engine produces. That a sort returns a reordering of the catalog is a hypothesis of `Generation.RulesOnce`, and the two sort draws of 2025-04-12 (`Generation.SortDrawsOfApril12`) are those of V8's timsort; another engine's sort may draw differently.
- The other API routes, the UI components and the persistence context are left out. They are plumbing around the engine.

## Findings

| source | as written | input that shows it | evidently intended | confidence | as-written member | corrected member |
|---|---|---|---|---|---|---|
| src/components/game/Game.tsx:16 | divides the 32-bit output by 4284967296, which is 10^7 less than 2^32 | seed 43: the first numerator is 4294155937 ≥ 4284967296, so `Math.floor(r·n)` is `n` for every list of up to 428 entries | divide by 4294967296, so every draw is in [0, 1) and every index is below `n` | high; not executed | Mulberry.IndexReachesLength | Mulberry.IntendedIndex |
| src/components/game/Game.tsx:239-242 | the shuffle's top step swaps with `bag[144]` when the draw reaches the length | 2025-04-12 for a player on UTC, seed 1744416000000: the first two draws are 3252706553 and 2790215769 over the divisor, both at least 0.5, so a sort that compares neighbours first, as V8's timsort does for three elements, uses two draws and keeps catalog order; the rule picks take draws 2 to 4, and draw 5 is 4294101765, so `j = 144`; the bag grows to 145 cells and a hole is dealt or kept | the shuffle is a permutation of the 144 tiles, and the deal fills 24 slots and leaves 120 tiles | high; not executed | Generation.GrownOnApril12 | Generation.NewGameIntended |
