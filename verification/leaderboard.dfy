/** The daily leaderboard: what the leaderboard route does with the day's
    scores once the database has returned them (best score first, ties by
    shorter time), and how the leaderboard table numbers and labels its rows. */
module Leaderboard {
  import opened Options
  import opened Decimal

  datatype Entry = Entry(playerId: int, score: int, timeTaken: int)

  /** `{ rank, ...entry }`: the rank followed by the entry's own fields. */
  datatype RankData = RankData(rank: int, playerId: int, score: int, timeTaken: int)

  datatype Response = Response(topScores: seq<Entry>, playerRankData: Option<RankData>)

  const TopCount: nat := 10

  /** `a` is listed at or before `b` in the route's ordering: higher score
      first, then shorter time. */
  predicate AtOrAbove(a: Entry, b: Entry) {
    a.score > b.score || (a.score == b.score && a.timeTaken <= b.timeTaken)
  }

  /** The order the query returns the day's scores in. */
  ghost predicate Ordered(es: seq<Entry>) {
    forall i, j :: 0 <= i < j < |es| ==> AtOrAbove(es[i], es[j])
  }

  /** `allScores.slice(0, 10)`. */
  function TopScores(all: seq<Entry>): (top: seq<Entry>)
    ensures |top| == if |all| < TopCount then |all| else TopCount
    ensures forall k :: 0 <= k < |top| ==> top[k] == all[k]
  {
    if |all| < TopCount then all else all[..TopCount]
  }

  /** `allScores.findIndex(s => s.playerId === id)`: -1 when absent. */
  function FindIndex(all: seq<Entry>, id: int): (i: int)
    ensures -1 <= i < |all|
    decreases |all|
  {
    if |all| == 0 then -1
    else if all[0].playerId == id then 0
    else
      var k := FindIndex(all[1..], id);
      if k == -1 then -1 else k + 1
  }

  /** The route's answer for player `id`. */
  function Respond(all: seq<Entry>, id: int): Response {
    var i := FindIndex(all, id);
    var rankData :=
      if i != -1 && i >= TopCount then
        Some(RankData(i + 1, all[i].playerId, all[i].score, all[i].timeTaken))
      else None;
    Response(TopScores(all), rankData)
  }

  /** `findIndex` finds the first entry of the player, and -1 exactly when
      there is none. */
  lemma {:induction false} FindIndexSpec(all: seq<Entry>, id: int)
    ensures var i := FindIndex(all, id);
      && (i == -1 <==> forall k :: 0 <= k < |all| ==> all[k].playerId != id)
      && (i >= 0 ==> all[i].playerId == id && forall k :: 0 <= k < i ==> all[k].playerId != id)
    decreases |all|
  {
    if |all| > 0 && all[0].playerId != id {
      FindIndexSpec(all[1..], id);
      assert forall k :: 1 <= k < |all| ==> all[k] == all[1..][k - 1];
    }
  }

  /** The extra rank row is there exactly when the player has an entry and
      their first one is not among the top ten; it then carries rank
      index + 1, at least 11, and that entry's score and time. */
  lemma RankDataSpec(all: seq<Entry>, id: int)
    ensures var r := Respond(all, id).playerRankData;
      && (r.None? <==>
            (forall k :: 0 <= k < |all| ==> all[k].playerId != id)
            || exists k :: 0 <= k < TopCount && k < |all| && all[k].playerId == id)
      && (r.Some? ==>
            && r.value.rank >= TopCount + 1
            && all[r.value.rank - 1].playerId == id
            && (forall k :: 0 <= k < r.value.rank - 1 ==> all[k].playerId != id)
            && r.value.playerId == id
            && r.value.score == all[r.value.rank - 1].score
            && r.value.timeTaken == all[r.value.rank - 1].timeTaken)
  {
    FindIndexSpec(all, id);
  }

  /** A player with an entry is shown exactly once: among the top ten rows or
      in the extra row, never both; a player without one in neither. */
  lemma ShownOnce(all: seq<Entry>, id: int)
    ensures var b := Respond(all, id);
      var inTop := exists k :: 0 <= k < |b.topScores| && b.topScores[k].playerId == id;
      && (b.playerRankData.Some? ==> !inTop)
      && ((exists k :: 0 <= k < |all| && all[k].playerId == id) <==> inTop || b.playerRankData.Some?)
  {
    FindIndexSpec(all, id);
    var b := Respond(all, id);
    var i := FindIndex(all, id);
    if i >= 0 && i < TopCount {
      assert b.topScores[i].playerId == id;
    }
  }

  /** On the query's ordering the top rows keep that ordering, and every one
      of them ranks at or above the player's extra row. */
  lemma TopAhead(all: seq<Entry>, id: int)
    requires Ordered(all)
    ensures var b := Respond(all, id);
      && Ordered(b.topScores)
      && (b.playerRankData.Some? ==>
            var p := b.playerRankData.value;
            forall k :: 0 <= k < |b.topScores| ==>
              AtOrAbove(b.topScores[k], Entry(p.playerId, p.score, p.timeTaken)))
  {
    var b := Respond(all, id);
    if b.playerRankData.Some? {
      var i := b.playerRankData.value.rank - 1;
      RankDataSpec(all, id);
      assert Entry(b.playerRankData.value.playerId, b.playerRankData.value.score,
                   b.playerRankData.value.timeTaken) == all[i];
    }
  }

  /* ----- the table ----- */

  /** `formatRank`. */
  function FormatRank(rank: int): string {
    if rank == 1 then "1st"
    else if rank == 2 then "2nd"
    else if rank == 3 then "3rd"
    else IntToString(rank) + "th"
  }

  /** Only 1, 2 and 3 get "st", "nd" and "rd"; every other rank, 11 to 13
      and 21 to 23 included, is its numeral followed by "th". Every label
      ends in a two-letter suffix after the numeral of the rank. */
  lemma FormatRankSpec(rank: int)
    ensures var s := FormatRank(rank);
      && |s| >= 3
      && s[..|s| - 2] == IntToString(rank)
      && (rank == 1 <==> s[|s| - 2..] == "st")
      && (rank == 2 <==> s[|s| - 2..] == "nd")
      && (rank == 3 <==> s[|s| - 2..] == "rd")
      && (rank !in {1, 2, 3} <==> s[|s| - 2..] == "th")
  {
    var s := FormatRank(rank);
    var n := IntToString(rank);
    if rank !in {1, 2, 3} {
      assert s == n + "th";
      assert s[..|s| - 2] == n;
      assert s[|s| - 2..] == "th";
    }
  }

  /** For a positive rank the label reads back as the rank. */
  lemma FormatRankRoundTrip(rank: int)
    requires rank >= 1
    ensures var s := FormatRank(rank);
      AllDigits(s[..|s| - 2]) && ParseNat(s[..|s| - 2]) == rank
  {
    FormatRankSpec(rank);
    ParseNatToString(rank);
  }

  /** One row of the table. `playerId` is what the ID column shows. */
  datatype Row = Row(rankLabel: string, playerId: int, score: int, timeTaken: int, highlighted: bool)

  /** `renderRow(rank, entry, isPlayer)`; the time column's fractional
      formatting is not part of this model, so the raw time is kept. */
  function RenderRow(rank: int, e: Entry, isPlayer: bool): Row {
    Row(FormatRank(rank), e.playerId, e.score, e.timeTaken, isPlayer)
  }

  /** The table body: the top rows numbered from 1, then, when the player is
      outside the top ten, a separator and their row built with
      `playerId: rank`. The separator row is left out. */
  function Rows(r: Response, current: int): seq<Row> {
    var top := seq(|r.topScores|, k requires 0 <= k < |r.topScores| =>
      RenderRow(k + 1, r.topScores[k], r.topScores[k].playerId == current));
    match r.playerRankData
    case None => top
    case Some(p) => top + [RenderRow(p.rank, Entry(p.rank, p.score, p.timeTaken), true)]
  }

  /** Row `k` of the top part is labelled with rank k + 1 and shows entry
      `k`'s id, score and time, highlighted iff it is the player's; the
      extra row repeats its rank in the ID column and shows the player's
      own score and time. */
  lemma RowsSpec(all: seq<Entry>, id: int)
    ensures var b := Respond(all, id);
      var rows := Rows(b, id);
      && |rows| == |b.topScores| + (if b.playerRankData.Some? then 1 else 0)
      && (forall k :: 0 <= k < |b.topScores| ==>
            && rows[k].rankLabel == FormatRank(k + 1)
            && rows[k].playerId == all[k].playerId
            && rows[k].score == all[k].score
            && rows[k].timeTaken == all[k].timeTaken
            && (rows[k].highlighted <==> all[k].playerId == id))
      && (b.playerRankData.Some? ==>
            var last := rows[|rows| - 1];
            && last.rankLabel == FormatRank(b.playerRankData.value.rank)
            && last.playerId == b.playerRankData.value.rank
            && last.playerId >= TopCount + 1
            && last.score == b.playerRankData.value.score
            && last.timeTaken == b.playerRankData.value.timeTaken
            && last.highlighted)
  {
    RankDataSpec(all, id);
  }
}
