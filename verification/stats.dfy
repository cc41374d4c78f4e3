/** The player's stored record and the game-over effect that updates it: at
    most once per day, the best score so far and the last game played. */
module Stats {
  import opened Options

  datatype LastGame = LastGame(date: string, score: int)

  datatype PlayerStats = PlayerStats(username: int, highScore: int, lastGame: Option<LastGame>)

  function Max(a: int, b: int): int {
    if a < b then b else a
  }

  /** The stats-update effect. It runs when the game is over and both the
      stored stats and the update function are at hand; `today` is the UTC
      date of the clock. `None` is "no update": the guard failed, or a game
      of today is already recorded. */
  function StatsUpdate(over: bool, stats: Option<PlayerStats>, canUpdate: bool,
                       today: string, finalScore: int): (r: Option<PlayerStats>)
  {
    if !(over && stats.Some? && canUpdate) then None
    else
      var s := stats.value;
      if s.lastGame.Some? && s.lastGame.value.date == today then None
      else
        var best := if finalScore > s.highScore then finalScore else s.highScore;
        Some(s.(highScore := best, lastGame := Some(LastGame(today, finalScore))))
  }

  /** An update happens exactly when the game is over, the stats and the
      update function exist and today's game is not yet recorded; it keeps
      the username, raises the high score to the final score when that is
      higher and records today's game. */
  lemma StatsUpdateSpec(over: bool, stats: Option<PlayerStats>, canUpdate: bool,
                        today: string, finalScore: int)
    ensures var r := StatsUpdate(over, stats, canUpdate, today, finalScore);
      && (r.Some? <==>
            over && stats.Some? && canUpdate
            && !(stats.value.lastGame.Some? && stats.value.lastGame.value.date == today))
      && (r.Some? ==>
            && r.value.username == stats.value.username
            && r.value.highScore == Max(stats.value.highScore, finalScore)
            && r.value.highScore >= stats.value.highScore
            && r.value.highScore >= finalScore
            && r.value.lastGame == Some(LastGame(today, finalScore)))
  {
  }

  /** Once today's game is recorded, no later update on the same day goes
      through, whatever the score. */
  lemma OncePerDay(over: bool, stats: Option<PlayerStats>, canUpdate: bool,
                   today: string, finalScore: int, laterScore: int)
    requires StatsUpdate(over, stats, canUpdate, today, finalScore).Some?
    ensures var s := StatsUpdate(over, stats, canUpdate, today, finalScore).value;
      StatsUpdate(true, Some(s), true, today, laterScore).None?
  {
  }

  /** The record after a run of finished games, one per entry of `games`
      as (date, final score), each offered to the update in turn. */
  function History(s: PlayerStats, games: seq<(string, int)>): PlayerStats
    decreases |games|
  {
    if |games| == 0 then s
    else
      var r := StatsUpdate(true, Some(s), true, games[0].0, games[0].1);
      History(if r.Some? then r.value else s, games[1..])
  }

  /** The best of a starting value and a run of scores. */
  function Best(start: int, games: seq<(string, int)>): int
    decreases |games|
  {
    if |games| == 0 then start else Best(Max(start, games[0].1), games[1..])
  }

  /** No two games of the run share their date with the one recorded just
      before them. */
  ghost predicate OnFreshDays(s: PlayerStats, games: seq<(string, int)>) {
    && (|games| > 0 && s.lastGame.Some? ==> games[0].0 != s.lastGame.value.date)
    && forall k :: 0 < k < |games| ==> games[k].0 != games[k - 1].0
  }

  /** Over games on fresh days every game is recorded: the high score ends
      as the best of the old high score and every final score, and the last
      game is the last of the run. */
  lemma {:induction false} HistoryBest(s: PlayerStats, games: seq<(string, int)>)
    requires OnFreshDays(s, games)
    ensures var h := History(s, games);
      && h.highScore == Best(s.highScore, games)
      && h.username == s.username
      && (|games| > 0 ==> h.lastGame == Some(LastGame(games[|games| - 1].0, games[|games| - 1].1)))
    decreases |games|
  {
    if |games| > 0 {
      var r := StatsUpdate(true, Some(s), true, games[0].0, games[0].1);
      StatsUpdateSpec(true, Some(s), true, games[0].0, games[0].1);
      assert OnFreshDays(r.value, games[1..]);
      HistoryBest(r.value, games[1..]);
    }
  }

  /** Whatever the dates, the high score never drops and the username
      never changes. */
  lemma {:induction false} HistoryNeverDrops(s: PlayerStats, games: seq<(string, int)>)
    ensures History(s, games).highScore >= s.highScore
    ensures History(s, games).username == s.username
    decreases |games|
  {
    if |games| > 0 {
      var r := StatsUpdate(true, Some(s), true, games[0].0, games[0].1);
      StatsUpdateSpec(true, Some(s), true, games[0].0, games[0].1);
      HistoryNeverDrops(if r.Some? then r.value else s, games[1..]);
    }
  }
}
