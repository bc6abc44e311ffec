/** WeeklyPoints.calculateForWeek (services/weeklyPoints.js): per player, the sum of
    the week's daily points, the number of daily wins and the best score; +50 for
    everyone at the most wins and +30 for everyone at the best score; each player's
    row upserted into `weekly_points`, keyed by (week_start, player_id).

    The aggregate query is a function over the rows of its join (a daily ranking
    together with the score of that game). Weeks are identified by the day number
    of their Monday; timestamps are in seconds. */
module WeeklyPoints {
  import opened Common
  import opened Upserts
  import opened DateHelper

  /** A row of the join of `daily_rankings` with `scores`: the ranking's player, rank, points and
      creation time, and the score of that game. */
  datatype RankedScore = RankedScore(playerId: nat, rank: nat, pointsAwarded: nat, score: int, createdAt: int)

  // ---------------------------------------------------------------------------------------
  // The week window

  /** The window as written: `created_at BETWEEN startDate AND startDate + 6 days`, closed
      at both ends, where both bounds are midnights. It stops at the first instant of Sunday. */
  predicate InWindowAsWritten(weekStart: int, t: int)
  {
    weekStart * DaySeconds <= t <= (weekStart + 6) * DaySeconds
  }

  /** The window of the week: from Monday 00:00 up to, not including, the query end of the week
      (the next Monday 00:00), the bound the week information carries for queries. Reading that
      end as exclusive is this model's choice; a `BETWEEN` on it would also take Monday 00:00. */
  predicate InWeek(weekStart: int, t: int)
  {
    weekStart * DaySeconds <= t < InfoFor(weekStart).queryEndDate * DaySeconds
  }

  /** A time is in the week exactly when its day is one of the week's seven days. */
  lemma InWeekByDay(weekStart: int, t: int)
    ensures InWeek(weekStart, t) <==> weekStart <= t / DaySeconds <= weekStart + 6
  {
  }

  /** The window as written is the week cut short at Sunday 00:00. */
  lemma AsWrittenIsWeekUpToSundayMidnight(weekStart: int, t: int)
    ensures InWindowAsWritten(weekStart, t) <==> InWeek(weekStart, t) && t <= (weekStart + 6) * DaySeconds
  {
  }

  /** A ranking created one second into the Sunday of a week lies in that week but outside the
      window as written. */
  lemma AsWrittenMissesSunday(weekStart: int)
    requires Weekday(weekStart) == 1
    ensures var t := (weekStart + 6) * DaySeconds + 1;
            Weekday(t / DaySeconds) == 0 && InWeek(weekStart, t) && !InWindowAsWritten(weekStart, t)
  {
    var t := (weekStart + 6) * DaySeconds + 1;
    assert t / DaySeconds == weekStart + 6;
  }

  // ---------------------------------------------------------------------------------------
  // The aggregate query (GROUP BY player_id)

  /** The points a join row contributes to SUM(points_awarded). */
  function AwardedPoints(r: RankedScore): nat { r.pointsAwarded }

  /** What a join row contributes to COUNT(…) FILTER (WHERE rank = 1). */
  function WinCount(r: RankedScore): nat { if r.rank == 1 then 1 else 0 }

  /** The sum of f over all rows. */
  function Sum(rs: seq<RankedScore>, f: RankedScore -> nat): nat
  {
    if rs == [] then 0 else Sum(rs[..|rs| - 1], f) + f(rs[|rs| - 1])
  }

  /** The sum of f over the rows of player p. */
  function SumWhere(rs: seq<RankedScore>, p: nat, f: RankedScore -> nat): nat
  {
    if rs == [] then 0
    else SumWhere(rs[..|rs| - 1], p, f) + (if rs[|rs| - 1].playerId == p then f(rs[|rs| - 1]) else 0)
  }

  /** Player p has at least one row. */
  predicate HasRows(rs: seq<RankedScore>, p: nat)
  {
    exists i | 0 <= i < |rs| :: rs[i].playerId == p
  }

  /** The players with rows, each once, in order of first appearance. */
  function PlayersOf(rs: seq<RankedScore>): (ps: seq<nat>)
    ensures forall i, j | 0 <= i < j < |ps| :: ps[i] != ps[j]
    ensures forall p :: p in ps <==> HasRows(rs, p)
  {
    if rs == [] then []
    else
      var front := PlayersOf(rs[..|rs| - 1]);
      assert forall i | 0 <= i < |rs| - 1 :: rs[..|rs| - 1][i] == rs[i];
      assert forall q :: HasRows(rs, q) <==> HasRows(rs[..|rs| - 1], q) || rs[|rs| - 1].playerId == q;
      var p := rs[|rs| - 1].playerId;
      if p in front then front else front + [p]
  }

  /** The scores on the rows of player p. */
  function ScoresOf(rs: seq<RankedScore>, p: nat): (scores: seq<int>)
    ensures forall x :: x in scores <==> exists i | 0 <= i < |rs| :: rs[i].playerId == p && rs[i].score == x
  {
    if rs == [] then []
    else
      var front := ScoresOf(rs[..|rs| - 1], p);
      assert forall i | 0 <= i < |rs| - 1 :: rs[..|rs| - 1][i] == rs[i];
      if rs[|rs| - 1].playerId == p then front + [rs[|rs| - 1].score] else front
  }

  /** MAX(s.score) of player p: a score of theirs that none of theirs exceeds. */
  function HighestScoreOf(rs: seq<RankedScore>, p: nat): (h: int)
    requires HasRows(rs, p)
    ensures exists i | 0 <= i < |rs| :: rs[i].playerId == p && rs[i].score == h
    ensures forall i | 0 <= i < |rs| && rs[i].playerId == p :: rs[i].score <= h
  {
    var scores := ScoresOf(rs, p);
    var i :| 0 <= i < |rs| && rs[i].playerId == p;
    assert rs[i].score in scores;
    var h := Max(scores);
    assert h in scores;
    forall j | 0 <= j < |rs| && rs[j].playerId == p ensures rs[j].score <= h {
      assert rs[j].score in scores;
    }
    h
  }

  /** One row of the aggregate query. */
  datatype WeekTotal = WeekTotal(playerId: nat, totalPoints: nat, dailyWins: nat, highestScore: int)

  /** The aggregate of one player with rows. */
  function TotalFor(rs: seq<RankedScore>, p: nat): WeekTotal
    requires HasRows(rs, p)
  {
    WeekTotal(p, SumWhere(rs, p, AwardedPoints), SumWhere(rs, p, WinCount), HighestScoreOf(rs, p))
  }

  /** The aggregate query over the rows of the window: one row per player. */
  function Aggregate(rs: seq<RankedScore>): (totals: seq<WeekTotal>)
    ensures |totals| == |PlayersOf(rs)|
  {
    var ps := PlayersOf(rs);
    assert forall i | 0 <= i < |ps| :: HasRows(rs, ps[i]);
    seq(|ps|, i requires 0 <= i < |ps| => TotalFor(rs, ps[i]))
  }

  /** The join rows created within the week. */
  function WeekRows(records: seq<RankedScore>, weekStart: int): seq<RankedScore>
  {
    Filter(records, (r: RankedScore) => InWeek(weekStart, r.createdAt))
  }

  /** The aggregate query of calculateForWeek, with the week window. */
  function WeekQuery(records: seq<RankedScore>, weekStart: int): (totals: seq<WeekTotal>)
    ensures forall i, j | 0 <= i < j < |totals| :: totals[i].playerId != totals[j].playerId
    ensures forall p :: p in PlayerIds(totals) <==>
              exists k | 0 <= k < |records| :: records[k].playerId == p && InWeek(weekStart, records[k].createdAt)
  {
    var keep := (r: RankedScore) => InWeek(weekStart, r.createdAt);
    AggregateOnePerPlayer(Filter(records, keep));
    HasRowsFiltered(records, keep);
    Aggregate(WeekRows(records, weekStart))
  }

  /** The aggregate query of calculateForWeek, with the window as written. */
  function WeekQueryAsWritten(records: seq<RankedScore>, weekStart: int): (totals: seq<WeekTotal>)
    ensures forall i, j | 0 <= i < j < |totals| :: totals[i].playerId != totals[j].playerId
    ensures forall p :: p in PlayerIds(totals) <==>
              exists k | 0 <= k < |records| :: records[k].playerId == p && InWindowAsWritten(weekStart, records[k].createdAt)
  {
    var keep := (r: RankedScore) => InWindowAsWritten(weekStart, r.createdAt);
    AggregateOnePerPlayer(Filter(records, keep));
    HasRowsFiltered(records, keep);
    Aggregate(Filter(records, keep))
  }

  /** A player has kept rows exactly when one of their rows passes the filter. */
  lemma HasRowsFiltered(records: seq<RankedScore>, keep: RankedScore -> bool)
    ensures forall p :: HasRows(Filter(records, keep), p) <==>
              exists k | 0 <= k < |records| :: records[k].playerId == p && keep(records[k])
  {
    var rows := Filter(records, keep);
    forall p | HasRows(rows, p)
      ensures exists k | 0 <= k < |records| :: records[k].playerId == p && keep(records[k])
    {
      var i :| 0 <= i < |rows| && rows[i].playerId == p;
      assert rows[i] in records;
      var k :| 0 <= k < |records| && records[k] == rows[i];
    }
    forall p | exists k | 0 <= k < |records| :: records[k].playerId == p && keep(records[k])
      ensures HasRows(rows, p)
    {
      var k :| 0 <= k < |records| && records[k].playerId == p && keep(records[k]);
      assert records[k] in rows;
      var i :| 0 <= i < |rows| && rows[i] == records[k];
    }
  }

  /** The players of a list of aggregate rows, in order. */
  function PlayerIds(totals: seq<WeekTotal>): (ids: seq<nat>)
    ensures |ids| == |totals|
  {
    seq(|totals|, i requires 0 <= i < |totals| => totals[i].playerId)
  }

  /** The aggregate has one row per player with rows, each player once, and is empty exactly
      when there are no rows. */
  lemma AggregateOnePerPlayer(rs: seq<RankedScore>)
    ensures forall i, j | 0 <= i < j < |Aggregate(rs)| :: Aggregate(rs)[i].playerId != Aggregate(rs)[j].playerId
    ensures forall p :: p in PlayerIds(Aggregate(rs)) <==> HasRows(rs, p)
    ensures Aggregate(rs) == [] <==> rs == []
  {
    var ps := PlayersOf(rs);
    assert PlayerIds(Aggregate(rs)) == ps;
    if rs != [] {
      assert HasRows(rs, rs[0].playerId);
    }
  }

  /** Each aggregate row holds the player's sum of points, number of wins and best score. */
  lemma AggregateRows(rs: seq<RankedScore>, i: nat)
    requires i < |Aggregate(rs)|
    ensures var t := Aggregate(rs)[i];
            && t.totalPoints == SumWhere(rs, t.playerId, AwardedPoints)
            && t.dailyWins == SumWhere(rs, t.playerId, WinCount)
            && (exists j | 0 <= j < |rs| :: rs[j].playerId == t.playerId && rs[j].score == t.highestScore)
            && (forall j | 0 <= j < |rs| && rs[j].playerId == t.playerId :: rs[j].score <= t.highestScore)
  {
  }

  /** The sum over players ps of their sums of f. */
  function SumOverPlayers(rs: seq<RankedScore>, ps: seq<nat>, f: RankedScore -> nat): nat
  {
    if ps == [] then 0 else SumOverPlayers(rs, ps[..|ps| - 1], f) + SumWhere(rs, ps[|ps| - 1], f)
  }

  /** Adding a row adds its value to the sum over players once when its player is listed. */
  lemma {:induction false} SumOverPlayersSnoc(rs: seq<RankedScore>, r: RankedScore, ps: seq<nat>, f: RankedScore -> nat)
    requires forall i, j | 0 <= i < j < |ps| :: ps[i] != ps[j]
    ensures SumOverPlayers(rs + [r], ps, f) == SumOverPlayers(rs, ps, f) + (if r.playerId in ps then f(r) else 0)
  {
    if ps != [] {
      var n := |ps| - 1;
      SumOverPlayersSnoc(rs, r, ps[..n], f);
      assert (rs + [r])[..|rs|] == rs;
      assert r.playerId in ps <==> r.playerId in ps[..n] || r.playerId == ps[n];
      assert ps[n] !in ps[..n];
    }
  }

  /** Summing per player over every player with rows, each once, gives the sum over all rows. */
  lemma {:induction false} SumOverPlayersCovers(rs: seq<RankedScore>, ps: seq<nat>, f: RankedScore -> nat)
    requires forall i, j | 0 <= i < j < |ps| :: ps[i] != ps[j]
    requires forall i | 0 <= i < |rs| :: rs[i].playerId in ps
    ensures SumOverPlayers(rs, ps, f) == Sum(rs, f)
  {
    if rs == [] {
      assert SumOverPlayers(rs, ps, f) == 0 by {
        SumOverPlayersOfEmpty(ps, f);
      }
    } else {
      var n := |rs| - 1;
      var front := rs[..n];
      SumOverPlayersCovers(front, ps, f);
      SumOverPlayersSnoc(front, rs[n], ps, f);
      assert front + [rs[n]] == rs;
    }
  }

  /** No rows, no sum. */
  lemma {:induction false} SumOverPlayersOfEmpty(ps: seq<nat>, f: RankedScore -> nat)
    ensures SumOverPlayers([], ps, f) == 0
  {
    if ps != [] {
      SumOverPlayersOfEmpty(ps[..|ps| - 1], f);
    }
  }

  function SumTotalPoints(totals: seq<WeekTotal>): nat
  {
    if totals == [] then 0 else SumTotalPoints(totals[..|totals| - 1]) + totals[|totals| - 1].totalPoints
  }

  function SumDailyWins(totals: seq<WeekTotal>): nat
  {
    if totals == [] then 0 else SumDailyWins(totals[..|totals| - 1]) + totals[|totals| - 1].dailyWins
  }

  /** Rows that each hold one player's sums add up to the sums over those players. */
  lemma {:induction false} PerPlayerSums(rs: seq<RankedScore>, totals: seq<WeekTotal>, ps: seq<nat>)
    requires |totals| == |ps|
    requires forall i | 0 <= i < |ps| :: totals[i].totalPoints == SumWhere(rs, ps[i], AwardedPoints)
    requires forall i | 0 <= i < |ps| :: totals[i].dailyWins == SumWhere(rs, ps[i], WinCount)
    ensures SumTotalPoints(totals) == SumOverPlayers(rs, ps, AwardedPoints)
    ensures SumDailyWins(totals) == SumOverPlayers(rs, ps, WinCount)
  {
    if ps != [] {
      var n := |ps| - 1;
      PerPlayerSums(rs, totals[..n], ps[..n]);
    }
  }

  /** Grouping loses nothing: the totals add up to all points awarded in the rows, and the wins
      to the number of first places among them. */
  lemma AggregateConserves(rs: seq<RankedScore>)
    ensures SumTotalPoints(Aggregate(rs)) == Sum(rs, AwardedPoints)
    ensures SumDailyWins(Aggregate(rs)) == Sum(rs, WinCount)
  {
    var ps, totals := PlayersOf(rs), Aggregate(rs);
    assert forall i | 0 <= i < |ps| :: totals[i] == TotalFor(rs, ps[i]);
    PerPlayerSums(rs, totals, ps);
    SumOverPlayersCovers(rs, ps, AwardedPoints);
    SumOverPlayersCovers(rs, ps, WinCount);
  }

  // ---------------------------------------------------------------------------------------
  // Bonuses

  function WinsColumn(totals: seq<WeekTotal>): (col: seq<int>)
    ensures |col| == |totals|
  {
    seq(|totals|, i requires 0 <= i < |totals| => totals[i].dailyWins)
  }

  function ScoreColumn(totals: seq<WeekTotal>): (col: seq<int>)
    ensures |col| == |totals|
  {
    seq(|totals|, i requires 0 <= i < |totals| => totals[i].highestScore)
  }

  /** `mostWins`: Math.max over the wins. */
  function MostWins(totals: seq<WeekTotal>): int
    requires |totals| > 0
  {
    Max(WinsColumn(totals))
  }

  /** `highestScore`: Math.max over the best scores. */
  function TopScore(totals: seq<WeekTotal>): int
    requires |totals| > 0
  {
    Max(ScoreColumn(totals))
  }

  /** The +50 test `player.daily_wins === mostWins`, with the two counts compared as numbers. */
  predicate GetsWinsBonus(totals: seq<WeekTotal>, i: nat)
    requires i < |totals|
  {
    totals[i].dailyWins == MostWins(totals)
  }

  /** The +30 test `player.highest_score === highestScore`. */
  predicate GetsScoreBonus(totals: seq<WeekTotal>, i: nat)
    requires i < |totals|
  {
    totals[i].highestScore == TopScore(totals)
  }

  /** The `bonusPoints` of calculateForWeek: 50 for the most wins, 30 for the best score. */
  function Bonus(totals: seq<WeekTotal>, i: nat): (b: nat)
    requires i < |totals|
    ensures b == 0 || b == 30 || b == 50 || b == 80
    ensures b >= 50 <==> GetsWinsBonus(totals, i)
    ensures b % 50 == 30 <==> GetsScoreBonus(totals, i)
  {
    (if GetsWinsBonus(totals, i) then 50 else 0) + (if GetsScoreBonus(totals, i) then 30 else 0)
  }

  /** A player gets the wins bonus exactly when nobody has more wins: every tied player gets it,
      with no tie-break. */
  lemma WinsBonusIffMaximal(totals: seq<WeekTotal>, i: nat)
    requires i < |totals|
    ensures GetsWinsBonus(totals, i) <==> forall j | 0 <= j < |totals| :: totals[j].dailyWins <= totals[i].dailyWins
  {
    var col := WinsColumn(totals);
    assert forall j | 0 <= j < |totals| :: col[j] == totals[j].dailyWins;
  }

  /** A player gets the score bonus exactly when nobody has a better score. */
  lemma ScoreBonusIffMaximal(totals: seq<WeekTotal>, i: nat)
    requires i < |totals|
    ensures GetsScoreBonus(totals, i) <==> forall j | 0 <= j < |totals| :: totals[j].highestScore <= totals[i].highestScore
  {
    var col := ScoreColumn(totals);
    assert forall j | 0 <= j < |totals| :: col[j] == totals[j].highestScore;
  }

  /** In a week with rows somebody gets +50 and somebody gets +30. */
  lemma BonusRecipientsExist(totals: seq<WeekTotal>)
    requires |totals| > 0
    ensures exists i | 0 <= i < |totals| :: GetsWinsBonus(totals, i)
    ensures exists i | 0 <= i < |totals| :: GetsScoreBonus(totals, i)
  {
    var wins := WinsColumn(totals);
    var k :| 0 <= k < |wins| && wins[k] == Max(wins);
    assert GetsWinsBonus(totals, k);
    var scores := ScoreColumn(totals);
    var l :| 0 <= l < |scores| && scores[l] == Max(scores);
    assert GetsScoreBonus(totals, l);
  }

  /** There is no "more than zero wins" condition: in a week without any win everybody gets +50. */
  lemma NoWinsEverybodyRewarded(totals: seq<WeekTotal>)
    requires |totals| > 0
    requires forall i | 0 <= i < |totals| :: totals[i].dailyWins == 0
    ensures forall i | 0 <= i < |totals| :: Bonus(totals, i) >= 50
  {
    forall i | 0 <= i < |totals| ensures GetsWinsBonus(totals, i) {
      WinsBonusIffMaximal(totals, i);
    }
  }

  // ---------------------------------------------------------------------------------------
  // The +50 test as written: a count compared with `===`

  /** The JavaScript values the comparison sees. */
  datatype JsValue = JsNumber(n: int) | JsString(s: string)

  /** `===` on these values: the same type and the same value. */
  predicate StrictEquals(a: JsValue, b: JsValue)
  {
    a == b
  }

  /** node-postgres hands a bigint column (COUNT) over as its decimal text. */
  function CountAsReturned(n: nat): (v: JsValue)
    ensures v.JsString? && AllDigits(v.s) && DecimalValue(v.s) == n
  {
    DecimalValueOfDecimal(n);
    JsString(Decimal(n))
  }

  /** The +50 test as written: the count, a string, against Math.max's result, a number. */
  predicate GetsWinsBonusAsWritten(totals: seq<WeekTotal>, i: nat)
    requires i < |totals|
  {
    StrictEquals(CountAsReturned(totals[i].dailyWins), JsNumber(MostWins(totals)))
  }

  /** The `bonusPoints` of calculateForWeek as written. */
  function BonusAsWritten(totals: seq<WeekTotal>, i: nat): (b: nat)
    requires i < |totals|
    ensures b <= 30
    ensures b == 30 <==> GetsScoreBonus(totals, i)
  {
    (if GetsWinsBonusAsWritten(totals, i) then 50 else 0) + (if GetsScoreBonus(totals, i) then 30 else 0)
  }

  /** As written, the +50 is never paid, although some player always has the most wins. */
  lemma WinsBonusNeverPaidAsWritten(totals: seq<WeekTotal>)
    requires |totals| > 0
    ensures exists i | 0 <= i < |totals| :: GetsWinsBonus(totals, i) && !GetsWinsBonusAsWritten(totals, i)
    ensures forall i | 0 <= i < |totals| :: BonusAsWritten(totals, i) <= 30
  {
    BonusRecipientsExist(totals);
  }

  /** A lone player with one win and 5000 points: 80 intended, 30 as written. */
  lemma LonePlayerBonus()
    ensures var totals := [WeekTotal(1, 10, 1, 5000)];
            Bonus(totals, 0) == 80 && BonusAsWritten(totals, 0) == 30
  {
    var totals := [WeekTotal(1, 10, 1, 5000)];
    assert WinsColumn(totals) == [1];
    assert ScoreColumn(totals) == [5000];
  }

  // ---------------------------------------------------------------------------------------
  // The weekly_points table

  /** The updatable columns of a `weekly_points` row. */
  datatype WeeklyEntry = WeeklyEntry(totalPoints: nat, dailyWins: nat, highestScore: int, bonusPoints: nat)

  /** The conflict key (week_start, player_id). */
  type WeekKey = (int, nat)

  /** The row calculateForWeek upserts for the player at position i. */
  function EntryFor(totals: seq<WeekTotal>, i: nat): WeeklyEntry
    requires i < |totals|
  {
    WeeklyEntry(totals[i].totalPoints, totals[i].dailyWins, totals[i].highestScore, Bonus(totals, i))
  }

  /** The upserts of the loop of calculateForWeek, in loop order. */
  function WeeklyUpserts(weekStart: int, totals: seq<WeekTotal>): (kvs: seq<(WeekKey, WeeklyEntry)>)
    ensures |kvs| == |totals|
  {
    seq(|totals|, i requires 0 <= i < |totals| => ((weekStart, totals[i].playerId), EntryFor(totals, i)))
  }

  /** After the loop every player of the week holds its aggregate and its bonus. */
  lemma SavedWeek(m: map<WeekKey, WeeklyEntry>, weekStart: int, records: seq<RankedScore>, i: nat)
    requires i < |WeekQuery(records, weekStart)|
    ensures var totals := WeekQuery(records, weekStart);
            var t := totals[i];
            && (weekStart, t.playerId) in UpsertAll(m, WeeklyUpserts(weekStart, totals))
            && UpsertAll(m, WeeklyUpserts(weekStart, totals))[(weekStart, t.playerId)]
               == WeeklyEntry(t.totalPoints, t.dailyWins, t.highestScore, Bonus(totals, i))
  {
    var totals := WeekQuery(records, weekStart);
    var kvs := WeeklyUpserts(weekStart, totals);
    AggregateOnePerPlayer(WeekRows(records, weekStart));
    assert forall a, b | 0 <= a < b < |kvs| :: kvs[a].0 != kvs[b].0;
    UpsertAllDistinct(m, kvs, i);
  }

  /** The rows of other weeks, and of players without rows this week, are untouched. */
  lemma SaveLeavesOtherWeeks(m: map<WeekKey, WeeklyEntry>, weekStart: int, totals: seq<WeekTotal>, k: WeekKey)
    requires k.0 != weekStart || forall i | 0 <= i < |totals| :: totals[i].playerId != k.1
    ensures k in UpsertAll(m, WeeklyUpserts(weekStart, totals)) <==> k in m
    ensures k in m ==> UpsertAll(m, WeeklyUpserts(weekStart, totals))[k] == m[k]
  {
    var kvs := WeeklyUpserts(weekStart, totals);
    assert forall i | 0 <= i < |kvs| :: kvs[i].0 != k;
    UpsertAllOutside(m, kvs, k);
  }

  /** Recomputing a week from the same rows leaves the table as the first run left it. */
  lemma RecomputeWeekIdempotent(m: map<WeekKey, WeeklyEntry>, weekStart: int, totals: seq<WeekTotal>)
    ensures var kvs := WeeklyUpserts(weekStart, totals);
            UpsertAll(UpsertAll(m, kvs), kvs) == UpsertAll(m, kvs)
  {
    UpsertAllIdempotent(m, WeeklyUpserts(weekStart, totals));
  }

  /** One turn of the loop: the bonus added up from the two comparisons is the row's bonus, and
      upserting its row extends the fold by one. */
  lemma SaveStep(m: map<WeekKey, WeeklyEntry>, weekStart: int, totals: seq<WeekTotal>, i: nat, bonus: nat)
    requires i < |totals|
    requires bonus == (if totals[i].dailyWins == MostWins(totals) then 50 else 0)
                      + (if totals[i].highestScore == TopScore(totals) then 30 else 0)
    ensures var t := totals[i];
            var kvs := WeeklyUpserts(weekStart, totals);
            UpsertAll(m, kvs[..i + 1])
            == UpsertAll(m, kvs[..i])[(weekStart, t.playerId) := WeeklyEntry(t.totalPoints, t.dailyWins, t.highestScore, bonus)]
  {
    var kvs := WeeklyUpserts(weekStart, totals);
    assert bonus == Bonus(totals, i);
    assert kvs[i] == ((weekStart, totals[i].playerId), EntryFor(totals, i));
    UpsertAllStep(m, kvs, i);
  }

  /** The `weekly_points` table. */
  class WeeklyPointsTable {
    var entries: map<WeekKey, WeeklyEntry>

    constructor ()
      ensures entries == map[]
    {
      entries := map[];
    }

    /** calculateForWeek: aggregate the week, then upsert each player's row with its bonus.
        A week without rows writes nothing and returns the empty list. */
    method CalculateForWeek(weekStart: int, records: seq<RankedScore>) returns (rows: seq<WeekTotal>)
      modifies this
      ensures rows == WeekQuery(records, weekStart)
      ensures entries == UpsertAll(old(entries), WeeklyUpserts(weekStart, rows))
    {
      rows := WeekQuery(records, weekStart);
      if |rows| == 0 {
        return;
      }
      SaveWeek(weekStart, rows);
    }

    /** The body of calculateForWeek after the query: the two maxima, then one upsert per player in list order. */
    method SaveWeek(weekStart: int, rows: seq<WeekTotal>)
      requires |rows| > 0
      modifies this
      ensures entries == UpsertAll(old(entries), WeeklyUpserts(weekStart, rows))
    {
      var mostWins := MostWins(rows);
      var highestScore := TopScore(rows);
      ghost var kvs := WeeklyUpserts(weekStart, rows);
      for i := 0 to |rows|
        invariant entries == UpsertAll(old(entries), kvs[..i])
      {
        var player := rows[i];
        var bonus := 0;
        if player.dailyWins == mostWins {
          bonus := bonus + 50;
        }
        if player.highestScore == highestScore {
          bonus := bonus + 30;
        }
        SaveStep(old(entries), weekStart, rows, i, bonus);
        entries := entries[(weekStart, player.playerId) :=
                           WeeklyEntry(player.totalPoints, player.dailyWins, player.highestScore, bonus)];
      }
      assert kvs[..|rows|] == kvs;
    }
  }
}
