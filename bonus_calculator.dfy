/** BonusCalculator (services/bonusCalculator.js): which players of a weekly table carry
    the "most wins" and the "highest score" label, both for the live table (decided from
    wins and scores, with a tie-break on the largest weekly sum of daily scores,
    total_daily_scores) and for a stored
    snapshot (read back from the bonus points already paid). Nothing here changes state. */
module BonusCalculator {
  import opened Common

  /** A numeric column as the calculator receives it: a value parseInt reads as an integer,
      or one it cannot read (absent, null or non-numeric text). */
  datatype Field = Int(value: int) | Unparsable

  /** parseInt(x) || 0: the integer read, and 0 when there is none. */
  function IntOrZero(f: Field): int
  {
    if f.Int? then f.value else 0
  }

  /** `x == n` between the raw column and a number. */
  predicate LooseEquals(f: Field, n: int)
  {
    f.Int? && f.value == n
  }

  /** The columns the calculator reads from a weekly table row. */
  datatype StatsRow = StatsRow(name: string, dailyWins: Field, highestScore: Field, totalDailyScores: Field, bonusPoints: Field)

  /** The two labels: most daily wins, highest single score. */
  datatype BonusLabel = MostWinsLabel | HighestScoreLabel

  /** `{ ...player, bonuses }`: the input row with its labels. */
  datatype LabelledRow = LabelledRow(row: StatsRow, bonuses: seq<BonusLabel>)

  function WinsField(p: StatsRow): Field { p.dailyWins }
  function ScoreField(p: StatsRow): Field { p.highestScore }
  function TiebreakField(p: StatsRow): Field { p.totalDailyScores }

  /** players.map(p => parseInt(p[field]) || 0). */
  function Column(players: seq<StatsRow>, field: StatsRow -> Field): (col: seq<int>)
    ensures |col| == |players|
    ensures forall i | 0 <= i < |players| :: col[i] == IntOrZero(field(players[i]))
  {
    seq(|players|, i requires 0 <= i < |players| => IntOrZero(field(players[i])))
  }

  /** Position k holds the largest value of the field, and every earlier position a smaller one. */
  predicate IsFirstMax(rows: seq<StatsRow>, field: StatsRow -> Field, k: nat)
    requires k < |rows|
  {
    && (forall j | 0 <= j < |rows| :: IntOrZero(field(rows[j])) <= IntOrZero(field(rows[k])))
    && (forall j | 0 <= j < k :: IntOrZero(field(rows[j])) < IntOrZero(field(rows[k])))
  }

  /** applyTiebreaker: no winner among no contenders; otherwise the first contender, in input
      order, with the largest tie-break value (a lone contender wins outright). */
  function ApplyTiebreaker(contenders: seq<StatsRow>, field: StatsRow -> Field): (winner: Option<StatsRow>)
    ensures winner.None? <==> |contenders| == 0
    ensures winner.Some? ==> exists k | 0 <= k < |contenders| :: winner.value == contenders[k] && IsFirstMax(contenders, field, k)
  {
    if |contenders| == 0 then None
    else if |contenders| == 1 then Some(contenders[0])
    else
      var col := Column(contenders, field);
      var maxValue := Max(col);
      var keep := (p: StatsRow) => IntOrZero(field(p)) == maxValue;
      var winners := Filter(contenders, keep);
      assert |winners| > 0 && exists k | 0 <= k < |contenders| :: winners[0] == contenders[k] && IsFirstMax(contenders, field, k) by {
        var i :| 0 <= i < |col| && col[i] == maxValue;
        var k := FirstKept(contenders, keep, i);
        FilterFirst(contenders, keep, k);
        assert IsFirstMax(contenders, field, k);
      }
      Some(winners[0])
  }

  /** `mostWins`, Math.max over parseInt(daily_wins) || 0: the most wins, missing values counting as 0. */
  function MostWins(players: seq<StatsRow>): int
    requires |players| > 0
  {
    Max(Column(players, WinsField))
  }

  /** `highestScore`, Math.max over parseInt(highest_score) || 0: the highest score, missing values counting as 0. */
  function TopScore(players: seq<StatsRow>): int
    requires |players| > 0
  {
    Max(Column(players, ScoreField))
  }

  /** `winsContenders`: the players at the most wins, when that is above 0. */
  function WinsContenders(players: seq<StatsRow>): seq<StatsRow>
  {
    if |players| == 0 then []
    else
      var mostWins := MostWins(players);
      Filter(players, (p: StatsRow) => IntOrZero(p.dailyWins) == mostWins && mostWins > 0)
  }

  /** `scoreContenders`: the players at the highest score, when that is above 0. */
  function ScoreContenders(players: seq<StatsRow>): seq<StatsRow>
  {
    if |players| == 0 then []
    else
      var highestScore := TopScore(players);
      Filter(players, (p: StatsRow) => IntOrZero(p.highestScore) == highestScore && highestScore > 0)
  }

  /** `winsWinner`: the wins winner exists only when exactly one player contends. */
  function WinsWinner(players: seq<StatsRow>): (w: Option<StatsRow>)
    ensures w.Some? ==> w.value in players && IntOrZero(w.value.dailyWins) > 0
  {
    var contenders := WinsContenders(players);
    if |contenders| == 1 then Some(contenders[0]) else None
  }

  /** `scoreWinner`: the score winner, ties broken on the largest weekly sum of daily scores
      (total_daily_scores). */
  function ScoreWinner(players: seq<StatsRow>): (w: Option<StatsRow>)
    ensures w.Some? ==> w.value in players && IntOrZero(w.value.highestScore) > 0
  {
    ApplyTiebreaker(ScoreContenders(players), TiebreakField)
  }

  /** Player k alone has the most wins, and that is more than none. */
  ghost predicate SoleWinsLeader(players: seq<StatsRow>, k: nat)
    requires k < |players|
  {
    && IntOrZero(players[k].dailyWins) > 0
    && forall j | 0 <= j < |players| && j != k :: IntOrZero(players[j].dailyWins) < IntOrZero(players[k].dailyWins)
  }

  /** There is a wins winner exactly when one player alone leads on wins with at least one win,
      and that player is the winner; a tie at the top gives no winner. */
  lemma WinsWinnerIffSoleLeader(players: seq<StatsRow>)
    ensures forall k | 0 <= k < |players| && SoleWinsLeader(players, k) :: WinsWinner(players) == Some(players[k])
    ensures WinsWinner(players).Some? ==>
              exists k | 0 <= k < |players| :: SoleWinsLeader(players, k) && WinsWinner(players).value == players[k]
  {
    if |players| > 0 {
      var col := Column(players, WinsField);
      var mostWins := MostWins(players);
      var keep := (p: StatsRow) => IntOrZero(p.dailyWins) == mostWins && mostWins > 0;
      assert WinsContenders(players) == Filter(players, keep);
      assert forall j | 0 <= j < |players| :: col[j] == IntOrZero(players[j].dailyWins);
      forall k | 0 <= k < |players| && SoleWinsLeader(players, k) ensures WinsWinner(players) == Some(players[k]) {
        assert mostWins == IntOrZero(players[k].dailyWins);
        assert OnlyKept(players, keep, k);
        FilterOnlyKept(players, keep, k);
      }
      if WinsWinner(players).Some? {
        var k := FilterSingleOnlyKept(players, keep);
        assert SoleWinsLeader(players, k);
      }
    }
  }

  /** The score contenders are exactly the players at the highest score, when that is above 0. */
  lemma ScoreContendersExact(players: seq<StatsRow>)
    ensures forall p :: p in ScoreContenders(players) <==>
              p in players && IntOrZero(p.highestScore) > 0 &&
              forall j | 0 <= j < |players| :: IntOrZero(players[j].highestScore) <= IntOrZero(p.highestScore)
  {
    if |players| > 0 {
      var col := Column(players, ScoreField);
      var top := TopScore(players);
      forall p | p in players ensures (IntOrZero(p.highestScore) == top) <==>
                 forall j | 0 <= j < |players| :: IntOrZero(players[j].highestScore) <= IntOrZero(p.highestScore)
      {
        var i :| 0 <= i < |players| && players[i] == p;
        assert col[i] == IntOrZero(p.highestScore);
        var m :| 0 <= m < |col| && col[m] == top;
        assert col[m] == IntOrZero(players[m].highestScore);
      }
    }
  }

  /** The score winner, when there is one, is a score contender and, among them, the first with
      the largest weekly sum of daily scores (total_daily_scores); there is one exactly when
      somebody scored above 0. */
  lemma ScoreWinnerIsBestContender(players: seq<StatsRow>)
    ensures ScoreWinner(players).Some? <==> exists i | 0 <= i < |players| :: IntOrZero(players[i].highestScore) > 0
    ensures ScoreWinner(players).Some? ==>
              var cs := ScoreContenders(players);
              exists k | 0 <= k < |cs| :: ScoreWinner(players).value == cs[k] && IsFirstMax(cs, TiebreakField, k)
  {
    ScoreContendersExact(players);
    if exists i | 0 <= i < |players| :: IntOrZero(players[i].highestScore) > 0 {
      var i :| 0 <= i < |players| && IntOrZero(players[i].highestScore) > 0;
      var col := Column(players, ScoreField);
      var m :| 0 <= m < |col| && col[m] == TopScore(players);
      assert col[i] <= col[m];
      assert players[m] in ScoreContenders(players);
    }
    if ScoreContenders(players) != [] {
      var p := ScoreContenders(players)[0];
      assert p in ScoreContenders(players);
      var i :| 0 <= i < |players| && players[i] == p;
    }
  }

  /** The `bonuses` array: the wins label pushed first when it is earned, then the score label. */
  function Labels(wins: bool, score: bool): (labels: seq<BonusLabel>)
    ensures MostWinsLabel in labels <==> wins
    ensures HighestScoreLabel in labels <==> score
    ensures |labels| <= 2 && (|labels| == 2 ==> labels == [MostWinsLabel, HighestScoreLabel])
  {
    (if wins then [MostWinsLabel] else []) + (if score then [HighestScoreLabel] else [])
  }

  /** The live labels of one player: each label goes to every player whose name is the winner's. */
  function LiveLabels(players: seq<StatsRow>, p: StatsRow): (labels: seq<BonusLabel>)
    ensures MostWinsLabel in labels <==> WinsWinner(players).Some? && p.name == WinsWinner(players).value.name
    ensures HighestScoreLabel in labels <==> ScoreWinner(players).Some? && p.name == ScoreWinner(players).value.name
    ensures |labels| <= 2 && (|labels| == 2 ==> labels == [MostWinsLabel, HighestScoreLabel])
  {
    var winsWinner := WinsWinner(players);
    var scoreWinner := ScoreWinner(players);
    Labels(winsWinner.Some? && p.name == winsWinner.value.name, scoreWinner.Some? && p.name == scoreWinner.value.name)
  }

  /** determineBonusWinners: every input row, in order, with its labels. */
  function DetermineBonusWinners(players: seq<StatsRow>): (out: seq<LabelledRow>)
    ensures |out| == |players|
    ensures forall i | 0 <= i < |players| :: out[i].row == players[i]
  {
    seq(|players|, i requires 0 <= i < |players| => LabelledRow(players[i], LiveLabels(players, players[i])))
  }

  /** A row carries the wins label exactly when a wins winner exists and has the row's name, and
      the score label exactly when a score winner exists and has the row's name; so all rows
      carrying a label share one name. */
  lemma LiveLabelsByName(players: seq<StatsRow>, i: nat, j: nat)
    requires i < |players| && j < |players|
    ensures var out := DetermineBonusWinners(players);
            && (MostWinsLabel in out[i].bonuses <==> WinsWinner(players).Some? && players[i].name == WinsWinner(players).value.name)
            && (HighestScoreLabel in out[i].bonuses <==> ScoreWinner(players).Some? && players[i].name == ScoreWinner(players).value.name)
            && (MostWinsLabel in out[i].bonuses && MostWinsLabel in out[j].bonuses ==> players[i].name == players[j].name)
            && (HighestScoreLabel in out[i].bonuses && HighestScoreLabel in out[j].bonuses ==> players[i].name == players[j].name)
  {
    var out := DetermineBonusWinners(players);
    assert out[i].bonuses == LiveLabels(players, players[i]);
    assert out[j].bonuses == LiveLabels(players, players[j]);
  }

  /** The `bonuses` of row i in determineBonusWinnersForSnapshot: the labels of a snapshot row, read back from the bonus points paid. */
  function SnapshotLabels(players: seq<StatsRow>, i: nat): (labels: seq<BonusLabel>)
    requires i < |players|
    ensures IntOrZero(players[i].bonusPoints) < 30 ==> labels == []
    ensures HighestScoreLabel in labels <==> IntOrZero(players[i].bonusPoints) >= 30
    ensures MostWinsLabel in labels ==> IntOrZero(players[i].bonusPoints) >= 50 && WinsWinner(players) == Some(players[i])
    ensures |labels| <= 2 && (|labels| == 2 ==> labels == [MostWinsLabel, HighestScoreLabel])
  {
    var mostWins := MostWins(players);
    var contenders := WinsContenders(players);
    var bonusPoints := IntOrZero(players[i].bonusPoints);
    Labels(mostWins > 0 && |contenders| == 1 && LooseEquals(players[i].dailyWins, mostWins) && bonusPoints >= 50,
           bonusPoints >= 30)
  }

  /** determineBonusWinnersForSnapshot: every input row, in order, with its snapshot labels. */
  function DetermineBonusWinnersForSnapshot(players: seq<StatsRow>): (out: seq<LabelledRow>)
    ensures |out| == |players|
    ensures forall i | 0 <= i < |players| :: out[i].row == players[i]
  {
    seq(|players|, i requires 0 <= i < |players| => LabelledRow(players[i], SnapshotLabels(players, i)))
  }

  /** Snapshot labels: none below 30 bonus points; the score label from 30 on; the wins label in
      front of it only from 50 on and only for the sole leader on wins. */
  lemma SnapshotLabelsExact(players: seq<StatsRow>, i: nat)
    requires i < |players|
    ensures var bonusPoints := IntOrZero(players[i].bonusPoints);
            DetermineBonusWinnersForSnapshot(players)[i].bonuses
            == (if bonusPoints >= 50 && SoleWinsLeader(players, i) then [MostWinsLabel] else [])
               + (if bonusPoints >= 30 then [HighestScoreLabel] else [])
  {
    assert DetermineBonusWinnersForSnapshot(players)[i].bonuses == SnapshotLabels(players, i);
    var mostWins := MostWins(players);
    var col := Column(players, WinsField);
    assert col[i] == IntOrZero(players[i].dailyWins);
    WinsWinnerIffSoleLeader(players);
    if mostWins > 0 && |WinsContenders(players)| == 1 && LooseEquals(players[i].dailyWins, mostWins) {
      var k :| 0 <= k < |players| && SoleWinsLeader(players, k) && WinsWinner(players).value == players[k];
      assert col[k] == IntOrZero(players[k].dailyWins);
      assert k == i;
    }
    if SoleWinsLeader(players, i) {
      assert mostWins == IntOrZero(players[i].dailyWins);
    }
  }
}
