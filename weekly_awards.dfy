/** finalizeWeeklyAwards (services/weeklyAwards.js): the ten best players of a week by
    weekly total get a fixed payout by position, plus their weekly bonus, upserted into
    `weekly_awards`, keyed by (week_start, player_id). The week's rows arrive ordered
    by total points, best first, as the query returns them. */
module WeeklyAwards {
  import opened Upserts

  /** WEEKLY_POINTS: the payout for positions 1 to 10. */
  const WeeklyPayouts: seq<nat> := [250, 180, 150, 120, 100, 80, 60, 40, 20, 10]

  /** A row of the query: a `weekly_points` row of the week. */
  datatype WeeklyRow = WeeklyRow(playerId: nat, totalPoints: int, bonusPoints: int, highestScore: int)

  /** The updatable columns of a `weekly_awards` row. */
  datatype Award = Award(rank: nat, pointsAwarded: nat, bonusPoints: int, totalPoints: int, highestScore: int)

  /** The conflict key (week_start, player_id). */
  type AwardKey = (int, nat)

  /** LIMIT 10: the first ten rows, or all of them when there are fewer. */
  function TopTen(ordered: seq<WeeklyRow>): (top: seq<WeeklyRow>)
    ensures |top| <= 10 && |top| <= |ordered|
    ensures |top| == |ordered| || |top| == 10
    ensures top == ordered[..|top|]
  {
    if |ordered| <= 10 then ordered else ordered[..10]
  }

  /** WEEKLY_POINTS[i] || 0: the payout for position i (from 0), nothing past the table. */
  function Payout(i: nat): (p: nat)
    ensures i < 10 ==> p == WeeklyPayouts[i]
    ensures i >= 10 ==> p == 0
  {
    if i < |WeeklyPayouts| then WeeklyPayouts[i] else 0
  }

  /** The payout falls strictly with every position, from 250 for the winner to 10 for tenth place,
      and the ten payouts come to 1010 points. */
  lemma PayoutsStrictlyDecreasing()
    ensures forall i, j | 0 <= i < j < 10 :: Payout(i) > Payout(j)
    ensures Payout(0) == 250 && Payout(9) == 10
    ensures PayoutTotal(10) == 1010
  {
    forall i, j | 0 <= i < j < 10 ensures Payout(i) > Payout(j) {
      PayoutChain(i, j);
    }
    assert PayoutTotal(10) == 1010 by {
      assert PayoutTotal(5) == 800;
    }
  }

  /** Each payout is above the next one. */
  lemma PayoutAdjacent(i: nat)
    requires i < 9
    ensures Payout(i) > Payout(i + 1)
  {
  }

  /** Each payout is above every later one within the table, step by step. */
  lemma {:induction false} PayoutChain(i: nat, j: nat)
    requires i < j < 10
    ensures Payout(i) > Payout(j)
    decreases j - i
  {
    PayoutAdjacent(j - 1);
    if i < j - 1 {
      PayoutChain(i, j - 1);
    }
  }

  /** The payouts of the first n positions together. */
  function PayoutTotal(n: nat): nat
  {
    if n == 0 then 0 else PayoutTotal(n - 1) + Payout(n - 1)
  }

  /** The award of finalizeWeeklyAwards and the row it upserts for position i. */
  function AwardFor(row: WeeklyRow, i: nat): (a: Award)
    ensures a.rank == i + 1
    ensures a.totalPoints - a.bonusPoints == a.pointsAwarded == Payout(i)
    ensures a.bonusPoints == row.bonusPoints && a.highestScore == row.highestScore
  {
    var pointsAwarded := Payout(i);
    Award(i + 1, pointsAwarded, row.bonusPoints, pointsAwarded + row.bonusPoints, row.highestScore)
  }

  /** The upserts of the loop, in loop order. */
  function AwardUpserts(weekStart: int, top: seq<WeeklyRow>): (kvs: seq<(AwardKey, Award)>)
    ensures |kvs| == |top|
  {
    seq(|top|, i requires 0 <= i < |top| => ((weekStart, top[i].playerId), AwardFor(top[i], i)))
  }

  /** The players that receive an award row. */
  function Awarded(ordered: seq<WeeklyRow>): set<nat>
  {
    set i | 0 <= i < |TopTen(ordered)| :: TopTen(ordered)[i].playerId
  }

  /** At most ten players are awarded, and with the rows best first, every awarded player has at
      least the weekly total of every player left out. */
  lemma AwardedAreTheBest(ordered: seq<WeeklyRow>)
    requires forall a, b | 0 <= a < b < |ordered| :: ordered[a].totalPoints >= ordered[b].totalPoints
    ensures |Awarded(ordered)| <= 10
    ensures forall i, j | 0 <= i < |TopTen(ordered)| <= j < |ordered| :: ordered[i].totalPoints >= ordered[j].totalPoints
  {
    PlayersBound(TopTen(ordered));
  }

  /** A list of rows holds no more players than rows. */
  lemma {:induction false} PlayersBound(rows: seq<WeeklyRow>)
    ensures |set i | 0 <= i < |rows| :: rows[i].playerId| <= |rows|
  {
    if rows != [] {
      var n := |rows| - 1;
      PlayersBound(rows[..n]);
      assert (set i | 0 <= i < |rows| :: rows[i].playerId)
             == (set i | 0 <= i < n :: rows[..n][i].playerId) + {rows[n].playerId};
    }
  }

  /** After the loop, a player listed once at position i holds the award of that position:
      rank i + 1, its payout, the bonus copied, their sum, and the best score copied. */
  lemma SavedAward(m: map<AwardKey, Award>, weekStart: int, ordered: seq<WeeklyRow>, i: nat)
    requires i < |TopTen(ordered)|
    requires forall j | 0 <= j < |TopTen(ordered)| && j != i :: ordered[j].playerId != ordered[i].playerId
    ensures (weekStart, ordered[i].playerId) in UpsertAll(m, AwardUpserts(weekStart, TopTen(ordered)))
    ensures UpsertAll(m, AwardUpserts(weekStart, TopTen(ordered)))[(weekStart, ordered[i].playerId)]
            == Award(i + 1, WeeklyPayouts[i], ordered[i].bonusPoints,
                     WeeklyPayouts[i] + ordered[i].bonusPoints, ordered[i].highestScore)
  {
    var top := TopTen(ordered);
    var kvs := AwardUpserts(weekStart, top);
    assert forall j | 0 <= j < |kvs| :: kvs[j].0 == (weekStart, top[j].playerId);
    assert forall j | 0 <= j < |top| :: top[j] == ordered[j];
    UpsertAllLast(m, kvs, (weekStart, top[i].playerId));
    assert LastIndex(kvs, (weekStart, top[i].playerId)) == i;
    assert kvs[i].1 == AwardFor(top[i], i);
  }

  /** Rows of other weeks, and of players outside the top ten, are untouched. */
  lemma SaveLeavesOthers(m: map<AwardKey, Award>, weekStart: int, ordered: seq<WeeklyRow>, k: AwardKey)
    requires k.0 != weekStart || k.1 !in Awarded(ordered)
    ensures k in UpsertAll(m, AwardUpserts(weekStart, TopTen(ordered))) <==> k in m
    ensures k in m ==> UpsertAll(m, AwardUpserts(weekStart, TopTen(ordered)))[k] == m[k]
  {
    var top := TopTen(ordered);
    var kvs := AwardUpserts(weekStart, top);
    forall i | 0 <= i < |kvs| ensures kvs[i].0 != k {
      assert top[i].playerId in Awarded(ordered);
    }
    UpsertAllOutside(m, kvs, k);
  }

  /** Finalizing the same week twice leaves the table as the first run left it. */
  lemma FinalizeIdempotent(m: map<AwardKey, Award>, weekStart: int, ordered: seq<WeeklyRow>)
    ensures var kvs := AwardUpserts(weekStart, TopTen(ordered));
            UpsertAll(UpsertAll(m, kvs), kvs) == UpsertAll(m, kvs)
  {
    UpsertAllIdempotent(m, AwardUpserts(weekStart, TopTen(ordered)));
  }

  /** One turn of the loop: upserting the award of position i extends the fold by one. */
  lemma AwardStep(m: map<AwardKey, Award>, weekStart: int, top: seq<WeeklyRow>, i: nat)
    requires i < |top|
    ensures var kvs := AwardUpserts(weekStart, top);
            UpsertAll(m, kvs[..i + 1]) == UpsertAll(m, kvs[..i])[(weekStart, top[i].playerId) := AwardFor(top[i], i)]
  {
    var kvs := AwardUpserts(weekStart, top);
    assert kvs[i] == ((weekStart, top[i].playerId), AwardFor(top[i], i));
    UpsertAllStep(m, kvs, i);
  }

  /** The `weekly_awards` table. */
  class WeeklyAwardsTable {
    var entries: map<AwardKey, Award>

    constructor ()
      ensures entries == map[]
    {
      entries := map[];
    }

    /** finalizeWeeklyAwards: for each of the first ten rows, upsert the award of its position. */
    method FinalizeWeeklyAwards(weekStart: int, ordered: seq<WeeklyRow>)
      modifies this
      ensures entries == UpsertAll(old(entries), AwardUpserts(weekStart, TopTen(ordered)))
    {
      SaveAwards(weekStart, TopTen(ordered));
    }

    /** The loop of finalizeWeeklyAwards: one upsert per row, in order, with the payout of its position. */
    method SaveAwards(weekStart: int, rows: seq<WeeklyRow>)
      modifies this
      ensures entries == UpsertAll(old(entries), AwardUpserts(weekStart, rows))
    {
      ghost var kvs := AwardUpserts(weekStart, rows);
      for i := 0 to |rows|
        invariant entries == UpsertAll(old(entries), kvs[..i])
      {
        var player := rows[i];
        var pointsAwarded := Payout(i);
        var totalPoints := pointsAwarded + player.bonusPoints;
        var award := Award(i + 1, pointsAwarded, player.bonusPoints, totalPoints, player.highestScore);
        assert award == AwardFor(player, i);
        AwardStep(old(entries), weekStart, rows, i);
        entries := entries[(weekStart, player.playerId) := award];
      }
      assert kvs[..|rows|] == kvs;
    }
  }
}
