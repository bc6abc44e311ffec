/** DailyRanking.calculateForGame (services/dailyRanking.js): the scores of one game,
    best first, get ranks by position and points from a fixed table, and each ranking
    is upserted into `daily_rankings`, keyed by (game_number, player_id). */
module DailyRanking {
  import opened Upserts

  /** A row of the game's score query: whose score it is and its value. */
  datatype GameScore = GameScore(playerId: nat, score: int)

  /** One element of the returned list. */
  datatype Ranking = Ranking(playerId: nat, rank: nat, points: nat)

  /** The updatable columns of a `daily_rankings` row. */
  datatype DailyEntry = DailyEntry(rank: nat, pointsAwarded: nat)

  /** The conflict key (game_number, player_id). */
  type RankKey = (nat, nat)

  /** The point table by rank. */
  const PointStructure: map<nat, nat> := map[1 := 10, 2 := 8, 3 := 7, 4 := 6, 5 := 5, 6 := 4, 7 := 3, 8 := 2, 9 := 1]

  /** pointStructure[rank] || 0: ten points for a win, then 8 down to 1, and nothing from rank 10 on. */
  function PointsFor(rank: nat): (p: nat)
    ensures rank == 1 ==> p == 10
    ensures 2 <= rank <= 9 ==> p == 10 - rank
    ensures rank == 0 || rank >= 10 ==> p == 0
  {
    if rank in PointStructure then PointStructure[rank] else 0
  }

  /** rows.map((player, index) => …): rank is the position plus one, points come from the table. */
  function Rankings(rows: seq<GameScore>): (rs: seq<Ranking>)
    ensures |rs| == |rows|
  {
    seq(|rows|, i requires 0 <= i < |rows| => Ranking(rows[i].playerId, i + 1, PointsFor(i + 1)))
  }

  /** The ranks a list hands out. */
  function RanksOf(rs: seq<Ranking>): set<nat>
  {
    set i | 0 <= i < |rs| :: rs[i].rank
  }

  /** The list keeps the rows' players in order, and its ranks are exactly 1..N, increasing, with no gap. */
  lemma RankingsDense(rows: seq<GameScore>)
    ensures forall i | 0 <= i < |rows| :: Rankings(rows)[i].playerId == rows[i].playerId
    ensures forall i, j | 0 <= i < j < |rows| :: Rankings(rows)[i].rank < Rankings(rows)[j].rank
    ensures forall r: nat :: r in RanksOf(Rankings(rows)) <==> 1 <= r <= |rows|
  {
    var rs := Rankings(rows);
    forall r: nat | 1 <= r <= |rows| ensures r in RanksOf(rs) {
      assert rs[r - 1].rank == r;
    }
  }

  /** Points never grow down the list. */
  lemma RankingsPointsNonIncreasing(rows: seq<GameScore>)
    ensures forall i, j | 0 <= i < j < |rows| :: Rankings(rows)[i].points >= Rankings(rows)[j].points
  {
  }

  /** With the rows in descending score order, a strictly higher score gets a better rank and
      at least as many points. */
  lemma HigherScoreRanksBetter(rows: seq<GameScore>, i: nat, j: nat)
    requires forall a, b | 0 <= a < b < |rows| :: rows[a].score >= rows[b].score
    requires i < |rows| && j < |rows| && rows[i].score > rows[j].score
    ensures Rankings(rows)[i].rank < Rankings(rows)[j].rank
    ensures Rankings(rows)[i].points >= Rankings(rows)[j].points
  {
  }

  /** The points handed out by a list of rankings. */
  function TotalPoints(rs: seq<Ranking>): nat
  {
    if rs == [] then 0 else TotalPoints(rs[..|rs| - 1]) + rs[|rs| - 1].points
  }

  /** The points of ranks 1..n together. */
  function PointsUpTo(n: nat): nat
  {
    if n == 0 then 0 else PointsUpTo(n - 1) + PointsFor(n)
  }

  /** The table pays 46 points in all: ranks beyond 9 add nothing. */
  lemma {:induction false} PointsUpToValue(n: nat)
    ensures n <= 9 ==> PointsUpTo(n) == [0, 10, 18, 25, 31, 36, 40, 43, 45, 46][n]
    ensures n >= 9 ==> PointsUpTo(n) == 46
  {
    if n > 0 {
      PointsUpToValue(n - 1);
    }
  }

  /** The points of a game's list are the table's first N entries together. */
  lemma {:induction false} TotalPointsOfRankings(rows: seq<GameScore>)
    ensures TotalPoints(Rankings(rows)) == PointsUpTo(|rows|)
  {
    if rows != [] {
      var n := |rows| - 1;
      TotalPointsOfRankings(rows[..n]);
      assert Rankings(rows)[..n] == Rankings(rows[..n]);
    }
  }

  /** A game hands out at most 46 points, and exactly 46 once nine or more players took part. */
  lemma GamePointsAtMost46(rows: seq<GameScore>)
    ensures TotalPoints(Rankings(rows)) <= 46
    ensures |rows| >= 9 ==> TotalPoints(Rankings(rows)) == 46
  {
    TotalPointsOfRankings(rows);
    PointsUpToValue(|rows|);
  }

  /** The upserts of the save loop, in loop order. */
  function RankingUpserts(gameNumber: nat, rs: seq<Ranking>): (kvs: seq<(RankKey, DailyEntry)>)
    ensures |kvs| == |rs|
  {
    seq(|rs|, i requires 0 <= i < |rs| => ((gameNumber, rs[i].playerId), DailyEntry(rs[i].rank, rs[i].points)))
  }

  /** The table after saving a game: each of its players holds the rank and points of the last
      row for that player (the only row when players are distinct). */
  lemma SavedEntries(m: map<RankKey, DailyEntry>, gameNumber: nat, rows: seq<GameScore>, i: nat)
    requires i < |rows|
    requires forall j | i < j < |rows| :: rows[j].playerId != rows[i].playerId
    ensures (gameNumber, rows[i].playerId) in UpsertAll(m, RankingUpserts(gameNumber, Rankings(rows)))
    ensures UpsertAll(m, RankingUpserts(gameNumber, Rankings(rows)))[(gameNumber, rows[i].playerId)]
            == DailyEntry(i + 1, PointsFor(i + 1))
  {
    var kvs := RankingUpserts(gameNumber, Rankings(rows));
    var k := (gameNumber, rows[i].playerId);
    assert forall j | 0 <= j < |kvs| :: kvs[j].0 == (gameNumber, rows[j].playerId);
    UpsertAllAt(m, kvs, k);
    assert LastIndex(kvs, k) == i;
  }

  /** Saving a game touches no entry of another game, nor of a player without a row in it. */
  lemma SaveLeavesOthers(m: map<RankKey, DailyEntry>, gameNumber: nat, rows: seq<GameScore>, k: RankKey)
    requires k.0 != gameNumber || forall i | 0 <= i < |rows| :: rows[i].playerId != k.1
    ensures k in UpsertAll(m, RankingUpserts(gameNumber, Rankings(rows))) <==> k in m
    ensures k in m ==> UpsertAll(m, RankingUpserts(gameNumber, Rankings(rows)))[k] == m[k]
  {
    var kvs := RankingUpserts(gameNumber, Rankings(rows));
    assert forall i | 0 <= i < |kvs| :: kvs[i].0 != k;
    UpsertAllOutside(m, kvs, k);
  }

  /** Saving adds exactly the keys (game, player) of the game's rows. */
  lemma SaveKeys(m: map<RankKey, DailyEntry>, gameNumber: nat, rows: seq<GameScore>)
    ensures UpsertAll(m, RankingUpserts(gameNumber, Rankings(rows))).Keys
            == m.Keys + set i | 0 <= i < |rows| :: (gameNumber, rows[i].playerId)
  {
    var kvs := RankingUpserts(gameNumber, Rankings(rows));
    var written := set i | 0 <= i < |rows| :: (gameNumber, rows[i].playerId);
    forall k | k in KeysOf(kvs) ensures k in written {
      var i :| 0 <= i < |kvs| && kvs[i].0 == k;
    }
    forall k | k in written ensures k in KeysOf(kvs) {
      var i :| 0 <= i < |rows| && k == (gameNumber, rows[i].playerId);
      assert kvs[i].0 == k;
    }
  }

  /** Recomputing a game from the same scores leaves the table as the first run left it. */
  lemma RecomputeIdempotent(m: map<RankKey, DailyEntry>, gameNumber: nat, rows: seq<GameScore>)
    ensures var kvs := RankingUpserts(gameNumber, Rankings(rows));
            UpsertAll(UpsertAll(m, kvs), kvs) == UpsertAll(m, kvs)
  {
    UpsertAllIdempotent(m, RankingUpserts(gameNumber, Rankings(rows)));
  }

  /** The `daily_rankings` table. */
  class DailyRankingTable {
    var entries: map<RankKey, DailyEntry>

    constructor ()
      ensures entries == map[]
    {
      entries := map[];
    }

    /** calculateForGame: rank the game's rows (best first) and upsert every ranking in list
        order. A game without rows writes nothing and returns the empty list. */
    method CalculateForGame(gameNumber: nat, rows: seq<GameScore>) returns (rankings: seq<Ranking>)
      modifies this
      ensures rankings == Rankings(rows)
      ensures entries == UpsertAll(old(entries), RankingUpserts(gameNumber, rankings))
    {
      if |rows| == 0 {
        return [];
      }
      rankings := Rankings(rows);
      ghost var kvs := RankingUpserts(gameNumber, rankings);
      for i := 0 to |rankings|
        invariant entries == UpsertAll(old(entries), kvs[..i])
      {
        var ranking := rankings[i];
        assert kvs[i] == ((gameNumber, ranking.playerId), DailyEntry(ranking.rank, ranking.points));
        UpsertAllStep(old(entries), kvs, i);
        entries := entries[(gameNumber, ranking.playerId) := DailyEntry(ranking.rank, ranking.points)];
      }
      assert kvs[..|rankings|] == kvs;
    }
  }
}
