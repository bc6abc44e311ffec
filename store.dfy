/** The `players` and `scores` tables and the three store operations the score
    service uses: Player.findOrCreate (models/Player.js), Score.create and
    Score.hasSubmittedToday (models/Score.js). The players table is keyed by its
    unique wa_id; `scores` is append-only. */
module Store {

  /** A row of `players`: the serial id, the chat account id (unique) and the display name. */
  datatype Player = Player(id: nat, waId: string, name: string)

  /** The accuracy column: Math.round of a finite quotient, or NaN/Infinity when max points is 0. */
  datatype Accuracy = Percent(value: nat) | NotFinite

  /** A row of `scores`; createdAt is the NOW() of the insert, in seconds. */
  datatype ScoreRow = ScoreRow(playerId: nat, roundNumber: nat, points: nat, accuracy: Accuracy, createdAt: int)

  /** The score row belongs to the player whose wa_id is waId (the join of Score.hasSubmittedToday). */
  predicate Owns(players: map<string, Player>, waId: string, row: ScoreRow)
  {
    waId in players && players[waId].id == row.playerId
  }

  /** Score.hasSubmittedToday: some score row of the player with this wa_id has this round number.
      No date takes part, whatever the name says. */
  predicate HasSubmittedToday(players: map<string, Player>, scores: seq<ScoreRow>, waId: string, roundNumber: nat)
    ensures HasSubmittedToday(players, scores, waId, roundNumber) ==> waId in players && |scores| > 0
  {
    exists i | 0 <= i < |scores| :: Owns(players, waId, scores[i]) && scores[i].roundNumber == roundNumber
  }

  /** Table integrity: rows sit under their own wa_id, ids are unique and were drawn from
      the id sequence, and every score row references an id drawn from it. */
  ghost predicate WellFormed(players: map<string, Player>, scores: seq<ScoreRow>, nextId: nat)
  {
    && (forall w | w in players :: players[w].waId == w && players[w].id < nextId)
    && (forall v, w | v in players && w in players && v != w :: players[v].id != players[w].id)
    && (forall i | 0 <= i < |scores| :: scores[i].playerId < nextId)
  }

  /** At most one score per (sender wa_id, round number). */
  ghost predicate OneScorePerRound(players: map<string, Player>, scores: seq<ScoreRow>)
  {
    forall w, i, j | 0 <= i < j < |scores| && Owns(players, w, scores[i]) && Owns(players, w, scores[j]) ::
      scores[i].roundNumber != scores[j].roundNumber
  }

  /** The players table after `INSERT (wa_id, name) … ON CONFLICT (wa_id) DO UPDATE SET name`:
      a new wa_id gets a row with the freshly drawn id; an existing one keeps its id and only
      its name changes; every other row is untouched. */
  function PlayerUpsert(players: map<string, Player>, freshId: nat, waId: string, name: string): (r: map<string, Player>)
    ensures r.Keys == players.Keys + {waId}
    ensures r[waId].waId == waId && r[waId].name == name
    ensures waId in players ==> r[waId].id == players[waId].id
    ensures waId !in players ==> r[waId].id == freshId
    ensures forall w | w in players && w != waId :: r[w] == players[w]
  {
    var id := if waId in players then players[waId].id else freshId;
    players[waId := Player(id, waId, name)]
  }

  /** Calling findOrCreate twice with the same arguments leaves the table as one call left it. */
  lemma PlayerUpsertIdempotent(players: map<string, Player>, id1: nat, id2: nat, waId: string, name: string)
    ensures PlayerUpsert(PlayerUpsert(players, id1, waId, name), id2, waId, name) == PlayerUpsert(players, id1, waId, name)
  {
  }

  /** The upsert keeps the tables well formed when the fresh id is the next one of the sequence. */
  lemma PlayerUpsertWellFormed(players: map<string, Player>, scores: seq<ScoreRow>, nextId: nat, waId: string, name: string)
    requires WellFormed(players, scores, nextId)
    ensures WellFormed(PlayerUpsert(players, nextId, waId, name), scores, nextId + 1)
  {
  }

  /** After appending a row for a player, that player has submitted the row's round,
      whatever time the row was created at. */
  lemma SubmittedAfterCreate(players: map<string, Player>, scores: seq<ScoreRow>, waId: string, row: ScoreRow)
    requires Owns(players, waId, row)
    ensures HasSubmittedToday(players, scores + [row], waId, row.roundNumber)
  {
    assert (scores + [row])[|scores|] == row;
  }

  /** A submission of round r at any earlier time, not only today, makes hasSubmittedToday true. */
  lemma SubmittedIgnoresDates(players: map<string, Player>, scores: seq<ScoreRow>, waId: string, i: nat, when: int)
    requires i < |scores| && Owns(players, waId, scores[i])
    ensures HasSubmittedToday(players, scores[i := scores[i].(createdAt := when)], waId, scores[i].roundNumber)
  {
    assert scores[i := scores[i].(createdAt := when)][i].roundNumber == scores[i].roundNumber;
  }

  /** One submission step of the score service (upsert of the sender, append of one row
      carrying the sender's id) keeps "one score per (wa_id, round)" when the duplicate
      check let it through. */
  lemma {:induction false} SubmitKeepsOneScorePerRound(players: map<string, Player>, scores: seq<ScoreRow>, nextId: nat,
                                                       sender: string, name: string, row: ScoreRow)
    requires WellFormed(players, scores, nextId)
    requires OneScorePerRound(players, scores)
    requires !HasSubmittedToday(players, scores, sender, row.roundNumber)
    requires row.playerId == PlayerUpsert(players, nextId, sender, name)[sender].id
    ensures OneScorePerRound(PlayerUpsert(players, nextId, sender, name), scores + [row])
  {
    var ps := PlayerUpsert(players, nextId, sender, name);
    var ss := scores + [row];
    PlayerUpsertWellFormed(players, scores, nextId, sender, name);
    // Ownership of the old rows does not change: the sender keeps its id or gets one no score uses.
    assert forall w, i | 0 <= i < |scores| && Owns(ps, w, scores[i]) :: Owns(players, w, scores[i]);
    // Ids stay unique, so only the sender owns the new row.
    assert forall w | Owns(ps, w, row) :: w == sender;
    forall w, i, j | 0 <= i < j < |ss| && Owns(ps, w, ss[i]) && Owns(ps, w, ss[j])
      ensures ss[i].roundNumber != ss[j].roundNumber
    {
      assert ss[i] == scores[i];
      if j == |scores| {
        assert Owns(players, sender, scores[i]);
      } else {
        assert ss[j] == scores[j];
      }
    }
  }

  /** The database holding the two tables, with the id sequence of `players`. */
  class Database {
    var players: map<string, Player>
    var nextPlayerId: nat
    var scores: seq<ScoreRow>

    ghost predicate Valid()
      reads this
    {
      WellFormed(players, scores, nextPlayerId)
    }

    constructor ()
      ensures Valid()
      ensures players == map[] && scores == [] && nextPlayerId == 1
    {
      players := map[];
      scores := [];
      nextPlayerId := 1;
    }

    /** Player.findOrCreate. The serial default is drawn before the conflict check, so
        the id sequence advances on every call, also when the wa_id is already present. */
    method FindOrCreatePlayer(waId: string, name: string) returns (p: Player)
      requires Valid()
      modifies this
      ensures Valid()
      ensures p.waId == waId && p.name == name
      ensures players == PlayerUpsert(old(players), old(nextPlayerId), waId, name)
      ensures p == players[waId]
      ensures nextPlayerId == old(nextPlayerId) + 1
      ensures scores == old(scores)
    {
      PlayerUpsertWellFormed(players, scores, nextPlayerId, waId, name);
      var freshId := nextPlayerId;
      nextPlayerId := nextPlayerId + 1;
      players := PlayerUpsert(players, freshId, waId, name);
      p := players[waId];
    }

    /** Score.create: append one row with the given values, stamped with the current time. */
    method CreateScore(playerId: nat, roundNumber: nat, points: nat, accuracy: Accuracy, now: int) returns (row: ScoreRow)
      requires Valid()
      requires exists w | w in players :: players[w].id == playerId
      modifies this
      ensures Valid()
      ensures row == ScoreRow(playerId, roundNumber, points, accuracy, now)
      ensures scores == old(scores) + [row]
      ensures players == old(players) && nextPlayerId == old(nextPlayerId)
      ensures forall w | w in players && players[w].id == playerId :: HasSubmittedToday(players, scores, w, roundNumber)
    {
      row := ScoreRow(playerId, roundNumber, points, accuracy, now);
      forall w | w in players && players[w].id == playerId
        ensures HasSubmittedToday(players, scores + [row], w, roundNumber)
      {
        SubmittedAfterCreate(players, scores, w, row);
      }
      scores := scores + [row];
    }
  }
}
