# TimeGuessr bot: scoring and ranking core in Dafny

This project models the scoring and ranking core of a WhatsApp bot that collects
TimeGuessr results from a group chat and keeps daily, weekly and award tables.
The model covers eight parts of the bot:

- **Score ingestion.** `ScoreService.processScore` reads the `TimeGuessr #<round> <points>/<max>` header out of a message and computes the accuracy percentage. It refuses a second score from the same sender for the same round. Otherwise it upserts the sender into `players` and appends one row to `scores`.
- **Player and score store.** `Player.findOrCreate`, `Score.create` and `Score.hasSubmittedToday`.
- **Daily ranking.** `DailyRanking.calculateForGame` ranks a game's scores by position and awards 10, 8, 7, … 1 points. It then upserts `daily_rankings`.
- **Weekly points.** `WeeklyPoints.calculateForWeek` sums each player's week. It is meant to pay +50 to everyone at the most daily wins and +30 to everyone at the best score (see ## Findings), then upserts `weekly_points`.
- **Weekly awards.** `finalizeWeeklyAwards` pays the ten best weekly totals 250 … 10 points plus their bonus, and upserts `weekly_awards`.
- **Bonus labels.** `BonusCalculator` decides which rows of a weekly table carry the "most wins" and "highest score" labels. It does this for the live table and for a stored snapshot.
- **Week boundaries.** `DateHelper` computes the Monday of the current and the previous week, the Sunday that closes each week, and the query end (the next Monday). The model reads that query end as exclusive, a half-open week; the source only says it is there "to include the full Sunday".

How the model is built:

- **Upsert tables.** A table written with `INSERT … ON CONFLICT (key) DO UPDATE` is a map from its conflict key to the updated columns. A loop of such upserts is proved equal to `Upserts.UpsertAll`, a left fold of map updates. Its lemmas give last-writer-wins, "other keys untouched" and idempotence.
- **Store.** The database of the score service is the class `Store.Database`. It holds the `players` map (keyed by `wa_id`), the id sequence of `players`, and the `scores` sequence.
- **Ranking tables.** The daily, weekly and award tables are classes, each with one map field. Their methods are proved against the specification functions beside them.
- **Units.** Times are seconds. Dates are day numbers counted from 1970-01-01, which was a Thursday.
- **Parameters.** The clock and the contact lookup are parameters. So are the rows the ranking queries return.

Files:

| file | module | models |
|---|---|---|
| common.dfy | Common | `Math.max` over a list, `Array.prototype.filter`, decimal numerals and `parseInt` |
| upserts.dfy | Upserts | `ON CONFLICT … DO UPDATE` loops |
| store.dfy | Store | models/Player.js, models/Score.js |
| score_service.dfy | ScoreService | services/scoreService.js |
| daily_ranking.dfy | DailyRanking | services/dailyRanking.js |
| weekly_points.dfy | WeeklyPoints | services/weeklyPoints.js |
| weekly_awards.dfy | WeeklyAwards | services/weeklyAwards.js |
| bonus_calculator.dfy | BonusCalculator | services/bonusCalculator.js |
| date_helper.dfy | DateHelper | services/dateHelper.js |

## Model

| member | source | states |
|---|---|---|
| Upserts.UpsertAll | services/dailyRanking.js:31-40 | a loop of upserts leaves exactly the old keys plus the upserted keys in the table |
| Upserts.UpsertAllAt | services/dailyRanking.js:31-40 | after a loop of upserts, every upserted key holds the row of its last upsert, and every other key keeps its old row |
| Upserts.UpsertAllIdempotent | services/dailyRanking.js:36-38 | running the same upserts again leaves the table unchanged |
| Store.PlayerUpsert | models/Player.js:4-7 | a new wa_id gets one new row with that wa_id, name and the fresh id. An existing wa_id keeps its id and only its name changes. Every other row is unchanged |
| Store.PlayerUpsertIdempotent | models/Player.js:4-7 | calling findOrCreate twice with the same arguments leaves the table as one call does |
| Store.PlayerUpsertWellFormed | models/Player.js:4-7 | the upsert keeps rows under their own wa_id and ids unique and drawn from the sequence |
| Store.HasSubmittedToday | models/Score.js:12-21 | a sender without a players row, or an empty scores table, has never submitted. SubmittedAfterCreate and SubmittedIgnoresDates characterise it further |
| Store.SubmittedAfterCreate | models/Score.js:2-20 | once a row for player p with round r is appended, hasSubmittedToday(p's wa_id, r) holds |
| Store.SubmittedIgnoresDates | models/Score.js:14-17 | a score of round r created at any time makes hasSubmittedToday true, because no date takes part |
| Store.SubmitKeepsOneScorePerRound | services/scoreService.js:24-31 | an upsert of the sender plus one appended row carrying the sender's id keeps "at most one score per (wa_id, round)" when the duplicate check passed |
| Store.Database.FindOrCreatePlayer | models/Player.js:2-10 | the players table becomes the upsert of (wa_id, name). The id sequence advances by one. Scores are unchanged. The returned row has the given wa_id and name |
| Store.Database.CreateScore | models/Score.js:2-9 | exactly one row with the given values and the current time is appended, and the earlier rows are unchanged. Afterwards every wa_id with that player id has submitted the round |
| ScoreService.MatchPrefix | services/scoreService.js:10 | an anchored match of the pattern yields three non-empty all-digit groups |
| ScoreService.MatchPrefixIffHeader | services/scoreService.js:10 | the pattern matches at the start of a text exactly when the text opens with the label, digits, a space, digits, a slash and digits |
| ScoreService.FirstMatch | services/scoreService.js:10 | the match found is the leftmost one: no earlier position matches, and no match means no position matches |
| ScoreService.StripCommas | services/scoreService.js:14-15 | the result has no commas, and a digit-only group comes back unchanged |
| ScoreService.Parse | services/scoreService.js:10-15 | a score is read exactly when the pattern matches at some position of the message |
| ScoreService.ParseIffHeader | services/scoreService.js:10-11 | a message yields a score exactly when it contains the header shape somewhere |
| ScoreService.ParseHeaderText | services/scoreService.js:10-15 | a message starting with the header of (round, points, max), followed by a non-digit or nothing, parses back to exactly those three numbers |
| ScoreService.RoundedPercent | services/scoreService.js:16 | the accuracy r satisfies r - 1/2 <= 100·points/max < r + 1/2 (round half up), and r <= 100 when points <= max |
| ScoreService.RoundedPercentUnique | services/scoreService.js:16 | only one integer satisfies that rounding condition |
| ScoreService.AccuracyOf | services/scoreService.js:16 | the accuracy is not finite exactly when max points is 0. Otherwise it is the rounded percentage |
| ScoreService.Sender | services/scoreService.js:19 | the sender is the author when there is one, else the chat id, and is empty only when both are |
| ScoreService.DisplayName | services/scoreService.js:21 | the name is never empty. It is the push name when set, else the number, and "Unknown Player" when neither is set |
| ScoreService.ProcessScore | services/scoreService.js:5-37 | no header gives null and an untouched store. A repeat of (sender, round) gives null and an untouched store. Otherwise the sender is upserted, the id sequence advances, and exactly one row (sender's id, round, points, accuracy, now) is appended and returned with the display name. The store stays well formed and "one score per (wa_id, round)" is kept |
| DailyRanking.PointsFor | services/dailyRanking.js:20-26 | rank 1 gets 10, ranks 2-9 get 10 - rank, and any other rank gets 0 |
| DailyRanking.Rankings | services/dailyRanking.js:21-28 | one ranking per score row |
| DailyRanking.RankingsDense | services/dailyRanking.js:21-22 | the rankings keep the rows' players in order, ranks strictly increase, and the set of ranks is exactly 1..N |
| DailyRanking.RankingsPointsNonIncreasing | services/dailyRanking.js:20-28 | points never grow down the list |
| DailyRanking.HigherScoreRanksBetter | services/dailyRanking.js:14-26 | with rows in descending score order, a strictly higher score has a better rank and at least as many points |
| DailyRanking.PointsUpToValue | services/dailyRanking.js:20 | the point table's running totals are 10, 18, 25, 31, 36, 40, 43, 45, 46, and 46 from rank 9 on |
| DailyRanking.TotalPointsOfRankings | services/dailyRanking.js:20-28 | the points of a game's list are the table's first N entries summed |
| DailyRanking.GamePointsAtMost46 | services/dailyRanking.js:20-28 | a game hands out at most 46 points, exactly 46 with nine or more players |
| DailyRanking.SavedEntries | services/dailyRanking.js:31-40 | after saving, the (game, player) entry of each player's last row holds rank i+1 and its table points |
| DailyRanking.SaveLeavesOthers | services/dailyRanking.js:31-40 | entries of other games, and of players without a row, are neither added nor changed |
| DailyRanking.SaveKeys | services/dailyRanking.js:31-40 | saving adds exactly the keys (game, player) of the game's rows |
| DailyRanking.RecomputeIdempotent | services/dailyRanking.js:36-38 | recomputing a game from the same rows leaves the table unchanged |
| DailyRanking.DailyRankingTable.CalculateForGame | services/dailyRanking.js:4-43 | returns the rankings of the rows (empty for no rows). The table becomes the old table with every ranking upserted in list order, so nothing is written for an empty game |
| WeeklyPoints.InWeekByDay | services/dateHelper.js:7-9 | a time lies in the week window exactly when its day is one of the week's seven days |
| WeeklyPoints.AsWrittenIsWeekUpToSundayMidnight | services/weeklyPoints.js:6-17 | the window as written is the week cut off at Sunday 00:00 |
| WeeklyPoints.AsWrittenMissesSunday | services/weeklyPoints.js:6-17 | a ranking created at Sunday 00:00:01 of a week is in the week but outside the window as written |
| WeeklyPoints.PlayersOf | services/weeklyPoints.js:18 | GROUP BY player_id gives each player with rows once, and only those players |
| WeeklyPoints.HighestScoreOf | services/weeklyPoints.js:14 | the best score is one of the player's scores and none of theirs exceeds it |
| WeeklyPoints.Aggregate | services/weeklyPoints.js:9-19 | one aggregate row per player with rows |
| WeeklyPoints.AggregateOnePerPlayer | services/weeklyPoints.js:18-21 | aggregate rows have distinct players, exactly those with rows, and there are none exactly when there are no rows |
| WeeklyPoints.AggregateRows | services/weeklyPoints.js:11-14 | each aggregate row holds the player's sum of points and count of rank-1 rows, and a best score that is attained and maximal |
| WeeklyPoints.AggregateConserves | services/weeklyPoints.js:11-18 | the totals add up to all points in the window, and the wins to the number of first places |
| WeeklyPoints.WeekQuery | services/weeklyPoints.js:9-19 | with the week window, the query lists each player once, and lists exactly the players with a ranking created in the week |
| WeeklyPoints.WeekQueryAsWritten | services/weeklyPoints.js:9-19 | with the window as written, the query lists each player once, and lists exactly the players with a ranking created in that window |
| WeeklyPoints.Bonus | services/weeklyPoints.js:29-31 | the bonus is 0, 30, 50 or 80. It is at least 50 exactly for a most-wins player, and has the 30 part exactly for a best-score player |
| WeeklyPoints.WinsBonusIffMaximal | services/weeklyPoints.js:24-30 | a player gets +50 exactly when nobody has more wins, so every tied player gets it |
| WeeklyPoints.ScoreBonusIffMaximal | services/weeklyPoints.js:25-31 | a player gets +30 exactly when nobody has a better score |
| WeeklyPoints.BonusRecipientsExist | services/weeklyPoints.js:24-31 | in a week with rows at least one player gets +50 and at least one gets +30 |
| WeeklyPoints.NoWinsEverybodyRewarded | services/weeklyPoints.js:24-30 | with no wins at all, everybody gets +50 (there is no "> 0" check) |
| WeeklyPoints.CountAsReturned | services/weeklyPoints.js:13 | a COUNT reaches the code as a digit string whose value is the count |
| WeeklyPoints.WinsBonusNeverPaidAsWritten | services/weeklyPoints.js:13-30 | as written, a most-wins player exists but the string-vs-number `===` never pays +50, so every bonus is at most 30 |
| WeeklyPoints.BonusAsWritten | services/weeklyPoints.js:29-31 | as written, the bonus is at most 30 and is 30 exactly for a player at the best score, so the +50 never appears |
| WeeklyPoints.LonePlayerBonus | services/weeklyPoints.js:29-31 | one player with one win: the bonus is 80 when compared as numbers, 30 as written |
| WeeklyPoints.SavedWeek | services/weeklyPoints.js:28-44 | after the loop each player of the week holds their total, wins, best score and bonus |
| WeeklyPoints.SaveLeavesOtherWeeks | services/weeklyPoints.js:33-43 | rows of other weeks, and of players without rows, are neither added nor changed |
| WeeklyPoints.RecomputeWeekIdempotent | services/weeklyPoints.js:37-41 | recomputing a week from the same rows leaves the table unchanged |
| WeeklyPoints.WeeklyPointsTable.CalculateForWeek | services/weeklyPoints.js:4-47 | returns the week's aggregate. The table becomes the old table with each player's row and bonus upserted in order, so nothing is written for an empty week |
| WeeklyPoints.WeeklyPointsTable.SaveWeek | services/weeklyPoints.js:24-44 | with the two maxima taken once, each row's bonus is 50 for the most wins plus 30 for the best score. The table becomes the old table with every player's row upserted in list order |
| WeeklyAwards.TopTen | services/weeklyAwards.js:7-8 | at most ten rows are taken, all when there are fewer, as a prefix of the ordered rows |
| WeeklyAwards.Payout | services/weeklyAwards.js:1-13 | position i (from 0) pays WEEKLY_POINTS[i] for i < 10 and 0 beyond |
| WeeklyAwards.PayoutsStrictlyDecreasing | services/weeklyAwards.js:1 | payouts fall strictly with position, from 250 to 10, and sum to 1010 |
| WeeklyAwards.AwardFor | services/weeklyAwards.js:12-14 | rank is position + 1, total = payout + bonus, and bonus and best score are copied |
| WeeklyAwards.AwardedAreTheBest | services/weeklyAwards.js:7-8 | at most ten players are awarded. With rows best first, each awarded row has at least the total of every row left out |
| WeeklyAwards.SavedAward | services/weeklyAwards.js:11-33 | a player listed once at position i holds rank i+1, WEEKLY_POINTS[i], the bonus, their sum and the best score |
| WeeklyAwards.SaveLeavesOthers | services/weeklyAwards.js:16-24 | rows of other weeks, and of players outside the top ten, are neither added nor changed |
| WeeklyAwards.FinalizeIdempotent | services/weeklyAwards.js:19-24 | finalizing a week twice leaves the table as once |
| WeeklyAwards.WeeklyAwardsTable.SaveAwards | services/weeklyAwards.js:11-34 | the table becomes the old table with each row's award upserted in list order. Position i gets rank i+1, WEEKLY_POINTS[i] and that payout plus its bonus |
| WeeklyAwards.WeeklyAwardsTable.FinalizeWeeklyAwards | services/weeklyAwards.js:2-34 | the table becomes the old table with the award of each of the first ten rows upserted in order |
| BonusCalculator.Column | services/bonusCalculator.js:3-4 | each value is the field read with parseInt, and 0 when unreadable |
| BonusCalculator.ApplyTiebreaker | services/bonusCalculator.js:51-59 | no contenders give no winner. Otherwise the winner is the contender that has the largest tie-break value and comes first among those holding it |
| BonusCalculator.WinsWinnerIffSoleLeader | services/bonusCalculator.js:3-12 | there is a wins winner exactly when one player alone has the most wins and that is above 0, and the winner is that player, so a tie gives none |
| BonusCalculator.WinsWinner | services/bonusCalculator.js:9-12 | a wins winner, when there is one, is one of the rows and has at least one win |
| BonusCalculator.ScoreContendersExact | services/bonusCalculator.js:4-7 | the score contenders are exactly the players with a positive score that nobody beats |
| BonusCalculator.ScoreWinnerIsBestContender | services/bonusCalculator.js:4-14 | there is a score winner exactly when someone scored above 0. It is the first contender with the largest weekly sum of daily scores (total_daily_scores) |
| BonusCalculator.ScoreWinner | services/bonusCalculator.js:14 | a score winner, when there is one, is one of the rows and has a best score above 0 |
| BonusCalculator.DetermineBonusWinners | services/bonusCalculator.js:16-28 | the output has the input's rows, same length, same order |
| BonusCalculator.LiveLabels | services/bonusCalculator.js:16-25 | a row carries the wins label exactly when a wins winner exists with its name, and the score label likewise. Each label appears at most once, the wins label first |
| BonusCalculator.LiveLabelsByName | services/bonusCalculator.js:19-25 | a row carries a label exactly when that winner exists and has the row's name, so all rows with a label share one name |
| BonusCalculator.DetermineBonusWinnersForSnapshot | services/bonusCalculator.js:35-48 | the output has the input's rows, same length, same order |
| BonusCalculator.SnapshotLabels | services/bonusCalculator.js:35-47 | no labels below 30 bonus points, the score label exactly from 30. The wins label only from 50 and only on the row that is the wins winner. Each label appears at most once, the wins label first |
| BonusCalculator.SnapshotLabelsExact | services/bonusCalculator.js:32-47 | labels are empty below 30 bonus points and include the score label from 30. The wins label comes first only from 50 on and only for the sole leader on wins |
| DateHelper.Weekday | services/dateHelper.js:26 | getDay is in 0..6 and agrees with the day number modulo 7 (Thursday at day 0) |
| DateHelper.CurrentWeekStart | services/dateHelper.js:24-31 | the week start is a Monday, at most 6 days before today |
| DateHelper.CurrentWeekStartUnique | services/dateHelper.js:26-28 | it is the only Monday with today in its seven days |
| DateHelper.PreviousWeekStartIsWeekBefore | services/dateHelper.js:33-40 | the previous week start is exactly 7 days before the current one, and a Monday |
| DateHelper.PreviousWeekStart | services/dateHelper.js:33-40 | the previous week start is a Monday, 7 to 13 days before today |
| DateHelper.InfoFor | services/dateHelper.js:4-9 | weekEnd is weekStart + 6, and queryEndDate is weekEnd + 1 = weekStart + 7, on the same weekday as the start |
| DateHelper.CurrentWeekInfo | services/dateHelper.js:2-11 | the current week holds today between its Monday and its query end, read as exclusive, and its end is a Sunday |
| DateHelper.PreviousWeekInfo | services/dateHelper.js:13-22 | the previous week ends no later than today, runs Monday to Sunday |
| DateHelper.PreviousWeekAdjoinsCurrent | services/dateHelper.js:19-20 | the previous week's query end is the current week's start. With the query end read as exclusive, the two windows neither overlap nor leave a gap |

## Findings

| source | as written | input that shows it | evidently intended | confidence | as-written member | corrected member |
|---|---|---|---|---|---|---|
| services/weeklyPoints.js:6-17 | the window is `created_at BETWEEN startDate AND startDate + 6 days`, and both bounds are midnights, so it stops at Sunday 00:00 | a daily ranking created at 00:00:01 on the Sunday of the week (the weekly job runs Sunday 23:59) | the whole Sunday counts, as services/dateHelper.js:7-9 adds a query end "to include the full Sunday". The model reads that end as exclusive (up to, not including, the next Monday 00:00). The only query that uses it, services/weeklyLeaderboard.js:45, writes `BETWEEN $1 AND $2` and so also takes the Monday 00:00 instant | medium, not executed | WeeklyPoints.AsWrittenMissesSunday | WeeklyPoints.InWeekByDay |
| services/weeklyPoints.js:13-30 | `player.daily_wins === mostWins` compares the COUNT column with a number. node-postgres returns a bigint as a string, while Math.max returns a number, so `===` is false | any week with rows, e.g. one player with one win and 5000 points: intended bonus 80, bonus as written 30 | +50 for every player at the most wins, compared as numbers | medium, not executed (the pool in config/db.js keeps the driver's default type parsing) | WeeklyPoints.WinsBonusNeverPaidAsWritten | WeeklyPoints.BonusRecipientsExist |

`WeeklyPointsTable.CalculateForWeek` uses the corrected window (`WeekQuery`) and the corrected comparison (`Bonus`). The as-written forms are `WeekQueryAsWritten`, `InWindowAsWritten`, `GetsWinsBonusAsWritten` and `BonusAsWritten`.

## Left out

- I/O is not modelled: `message.getContact()`, `message.reply`, console logging, and the database driver itself. The contact is a parameter of `ProcessScore`.
- ScoreService.ProcessScore: message handlers are modelled as running one after another. In the source, the duplicate check (services/scoreService.js:24) and the insert (line 31) are separated by `await`s, and services are called from an async handler per message, so two submissions of one round arriving together could both pass the check. The at-most-one-score-per-round guarantee rests on sequential handling, or on a unique constraint in the schema, which is not part of this model.
- ScoreService.ProcessScore: the catch path at services/scoreService.js:38-41 (a store failure returns null) is not modelled, because the in-memory store cannot fail.
- ScoreService.RoundedPercent: it is exact rational rounding. Floating-point `points / maxPoints * 100` can land just beside an exact .5 and round the other way.
- ScoreService.Parse: `parseInt` is read as an unbounded integer. Digit groups beyond 2^53 lose precision in JavaScript.
- The clock is a parameter: `now` for `NOW()`, and `today` as a day number for `new Date()`.
- DateHelper.CurrentWeekStart: `setHours(0, 0, 0, 0)` followed by `toISOString()` turns local midnight into a UTC date. East of UTC this gives the previous day. Time zones and daylight saving are not modelled, and dates are whole days.
- The display text is not modelled: `formatCroatianDate`, `weekRange`, and the label strings with their emoji, counts and `toLocaleString`. Labels are two constructors.
- Store.Database.CreateScore: only the columns the core reads are modelled. The serial score id and the rest of `RETURNING *` are left out.
- The ranking methods take the rows of their queries as parameters rather than reading them from `Store.Database`. The scores are inserted with `round_number` and `points` columns but read back as `game_number` and `score`, so the model does not join the two.
- SQL `ORDER BY` on equal keys: the order of ties is whatever the caller passes.
- `GROUP BY player_id` output order: `Aggregate` lists players in order of first appearance. No property depends on the order, because the players are distinct.
- `daily_rankings.created_at` is a column default written on insert only. `DailyEntry` holds the two updated columns, and the timestamp reaches the weekly query through `RankedScore.createdAt`.
- WeeklyPoints.BonusAsWritten: the as-written +30 assumes `MAX(s.score)` reaches line 31 as a JavaScript number, that is, that `score` is an int4 column, which pg parses. This rests on the same driver typing as the second finding, under which the int8 COUNT arrives as text.
- WeeklyAwards.AwardFor: `points_awarded + player.bonus_points` is integer addition. If `bonus_points` were a bigint column, the driver would return text and `+` would concatenate.
- BonusCalculator.LooseEquals: a field is either an integer or unreadable. Text such as "12abc", which `parseInt` reads as 12 but `==` does not equal 12, is not modelled.
- `Player.getLeaderboard` and the leaderboard renderers are outside this model. They are reads and text formatting only.
