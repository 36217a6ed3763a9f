# running_bot ledger and rank engine, modelled in Dafny

This project models the core of a Telegram running bot: the in-memory run
ledger of `database.py` and the rank rules of `db_utils.py`.

- `wrappers.dfy` — `Option`, standing for Python's `None`.
- `database.dfy` (module `Database`) — dates as Python date ordinals
  (0001-01-01 is day 1, a Monday), the Monday-to-Sunday window of
  `get_week_range`, the per-user record, and the class `RunLedger` whose
  field `users` is the module-level `users_db` dictionary. `init_user`,
  `add_run`, `get_user_stats` and `has_runs_this_week` are methods that
  update that field in place, proved against the pure functions `NewUser`,
  `Existing` and `RecordRun`. A ghost log of every distance ever added keeps
  the invariant that each lifetime total is the sum of that user's runs.
  Python's `sum(weekly_runs.values())` is the loop `SumValues`, proved
  against the ghost function `MapSum`.
- `db_utils.dfy` (module `DbUtils`) — the `ranks` and `challenges` tables as
  sequences of rows and each SQL query as a function: `SelectTop` is
  `WHERE … ORDER BY … LIMIT 1`, `JoinTexts` the challenge/rank join. On top
  of the source's rules, lemmas show what they give on a well-formed tier
  table (ascending bands, each ending where the next begins, distinct
  names): the rank is the band holding the distance, the shared bound
  belongs to the higher band, the rank never drops as the distance grows
  within the table's range, the distance to the next rank is positive, and
  out-of-range distances (negative ones included) fall back to the top rank.
  So a distance below the lowest bound gets the top rank, and the rank drops
  to the bottom one when the distance grows into the range.

Today's date and today's ISO week number are parameters of every ledger
operation; the clock is not read.

`database.py` caches an ISO week number per user and resets the week's
dictionary only when that number changes; it accepts any distance, since the
check that a distance is positive sits in the chat handler (bot.py:54). In
particular the week number carries no year, so when a user's next run falls
in a week with the same ISO week number (52 or 53 weeks later, or whole years
later) the old entries stay in this week's sum
(`SameWeekNumberKeepsOldDates`), and `has_runs_this_week` answers from the
stored week even after it has ended (`HasRunsThisWeek`).

## Model

| member | source | states |
|---|---|---|
| `Database.WeekRange` | database.py:13-17 | the window starts on a Monday, ends six days later and holds today; Python's `OverflowError` (the Sunday lies past `date.max`) happens exactly for the last five days of the calendar |
| `Database.WeekRangeIsTheWeek` | database.py:13-17 | any Monday-to-Sunday window holding today is the one `get_week_range` returns |
| `Database.RunLedger.constructor` | database.py:6 | the ledger starts with no users and an empty run log, and the totals invariant holds |
| `Database.RunLedger.InitUser` | database.py:20-28 | a known user leaves the dictionary unchanged (idempotence); an unknown one gets empty weekly runs, total 0, today's week number and today's join date, and nothing else changes |
| `Database.RunLedger.AddRun` | database.py:31-56 | only the caller's record changes, to the record `RecordRun` describes; the lifetime total grows by exactly the distance and stays the sum of every distance logged; the result is the sum of the new weekly runs, and equals the distance after a week change |
| `Database.RecordRunSameWeek` | database.py:47-53 | within the stored week, every earlier date keeps its entry, today's entry grows by the distance (or starts at it), and both the weekly sum and the lifetime total grow by exactly the distance |
| `Database.RecordRunNewWeek` | database.py:41-53 | on a different week number the weekly runs become just today's distance, the weekly sum equals the distance, the week number is updated and the lifetime total still grows by the distance |
| `Database.SameDayRunsAdd` | database.py:47-51 | two runs on the same date add up in that date's entry and in the weekly sum |
| `Database.SameWeekNumberKeepsOldDates` | database.py:41-45 | rollover compares only week numbers, so entries dated a week or more before today survive when the number matches |
| `Database.SumValues` | database.py:56 | the loop returns the sum of all values of the weekly dictionary |
| `Database.LoggedRunKeepsTotals` | database.py:53 | adding a distance to one lifetime total while logging it keeps every total equal to the sum of its user's logged runs |
| `Database.RunLedger.GetUserStats` | database.py:59-74 | creates the user only if unknown (with an empty run log), otherwise changes nothing; reports the weekly sum, the lifetime total, the weekly entries and the join date of the stored record |
| `Database.RunLedger.HasRunsThisWeek` | database.py:77-81 | true exactly when the stored weekly runs are non-empty, whatever today's week number is; known users are left unchanged, an unknown one is created with an empty run log |
| `DbUtils.SelectTop` | db_utils.py:14-19 | the selected row is kept by the filter and no kept row has a larger sort key; no row is selected exactly when none is kept |
| `DbUtils.DetermineRank` | db_utils.py:7-35 | when some band holds km, a band holding km with the largest lower bound; otherwise the rank with the largest upper bound; a non-empty rank table is required, as the fallback fails on an empty one |
| `DbUtils.CalculateProgress` | db_utils.py:61-66 | the next rank and the km needed are present or absent together |
| `DbUtils.CalculateProgressSpec` | db_utils.py:37-66 | the current rank is DetermineRank's; the next rank is absent exactly when no rank lies above a rank of that name, and otherwise is one with the smallest lower bound above it, with km needed equal to that bound minus km |
| `DbUtils.NextRankAboveCurrent` | db_utils.py:49-64 | with distinct names, the next rank is the one with the smallest lower bound strictly above the current rank's, and it is absent exactly when no rank starts higher |
| `DbUtils.JoinTexts` | db_utils.py:75-82 | a text is in the join result exactly when a challenge with that text points at a rank row the filter keeps; the result is empty exactly when no such pair exists |
| `DbUtils.JoinTextsCount` | db_utils.py:75-82 | bag semantics of the join: each text occurs exactly as often as there are (challenge, rank) position pairs that match and carry it |
| `DbUtils.MatchingRows` | db_utils.py:76-79 | one challenge contributes its text exactly when some kept rank row has its rank id |
| `DbUtils.MatchingRowsCount` | db_utils.py:76-79 | one challenge contributes its text once per kept rank row with its rank id, and no other text |
| `DbUtils.LowestMinKm` | db_utils.py:94 | `MIN(min_km)` is the lower bound of some rank and no rank's lower bound is below it |
| `DbUtils.LowestFilter` | db_utils.py:94 | on a non-empty table the condition `r.min_km = (SELECT MIN(min_km) FROM ranks)` keeps exactly the ranks with the smallest lower bound |
| `DbUtils.ChallengesForRank` | db_utils.py:68-100 | every returned text is the text of a challenge joined with some rank; the result is empty exactly when no challenge belongs to a rank of that name or to a rank with the smallest lower bound |
| `DbUtils.ChallengesOfNamedRank` | db_utils.py:75-85 | when the named rank has challenges, the result holds exactly the texts of challenges of ranks with that name, each once per matching (challenge, rank) pair |
| `DbUtils.ChallengesFallBackToLowest` | db_utils.py:85-100 | when the named rank has none, the result holds exactly the texts of challenges of the ranks with the smallest lower bound, each once per matching pair, and is empty when they have none |
| `DbUtils.DetermineRankInTier` | db_utils.py:14-25 | on a well-formed tier table the rank is the tier whose band holds km, the higher tier on a shared bound |
| `DbUtils.NextOfTier` | db_utils.py:49-64 | on a well-formed tier table below the top, the next rank is the tier directly above and km needed is its lower bound minus km |
| `DbUtils.TopTierHasNoNext` | db_utils.py:61-66 | on a well-formed tier table, in the top tier both the next rank and km needed are absent |
| `DbUtils.ProgressInTier` | db_utils.py:37-66 | on a well-formed tier table the current rank is km's tier, the next rank is absent only at the top, and km needed is always positive |
| `DbUtils.DetermineRankMonotonic` | db_utils.py:14-25 | on a well-formed tier table, within its range, a larger weekly distance never yields a tier with a lower lower bound |
| `DbUtils.OutOfRangeFallsBackToTop` | db_utils.py:27-35 | on a well-formed tier table a distance below the lowest bound or above the highest gets the top rank, with no next rank |
| `DbUtils.SampleProgress` | db_utils.py:37-66 | on a Padawan/Knight/Master table: 7 km is Padawan, 3 km short of Knight; 10 km is already Knight; 12 km is Knight, 18 km short of Master; 45 km is Master with no next rank |
| `DbUtils.SampleDropsEnteringRange` | db_utils.py:14-35 | on the Padawan/Knight/Master table a distance below the lowest bound (-1 km) falls back to Master, while 0 km is Padawan: the rank drops as the distance enters the range |

## Left out

- The clock: `get_current_week` and `date.today()` become the parameters `today` and `week`; the ISO week calendar arithmetic (`isocalendar()`) is not modelled, so nothing ties `week` to `today`. The source reads the clock separately in each call, so a call straddling midnight could mix two days; the model reads both once.
- `joined_date` and the keys of `weekly_runs` are ISO date strings in the source (database.py:36, 48-51; bot.py:105 parses the keys back); the model stores the dates themselves, which `isoformat` maps one-to-one to those strings, so no behaviour is lost.
- Distances are `real`: floating-point rounding in `+=` and `sum` is not modelled.
- `get_user_stats` returns the live `weekly_runs` dictionary, so a caller could later mutate the ledger through it; the model returns a copy (aliasing not modelled).
- `DetermineRank`, `CalculateProgress`: where SQL leaves the order among rows with equal sort keys open, the model picks the first in table order; their contracts claim only what holds for every such choice.
- `JoinTexts`, `ChallengesForRank`: SQL without `ORDER BY` leaves the order of the result rows open; the model lists them challenge by challenge, and its contracts fix only which texts appear and how many copies of each (`JoinTextsCount`), which SQL's bag semantics do determine.
- SQL `NULL` bounds, NaN distances and the SQLite connection handling are not modelled; the tables are in-memory sequences.
- `get_random_motivation_db` and `ranks.get_random_challenge`: random selection (`ORDER BY RANDOM()`, `random.choice`) is not modelled (the copies `JoinTextsCount` counts are what weight `random.choice` at ranks.py:32); the other functions of `ranks.py` only delegate to `db_utils.py`.
- The chat handlers of `bot.py` (argument parsing, message formatting), the admin and migration scripts and `config.py` are I/O and not part of this model.
- Leaderboards and monthly windows have no code in these files and are not modelled.
