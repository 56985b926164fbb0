# College sports day: brackets and team registry

A Dafny model of the two route modules at the core of a college sports-day
backend:

- **Brackets** (`routes/brackets.js`).
  - Generating round 1 of a sport's single-elimination bracket from the sport's teams.
  - Recording a match result. When every match of the round is then complete, the next round is created automatically.
  - Resetting a sport's bracket.
- **Team registry** (`routes/teams.js`).
  - Creating a team together with its membership rows. This is refused when a requested student already has a membership row for the sport, or when the name is taken in the sport.
  - Updating a team. It is renamed and its membership is replaced wholesale.
  - Deleting a team.
  - Decoding the member list that the listing query folds into one `name|id,name|id,...` string.

The database is one immutable value, `Schema.Db`. It holds:

- the `teams` table;
- the `team_members` rows;
- the `matches` table;
- the two auto-increment counters.

Each handler's transaction is a pure function from a `Db` to either a new `Db` or an error. An error stands for the rollback, so no state survives it. `WHERE` filters are `Seqs.Filter`, `UPDATE`s are `Seqs.Map`, and `ORDER BY match_number` is a stable insertion sort, `Seqs.SortBy`. `Schema.WellFormed` states the auto-increment discipline: ids ascend in insertion order and stay below the counter. Every operation preserves it.

The model follows the handlers as written, including behaviour that is probably not intended:

- the winner of a match is not checked against its two teams;
- a bye (a match with a null second team) is not completed automatically;
- recording a result again in a round that is already complete inserts the next round a second time;
- a create request that lists a student twice gives that student two identical membership rows of the new team: the handler itself does not check, and only a unique key in the schema (its `ER_DUP_ENTRY` branch) could refuse it;
- an update that lists a student twice, or lists a student who holds a row of the sport on another team, leaves that student with two membership rows in the sport: the handler itself does not check;
- the assignment check reads the sport stored in the membership rows, which is whatever the create or update request supplied, not the sport of the student's team;
- a name containing `,` splits into two members when the list is decoded.

Lemmas exhibit each of these on the model.

Modules:

- `Results`: `Option` and `Result`.
- `Seqs`: filter, map, stable sort, ascending keys, and their algebra.
- `Schema`: rows, tables, well-formedness and the common queries.
- `Pairs`: the pairing loop shared by generation and advancement, and the seating shape it produces.
- `Brackets`, `BracketProperties`: the bracket operations and their lemmas.
- `Teams`, `TeamProperties`: the team operations and their lemmas.
- `MemberList`: `split`, `parseInt`, `CONCAT`/`GROUP_CONCAT`, and the member-list round trip.

## Model

| member | source | states |
|---|---|---|
| Brackets.Generate | routes/brackets.js:33-83 | Generation fails, with InsufficientTeams, exactly when the sport has fewer than two teams. On success the teams, memberships and team counter are untouched, the match counter advances by ceil(n/2) for the sport's n teams, and a match of another sport is present afterwards exactly when it was present before. |
| BracketProperties.GeneratedSportMatches | routes/brackets.js:51-68 | After generation, the sport's matches are exactly the new round-1 rows, and every other sport's matches are as before. |
| BracketProperties.GenerateRoundOne | routes/brackets.js:55-68 | n teams give ceil(n/2) round-1 matches numbered 1, 2, …. Match k+1 pairs the teams at positions 2k and 2k+1 of the sport's team list in table order, with null as the second team when there is no position 2k+1. No match has a winner, and none is completed. |
| BracketProperties.GenerateSeatsInIdOrder | routes/brackets.js:42-64 | In a well-formed state the table order is the `ORDER BY id` order: within each round-1 match the first team has the smaller id, and the first teams' ids ascend with the match number. |
| BracketProperties.GenerateByeIffOdd | routes/brackets.js:58-64 | A round-1 match has a null second team exactly when it is the last match and the team count is odd. |
| BracketProperties.GenerateSeatsEachTeamOnce | routes/brackets.js:42-68 | In a well-formed state, every team of the sport sits in exactly one round-1 match, and no team outside the sport sits in any. |
| BracketProperties.GenerateIsDeterministic | routes/brackets.js:42-68 | Any two states with the same teams table, whatever their matches and results, generate the same round-1 matches apart from the row ids. |
| BracketProperties.RegenerateAfterResult | routes/brackets.js:42-68 | Regenerating after a result has been recorded reproduces the original round-1 pairings apart from the row ids. |
| BracketProperties.GeneratePreservesWellFormed | routes/brackets.js:51-68 | Generation keeps match ids ascending and below the match counter. |
| BracketProperties.GenerateAfterReset | routes/brackets.js:52 | Generation deletes the sport's matches itself, so resetting first makes no difference to its outcome. |
| BracketProperties.GenerateIgnoresSportMatches | routes/brackets.js:51-68 | Generation reads the old match table only through the other sports' matches: two states that differ only in the sport's own matches, played or not, generate the same result. |
| Pairs.PairUp | routes/brackets.js:58-61 | Walking n ordered slots two at a time gives ceil(n/2) pairings. Pairing k holds slots 2k and 2k+1, with null as the second when slot 2k+1 does not exist. |
| Pairs.InsertRound | routes/brackets.js:127-138 | The insertion loop produces one row per pairing. Row k gets the k-th fresh id and match number k+1, has no winner and is not completed. |
| Pairs.ByeOnlyWhenOdd | routes/brackets.js:128-130 | When every winner is set, a next-round match has a null second team exactly when it is the last match of a round with an odd number of matches. |
| Brackets.FindMatch | routes/brackets.js:101-107 | The lookup by id finds a match exactly when the table has one with that id, and what it finds is such a row. |
| Brackets.FindSettled | routes/brackets.js:95-107 | Looking a match up after the settling update finds the settled version of the match found before it, and nothing when there was none. |
| Brackets.CountsAgreeIffComplete | routes/brackets.js:110-121 | The completed count of (sport, round) equals its total count exactly when every match of that round is completed. |
| Brackets.NextRoundShape | routes/brackets.js:122-138 | The next-round rows pair the round's winners, taken in match-number order, two by two: positions 2k and 2k+1 meet in match k+1. |
| Brackets.Advance | routes/brackets.js:109-139 | The advancement step adds the next-round rows exactly when the round is complete and has more than one match. Otherwise it adds nothing. |
| Brackets.RecordResult | routes/brackets.js:86-154 | Recording fails, with MatchNotFound, exactly when no match has the id. On success the teams, memberships and team counter are untouched, no row is removed, and the match counter advances by the number of rows added. |
| BracketProperties.RecordResultSplit | routes/brackets.js:95-139 | After a result, the match table is the old table settled in place, followed by the rows the advancement step produces for the target's sport and round. |
| BracketProperties.RecordResultSettlesInPlace | routes/brackets.js:96-99 | Exactly the rows with the match's id get the winner and the completed flag. Every other row is unchanged and keeps its position. |
| BracketProperties.NextRoundNonEmpty | routes/brackets.js:127-138 | A round of T > 1 matches yields ceil(T/2) next-round matches. |
| BracketProperties.AdvanceIffRoundComplete | routes/brackets.js:121 | The advancement step is non-empty exactly when the round is complete and has more than one match. |
| BracketProperties.AdvancesIffRoundComplete | routes/brackets.js:110-139 | A recorded result appends rows exactly when the target's round, after settling, is complete and has more than one match. |
| BracketProperties.NextRoundPairsWinners | routes/brackets.js:122-138 | The appended rows are round R+1 of the sport and pair the round's winners in match-number order. They have consecutive fresh ids and numbers 1, 2, …, no winner, and are not completed. |
| BracketProperties.AdvancePairsWinners | routes/brackets.js:122-138 | The same statement for the advancement step on a bare match table. |
| BracketProperties.NextRoundByeIffOdd | routes/brackets.js:128-130 | When every match of the round has a winner, an appended match has a null second team exactly when it is the last one and the round had an odd number of matches. |
| BracketProperties.SettleKeepsComplete | routes/brackets.js:96-99 | Settling a result never makes a complete round incomplete. |
| BracketProperties.ReRecordAppendsAnotherRound | routes/brackets.js:110-138 | Recording any result in a round that is already complete, and has more than one match, appends another ceil(T/2) rows of round R+1, even when that round already exists: the count of round R+1 rows grows by ceil(T/2) over what was there before. |
| BracketProperties.RecordResultGrowsNextRound | routes/brackets.js:127-138 | Every result appends rows to round R+1 of the target's sport only: that round's row count grows by exactly the number of rows appended. |
| BracketProperties.RecordResultPreservesWellFormed | routes/brackets.js:95-138 | Recording a result keeps match ids ascending and below the match counter. |
| Brackets.Reset | routes/brackets.js:157-166 | Reset leaves the teams, memberships and both counters untouched. A match survives exactly when it belongs to another sport. |
| BracketProperties.ResetClearsOnlySport | routes/brackets.js:160 | After a reset the sport has no matches, and every other sport's matches are as before, in order. |
| BracketProperties.ResetIdempotent | routes/brackets.js:160 | Resetting twice is the same as resetting once. |
| BracketProperties.ResetPreservesWellFormed | routes/brackets.js:160 | Reset keeps match ids ascending and below the match counter. |
| Teams.CreateTeam | routes/teams.js:41-121 | Create fails exactly when a requested student has a row for the sport or the name is taken in the sport. The assignment error takes precedence. On success it appends one team under the next team id, and one membership row per requested student in request order. The matches are untouched. |
| TeamProperties.CreatePreservesOneRowPerSport | routes/teams.js:49-94 | A successful create whose list has no repeated student keeps at most one membership row per (student, sport). |
| TeamProperties.CreateRepeatedMemberBreaksInvariant | routes/teams.js:50-94 | A create that lists the same student twice passes the assignment check and leaves that student with two identical membership rows of the new team. |
| TeamProperties.CreateWithNoMembers | routes/teams.js:88-94 | With an empty member list and an unused name, create succeeds, adds the team and adds no membership row. |
| TeamProperties.CreatePreservesWellFormed | routes/teams.js:79-85 | Create keeps team ids ascending and below the team counter. |
| Teams.UpdateTeam | routes/teams.js:136-173 | Update renames exactly the team with the id, keeps the counters and matches, and keeps every other team's rows. The team's rows afterwards are exactly the requested students, in the requested sport. |
| TeamProperties.UpdateReplacesMembership | routes/teams.js:151-161 | After an update, the team's rows are one per requested student, in request order. Every other team's rows are unchanged. |
| TeamProperties.UpdateIdempotent | routes/teams.js:145-161 | Repeating an update changes nothing further. |
| TeamProperties.AssignmentReadsStoredSport | routes/teams.js:50-56 | The assignment check reads the sport stored in the membership rows. After an update files a cricket team's member under football, that student is refused for a football team although no football team exists. Because this model has no cascading deletes, it is still refused after the cricket team is deleted; with the schema's cascade it would not be. |
| TeamProperties.UpdateBreaksInvariant | routes/teams.js:151-161 | Update makes no check against other teams, so a student of one team can be added to a second team of the same sport, giving two membership rows in the sport. |
| TeamProperties.UpdatePreservesWhenNoConflict | routes/teams.js:151-161 | Update keeps at most one membership row per (student, sport) when its list has no repeated student and no listed student holds a row of the sport on another team. |
| TeamProperties.UpdatePreservesWellFormed | routes/teams.js:145-149 | Update keeps team ids ascending and below the team counter. |
| Teams.DeleteTeam | routes/teams.js:124-133 | Delete removes exactly the team rows with the id. Memberships, matches and counters are untouched. |
| TeamProperties.DeletePreservesWellFormed | routes/teams.js:127 | Delete keeps team ids ascending and below the team counter. |
| TeamProperties.DeleteUndoesCreate | routes/teams.js:127 | Deleting the team a create has just inserted gives back the teams table as it was. The create's membership rows stay. |
| MemberList.Split | routes/teams.js:27-28 | Splitting gives one more piece than there are separators, and no piece contains the separator. |
| MemberList.SplitJoin | routes/teams.js:27-28 | Splitting a non-empty list joined by a separator that no piece contains gives the list back. |
| MemberList.JoinSplit | routes/teams.js:27-28 | Joining the pieces of a split gives the string back. |
| MemberList.TrimStart | routes/teams.js:29 | parseInt's leading-space skip removes exactly the maximal prefix of ECMAScript white space. |
| MemberList.DigitRun | routes/teams.js:29 | parseInt reads the longest prefix of digits of the radix. |
| MemberList.Decimal | routes/teams.js:13 | The decimal writing of an integer is non-empty, all digits, and has no leading zero. |
| MemberList.ValueOfDecimal | routes/teams.js:13 | Reading the decimal writing back in base 10 gives the number. |
| MemberList.ParseIntDecimal | routes/teams.js:29 | parseInt reads back any non-negative integer written in decimal, followed by any text that does not start with a letter or a digit. |
| MemberList.ParseIntNaN | routes/teams.js:29 | parseInt gives NaN for text starting with anything other than white space, a sign or a digit. |
| MemberList.Encode | routes/teams.js:13 | The member list is NULL exactly when the team has no members. |
| MemberList.DecodeEntry | routes/teams.js:28-29 | The decoded name never contains a bar character and uses only characters of the entry. An entry with no bar decodes to the whole entry as name with a NaN id. |
| MemberList.DecodeEntryOf | routes/teams.js:28-29 | The entry (name, bar, id) of a student whose name contains no separator decodes to that student's id and name. |
| MemberList.Decode | routes/teams.js:25-31 | A NULL or empty list decodes to no members. Otherwise it decodes to one member per comma-separated entry, and no name contains either separator. |
| MemberList.DecodeEncode | routes/teams.js:13-31 | When no name contains a comma or a bar, decoding the string the query builds gives back every member, id and name, in order. |
| MemberList.CommaInNameSplitsMember | routes/teams.js:27-29 | A name with a comma comes back as two members: the text before the comma with a NaN id, and the rest with the real id. |

## Left out

- The HTTP layer is not modelled: request parsing, status codes, response bodies and error messages. An error is modelled only by its kind.
- The `GET` handlers' row ordering is not modelled (`ORDER BY round, match_number` for brackets and `ORDER BY created_at` for teams). Only the member-list decoding of the teams listing is modelled.
- Connections, `FOR UPDATE` locks, concurrency and lock-wait timeouts are not modelled. Each transaction is one atomic step.
- Database-side constraints are not modelled: unique keys (the `ER_DUP_ENTRY` path), foreign keys and cascading deletes. The schema that would define them is not part of this model, so `DeleteTeam` leaves membership rows and matches as they are, and `UpdateTeam` on a missing id inserts rows for it. In particular, in this model a deleted team's students still count as assigned, while the schema's `ON DELETE CASCADE` would remove their rows.
- Teams.CreateTeam and Teams.UpdateTeam take the member list as a sequence of student ids. A missing `members` field is treated like an empty list. Request bodies of other shapes are not modelled.
- Teams.CreateTeam, Brackets.Generate and Brackets.Reset: team names and sports are compared as exact strings. A case-insensitive database collation is not modelled.
- Pairs.RoundRows: the inserted match rows get no winner and are not completed. The handlers' `INSERT`s leave those columns to the table's defaults, and NULL and FALSE are assumed because the schema is not part of this model.
- Brackets.Generate reads the sport's teams in table order. That order is id order in every well-formed state, which is the case the generation lemmas that need it assume.
- Brackets.Advance: when match numbers tie, `ORDER BY match_number` is resolved by insertion order. SQL leaves that order unspecified.
- Brackets.RecordResult: an unknown match id fails with MatchNotFound. In the handler, the settling update matches no row, `matches[0]` is undefined, and reading its sport throws, which rolls back. The id is an integer here. A non-numeric path parameter is not modelled.
- MemberList.Encode: the order in which `GROUP_CONCAT` lists a team's members is taken as given. `GROUP_CONCAT`'s length truncation is not modelled. A membership whose student row is missing (a NULL `CONCAT` that `GROUP_CONCAT` skips) is not modelled.
- MemberList.ParseInt has no contract of its own. Its properties are stated by MemberList.ParseIntDecimal and MemberList.ParseIntNaN. Integers are unbounded, so double-precision rounding above 2^53 is not modelled, and `-0` is written as 0.
- The students routes, authentication, the server set-up and the database connection module are outside the modelled core.
