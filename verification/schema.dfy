/**
 The abstract database the route handlers work on: the `teams`,
 `team_members` and `matches` tables, each a sequence of rows in insertion
 order, and the auto-increment counters that hand out fresh row ids.
 */
module Schema {
  import opened Results
  import opened Seqs

  /** Row ids (teams, students, matches) are auto-increment integers. */
  type Id = nat

  /** The sport tag: a free-form string taken from the request. */
  type Sport = string

  /** A `teams` row. */
  datatype Team = Team(id: Id, name: string, sport: Sport)

  /** A `team_members` row; its sport is whatever the request supplied. */
  datatype Membership = Membership(team: Id, student: Id, sport: Sport)

  /**
   A `matches` row. `team1`, `team2` and `winner` are nullable foreign keys,
   `number` is the `match_number` column.
   */
  datatype Match = Match(
    id: Id,
    sport: Sport,
    round: nat,
    number: nat,
    team1: Option<Id>,
    team2: Option<Id>,
    winner: Option<Id>,
    completed: bool)

  /** The whole state one transaction reads and replaces. */
  datatype Db = Db(
    teams: seq<Team>,
    members: seq<Membership>,
    matches: seq<Match>,
    nextTeamId: Id,
    nextMatchId: Id)

  /**
   Ids come from monotone counters: rows are stored in ascending id order and
   every id is below the next one to be handed out.
   */
  predicate WellFormed(db: Db) {
    && AscendingBy(TeamId, db.teams)
    && (forall t :: t in db.teams ==> t.id < db.nextTeamId)
    && AscendingBy(MatchId, db.matches)
    && (forall m :: m in db.matches ==> m.id < db.nextMatchId)
  }

  /** The sort key of a `teams` row: its id. */
  function TeamId(t: Team): int {
    t.id
  }

  /** The sort key of a `matches` row: its id. */
  function MatchId(m: Match): int {
    m.id
  }

  function TeamInSport(sport: Sport): Team -> bool {
    (t: Team) => t.sport == sport
  }

  function MatchInSport(sport: Sport): Match -> bool {
    (m: Match) => m.sport == sport
  }

  function MatchNotInSport(sport: Sport): Match -> bool {
    (m: Match) => m.sport != sport
  }

  function MatchInRound(sport: Sport, round: nat): Match -> bool {
    (m: Match) => m.sport == sport && m.round == round
  }

  /** `SELECT ... FROM teams WHERE sport = ?`, in stored order. */
  function SportTeams(teams: seq<Team>, sport: Sport): seq<Team> {
    Filter(TeamInSport(sport), teams)
  }

  /** The matches of one sport, in stored order. */
  function SportMatches(ms: seq<Match>, sport: Sport): seq<Match> {
    Filter(MatchInSport(sport), ms)
  }

  /** The matches of every other sport, in stored order. */
  function OtherSportMatches(ms: seq<Match>, sport: Sport): seq<Match> {
    Filter(MatchNotInSport(sport), ms)
  }

  /** `SELECT ... FROM matches WHERE sport = ? AND round = ?`. */
  function RoundMatchesOf(ms: seq<Match>, sport: Sport, round: nat): seq<Match> {
    Filter(MatchInRound(sport, round), ms)
  }

  /** Every match of (sport, round) is completed. */
  predicate RoundComplete(ms: seq<Match>, sport: Sport, round: nat) {
    forall m {:trigger m in ms} :: m in ms && m.sport == sport && m.round == round ==> m.completed
  }
}
