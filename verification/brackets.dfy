/**
 The bracket engine of the sports-day backend: generating round 1 of a
 sport's single-elimination bracket, recording a match result (with the
 automatic creation of the next round), and resetting a sport's bracket.
 Each handler runs as one transaction, modelled as one step from a `Db` to
 either a new `Db` or an error (the rollback).
 */
module Brackets {
  import opened Results
  import opened Seqs
  import opened Schema
  import opened Pairs

  datatype BracketError =
    | InsufficientTeams  // fewer than two teams for the sport
    | MatchNotFound      // the result names a match id with no row

  function IsCompleted(m: Match): bool {
    m.completed
  }

  /** The `ORDER BY match_number` key. */
  function NumberOf(m: Match): int {
    m.number
  }

  /** Team `id` occupies one of the two slots of `m`. */
  predicate Seated(m: Match, id: Id) {
    m.team1 == Some(id) || m.team2 == Some(id)
  }

  // ---------------------------------------------------------------------
  // Generation
  // ---------------------------------------------------------------------

  /**
   `POST /generate/:sport`: read the sport's teams in table order (which is
   the `ORDER BY id` order in a well-formed state), fail when
   there are fewer than two, otherwise delete every match of the sport and
   insert round 1, pairing consecutive teams.
   */
  function Generate(db: Db, sport: Sport): (r: Result<Db, BracketError>)
    ensures r.Failure? <==> |SportTeams(db.teams, sport)| < 2
    ensures r.Failure? ==> r.error == InsufficientTeams
    ensures r.Success? ==>
      && r.value.teams == db.teams
      && r.value.members == db.members
      && r.value.nextTeamId == db.nextTeamId
      && r.value.nextMatchId == db.nextMatchId + (|SportTeams(db.teams, sport)| + 1) / 2
    ensures r.Success? ==>
      forall m :: m in r.value.matches && m.sport != sport <==> m in db.matches && m.sport != sport
  {
    var teams := SportTeams(db.teams, sport);
    if |teams| < 2 then Failure(InsufficientTeams)
    else
      var firstRound := RoundRows(PairUp(Map(TeamSlot, teams)), sport, 1, db.nextMatchId);
      Success(db.(matches := OtherSportMatches(db.matches, sport) + firstRound,
                  nextMatchId := db.nextMatchId + |firstRound|))
  }

  // ---------------------------------------------------------------------
  // Results and advancement
  // ---------------------------------------------------------------------

  /** `UPDATE matches SET winner_id = ?, is_completed = TRUE WHERE id = ?`, row by row. */
  function Settle(matchId: Id, winner: Option<Id>): Match -> Match {
    (m: Match) => if m.id == matchId then m.(winner := winner, completed := true) else m
  }

  /** `SELECT * FROM matches WHERE id = ?`, first row. */
  function FindMatch(ms: seq<Match>, id: Id): (r: Option<Match>)
    ensures r.Some? <==> exists m :: m in ms && m.id == id
    ensures r.Some? ==> r.value in ms && r.value.id == id
    decreases |ms|
  {
    if |ms| == 0 then None
    else if ms[0].id == id then Some(ms[0])
    else FindMatch(ms[1..], id)
  }

  /** Settling the rows and then looking a match up finds the settled version of the same match. */
  lemma {:induction false} FindSettled(ms: seq<Match>, matchId: Id, winner: Option<Id>)
    ensures FindMatch(Map(Settle(matchId, winner), ms), matchId)
         == (match FindMatch(ms, matchId)
             case None => None
             case Some(m) => Some(Settle(matchId, winner)(m)))
    decreases |ms|
  {
    if |ms| > 0 {
      assert Map(Settle(matchId, winner), ms)[1..] == Map(Settle(matchId, winner), ms[1..]);
      FindSettled(ms[1..], matchId, winner);
    }
  }

  /**
   The next-round rows built from a round: its matches taken in match-number
   order, their winners paired two by two.
   */
  function NextRound(ms: seq<Match>, sport: Sport, round: nat, firstId: Id): seq<Match> {
    RoundRows(PairUp(Map(WinnerOf, SortBy(NumberOf, RoundMatchesOf(ms, sport, round)))),
              sport, round + 1, firstId)
  }

  /** The next-round rows pair the round's winners in match-number order. */
  lemma NextRoundShape(ms: seq<Match>, sport: Sport, round: nat, firstId: Id)
    ensures PairsWinnersInOrder(NextRound(ms, sport, round, firstId),
                                SortBy(NumberOf, RoundMatchesOf(ms, sport, round)),
                                sport, round + 1, firstId)
  {
    var rows := RoundMatchesOf(ms, sport, round);
    var ordered := SortBy(NumberOf, rows);
    var winners := Map(WinnerOf, ordered);
    var ps := PairUp(winners);
    assert NextRound(ms, sport, round, firstId) == RoundRows(ps, sport, round + 1, firstId);
    RoundRowsSeatPairs(winners, sport, round + 1, firstId);
  }

  /** The completed count equals the total count exactly when the round is complete. */
  lemma CountsAgreeIffComplete(ms: seq<Match>, sport: Sport, round: nat)
    ensures |Filter(IsCompleted, RoundMatchesOf(ms, sport, round))| == |RoundMatchesOf(ms, sport, round)|
        <==> RoundComplete(ms, sport, round)
  {
    var rows := RoundMatchesOf(ms, sport, round);
    FilterFullIffAll(IsCompleted, rows);
    assert (forall x :: x in rows ==> IsCompleted(x)) <==> (forall x :: x in rows ==> x.completed);
    assert forall x :: x in rows <==> x in ms && x.sport == sport && x.round == round;
  }

  /**
   The advancement step of `PUT /match/:id`: count the matches of (sport,
   round) and the completed ones among them; when the counts agree and there
   is more than one match, pair the completed matches' winners in
   match-number order into the next round.
   */
  function Advance(ms: seq<Match>, sport: Sport, round: nat, firstId: Id): (r: seq<Match>)
    ensures r == if RoundComplete(ms, sport, round) && |RoundMatchesOf(ms, sport, round)| > 1
                 then NextRound(ms, sport, round, firstId)
                 else []
  {
    var rows := RoundMatchesOf(ms, sport, round);
    var completed := Filter(IsCompleted, rows);
    CountsAgreeIffComplete(ms, sport, round);
    if |completed| == |rows| && |rows| > 1 then
      FilterAll(IsCompleted, rows);
      RoundRows(PairUp(Map(WinnerOf, SortBy(NumberOf, completed))), sport, round + 1, firstId)
    else []
  }

  /**
   `PUT /match/:id`: set the winner and the completion flag of the match with
   that id, then advance its (sport, round). A missing match makes the
   handler fail before anything is committed. The winner is not checked
   against the match's two teams.
   */
  function RecordResult(db: Db, matchId: Id, winner: Option<Id>): (r: Result<Db, BracketError>)
    ensures r.Failure? <==> !exists m :: m in db.matches && m.id == matchId
    ensures r.Failure? ==> r.error == MatchNotFound
    ensures r.Success? ==>
      && r.value.teams == db.teams
      && r.value.members == db.members
      && r.value.nextTeamId == db.nextTeamId
      && |r.value.matches| >= |db.matches|
      && r.value.nextMatchId == db.nextMatchId + (|r.value.matches| - |db.matches|)
  {
    var settled := Map(Settle(matchId, winner), db.matches);
    FindSettled(db.matches, matchId, winner);
    match FindMatch(settled, matchId)
    case None => Failure(MatchNotFound)
    case Some(m) =>
      var next := Advance(settled, m.sport, m.round, db.nextMatchId);
      Success(db.(matches := settled + next, nextMatchId := db.nextMatchId + |next|))
  }

  // ---------------------------------------------------------------------
  // Reset
  // ---------------------------------------------------------------------

  /** `DELETE /:sport`: delete every match of the sport; nothing else is touched. */
  function Reset(db: Db, sport: Sport): (r: Db)
    ensures r.teams == db.teams && r.members == db.members
    ensures r.nextTeamId == db.nextTeamId && r.nextMatchId == db.nextMatchId
    ensures forall m :: m in r.matches <==> m in db.matches && m.sport != sport
    ensures |r.matches| <= |db.matches|
  {
    db.(matches := OtherSportMatches(db.matches, sport))
  }

}
