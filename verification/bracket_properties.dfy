/**
 Properties of the bracket engine: what generation, result recording and
 reset do to a sport's matches, and what they leave alone.
 */
module BracketProperties {
  import opened Results
  import opened Seqs
  import opened Schema
  import opened Pairs
  import opened Brackets

  /** The sport's matches after a successful generation are exactly the new round-1 rows. */
  lemma GeneratedSportMatches(db: Db, sport: Sport)
    requires |SportTeams(db.teams, sport)| >= 2
    ensures var teams := SportTeams(db.teams, sport);
            SportMatches(Generate(db, sport).value.matches, sport)
              == RoundRows(PairUp(Map(TeamSlot, teams)), sport, 1, db.nextMatchId)
    ensures forall other :: other != sport ==>
      SportMatches(Generate(db, sport).value.matches, other) == SportMatches(db.matches, other)
  {
    var teams := SportTeams(db.teams, sport);
    var firstRound := RoundRows(PairUp(Map(TeamSlot, teams)), sport, 1, db.nextMatchId);
    var kept := OtherSportMatches(db.matches, sport);
    assert Generate(db, sport).value.matches == kept + firstRound;
    FilterConcat(MatchInSport(sport), kept, firstRound);
    FilterNone(MatchInSport(sport), kept);
    FilterAll(MatchInSport(sport), firstRound);
    forall other | other != sport
      ensures SportMatches(kept + firstRound, other) == SportMatches(db.matches, other)
    {
      FilterConcat(MatchInSport(other), kept, firstRound);
      FilterNone(MatchInSport(other), firstRound);
      FilterSubsumed(MatchInSport(other), MatchNotInSport(sport), db.matches);
    }
  }

  /**
   Generation with n >= 2 teams yields ceil(n/2) round-1 matches numbered
   1..ceil(n/2); match k+1 pairs the teams at positions 2k and 2k+1 of the
   sport's team list in table order, no match has a winner, and none is completed (byes
   included).
   */
  lemma GenerateRoundOne(db: Db, sport: Sport)
    requires |SportTeams(db.teams, sport)| >= 2
    ensures var teams := SportTeams(db.teams, sport);
            var ms := SportMatches(Generate(db, sport).value.matches, sport);
            && |ms| == (|teams| + 1) / 2
            && forall k :: 0 <= k < |ms| ==>
                 && ms[k].round == 1
                 && ms[k].number == k + 1
                 && ms[k].team1 == Some(teams[2 * k].id)
                 && ms[k].team2 == (if 2 * k + 1 < |teams| then Some(teams[2 * k + 1].id) else None)
                 && ms[k].winner == None
                 && !ms[k].completed
  {
    GeneratedSportMatches(db, sport);
  }

  /**
   In a well-formed state the table order is id order: within a match the
   first team has the smaller id, and the first teams ascend with the match
   number, as `ORDER BY id` gives.
   */
  lemma GenerateSeatsInIdOrder(db: Db, sport: Sport)
    requires WellFormed(db)
    requires |SportTeams(db.teams, sport)| >= 2
    ensures var ms := SportMatches(Generate(db, sport).value.matches, sport);
            && (forall k :: 0 <= k < |ms| ==> ms[k].team1.Some?)
            && (forall k :: 0 <= k < |ms| && ms[k].team2.Some? ==> ms[k].team1.value < ms[k].team2.value)
            && (forall k1, k2 :: 0 <= k1 < k2 < |ms| ==> ms[k1].team1.value < ms[k2].team1.value)
  {
    var teams := SportTeams(db.teams, sport);
    var ms := SportMatches(Generate(db, sport).value.matches, sport);
    GeneratedSportMatches(db, sport);
    RoundRowsSeatPairs(Map(TeamSlot, teams), sport, 1, db.nextMatchId);
    FilterAscendingBy(TeamId, TeamInSport(sport), db.teams);
    TeamSlotsAscending(teams);
    PairingInIdOrder(ms, Map(TeamSlot, teams));
  }

  /** Seating ascending, non-null slots pairwise keeps them ascending within and across matches. */
  lemma PairingInIdOrder(ms: seq<Match>, slots: seq<Option<Id>>)
    requires SeatsPairs(ms, slots)
    requires forall i :: 0 <= i < |slots| ==> slots[i].Some?
    requires forall i, j :: 0 <= i < j < |slots| ==> slots[i].value < slots[j].value
    ensures forall k :: 0 <= k < |ms| ==> ms[k].team1.Some?
    ensures forall k :: 0 <= k < |ms| && ms[k].team2.Some? ==> ms[k].team1.value < ms[k].team2.value
    ensures forall k1, k2 :: 0 <= k1 < k2 < |ms| ==> ms[k1].team1.value < ms[k2].team1.value
  {
    forall k1, k2 | 0 <= k1 < k2 < |ms| ensures ms[k1].team1.value < ms[k2].team1.value {
      assert ms[k1].team1 == slots[2 * k1] && ms[k2].team1 == slots[2 * k2];
    }
  }

  /** The slots of an id-ascending team list are non-null and ascending. */
  lemma TeamSlotsAscending(teams: seq<Team>)
    requires AscendingBy(TeamId, teams)
    ensures forall i :: 0 <= i < |Map(TeamSlot, teams)| ==> Map(TeamSlot, teams)[i].Some?
    ensures forall i, j :: 0 <= i < j < |Map(TeamSlot, teams)| ==> Map(TeamSlot, teams)[i].value < Map(TeamSlot, teams)[j].value
  {
  }

  /** Only the last round-1 match can be a bye, and it is one exactly when the team count is odd. */
  lemma GenerateByeIffOdd(db: Db, sport: Sport)
    requires |SportTeams(db.teams, sport)| >= 2
    ensures var n := |SportTeams(db.teams, sport)|;
            var ms := SportMatches(Generate(db, sport).value.matches, sport);
            forall k :: 0 <= k < |ms| ==> (ms[k].team2 == None <==> k == |ms| - 1 && n % 2 == 1)
  {
    var teams := SportTeams(db.teams, sport);
    var ms := SportMatches(Generate(db, sport).value.matches, sport);
    GenerateRoundOne(db, sport);
    forall k | 0 <= k < |ms| ensures ms[k].team2 == None <==> k == |ms| - 1 && |teams| % 2 == 1 {
      assert ms[k].team2 == (if 2 * k + 1 < |teams| then Some(teams[2 * k + 1].id) else None);
      LastPairShort(|teams|, k);
    }
  }

  /** Of the ceil(n/2) pairs of n slots, only the last can be short, and it is when n is odd. */
  lemma LastPairShort(n: nat, k: nat)
    requires k < (n + 1) / 2
    ensures 2 * k + 1 >= n <==> k == (n + 1) / 2 - 1 && n % 2 == 1
  {
  }

  /**
   The matches seat `teams` pairwise by position. Written as a predicate of
   its own rather than as `SeatsPairs(ms, Map(TeamSlot, teams))` in each
   precondition: with that composed form assumed directly over an arbitrary
   team list, Dafny 4.11 reaches `false`, so the lemmas below would hold
   vacuously.
   */
  predicate PairedByPosition(ms: seq<Match>, teams: seq<Team>) {
    SeatsPairs(ms, Map(TeamSlot, teams))
  }

  /** Team p of the list sits in match p / 2. */
  lemma EveryTeamSeated(ms: seq<Match>, teams: seq<Team>, p: nat)
    requires PairedByPosition(ms, teams)
    requires p < |teams|
    ensures 0 <= p / 2 < |ms| && Seated(ms[p / 2], teams[p].id)
  {
    var k := p / 2;
    if p % 2 == 0 {
      assert p == 2 * k;
      assert ms[k].team1 == Some(teams[p].id);
    } else {
      assert p == 2 * k + 1;
      assert ms[k].team2 == Some(teams[p].id);
    }
  }

  /** Where team `id` sits in match k: position 2k or 2k+1 of the team list. */
  lemma SeatPosition(ms: seq<Match>, teams: seq<Team>, k: nat, id: Id) returns (p: nat)
    requires PairedByPosition(ms, teams)
    requires k < |ms| && Seated(ms[k], id)
    ensures p < |teams| && teams[p].id == id && (p == 2 * k || p == 2 * k + 1)
  {
    if ms[k].team1 == Some(id) {
      p := 2 * k;
    } else {
      assert ms[k].team2 == Some(id);
      p := 2 * k + 1;
    }
  }

  /** Every team of `teams` sits in exactly one match of `ms`, and no other team sits anywhere. */
  ghost predicate SeatsEachTeamOnce(ms: seq<Match>, teams: seq<Team>) {
    && (forall t :: t in teams ==> exists k :: 0 <= k < |ms| && Seated(ms[k], t.id))
    && (forall k1, k2, id :: 0 <= k1 < |ms| && 0 <= k2 < |ms| && Seated(ms[k1], id) && Seated(ms[k2], id)
          ==> k1 == k2)
    && (forall k, id :: 0 <= k < |ms| && Seated(ms[k], id) ==> exists t :: t in teams && t.id == id)
  }

  /** Pairing teams with distinct ids by position seats each of them exactly once. */
  lemma PairingSeatsEachTeamOnce(ms: seq<Match>, teams: seq<Team>)
    requires PairedByPosition(ms, teams)
    requires forall i, j :: 0 <= i < j < |teams| ==> teams[i].id < teams[j].id
    ensures SeatsEachTeamOnce(ms, teams)
  {
    forall t | t in teams ensures exists k :: 0 <= k < |ms| && Seated(ms[k], t.id) {
      var p :| 0 <= p < |teams| && teams[p] == t;
      EveryTeamSeated(ms, teams, p);
    }
    forall k1, k2, id | 0 <= k1 < |ms| && 0 <= k2 < |ms| && Seated(ms[k1], id) && Seated(ms[k2], id)
      ensures k1 == k2
    {
      var p1 := SeatPosition(ms, teams, k1, id);
      var p2 := SeatPosition(ms, teams, k2, id);
      assert p1 == p2;
    }
    forall k, id | 0 <= k < |ms| && Seated(ms[k], id) ensures exists t :: t in teams && t.id == id {
      var p := SeatPosition(ms, teams, k, id);
      assert teams[p] in teams;
    }
  }

  /**
   In a well-formed state every team of the sport sits in exactly one
   round-1 match, and no other team does.
   */
  lemma GenerateSeatsEachTeamOnce(db: Db, sport: Sport)
    requires WellFormed(db)
    requires |SportTeams(db.teams, sport)| >= 2
    ensures SeatsEachTeamOnce(SportMatches(Generate(db, sport).value.matches, sport), SportTeams(db.teams, sport))
  {
    var teams := SportTeams(db.teams, sport);
    var ms := SportMatches(Generate(db, sport).value.matches, sport);
    GeneratedSportMatches(db, sport);
    RoundRowsSeatPairs(Map(TeamSlot, teams), sport, 1, db.nextMatchId);
    FilterAscendingBy(TeamId, TeamInSport(sport), db.teams);
    PairingSeatsEachTeamOnce(ms, teams);
  }

  /**
   Generation depends on the teams table alone: two states with the same
   teams, whatever their matches and results, give the same round-1
   pairings (round, match number, both slots); only the row ids differ.
   */
  lemma GenerateIsDeterministic(db1: Db, db2: Db, sport: Sport)
    requires db1.teams == db2.teams
    requires |SportTeams(db1.teams, sport)| >= 2
    ensures && Generate(db1, sport).Success? && Generate(db2, sport).Success?
            && var a := SportMatches(Generate(db1, sport).value.matches, sport);
               var b := SportMatches(Generate(db2, sport).value.matches, sport);
               && |a| == |b|
               && forall k :: 0 <= k < |a| ==> a[k].(id := 0) == b[k].(id := 0)
  {
    GeneratedSportMatches(db1, sport);
    GeneratedSportMatches(db2, sport);
  }

  /**
   Regenerating a bracket after results have been recorded reproduces the
   round-1 pairings of the original generation.
   */
  lemma RegenerateAfterResult(db: Db, sport: Sport, matchId: Id, winner: Option<Id>)
    requires |SportTeams(db.teams, sport)| >= 2
    requires RecordResult(Generate(db, sport).value, matchId, winner).Success?
    ensures var played := RecordResult(Generate(db, sport).value, matchId, winner).value;
            && Generate(played, sport).Success?
            && var a := SportMatches(Generate(db, sport).value.matches, sport);
               var b := SportMatches(Generate(played, sport).value.matches, sport);
               && |a| == |b|
               && forall k :: 0 <= k < |a| ==> a[k].(id := 0) == b[k].(id := 0)
  {
    var played := RecordResult(Generate(db, sport).value, matchId, winner).value;
    GenerateIsDeterministic(db, played, sport);
  }

  /** Generation keeps ids ascending and below the counter. */
  lemma GeneratePreservesWellFormed(db: Db, sport: Sport)
    requires WellFormed(db)
    ensures Generate(db, sport).Success? ==> WellFormed(Generate(db, sport).value)
  {
    if Generate(db, sport).Success? {
      var teams := SportTeams(db.teams, sport);
      var firstRound := RoundRows(PairUp(Map(TeamSlot, teams)), sport, 1, db.nextMatchId);
      var kept := OtherSportMatches(db.matches, sport);
      FilterAscendingBy(MatchId, MatchNotInSport(sport), db.matches);
      var after := kept + firstRound;
      assert forall i :: 0 <= i < |kept| ==> kept[i] in db.matches;
      forall i, j | 0 <= i < j < |after| ensures after[i].id < after[j].id {
        if j < |kept| {
        } else if i < |kept| {
          assert kept[i] in db.matches;
        } else {
        }
      }
    }
  }

  /**
   What a recorded result does to the match table: the existing rows settled
   in place, followed by whatever the advancement step of the target's
   (sport, round) produces. This is `RecordResultTable` cut at the old
   length, the form the lemmas about positions use.
   */
  lemma RecordResultSplit(db: Db, matchId: Id, winner: Option<Id>, post: Db, target: Match)
    requires RecordResult(db, matchId, winner) == Success(post)
    requires FindMatch(db.matches, matchId) == Some(target)
    ensures |db.matches| <= |post.matches|
    ensures post.matches[..|db.matches|] == Map(Settle(matchId, winner), db.matches)
    ensures post.matches[|db.matches|..]
         == Advance(Map(Settle(matchId, winner), db.matches), target.sport, target.round, db.nextMatchId)
  {
    var settled := Map(Settle(matchId, winner), db.matches);
    RecordResultTable(db, matchId, winner, post, target);
    SplitAt(post.matches, settled, Advance(settled, target.sport, target.round, db.nextMatchId), |db.matches|);
  }

  /**
   Recording a result changes exactly the rows whose id is the match's id,
   setting their winner and completion flag; every other existing row is
   unchanged and keeps its position.
   */
  lemma RecordResultSettlesInPlace(db: Db, matchId: Id, winner: Option<Id>, post: Db)
    requires RecordResult(db, matchId, winner) == Success(post)
    ensures |post.matches| >= |db.matches|
    ensures forall i :: 0 <= i < |db.matches| ==>
              post.matches[i] == if db.matches[i].id == matchId
                                 then db.matches[i].(winner := winner, completed := true)
                                 else db.matches[i]
  {
    var target := FindMatch(db.matches, matchId).value;
    RecordResultSplit(db, matchId, winner, post, target);
    forall i | 0 <= i < |db.matches|
      ensures post.matches[i] == Settle(matchId, winner)(db.matches[i])
    {
      assert post.matches[i] == post.matches[..|db.matches|][i];
    }
  }

  /** A round with more than one match always yields at least one next-round match. */
  lemma NextRoundNonEmpty(ms: seq<Match>, sport: Sport, round: nat, firstId: Id)
    requires |RoundMatchesOf(ms, sport, round)| > 1
    ensures |NextRound(ms, sport, round, firstId)| == (|RoundMatchesOf(ms, sport, round)| + 1) / 2
  {
    NextRoundShape(ms, sport, round, firstId);
  }

  /** The advancement step adds rows exactly when the round is complete and has more than one match. */
  lemma AdvanceIffRoundComplete(ms: seq<Match>, sport: Sport, round: nat, firstId: Id)
    ensures |Advance(ms, sport, round, firstId)| > 0
        <==> RoundComplete(ms, sport, round) && |RoundMatchesOf(ms, sport, round)| > 1
  {
    if |RoundMatchesOf(ms, sport, round)| > 1 {
      NextRoundNonEmpty(ms, sport, round, firstId);
    }
  }

  /**
   A new round is inserted exactly when, after the update, every match of the
   target's (sport, round) is completed and that round has more than one
   match; after the final (a round of one match) nothing is added.
   */
  lemma AdvancesIffRoundComplete(db: Db, matchId: Id, winner: Option<Id>, post: Db, target: Match)
    requires RecordResult(db, matchId, winner) == Success(post)
    requires FindMatch(db.matches, matchId) == Some(target)
    ensures var settled := post.matches[..|db.matches|];
            |post.matches| > |db.matches| <==>
              RoundComplete(settled, target.sport, target.round)
              && |RoundMatchesOf(settled, target.sport, target.round)| > 1
  {
    RecordResultSplit(db, matchId, winner, post, target);
    AdvanceIffRoundComplete(Map(Settle(matchId, winner), db.matches), target.sport, target.round, db.nextMatchId);
  }

  /**
   When a round of T matches completes, round R+1 gets ceil(T/2) matches
   numbered from 1 with fresh ids, pairing the winners of the round taken in
   match-number order (`SortBy` returns a sorted permutation of the round).
   */
  lemma NextRoundPairsWinners(db: Db, matchId: Id, winner: Option<Id>, post: Db, target: Match)
    requires RecordResult(db, matchId, winner) == Success(post)
    requires FindMatch(db.matches, matchId) == Some(target)
    ensures |post.matches| > |db.matches| ==>
      PairsWinnersInOrder(post.matches[|db.matches|..], SortBy(NumberOf, RoundMatchesOf(post.matches[..|db.matches|], target.sport, target.round)), target.sport, target.round + 1,
                          db.nextMatchId)
  {
    RecordResultSplit(db, matchId, winner, post, target);
    if |post.matches| > |db.matches| {
      AppendedRoundPairsWinners(db, matchId, winner, post, target);
    }
  }

  /** The rows after the settled prefix, when there are any, pair the round's winners in order. */
  lemma AppendedRoundPairsWinners(db: Db, matchId: Id, winner: Option<Id>, post: Db, target: Match)
    requires |post.matches| > |db.matches|
    requires post.matches[..|db.matches|] == Map(Settle(matchId, winner), db.matches)
    requires post.matches[|db.matches|..]
          == Advance(Map(Settle(matchId, winner), db.matches), target.sport, target.round, db.nextMatchId)
    ensures PairsWinnersInOrder(post.matches[|db.matches|..], SortBy(NumberOf, RoundMatchesOf(post.matches[..|db.matches|], target.sport, target.round)), target.sport, target.round + 1,
                                   db.nextMatchId)
  {
    AdvancePairsWinners(Map(Settle(matchId, winner), db.matches), target.sport, target.round, db.nextMatchId);
  }

  /** A non-empty advancement is the next round built from the round's winners. */
  lemma AdvancePairsWinners(ms: seq<Match>, sport: Sport, round: nat, firstId: Id)
    requires |Advance(ms, sport, round, firstId)| > 0
    ensures PairsWinnersInOrder(Advance(ms, sport, round, firstId), SortBy(NumberOf, RoundMatchesOf(ms, sport, round)), sport, round + 1, firstId)
  {
    NextRoundShape(ms, sport, round, firstId);
  }

  /**
   When every winner of the completed round is set, the last new match is the
   only one that can have a null second team, and it has one exactly when the
   round had an odd number of matches.
   */
  lemma NextRoundByeIffOdd(db: Db, matchId: Id, winner: Option<Id>, post: Db, target: Match)
    requires RecordResult(db, matchId, winner) == Success(post)
    requires FindMatch(db.matches, matchId) == Some(target)
    requires forall m :: m in RoundMatchesOf(post.matches[..|db.matches|], target.sport, target.round)
               ==> m.winner.Some?
    ensures var total := |RoundMatchesOf(post.matches[..|db.matches|], target.sport, target.round)|;
            var next := post.matches[|db.matches|..];
            forall k :: 0 <= k < |next| ==> (next[k].team2 == None <==> k == |next| - 1 && total % 2 == 1)
  {
    if |post.matches| > |db.matches| {
      var round := RoundMatchesOf(post.matches[..|db.matches|], target.sport, target.round);
      var ordered := SortBy(NumberOf, round);
      NextRoundPairsWinners(db, matchId, winner, post, target);
      SortBySorted(NumberOf, round);
      forall m | m in ordered ensures m.winner.Some? {
        assert m in multiset(round);
      }
      ByeOnlyWhenOdd(post.matches[|db.matches|..], ordered, target.sport, target.round + 1, db.nextMatchId);
    }
  }

  // ---------------------------------------------------------------------
  // Re-recording a result in a round that is already complete
  // ---------------------------------------------------------------------

  /** Settling rows touches neither sport nor round, so a round's rows are settled in place. */
  lemma SettleKeepsRounds(ms: seq<Match>, matchId: Id, winner: Option<Id>, sport: Sport, round: nat)
    ensures RoundMatchesOf(Map(Settle(matchId, winner), ms), sport, round)
         == Map(Settle(matchId, winner), RoundMatchesOf(ms, sport, round))
  {
    FilterMapCommute(MatchInRound(sport, round), Settle(matchId, winner), ms);
  }

  /** Settling only ever sets the completion flag, so a complete round stays complete. */
  lemma SettleKeepsComplete(ms: seq<Match>, matchId: Id, winner: Option<Id>, sport: Sport, round: nat)
    requires RoundComplete(ms, sport, round)
    ensures RoundComplete(Map(Settle(matchId, winner), ms), sport, round)
  {
    var settled := Map(Settle(matchId, winner), ms);
    forall m | m in settled && m.sport == sport && m.round == round ensures m.completed {
      var i :| 0 <= i < |settled| && settled[i] == m;
      assert m == Settle(matchId, winner)(ms[i]);
      assert ms[i] in ms;
    }
  }

  /**
   Recording a result for a match whose round was already complete (a
   correction, or the same result sent twice) still appends a full round
   R+1 of ceil(T/2) matches, whether or not that round already exists; the
   existing rows, including any earlier round R+1, stay in place
   (`RecordResultSettlesInPlace`).
   */
  lemma ReRecordAppendsAnotherRound(db: Db, matchId: Id, winner: Option<Id>, post: Db, target: Match)
    requires RecordResult(db, matchId, winner) == Success(post)
    requires FindMatch(db.matches, matchId) == Some(target)
    requires RoundComplete(db.matches, target.sport, target.round)
    requires |RoundMatchesOf(db.matches, target.sport, target.round)| > 1
    ensures |post.matches| == |db.matches| + (|RoundMatchesOf(db.matches, target.sport, target.round)| + 1) / 2
    ensures forall i :: |db.matches| <= i < |post.matches| ==>
              post.matches[i].sport == target.sport && post.matches[i].round == target.round + 1
    ensures |RoundMatchesOf(post.matches, target.sport, target.round + 1)|
         == |RoundMatchesOf(db.matches, target.sport, target.round + 1)|
            + (|RoundMatchesOf(db.matches, target.sport, target.round)| + 1) / 2
  {
    RecordResultSplit(db, matchId, winner, post, target);
    CompleteRoundAppends(db.matches, post.matches, matchId, winner, target.sport, target.round, db.nextMatchId);
    RecordResultGrowsNextRound(db, matchId, winner, post, target);
  }

  /**
   The match table after a result, as one equation: the settled rows
   followed by the advancement rows. Lemmas about round counts take this
   equation as their premise instead of the call to `RecordResult`, which
   keeps `RecordResult`'s contract out of their proofs.
   */
  lemma RecordResultTable(db: Db, matchId: Id, winner: Option<Id>, post: Db, target: Match)
    requires RecordResult(db, matchId, winner) == Success(post)
    requires FindMatch(db.matches, matchId) == Some(target)
    ensures post.matches == Map(Settle(matchId, winner), db.matches)
                            + Advance(Map(Settle(matchId, winner), db.matches), target.sport, target.round, db.nextMatchId)
  {
    FindSettled(db.matches, matchId, winner);
  }

  /**
   Every result adds rows to round R+1 of the target's sport only: that
   round grows by exactly the number of rows the result appends.
   */
  lemma RecordResultGrowsNextRound(db: Db, matchId: Id, winner: Option<Id>, post: Db, target: Match)
    requires RecordResult(db, matchId, winner) == Success(post)
    requires FindMatch(db.matches, matchId) == Some(target)
    ensures |RoundMatchesOf(post.matches, target.sport, target.round + 1)|
         == |RoundMatchesOf(db.matches, target.sport, target.round + 1)| + (|post.matches| - |db.matches|)
  {
    RecordResultTable(db, matchId, winner, post, target);
    TableGrowsNextRound(db, matchId, winner, post, target);
  }

  /** `RecordResultGrowsNextRound` for a table given by its equation. */
  lemma TableGrowsNextRound(db: Db, matchId: Id, winner: Option<Id>, post: Db, target: Match)
    requires post.matches == Map(Settle(matchId, winner), db.matches)
                             + Advance(Map(Settle(matchId, winner), db.matches), target.sport, target.round, db.nextMatchId)
    ensures |RoundMatchesOf(post.matches, target.sport, target.round + 1)|
         == |RoundMatchesOf(db.matches, target.sport, target.round + 1)| + (|post.matches| - |db.matches|)
  {
    AdvanceGrowsNextRound(db.matches, post.matches, matchId, winner, target.sport, target.round, db.nextMatchId);
  }

  /** On the match table alone: the advancement rows all land in round R+1. */
  lemma AdvanceGrowsNextRound(ms: seq<Match>, after: seq<Match>, matchId: Id, winner: Option<Id>, sport: Sport, round: nat, firstId: Id)
    requires after == Map(Settle(matchId, winner), ms) + Advance(Map(Settle(matchId, winner), ms), sport, round, firstId)
    ensures |RoundMatchesOf(after, sport, round + 1)| == |RoundMatchesOf(ms, sport, round + 1)| + (|after| - |ms|)
  {
    var settled := Map(Settle(matchId, winner), ms);
    var next := Advance(settled, sport, round, firstId);
    if |next| > 0 {
      AdvancePairsWinners(settled, sport, round, firstId);
    }
    AppendedRoundCount(ms, next, matchId, winner, sport, round + 1);
  }

  /** Rows of one (sport, round) appended to a settled table add exactly their number to that round. */
  lemma AppendedRoundCount(ms: seq<Match>, next: seq<Match>, matchId: Id, winner: Option<Id>, sport: Sport, round: nat)
    requires forall i :: 0 <= i < |next| ==> next[i].sport == sport && next[i].round == round
    ensures |RoundMatchesOf(Map(Settle(matchId, winner), ms) + next, sport, round)|
         == |RoundMatchesOf(ms, sport, round)| + |next|
  {
    var settled := Map(Settle(matchId, winner), ms);
    FilterConcat(MatchInRound(sport, round), settled, next);
    SettleKeepsRounds(ms, matchId, winner, sport, round);
    WholeRound(next, sport, round);
  }

  /** Rows that all belong to (sport, round) are all selected by the round's filter. */
  lemma WholeRound(rows: seq<Match>, sport: Sport, round: nat)
    requires forall i :: 0 <= i < |rows| ==> rows[i].sport == sport && rows[i].round == round
    ensures RoundMatchesOf(rows, sport, round) == rows
  {
    FilterAll(MatchInRound(sport, round), rows);
  }

  /** `ReRecordAppendsAnotherRound` on the match table alone. */
  lemma CompleteRoundAppends(ms: seq<Match>, after: seq<Match>, matchId: Id, winner: Option<Id>, sport: Sport, round: nat, firstId: Id)
    requires RoundComplete(ms, sport, round)
    requires |RoundMatchesOf(ms, sport, round)| > 1
    requires |ms| <= |after|
    requires after[..|ms|] == Map(Settle(matchId, winner), ms)
    requires after[|ms|..] == Advance(Map(Settle(matchId, winner), ms), sport, round, firstId)
    ensures |after| == |ms| + (|RoundMatchesOf(ms, sport, round)| + 1) / 2
    ensures forall i :: |ms| <= i < |after| ==> after[i].sport == sport && after[i].round == round + 1
  {
    var settled := Map(Settle(matchId, winner), ms);
    var next := NextRound(settled, sport, round, firstId);
    SettleKeepsComplete(ms, matchId, winner, sport, round);
    SettleKeepsRounds(ms, matchId, winner, sport, round);
    NextRoundNonEmpty(settled, sport, round, firstId);
    NextRoundShape(settled, sport, round, firstId);
    SuffixInRound(ms, after, next, sport, round + 1);
  }

  /** Rows appended after `ms` that all lie in (sport, round) put every later position there. */
  lemma SuffixInRound(ms: seq<Match>, after: seq<Match>, rows: seq<Match>, sport: Sport, round: nat)
    requires |ms| <= |after| && after[|ms|..] == rows
    requires forall k :: 0 <= k < |rows| ==> rows[k].sport == sport && rows[k].round == round
    ensures forall i :: |ms| <= i < |after| ==> after[i].sport == sport && after[i].round == round
  {
    forall i | |ms| <= i < |after| ensures after[i].sport == sport && after[i].round == round {
      assert after[i] == rows[i - |ms|];
    }
  }

  // ---------------------------------------------------------------------
  // Well-formedness of the tables after a result
  // ---------------------------------------------------------------------

  /** Appending rows with consecutive fresh ids keeps the ids ascending and below the counter. */
  lemma AppendFreshRows(ms: seq<Match>, rows: seq<Match>, firstId: Id)
    requires forall i, j :: 0 <= i < j < |ms| ==> ms[i].id < ms[j].id
    requires forall m :: m in ms ==> m.id < firstId
    requires forall k :: 0 <= k < |rows| ==> rows[k].id == firstId + k
    ensures forall i, j :: 0 <= i < j < |ms + rows| ==> (ms + rows)[i].id < (ms + rows)[j].id
    ensures forall m :: m in ms + rows ==> m.id < firstId + |rows|
  {
    var after := ms + rows;
    forall i, j | 0 <= i < j < |after| ensures after[i].id < after[j].id {
      if j < |ms| {
      } else if i < |ms| {
        assert after[i] in ms;
      } else {
      }
    }
    forall m | m in after ensures m.id < firstId + |rows| {
      var i :| 0 <= i < |after| && after[i] == m;
      if i >= |ms| {
        assert m == rows[i - |ms|];
      }
    }
  }

  /** The advancement step numbers its rows with consecutive ids from the counter. */
  lemma AdvanceFreshIds(ms: seq<Match>, sport: Sport, round: nat, firstId: Id)
    ensures forall k :: 0 <= k < |Advance(ms, sport, round, firstId)| ==> Advance(ms, sport, round, firstId)[k].id == firstId + k
  {
    if |Advance(ms, sport, round, firstId)| > 0 {
      AdvancePairsWinners(ms, sport, round, firstId);
    }
  }

  /** Settling keeps every row's id, so ascending ids stay ascending and below the counter. */
  lemma SettleKeepsIds(ms: seq<Match>, matchId: Id, winner: Option<Id>, bound: Id)
    requires forall i, j :: 0 <= i < j < |ms| ==> ms[i].id < ms[j].id
    requires forall m :: m in ms ==> m.id < bound
    ensures var settled := Map(Settle(matchId, winner), ms);
            && (forall i, j :: 0 <= i < j < |settled| ==> settled[i].id < settled[j].id)
            && (forall m :: m in settled ==> m.id < bound)
  {
    var settled := Map(Settle(matchId, winner), ms);
    forall m | m in settled ensures m.id < bound {
      var i :| 0 <= i < |settled| && settled[i] == m;
      assert ms[i] in ms;
    }
  }

  lemma RecordResultPreservesWellFormed(db: Db, matchId: Id, winner: Option<Id>)
    requires WellFormed(db)
    ensures RecordResult(db, matchId, winner).Success? ==> WellFormed(RecordResult(db, matchId, winner).value)
  {
    if RecordResult(db, matchId, winner).Success? {
      var post := RecordResult(db, matchId, winner).value;
      var target := FindMatch(db.matches, matchId).value;
      RecordResultSplit(db, matchId, winner, post, target);
      var settled := Map(Settle(matchId, winner), db.matches);
      var next := Advance(settled, target.sport, target.round, db.nextMatchId);
      SettleKeepsIds(db.matches, matchId, winner, db.nextMatchId);
      AdvanceFreshIds(settled, target.sport, target.round, db.nextMatchId);
      AppendFreshRows(settled, next, db.nextMatchId);
      assert post.matches == settled + next by {
        assert post.matches == post.matches[..|db.matches|] + post.matches[|db.matches|..];
      }
    }
  }

  // ---------------------------------------------------------------------
  // Reset
  // ---------------------------------------------------------------------

  /** After a reset the sport has no matches and every other sport's matches are as before. */
  lemma ResetClearsOnlySport(db: Db, sport: Sport)
    ensures SportMatches(Reset(db, sport).matches, sport) == []
    ensures forall other :: other != sport ==>
      SportMatches(Reset(db, sport).matches, other) == SportMatches(db.matches, other)
  {
    FilterNone(MatchInSport(sport), Reset(db, sport).matches);
    forall other | other != sport
      ensures SportMatches(Reset(db, sport).matches, other) == SportMatches(db.matches, other)
    {
      FilterSubsumed(MatchInSport(other), MatchNotInSport(sport), db.matches);
    }
  }

  /** Resetting twice is resetting once. */
  lemma ResetIdempotent(db: Db, sport: Sport)
    ensures Reset(Reset(db, sport), sport) == Reset(db, sport)
  {
    FilterSubsumed(MatchNotInSport(sport), MatchNotInSport(sport), db.matches);
  }

  /** Generation already deletes the sport's matches, so a reset before it changes nothing. */
  lemma GenerateAfterReset(db: Db, sport: Sport)
    ensures Generate(Reset(db, sport), sport) == Generate(db, sport)
  {
    var kept := OtherSportMatches(db.matches, sport);
    FilterSubsumed(MatchNotInSport(sport), MatchNotInSport(sport), db.matches);
    GenerateIgnoresSportMatches(db, kept, sport);
  }

  /** Generation reads the old match table only through the other sports' matches. */
  lemma GenerateIgnoresSportMatches(db: Db, matches: seq<Match>, sport: Sport)
    requires OtherSportMatches(matches, sport) == OtherSportMatches(db.matches, sport)
    ensures Generate(db.(matches := matches), sport) == Generate(db, sport)
  {
    if |SportTeams(db.teams, sport)| >= 2 {
      GenerateUnfolds(db, sport);
      GenerateUnfolds(db.(matches := matches), sport);
    }
  }

  /**
   The state a successful generation produces, spelled out. Comparing two
   generations through this equation avoids unfolding `Generate` and its
   contract once per side.
   */
  lemma GenerateUnfolds(db: Db, sport: Sport)
    requires |SportTeams(db.teams, sport)| >= 2
    ensures var firstRound := RoundRows(PairUp(Map(TeamSlot, SportTeams(db.teams, sport))), sport, 1, db.nextMatchId);
            Generate(db, sport)
              == Success(db.(matches := OtherSportMatches(db.matches, sport) + firstRound,
                             nextMatchId := db.nextMatchId + |firstRound|))
  {
  }

  lemma ResetPreservesWellFormed(db: Db, sport: Sport)
    requires WellFormed(db)
    ensures WellFormed(Reset(db, sport))
  {
    FilterAscendingBy(MatchId, MatchNotInSport(sport), db.matches);
  }
}
