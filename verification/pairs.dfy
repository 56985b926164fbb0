/**
 The pairing rule shared by bracket generation and round advancement: walk
 the ordered slots two at a time, and let an odd one out face a null
 opponent (a bye). Each pair becomes one new match row, numbered from 1.
 */
module Pairs {
  import opened Results
  import opened Seqs
  import opened Schema

  /** The two team slots of one new match. */
  datatype Pairing = Pairing(team1: Option<Id>, team2: Option<Id>)

  /** The slot a team fills in round 1: its id. */
  function TeamSlot(t: Team): Option<Id> {
    Some(t.id)
  }

  /** The slot a match's winner fills in the next round. */
  function WinnerOf(m: Match): Option<Id> {
    m.winner
  }

  /** Pairs consecutive slots: slots 2k and 2k+1 meet in pairing k. */
  function PairUp(slots: seq<Option<Id>>): (r: seq<Pairing>)
    ensures |r| == (|slots| + 1) / 2
    ensures forall k :: 0 <= k < |r| ==> r[k].team1 == slots[2 * k]
    ensures forall k :: 0 <= k < |r| ==>
      r[k].team2 == (if 2 * k + 1 < |slots| then slots[2 * k + 1] else None)
    decreases |slots|
  {
    if |slots| == 0 then []
    else if |slots| == 1 then [Pairing(slots[0], None)]
    else [Pairing(slots[0], slots[1])] + PairUp(slots[2..])
  }

  /**
   The rows inserted for one round: pairing k becomes match number k + 1 with
   the k-th fresh id, no winner and not completed.
   */
  function RoundRows(ps: seq<Pairing>, sport: Sport, round: nat, firstId: Id): seq<Match> {
    seq(|ps|, k requires 0 <= k < |ps| =>
      Match(firstId + k, sport, round, k + 1, ps[k].team1, ps[k].team2, None, false))
  }

  /**
   The insertion loop as the handlers write it: an index stepping by two and
   a match counter stepping by one, one `INSERT` per iteration.
   */
  method InsertRound(slots: seq<Option<Id>>, sport: Sport, round: nat, firstId: Id)
    returns (rows: seq<Match>)
    ensures |rows| == (|slots| + 1) / 2
    ensures rows == RoundRows(PairUp(slots), sport, round, firstId)
  {
    rows := [];
    var i := 0;
    var matchNumber := 1;
    while i < |slots|
      invariant 0 <= i <= |slots| + 1
      invariant i % 2 == 0
      invariant matchNumber == i / 2 + 1
      invariant |rows| == i / 2
      invariant forall k :: 0 <= k < |rows| ==>
        rows[k] == Match(firstId + k, sport, round, k + 1, slots[2 * k],
                         if 2 * k + 1 < |slots| then slots[2 * k + 1] else None, None, false)
      decreases |slots| - i
    {
      var team1 := slots[i];
      var team2 := if i + 1 < |slots| then slots[i + 1] else None;
      rows := rows + [Match(firstId + matchNumber - 1, sport, round, matchNumber, team1, team2, None, false)];
      matchNumber := matchNumber + 1;
      i := i + 2;
    }
  }

  /**
   The seating `PairUp` produces: match k of `ms` seats slots 2k and 2k+1,
   the second slot null when slot 2k+1 does not exist.
   */
  predicate SeatsPairs(ms: seq<Match>, slots: seq<Option<Id>>) {
    && |ms| == (|slots| + 1) / 2
    && forall k :: 0 <= k < |ms| ==>
         && ms[k].team1 == slots[2 * k]
         && ms[k].team2 == (if 2 * k + 1 < |slots| then slots[2 * k + 1] else None)
  }

  /** Rows of a newly inserted round: match k + 1 has the k-th fresh id, no winner and is not completed. */
  predicate FreshRound(ms: seq<Match>, sport: Sport, round: nat, firstId: Id) {
    forall k :: 0 <= k < |ms| ==>
      ms[k] == Match(firstId + k, sport, round, k + 1, ms[k].team1, ms[k].team2, None, false)
  }

  /** The inserted rows seat the pairs of `slots` in a fresh round. */
  lemma RoundRowsSeatPairs(slots: seq<Option<Id>>, sport: Sport, round: nat, firstId: Id)
    ensures SeatsPairs(RoundRows(PairUp(slots), sport, round, firstId), slots)
    ensures FreshRound(RoundRows(PairUp(slots), sport, round, firstId), sport, round, firstId)
  {
  }

  /** `next` is a fresh round `round` seating the winners of `ordered` pairwise, in order. */
  predicate PairsWinnersInOrder(next: seq<Match>, ordered: seq<Match>, sport: Sport, round: nat, firstId: Id) {
    SeatsPairs(next, Map(WinnerOf, ordered)) && FreshRound(next, sport, round, firstId)
  }

  /** With every winner set, a null second slot marks exactly the last match of an odd-sized round. */
  lemma ByeOnlyWhenOdd(next: seq<Match>, ordered: seq<Match>, sport: Sport, round: nat, firstId: Id)
    requires PairsWinnersInOrder(next, ordered, sport, round, firstId)
    requires forall m :: m in ordered ==> m.winner.Some?
    ensures forall k :: 0 <= k < |next| ==> (next[k].team2 == None <==> k == |next| - 1 && |ordered| % 2 == 1)
  {
    var winners := Map(WinnerOf, ordered);
    assert forall i :: 0 <= i < |winners| ==> winners[i].Some? by {
      forall i | 0 <= i < |winners| ensures winners[i].Some? {
        assert winners[i] == ordered[i].winner && ordered[i] in ordered;
      }
    }
    forall k | 0 <= k < |next| ensures next[k].team2 == None <==> k == |next| - 1 && |ordered| % 2 == 1 {
      SecondSlotNull(next, winners, k);
    }
  }

  /** In a seating of non-null slots, match k's second slot is null exactly when it is the short last pair. */
  lemma SecondSlotNull(ms: seq<Match>, slots: seq<Option<Id>>, k: nat)
    requires SeatsPairs(ms, slots)
    requires forall i :: 0 <= i < |slots| ==> slots[i].Some?
    requires k < |ms|
    ensures ms[k].team2 == None <==> k == |ms| - 1 && |slots| % 2 == 1
  {
    if 2 * k + 1 < |slots| {
      assert slots[2 * k + 1].Some?;
    }
  }
}
