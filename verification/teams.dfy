/**
 The team registry of the sports-day backend: creating a team with its
 members (refused when a requested student already has a membership row for
 the sport, or when the name is taken in the sport), updating a team by renaming
 it and replacing its membership wholesale, and deleting a team row.
 An absent member list in a request is the same as an empty one.
 */
module Teams {
  import opened Results
  import opened Seqs
  import opened Schema

  datatype TeamError =
    | StudentAssigned  // a requested student already has a membership row for the sport
    | DuplicateName    // a team of that name already exists in the sport

  /** The membership row `(team, student, sport)` that an insert writes for `student`. */
  function MemberRow(team: Id, sport: Sport): Id -> Membership {
    (student: Id) => Membership(team, student, sport)
  }

  function NotOfTeam(team: Id): Membership -> bool {
    (r: Membership) => r.team != team
  }

  function OfTeam(team: Id): Membership -> bool {
    (r: Membership) => r.team == team
  }

  function NotTeam(id: Id): Team -> bool {
    (t: Team) => t.id != id
  }

  function Rename(id: Id, name: string): Team -> Team {
    (t: Team) => if t.id == id then t.(name := name) else t
  }

  /**
   The registry's invariant: a student has at most one membership row per
   sport.
   */
  predicate OneRowPerSport(rows: seq<Membership>) {
    forall i, j :: 0 <= i < j < |rows| && rows[i].student == rows[j].student ==> rows[i].sport != rows[j].sport
  }

  /** No student id occurs twice in a requested member list. */
  predicate Distinct(students: seq<Id>) {
    forall i, j :: 0 <= i < j < |students| ==> students[i] != students[j]
  }

  /** `SELECT student_id FROM team_members WHERE student_id IN (?) AND sport = ?` finds a row. */
  predicate AnyAssigned(rows: seq<Membership>, students: seq<Id>, sport: Sport) {
    exists r :: r in rows && r.student in students && r.sport == sport
  }

  /** `SELECT id FROM teams WHERE team_name = ? AND sport = ?` finds a row. */
  predicate NameTaken(teams: seq<Team>, name: string, sport: Sport) {
    exists t :: t in teams && t.name == name && t.sport == sport
  }

  // ---------------------------------------------------------------------
  // Create
  // ---------------------------------------------------------------------

  /**
   `POST /`: refuse when a requested student is already assigned in the
   sport (checked first, and only for a non-empty list), then when the name
   is taken in the sport; otherwise insert the team under the next team id
   and one membership row per requested student, in request order.
   */
  function CreateTeam(db: Db, name: string, sport: Sport, students: seq<Id>): (r: Result<Db, TeamError>)
    ensures r.Failure? <==> AnyAssigned(db.members, students, sport) || NameTaken(db.teams, name, sport)
    ensures r.Failure? ==>
      r.error == (if AnyAssigned(db.members, students, sport) then StudentAssigned else DuplicateName)
    ensures r.Success? ==>
      && r.value.matches == db.matches
      && r.value.nextMatchId == db.nextMatchId
      && r.value.nextTeamId == db.nextTeamId + 1
      && |r.value.teams| == |db.teams| + 1
      && r.value.teams[..|db.teams|] == db.teams
      && r.value.teams[|db.teams|] == Team(db.nextTeamId, name, sport)
      && |r.value.members| == |db.members| + |students|
      && r.value.members[..|db.members|] == db.members
      && forall k :: 0 <= k < |students| ==>
           r.value.members[|db.members| + k] == Membership(db.nextTeamId, students[k], sport)
  {
    if |students| > 0 && AnyAssigned(db.members, students, sport) then Failure(StudentAssigned)
    else if NameTaken(db.teams, name, sport) then Failure(DuplicateName)
    else
      var id := db.nextTeamId;
      var rows := if |students| > 0 then Map(MemberRow(id, sport), students) else [];
      Success(db.(teams := db.teams + [Team(id, name, sport)],
                  members := db.members + rows,
                  nextTeamId := id + 1))
  }

  // ---------------------------------------------------------------------
  // Update
  // ---------------------------------------------------------------------

  /**
   `PUT /:id`: rename the team with that id, delete all of its membership
   rows and insert one row per requested student under the sport given in
   the request. No check is made against other teams' memberships, and a
   missing id renames nothing.
   */
  function UpdateTeam(db: Db, id: Id, name: string, sport: Sport, students: seq<Id>): (r: Db)
    ensures r.matches == db.matches && r.nextTeamId == db.nextTeamId && r.nextMatchId == db.nextMatchId
    ensures |r.teams| == |db.teams|
    ensures forall k :: 0 <= k < |db.teams| ==>
      r.teams[k] == if db.teams[k].id == id then db.teams[k].(name := name) else db.teams[k]
    ensures forall m :: m in r.members <==>
      (m in db.members && m.team != id) || (m.team == id && m.student in students && m.sport == sport)
  {
    var kept := Filter(NotOfTeam(id), db.members);
    var rows := Map(MemberRow(id, sport), students);
    assert forall m: Membership :: m in rows <==> m.team == id && m.student in students && m.sport == sport by {
      forall m: Membership | m.team == id && m.student in students && m.sport == sport ensures m in rows {
        var k :| 0 <= k < |students| && students[k] == m.student;
        assert rows[k] == m;
      }
    }
    db.(teams := Map(Rename(id, name), db.teams), members := kept + rows)
  }

  // ---------------------------------------------------------------------
  // Delete
  // ---------------------------------------------------------------------

  /**
   `DELETE /:id`: delete the team row with that id. Membership rows and
   matches that refer to it are left as they are.
   */
  function DeleteTeam(db: Db, id: Id): (r: Db)
    ensures r.members == db.members && r.matches == db.matches
    ensures r.nextTeamId == db.nextTeamId && r.nextMatchId == db.nextMatchId
    ensures forall t :: t in r.teams <==> t in db.teams && t.id != id
  {
    db.(teams := Filter(NotTeam(id), db.teams))
  }
}
