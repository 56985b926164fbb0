/**
 Properties of the team registry: the one-row-per-sport invariant under
 create and update, the exact effect of each operation on the membership
 table, and the id discipline of the teams table.
 */
module TeamProperties {
  import opened Results
  import opened Seqs
  import opened Schema
  import opened Teams

  // ---------------------------------------------------------------------
  // The one-row-per-sport invariant
  // ---------------------------------------------------------------------

  /**
   A successful create keeps at most one membership row per (student, sport),
   provided the request does not list a student twice: the assignment check
   rules out a clash with an existing row.
   */
  lemma CreatePreservesOneRowPerSport(db: Db, name: string, sport: Sport, students: seq<Id>)
    requires OneRowPerSport(db.members)
    requires Distinct(students)
    ensures CreateTeam(db, name, sport, students).Success? ==>
      OneRowPerSport(CreateTeam(db, name, sport, students).value.members)
  {
    if CreateTeam(db, name, sport, students).Success? {
      var rows := Map(MemberRow(db.nextTeamId, sport), students);
      assert CreateTeam(db, name, sport, students).value.members == db.members + rows;
      AppendDistinctRows(db.members, db.nextTeamId, sport, students);
    }
  }

  /**
   Appending one row per student of a duplicate-free list, none of whom
   already has a row for the sport, keeps the invariant.
   */
  lemma AppendDistinctRows(rows: seq<Membership>, team: Id, sport: Sport, students: seq<Id>)
    requires OneRowPerSport(rows)
    requires Distinct(students)
    requires !AnyAssigned(rows, students, sport)
    ensures OneRowPerSport(rows + Map(MemberRow(team, sport), students))
  {
    var added := Map(MemberRow(team, sport), students);
    var post := rows + added;
    var n := |rows|;
    forall i, j | 0 <= i < j < |post| && post[i].student == post[j].student
      ensures post[i].sport != post[j].sport
    {
      if j < n {
        assert post[i] == rows[i] && post[j] == rows[j];
      } else if i < n {
        assert post[i] == rows[i] && rows[i] in rows;
        assert post[j] == added[j - n];
        assert students[j - n] in students;
      } else {
        assert false;
      }
    }
  }

  /**
   A request that lists the same student twice is not caught by the
   assignment check, which only looks at existing rows: it succeeds and
   leaves that student with two identical membership rows of the new team.
   */
  lemma CreateRepeatedMemberBreaksInvariant()
    ensures var db := Db([], [], [], 0, 0);
            && OneRowPerSport(db.members)
            && CreateTeam(db, "Reds", "football", [7, 7]).Success?
            && !OneRowPerSport(CreateTeam(db, "Reds", "football", [7, 7]).value.members)
  {
    var db := Db([], [], [], 0, 0);
    var post := CreateTeam(db, "Reds", "football", [7, 7]).value.members;
    assert !AnyAssigned(db.members, [7, 7], "football");
    assert post[0] == Membership(0, 7, "football") && post[1] == Membership(0, 7, "football");
  }

  /** With no members to insert, a create under an unused name adds a team and no membership row. */
  lemma CreateWithNoMembers(db: Db, name: string, sport: Sport)
    requires !NameTaken(db.teams, name, sport)
    ensures CreateTeam(db, name, sport, []).Success?
    ensures CreateTeam(db, name, sport, []).value.members == db.members
    ensures Team(db.nextTeamId, name, sport) in CreateTeam(db, name, sport, []).value.teams
  {
    var post := CreateTeam(db, name, sport, []).value;
    assert post.members == post.members[..|db.members|];
    assert post.teams[|db.teams|] in post.teams;
  }

  /**
   Update inserts its rows without looking at other teams, so a student
   with a row on one team can be given a second row in the same sport.
   */
  lemma UpdateBreaksInvariant()
    ensures var db := Db([Team(0, "Reds", "football"), Team(1, "Blues", "football")],
                         [Membership(0, 5, "football")], [], 2, 0);
            && OneRowPerSport(db.members)
            && !OneRowPerSport(UpdateTeam(db, 1, "Blues", "football", [5]).members)
  {
    var db := Db([Team(0, "Reds", "football"), Team(1, "Blues", "football")],
                 [Membership(0, 5, "football")], [], 2, 0);
    var post := UpdateTeam(db, 1, "Blues", "football", [5]).members;
    assert Filter(NotOfTeam(1), db.members) == db.members;
    assert post == [Membership(0, 5, "football"), Membership(1, 5, "football")];
  }

  /**
   The assignment check reads the sport stored in the membership rows, not
   the sport of the team. An update that files a cricket team's member under
   football blocks that student from every football team, although no
   football team exists. The model has no cascading deletes, so here the
   row, and the block, survive deleting the team; a cascade on the
   membership table would remove them.
   */
  lemma AssignmentReadsStoredSport()
    ensures var db := Db([Team(1, "Reds", "cricket")], [], [], 2, 0);
            var moved := UpdateTeam(db, 1, "Reds", "football", [5]);
            && SportTeams(moved.teams, "football") == []
            && CreateTeam(moved, "Blues", "football", [5]) == Failure(StudentAssigned)
            && CreateTeam(DeleteTeam(moved, 1), "Blues", "football", [5]) == Failure(StudentAssigned)
  {
    var db := Db([Team(1, "Reds", "cricket")], [], [], 2, 0);
    var moved := UpdateTeam(db, 1, "Reds", "football", [5]);
    assert moved.teams == [Team(1, "Reds", "cricket")];
    assert SportTeams(moved.teams, "football") == [] by {
      FilterNone(TeamInSport("football"), moved.teams);
    }
    assert Membership(1, 5, "football") in moved.members;
  }

  /**
   Update keeps the invariant when the new list is duplicate-free and none
   of its students holds a row for the sport on another team.
   */
  lemma UpdatePreservesWhenNoConflict(db: Db, id: Id, name: string, sport: Sport, students: seq<Id>)
    requires OneRowPerSport(db.members)
    requires Distinct(students)
    requires forall r :: r in db.members && r.team != id && r.student in students ==> r.sport != sport
    ensures OneRowPerSport(UpdateTeam(db, id, name, sport, students).members)
  {
    var kept := Filter(NotOfTeam(id), db.members);
    assert UpdateTeam(db, id, name, sport, students).members == kept + Map(MemberRow(id, sport), students);
    FilterKeepsOneRowPerSport(NotOfTeam(id), db.members);
    AppendDistinctRows(kept, id, sport, students);
  }

  /** Deleting membership rows cannot give a student a second row in a sport. */
  lemma FilterKeepsOneRowPerSport(f: Membership -> bool, rows: seq<Membership>)
    requires OneRowPerSport(rows)
    ensures OneRowPerSport(Filter(f, rows))
  {
    var R := (a: Membership, b: Membership) => a.student == b.student ==> a.sport != b.sport;
    assert Pairwise(R, rows);
    FilterPairwise(R, f, rows);
  }

  // ---------------------------------------------------------------------
  // What update does to the membership table
  // ---------------------------------------------------------------------

  /**
   After an update the team's membership rows are exactly one row per
   requested student, in request order, and every other team's rows are as
   before.
   */
  lemma UpdateReplacesMembership(db: Db, id: Id, name: string, sport: Sport, students: seq<Id>)
    ensures Filter(OfTeam(id), UpdateTeam(db, id, name, sport, students).members)
         == Map(MemberRow(id, sport), students)
    ensures forall other :: other != id ==>
      Filter(OfTeam(other), UpdateTeam(db, id, name, sport, students).members)
        == Filter(OfTeam(other), db.members)
  {
    var kept := Filter(NotOfTeam(id), db.members);
    var rows := Map(MemberRow(id, sport), students);
    assert UpdateTeam(db, id, name, sport, students).members == kept + rows;
    FilterConcat(OfTeam(id), kept, rows);
    FilterNone(OfTeam(id), kept);
    FilterAll(OfTeam(id), rows);
    forall other | other != id
      ensures Filter(OfTeam(other), kept + rows) == Filter(OfTeam(other), db.members)
    {
      FilterConcat(OfTeam(other), kept, rows);
      FilterNone(OfTeam(other), rows);
      FilterSubsumed(OfTeam(other), NotOfTeam(id), db.members);
    }
  }

  /** Repeating the same update changes nothing more. */
  lemma UpdateIdempotent(db: Db, id: Id, name: string, sport: Sport, students: seq<Id>)
    ensures UpdateTeam(UpdateTeam(db, id, name, sport, students), id, name, sport, students)
         == UpdateTeam(db, id, name, sport, students)
  {
    var once := UpdateTeam(db, id, name, sport, students);
    RenameTwice(db.teams, id, name);
    ReplaceTwice(db.members, id, sport, students);
  }

  lemma RenameTwice(teams: seq<Team>, id: Id, name: string)
    ensures Map(Rename(id, name), Map(Rename(id, name), teams)) == Map(Rename(id, name), teams)
  {
  }

  lemma ReplaceTwice(rows: seq<Membership>, id: Id, sport: Sport, students: seq<Id>)
    ensures var kept := Filter(NotOfTeam(id), rows);
            var added := Map(MemberRow(id, sport), students);
            Filter(NotOfTeam(id), kept + added) + added == kept + added
  {
    var kept := Filter(NotOfTeam(id), rows);
    var added := Map(MemberRow(id, sport), students);
    FilterConcat(NotOfTeam(id), kept, added);
    forall x | x in added ensures !NotOfTeam(id)(x) {
      var k :| 0 <= k < |added| && added[k] == x;
    }
    FilterNone(NotOfTeam(id), added);
    FilterSubsumed(NotOfTeam(id), NotOfTeam(id), rows);
    assert Filter(NotOfTeam(id), kept + added) == kept;
  }

  // ---------------------------------------------------------------------
  // Id discipline
  // ---------------------------------------------------------------------

  lemma CreatePreservesWellFormed(db: Db, name: string, sport: Sport, students: seq<Id>)
    requires WellFormed(db)
    ensures CreateTeam(db, name, sport, students).Success? ==>
      WellFormed(CreateTeam(db, name, sport, students).value)
  {
    if CreateTeam(db, name, sport, students).Success? {
      var post := CreateTeam(db, name, sport, students).value;
      forall i, j | 0 <= i < j < |post.teams| ensures post.teams[i].id < post.teams[j].id {
        assert post.teams[i] == db.teams[i];
        if j < |db.teams| {
          assert post.teams[j] == db.teams[j];
        } else {
          assert db.teams[i] in db.teams;
        }
      }
      forall t | t in post.teams ensures t.id < post.nextTeamId {
        var i :| 0 <= i < |post.teams| && post.teams[i] == t;
        if i < |db.teams| {
          assert t == db.teams[i] && db.teams[i] in db.teams;
        }
      }
    }
  }

  lemma UpdatePreservesWellFormed(db: Db, id: Id, name: string, sport: Sport, students: seq<Id>)
    requires WellFormed(db)
    ensures WellFormed(UpdateTeam(db, id, name, sport, students))
  {
    var post := UpdateTeam(db, id, name, sport, students);
    assert forall k :: 0 <= k < |post.teams| ==> post.teams[k].id == db.teams[k].id;
    forall t | t in post.teams ensures t.id < post.nextTeamId {
      var i :| 0 <= i < |post.teams| && post.teams[i] == t;
      assert db.teams[i] in db.teams;
    }
  }

  lemma DeletePreservesWellFormed(db: Db, id: Id)
    requires WellFormed(db)
    ensures WellFormed(DeleteTeam(db, id))
  {
    FilterAscendingBy(TeamId, NotTeam(id), db.teams);
  }

  /**
   Deleting the team that a create has just inserted gives back the teams
   table as it was; its membership rows stay behind.
   */
  lemma DeleteUndoesCreate(db: Db, name: string, sport: Sport, students: seq<Id>)
    requires WellFormed(db)
    requires CreateTeam(db, name, sport, students).Success?
    ensures DeleteTeam(CreateTeam(db, name, sport, students).value, db.nextTeamId).teams == db.teams
    ensures DeleteTeam(CreateTeam(db, name, sport, students).value, db.nextTeamId).members
         == CreateTeam(db, name, sport, students).value.members
  {
    var post := CreateTeam(db, name, sport, students).value;
    var added := Team(db.nextTeamId, name, sport);
    assert post.teams == db.teams + [added] by {
      assert post.teams == post.teams[..|db.teams|] + [post.teams[|db.teams|]];
    }
    FilterConcat(NotTeam(db.nextTeamId), db.teams, [added]);
    FilterAll(NotTeam(db.nextTeamId), db.teams);
    FilterNone(NotTeam(db.nextTeamId), [added]);
  }
}
