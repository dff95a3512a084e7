/** `write_teams_to_db`: the roster page's table "big5_table" lists one team
    per body row; a team is added to the store only when its id is not there
    yet, and the additions are committed together at the end. */
module Roster {
  import opened Wrappers
  import opened Failures
  import opened Html
  import opened Teams

  const RosterUrl := "https://fbref.com/en/comps/Big5/Big-5-European-Leagues-Stats"
  const RosterTableId := "big5_table"

  /** Every stored team sits under its own id. */
  predicate Keyed(teams: map<string, Team>)
  {
    forall id :: id in teams ==> teams[id].id == id
  }

  /** The session after the rows, in order: a row's team is staged unless a
      team with its id is already stored or staged; the first row that cannot
      be read ends the walk with its error. */
  function AddTeams(teams: map<string, Team>, rows: seq<Row>): (r: Result<map<string, Team>, Error>)
    ensures r.Success? ==> teams.Keys <= r.value.Keys
    decreases |rows|
  {
    if rows == [] then Success(teams)
    else
      match RosterEntry(rows[0])
      case Failure(e) => Failure(e)
      case Success(t) => AddTeams(if t.id in teams then teams else teams[t.id := t], rows[1..])
  }

  /** The walk succeeds exactly when every row can be read. */
  lemma {:induction false} AddTeamsSucceeds(teams: map<string, Team>, rows: seq<Row>)
    ensures AddTeams(teams, rows).Success? <==> forall i :: 0 <= i < |rows| ==> RosterEntry(rows[i]).Success?
    decreases |rows|
  {
    if rows != [] && RosterEntry(rows[0]).Success? {
      var t := RosterEntry(rows[0]).value;
      var next := if t.id in teams then teams else teams[t.id := t];
      assert AddTeams(teams, rows) == AddTeams(next, rows[1..]);
      AddTeamsSucceeds(next, rows[1..]);
      if AddTeams(teams, rows).Success? {
        forall i | 0 <= i < |rows|
          ensures RosterEntry(rows[i]).Success?
        {
          if i > 0 {
            assert rows[i] == rows[1..][i - 1];
          }
        }
      } else {
        var i :| 0 <= i < |rows[1..]| && RosterEntry(rows[1..][i]).Failure?;
        assert rows[i + 1] == rows[1..][i];
      }
    }
  }

  /** A successful walk keeps every stored team as it was, ends with the id
      of every row present, and keeps each team under its own id. */
  lemma {:induction false} AddTeamsKeeps(teams: map<string, Team>, rows: seq<Row>)
    requires AddTeams(teams, rows).Success?
    ensures forall id :: id in teams ==> id in AddTeams(teams, rows).value && AddTeams(teams, rows).value[id] == teams[id]
    ensures forall i :: 0 <= i < |rows| ==>
      RosterEntry(rows[i]).Success? && RosterEntry(rows[i]).value.id in AddTeams(teams, rows).value
    ensures Keyed(teams) ==> Keyed(AddTeams(teams, rows).value)
    decreases |rows|
  {
    if rows != [] {
      var t := RosterEntry(rows[0]).value;
      var next := if t.id in teams then teams else teams[t.id := t];
      assert AddTeams(teams, rows) == AddTeams(next, rows[1..]);
      Stage(teams, t);
      AddTeamsKeeps(next, rows[1..]);
      var r := AddTeams(teams, rows).value;
      forall i | 0 <= i < |rows|
        ensures RosterEntry(rows[i]).Success? && RosterEntry(rows[i]).value.id in r
      {
        if i > 0 {
          assert rows[i] == rows[1..][i - 1];
        }
      }
    }
  }

  /** Staging one team keeps the stored ones and keeps teams under their ids. */
  lemma Stage(teams: map<string, Team>, t: Team)
    ensures var next := if t.id in teams then teams else teams[t.id := t];
      && t.id in next
      && (forall id :: id in teams ==> id in next && next[id] == teams[id])
      && (Keyed(teams) ==> Keyed(next))
  {
  }

  /** `write_teams_to_db` on the fetched roster page, from the stored teams. */
  function RosterLoad(teams: map<string, Team>, fetched: Result<Page, Error>): (r: Result<map<string, Team>, Error>)
    ensures fetched.Failure? ==> r == Failure(fetched.error)
    ensures fetched.Success? && FindTable(fetched.value, RosterTableId).None? ==>
      r == Failure(TableNotFound(RosterTableId))
    ensures r.Success? <==>
      && fetched.Success? && FindTable(fetched.value, RosterTableId).Some?
      && var body := FindTable(fetched.value, RosterTableId).value.body;
         forall i :: 0 <= i < |body| ==> RosterEntry(body[i]).Success?
    ensures r.Success? ==> forall id :: id in teams ==> id in r.value && r.value[id] == teams[id]
  {
    match fetched
    case Failure(e) => Failure(e)
    case Success(page) =>
      match FindTable(page, RosterTableId)
      case None => Failure(TableNotFound(RosterTableId))
      case Some(t) =>
        AddTeamsSucceeds(teams, t.body);
        var added := AddTeams(teams, t.body);
        if added.Failure? then added
        else
          AddTeamsKeeps(teams, t.body);
          added
  }

  /** Rows whose teams are all present already change nothing. */
  lemma {:induction false} AddTeamsPresent(teams: map<string, Team>, rows: seq<Row>)
    requires forall i :: 0 <= i < |rows| ==> RosterEntry(rows[i]).Success?
    requires forall i :: 0 <= i < |rows| ==> RosterEntry(rows[i]).value.id in teams
    ensures AddTeams(teams, rows) == Success(teams)
    decreases |rows|
  {
    if rows != [] {
      assert forall i :: 1 <= i < |rows| ==> rows[i] == rows[1..][i - 1];
      AddTeamsPresent(teams, rows[1..]);
    }
  }

  /** Loading the same roster twice stores what loading it once stores. */
  lemma RosterIdempotent(teams: map<string, Team>, fetched: Result<Page, Error>)
    requires RosterLoad(teams, fetched).Success?
    ensures RosterLoad(RosterLoad(teams, fetched).value, fetched) == RosterLoad(teams, fetched)
  {
    var t := FindTable(fetched.value, RosterTableId).value;
    AddTeamsSucceeds(teams, t.body);
    AddTeamsKeeps(teams, t.body);
    AddTeamsPresent(AddTeams(teams, t.body).value, t.body);
  }

  /** Row `i` is the first row that describes a team with this id, and it
      describes `t`. */
  predicate FirstRowFor(rows: seq<Row>, i: int, id: string, t: Team)
  {
    && 0 <= i < |rows|
    && RosterEntry(rows[i]) == Success(t)
    && forall j :: 0 <= j < i ==> RosterEntry(rows[j]).Success? && RosterEntry(rows[j]).value.id != id
  }

  lemma FirstRowForCons(rows: seq<Row>, i: int, id: string, t: Team)
    requires rows != [] && RosterEntry(rows[0]).Success? && RosterEntry(rows[0]).value.id != id
    requires FirstRowFor(rows[1..], i, id, t)
    ensures FirstRowFor(rows, i + 1, id, t)
  {
    assert rows[i + 1] == rows[1..][i];
    forall j | 0 <= j < i + 1
      ensures RosterEntry(rows[j]).Success? && RosterEntry(rows[j]).value.id != id
    {
      if j > 0 {
        assert rows[j] == rows[1..][j - 1];
      }
    }
  }

  /** A team the walk adds is the one the first row with its id describes,
      and every added id comes from some row. */
  lemma {:induction false} AddTeamsNew(teams: map<string, Team>, rows: seq<Row>, id: string)
    requires AddTeams(teams, rows).Success?
    requires id in AddTeams(teams, rows).value && id !in teams
    ensures exists i :: FirstRowFor(rows, i, id, AddTeams(teams, rows).value[id])
    decreases |rows|
  {
    var r := AddTeams(teams, rows).value;
    assert rows != [];
    var t := RosterEntry(rows[0]).value;
    var next := if t.id in teams then teams else teams[t.id := t];
    assert AddTeams(teams, rows) == AddTeams(next, rows[1..]);
    if t.id == id {
      AddTeamsKeeps(next, rows[1..]);
      assert FirstRowFor(rows, 0, id, r[id]);
    } else {
      AddTeamsNew(next, rows[1..], id);
      var i :| FirstRowFor(rows[1..], i, id, r[id]);
      FirstRowForCons(rows, i, id, r[id]);
    }
  }

  /** A walk that fails reports the error of its first unreadable row. */
  lemma {:induction false} AddTeamsFailure(teams: map<string, Team>, rows: seq<Row>)
    requires AddTeams(teams, rows).Failure?
    ensures exists i :: 0 <= i < |rows| && RosterEntry(rows[i]) == Failure(AddTeams(teams, rows).error) &&
                        (forall j :: 0 <= j < i ==> RosterEntry(rows[j]).Success?)
    decreases |rows|
  {
    assert forall i :: 1 <= i < |rows| ==> rows[i] == rows[1..][i - 1];
    match RosterEntry(rows[0])
    case Failure(e) =>
      assert RosterEntry(rows[0]) == Failure(AddTeams(teams, rows).error);
    case Success(t) =>
      var next := if t.id in teams then teams else teams[t.id := t];
      AddTeamsFailure(next, rows[1..]);
      var i :| 0 <= i < |rows| - 1 && RosterEntry(rows[1..][i]) == Failure(AddTeams(teams, rows).error) &&
        forall j :: 0 <= j < i ==> RosterEntry(rows[1..][j]).Success?;
      assert RosterEntry(rows[i + 1]) == Failure(AddTeams(teams, rows).error);
  }
}
