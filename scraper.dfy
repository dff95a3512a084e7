/** The two entry points of the scraper as operations on one store: the
    roster table of teams and the statistics tables, both changed in place. */
module Scraper {
  import opened Wrappers
  import opened Failures
  import opened Html
  import opened Season
  import opened Teams
  import opened Frames
  import opened Merge
  import opened Roster
  import opened Ingest

  class Database {
    /** The roster table, keyed by team id. */
    var teams: map<string, Team>
    /** The statistics tables "team_<category>", by name. */
    var tables: Store

    constructor (teams: map<string, Team>, tables: Store)
      ensures this.teams == teams && this.tables == tables
    {
      this.teams := teams;
      this.tables := tables;
    }

    /** `write_teams_to_db`: reads the roster page and adds every team whose
        id is not stored yet. The additions are committed only when every row
        was read; otherwise the roster stays as it was. */
    method WriteTeams(fetch: string -> Result<Page, Error>) returns (failure: Option<Error>)
      modifies this
      ensures var r := RosterLoad(old(teams), fetch(RosterUrl));
        if r.Success? then failure.None? && teams == r.value
        else failure == Some(r.error) && teams == old(teams)
      ensures tables == old(tables)
    {
      var page := fetch(RosterUrl);
      if page.Failure? {
        return Some(page.error);
      }
      var table := FindTable(page.value, RosterTableId);
      if table.None? {
        return Some(TableNotFound(RosterTableId));
      }
      var rows := table.value.body;
      var staged := teams;
      var i := 0;
      assert rows[i..] == rows;
      while i < |rows|
        invariant 0 <= i <= |rows|
        invariant AddTeams(teams, rows) == AddTeams(staged, rows[i..])
      {
        assert rows[i..][0] == rows[i] && rows[i..][1..] == rows[i + 1..];
        var entry := RosterEntry(rows[i]);
        if entry.Failure? {
          return Some(entry.error);
        }
        if entry.value.id !in staged {
          staged := staged[entry.value.id := entry.value];
        }
        i := i + 1;
      }
      teams := staged;
      failure := None;
    }

    /** `to_sql(f"team_{category}", ..., if_exists="append", index=False)`:
        the frame's rows, as records, go after the rows the table holds. */
    method AppendFrame(category: string, frame: Frame)
      modifies this
      ensures tables == AppendTo(old(tables), Append(StatsTable(category), Records(frame)))
      ensures teams == old(teams)
    {
      var table := StatsTable(category);
      tables := tables[table := Get(tables, table) + Records(frame)];
    }

    /** One iteration of the inner loop of `write_teams_stats_to_db`: the
        category is merged and, when that succeeds, appended to
        "team_<category>". */
    method WriteCategory(page: Page, category: string, today: Date) returns (failure: Option<Error>)
      requires ValidDate(today)
      modifies this
      ensures var merged := MergedCategory(page, category, CurrentSeason(today));
        && failure == CategoryOutcome(category, merged).failure
        && tables == Apply(old(tables), CategoryOutcome(category, merged).appends)
      ensures teams == old(teams)
    {
      var frame := ParseAndMerge(page, category, today);
      if frame.Failure? {
        failure := Some(frame.error);
      } else {
        failure := None;
        var a := Append(StatsTable(category), Records(frame.value));
        AppendFrame(category, frame.value);
        AppendStep(old(tables), [], a);
        assert [] + [a] == [a];
      }
    }

    /** The inner loop of `write_teams_stats_to_db` for one league page: each
        category in order is merged and appended to "team_<category>"; the
        first category that fails ends the loop with its error. */
    method WriteCategories(page: Page, today: Date) returns (failure: Option<Error>)
      requires ValidDate(today)
      modifies this
      ensures var run := CategoryRun(Categories, Merges(page, Categories, CurrentSeason(today)));
        failure == run.failure && tables == Apply(old(tables), run.appends)
      ensures teams == old(teams)
    {
      var season := CurrentSeason(today);
      ghost var steps: seq<Outcome> := [];
      ghost var done: seq<Append> := [];
      failure := None;
      var j := 0;
      while j < |Categories| && failure.None?
        invariant j == |steps|
        invariant CategoryStepsAre(page, Categories, season, steps)
        invariant Runs(steps) == Outcome([], done, failure)
        invariant tables == Apply(old(tables), done)
        invariant teams == old(teams)
      {
        ghost var step := CategoryOutcome(Categories[j], MergedCategory(page, Categories[j], season));
        failure := WriteCategory(page, Categories[j], today);
        CategoryStepsSnoc(page, Categories, season, steps);
        RunsSnoc(steps, step);
        ApplyConcat(old(tables), done, step.appends);
        steps := steps + [step];
        done := done + step.appends;
        j := j + 1;
      }
      CategoryRunRuns(page, Categories, season, steps);
    }

    /** One iteration of the league loop of `write_teams_stats_to_db`: the
        league's page is requested once and its categories are written. */
    method WriteLeague(fetch: string -> Result<Page, Error>, league: string, today: Date)
      returns (url: string, failure: Option<Error>)
      requires ValidDate(today)
      modifies this
      ensures var run := LeagueRun(fetch, league, Categories, CurrentSeason(today));
        [url] == run.fetched && failure == run.failure && tables == Apply(old(tables), run.appends)
      ensures teams == old(teams)
    {
      url := LeagueUrl(league);
      var page := fetch(url);
      if page.Failure? {
        failure := Some(page.error);
      } else {
        failure := WriteCategories(page.value, today);
        LeagueOfPage(fetch, league, Categories, CurrentSeason(today));
      }
    }

    /** `write_teams_stats_to_db`: for each league in order, requests its page
        once and appends the merged frame of each category, in order, to
        "team_<category>". The first failure ends the whole run; what was
        appended before it stays. */
    method WriteTeamsStats(fetch: string -> Result<Page, Error>, today: Date)
      returns (fetched: seq<string>, failure: Option<Error>)
      requires ValidDate(today)
      modifies this
      ensures var run := StatsRun(fetch, Leagues, Categories, CurrentSeason(today));
        fetched == run.fetched && failure == run.failure && tables == Apply(old(tables), run.appends)
      ensures teams == old(teams)
    {
      var season := CurrentSeason(today);
      ghost var outs: seq<Outcome> := [];
      ghost var done: seq<Append> := [];
      fetched, failure := [], None;
      var i := 0;
      while i < |Leagues| && failure.None?
        invariant i == |outs|
        invariant LeagueRunsAre(fetch, Leagues, Categories, season, outs)
        invariant Runs(outs) == Outcome(fetched, done, failure)
        invariant tables == Apply(old(tables), done)
        invariant teams == old(teams)
      {
        ghost var league := LeagueRun(fetch, Leagues[i], Categories, season);
        var url;
        url, failure := WriteLeague(fetch, Leagues[i], today);
        ApplyConcat(old(tables), done, league.appends);
        RunsSnoc(outs, league);
        LeagueRunsSnoc(fetch, Leagues, Categories, season, outs);
        outs := outs + [league];
        fetched := fetched + [url];
        done := done + league.appends;
        i := i + 1;
      }
      StatsRunRuns(fetch, Leagues, Categories, season, outs);
    }
  }
}
