/** `write_teams_stats_to_db`: for every league page in order, each of the
    eleven categories is merged and appended to the store table
    "team_<category>". The first failure ends the whole run; appends made
    before it stay in the store. */
module Ingest {
  import opened Wrappers
  import opened Failures
  import opened Html
  import opened Frames
  import opened Merge

  const Base := "https://fbref.com/en/comps/"

  const Leagues: seq<string> := [
    "9/Premier-League-Stats",
    "11/Serie-A-Stats",
    "12/La-Liga-Stats",
    "13/Ligue-1-Stats",
    "20/Bundesliga-Stats",
    "21/Liga-Profesional-Argentina-Stats"
  ]

  const Categories: seq<string> := [
    "defense",
    "gca",
    "keeper",
    "misc",
    "passing",
    "passing_types",
    "keeper_adv",
    "playing_time",
    "possession",
    "shooting",
    "standard"
  ]

  /** A store table holds rows as records from column label to cell. */
  type Store = map<string, seq<map<string, Cell>>>

  /** The page of one league. */
  function LeagueUrl(league: string): (url: string)
    ensures |url| == |Base| + |league| && url[|Base|..] == league
  {
    Base + league
  }

  function StatsTable(category: string): string
  {
    "team_" + category
  }

  /** Different categories are appended to different tables. */
  lemma StatsTableInjective(c1: string, c2: string)
    requires StatsTable(c1) == StatsTable(c2)
    ensures c1 == c2
  {
    assert c1 == StatsTable(c1)[|"team_"|..];
  }

  /** One `to_sql(..., if_exists="append")` call: the target table and the rows it adds. */
  datatype Append = Append(table: string, rows: seq<map<string, Cell>>)

  /** The rows of a table; a table not yet created reads as empty. */
  function Get(store: Store, table: string): seq<map<string, Cell>>
  {
    if table in store then store[table] else []
  }

  /** The store after one append: the table is created when missing and the
      rows go after the ones it holds. */
  function AppendTo(store: Store, a: Append): (s: Store)
    ensures s.Keys == store.Keys + {a.table}
    ensures Get(s, a.table) == Get(store, a.table) + a.rows
    ensures forall t :: t != a.table ==> Get(s, t) == Get(store, t)
  {
    store[a.table := Get(store, a.table) + a.rows]
  }

  /** The store after a sequence of appends, in order. */
  function Apply(store: Store, appends: seq<Append>): (s: Store)
    ensures s.Keys == store.Keys + set i | 0 <= i < |appends| :: appends[i].table
    decreases |appends|
  {
    if appends == [] then store
    else
      var init, last := appends[..|appends| - 1], appends[|appends| - 1];
      var all, before := set i | 0 <= i < |appends| :: appends[i].table, set i | 0 <= i < |init| :: init[i].table;
      assert all == before + {last.table} by {
        forall x | x in all
          ensures x in before + {last.table}
        {
          var i :| 0 <= i < |appends| && appends[i].table == x;
          if i < |init| {
            assert init[i].table == x;
          }
        }
        forall x | x in before
          ensures x in all
        {
          var i :| 0 <= i < |init| && init[i].table == x;
          assert appends[i].table == x;
        }
      }
      AppendTo(Apply(store, init), last)
  }

  /** The rows a sequence of appends adds to one table, in order. */
  function RowsFor(appends: seq<Append>, table: string): seq<map<string, Cell>>
    decreases |appends|
  {
    if appends == [] then []
    else
      var last := appends[|appends| - 1];
      RowsFor(appends[..|appends| - 1], table) + (if last.table == table then last.rows else [])
  }

  /** One more append after a sequence of them. */
  lemma AppendStep(store: Store, appends: seq<Append>, a: Append)
    ensures Apply(store, appends + [a]) == AppendTo(Apply(store, appends), a)
  {
    assert (appends + [a])[..|appends|] == appends;
  }

  /** What a run did: the URLs it requested, the appends it made, in order,
      and the error that stopped it, if any. */
  datatype Outcome = Outcome(fetched: seq<string>, appends: seq<Append>, failure: Option<Error>)

  /** A run that first requested `fetched` and appended `appends`, then did `rest`. */
  function After(fetched: seq<string>, appends: seq<Append>, rest: Outcome): Outcome
  {
    Outcome(fetched + rest.fetched, appends + rest.appends, rest.failure)
  }

  /** Every category of one league page merged: a map of `MergedCategory`
      over `cats`, entry by entry (`MergesAt`). Merging is pure, so the run
      below only looks at a prefix of these, up to the first failure. */
  function Merges(page: Page, cats: seq<string>, season: string): (ms: seq<Result<Frame, Error>>)
    ensures |ms| == |cats|
    decreases |cats|
  {
    if cats == [] then [] else [MergedCategory(page, cats[0], season)] + Merges(page, cats[1..], season)
  }

  /** Entry `c` is the merge of category `c`. */
  lemma {:induction false} MergesAt(page: Page, cats: seq<string>, season: string, c: nat)
    requires c < |cats|
    ensures Merges(page, cats, season)[c] == MergedCategory(page, cats[c], season)
    decreases c
  {
    if c > 0 {
      MergesAt(page, cats[1..], season, c - 1);
      assert cats[1..][c - 1] == cats[c];
    }
  }

  /** The categories of one league page in order, with their merged frames;
      the first that cannot be merged stops the run. */
  function CategoryRun(cats: seq<string>, merged: seq<Result<Frame, Error>>): (r: Outcome)
    requires |merged| == |cats|
    ensures r.fetched == [] && |r.appends| <= |cats|
    ensures r.failure.None? <==> |r.appends| == |cats|
    decreases |cats|
  {
    if cats == [] then Outcome([], [], None)
    else
      match merged[0]
      case Failure(e) => Outcome([], [], Some(e))
      case Success(f) => After([], [Append(StatsTable(cats[0]), Records(f))], CategoryRun(cats[1..], merged[1..]))
  }

  /** The appends of one league page are one per category, in order, each
      the merged frame of that category written to "team_<category>". */
  lemma {:induction false} CategoryRunAppends(cats: seq<string>, merged: seq<Result<Frame, Error>>)
    requires |merged| == |cats|
    ensures var r := CategoryRun(cats, merged);
      forall c :: 0 <= c < |r.appends| ==>
        merged[c].Success? && r.appends[c] == Append(StatsTable(cats[c]), Records(merged[c].value))
    decreases |cats|
  {
    if cats != [] && merged[0].Success? {
      CategoryRunAppends(cats[1..], merged[1..]);
      var r, rest := CategoryRun(cats, merged), CategoryRun(cats[1..], merged[1..]);
      assert r.appends == [Append(StatsTable(cats[0]), Records(merged[0].value))] + rest.appends;
      forall c | 1 <= c < |r.appends|
        ensures merged[c].Success? && r.appends[c] == Append(StatsTable(cats[c]), Records(merged[c].value))
      {
        assert cats[c] == cats[1..][c - 1] && merged[c] == merged[1..][c - 1];
        assert r.appends[c] == rest.appends[c - 1];
      }
    }
  }

  /** A league page stops at the first category that cannot be merged and
      reports its error. */
  lemma {:induction false} CategoryRunFailure(cats: seq<string>, merged: seq<Result<Frame, Error>>)
    requires |merged| == |cats|
    ensures var r := CategoryRun(cats, merged);
      r.failure.Some? ==> merged[|r.appends|] == Failure(r.failure.value)
    decreases |cats|
  {
    if cats != [] && merged[0].Success? {
      CategoryRunFailure(cats[1..], merged[1..]);
      var r, rest := CategoryRun(cats, merged), CategoryRun(cats[1..], merged[1..]);
      assert |r.appends| == 1 + |rest.appends| && r.failure == rest.failure;
      if r.failure.Some? {
        assert merged[|r.appends|] == merged[1..][|rest.appends|];
      }
    }
  }

  /** What one category adds to a league's run: its append, or its error. */
  function CategoryOutcome(category: string, merged: Result<Frame, Error>): Outcome
  {
    match merged
    case Failure(e) => Outcome([], [], Some(e))
    case Success(f) => Outcome([], [Append(StatsTable(category), Records(f))], None)
  }

  /** `steps` are what the first categories of `cats` add to a page's run, in order. */
  predicate CategoryStepsAre(page: Page, cats: seq<string>, season: string, steps: seq<Outcome>)
    decreases |steps|
  {
    |steps| <= |cats| &&
    (steps == [] ||
     (steps[0] == CategoryOutcome(cats[0], MergedCategory(page, cats[0], season)) &&
      CategoryStepsAre(page, cats[1..], season, steps[1..])))
  }

  /** The step of the next category extends the steps before it. */
  lemma {:induction false} CategoryStepsSnoc(page: Page, cats: seq<string>, season: string, steps: seq<Outcome>)
    requires CategoryStepsAre(page, cats, season, steps) && |steps| < |cats|
    ensures CategoryStepsAre(page, cats, season,
      steps + [CategoryOutcome(cats[|steps|], MergedCategory(page, cats[|steps|], season))])
    decreases |steps|
  {
    var next := CategoryOutcome(cats[|steps|], MergedCategory(page, cats[|steps|], season));
    if steps == [] {
      assert [] + [next] == [next] && [next][1..] == [];
    } else {
      CategoryStepsSnoc(page, cats[1..], season, steps[1..]);
      assert cats[1..][|steps[1..]|] == cats[|steps|];
      assert (steps + [next])[1..] == steps[1..] + [next];
    }
  }

  lemma MergesTail(page: Page, cats: seq<string>, season: string)
    requires cats != []
    ensures Merges(page, cats, season)[0] == MergedCategory(page, cats[0], season)
    ensures Merges(page, cats, season)[1..] == Merges(page, cats[1..], season)
  {
    var rest := Merges(page, cats[1..], season);
    assert ([MergedCategory(page, cats[0], season)] + rest)[1..] == rest;
  }

  /** The category loop's view of a page's run: the steps of the categories
      it went through make up the whole run once every category is done or
      one of them failed. */
  lemma {:induction false} CategoryRunRuns(page: Page, cats: seq<string>, season: string, steps: seq<Outcome>)
    requires CategoryStepsAre(page, cats, season, steps)
    requires |steps| == |cats| || Runs(steps).failure.Some?
    ensures CategoryRun(cats, Merges(page, cats, season)) == Runs(steps)
    decreases |steps|
  {
    if steps != [] {
      MergesTail(page, cats, season);
      if steps[0].failure.None? {
        CategoryRunRuns(page, cats[1..], season, steps[1..]);
      }
    }
  }

  /** One league: its page is requested once, then every category is merged. */
  function LeagueRun(fetch: string -> Result<Page, Error>, league: string, cats: seq<string>, season: string): (r: Outcome)
    ensures r.fetched == [LeagueUrl(league)]
    ensures fetch(LeagueUrl(league)).Failure? ==>
      r.appends == [] && r.failure == Some(fetch(LeagueUrl(league)).error)
  {
    match fetch(LeagueUrl(league))
    case Failure(e) => Outcome([LeagueUrl(league)], [], Some(e))
    case Success(page) => After([LeagueUrl(league)], [], CategoryRun(cats, Merges(page, cats, season)))
  }

  /** The leagues in order; a league that fails stops the whole run. */
  function StatsRun(fetch: string -> Result<Page, Error>, leagues: seq<string>, cats: seq<string>, season: string): (r: Outcome)
    ensures |r.fetched| <= |leagues|
    ensures forall l :: 0 <= l < |r.fetched| ==> r.fetched[l] == LeagueUrl(leagues[l])
    ensures r.failure.None? ==> |r.fetched| == |leagues|
    ensures r.failure.Some? ==>
      r.fetched != [] && LeagueRun(fetch, leagues[|r.fetched| - 1], cats, season).failure == r.failure
    decreases |leagues|
  {
    if leagues == [] then Outcome([], [], None)
    else
      var first := LeagueRun(fetch, leagues[0], cats, season);
      if first.failure.Some? then first
      else
        assert forall l :: 1 <= l < |leagues| ==> leagues[l] == leagues[1..][l - 1];
        After(first.fetched, first.appends, StatsRun(fetch, leagues[1..], cats, season))
  }

  /** A league whose page arrives runs the categories of that page. */
  lemma LeagueOfPage(fetch: string -> Result<Page, Error>, league: string, cats: seq<string>, season: string)
    requires fetch(LeagueUrl(league)).Success?
    ensures var run := CategoryRun(cats, Merges(fetch(LeagueUrl(league)).value, cats, season));
      LeagueRun(fetch, league, cats, season) == Outcome([LeagueUrl(league)], run.appends, run.failure)
  {
    var run := CategoryRun(cats, Merges(fetch(LeagueUrl(league)).value, cats, season));
    assert [] + run.appends == run.appends;
  }

  /** Runs one after another, as the loops perform them (the categories of
      a page, the leagues of a whole run): a run that fails is the last one. */
  function Runs(outs: seq<Outcome>): Outcome
    decreases |outs|
  {
    if outs == [] then Outcome([], [], None)
    else if outs[0].failure.Some? then outs[0]
    else After(outs[0].fetched, outs[0].appends, Runs(outs[1..]))
  }

  /** `next` after `run`, unless `run` failed. */
  function Then(run: Outcome, next: Outcome): Outcome
  {
    if run.failure.Some? then run else After(run.fetched, run.appends, next)
  }

  /** One more run after a sequence of them. */
  lemma {:induction false} RunsSnoc(outs: seq<Outcome>, next: Outcome)
    ensures Runs(outs + [next]) == Then(Runs(outs), next)
    decreases |outs|
  {
    if outs == [] {
      assert [] + [next] == [next];
      assert next.fetched + [] == [] + next.fetched == next.fetched;
      assert next.appends + [] == [] + next.appends == next.appends;
    } else {
      assert (outs + [next])[0] == outs[0];
      assert (outs + [next])[1..] == outs[1..] + [next];
      RunsSnoc(outs[1..], next);
      if outs[0].failure.None? {
        var rest := Runs(outs[1..]);
        if rest.failure.None? {
          AfterAfter(outs[0].fetched, outs[0].appends, rest.fetched, rest.appends, next);
        }
      }
    }
  }

  /** `outs` are the runs of the first leagues of `leagues`, in order. */
  predicate LeagueRunsAre(fetch: string -> Result<Page, Error>, leagues: seq<string>, cats: seq<string>,
                          season: string, outs: seq<Outcome>)
    decreases |outs|
  {
    |outs| <= |leagues| &&
    (outs == [] ||
     (outs[0] == LeagueRun(fetch, leagues[0], cats, season) &&
      LeagueRunsAre(fetch, leagues[1..], cats, season, outs[1..])))
  }

  /** The run of the next league extends the runs of the leagues before it. */
  lemma {:induction false} LeagueRunsSnoc(fetch: string -> Result<Page, Error>, leagues: seq<string>, cats: seq<string>,
                                          season: string, outs: seq<Outcome>)
    requires LeagueRunsAre(fetch, leagues, cats, season, outs) && |outs| < |leagues|
    ensures LeagueRunsAre(fetch, leagues, cats, season, outs + [LeagueRun(fetch, leagues[|outs|], cats, season)])
    decreases |outs|
  {
    var next := LeagueRun(fetch, leagues[|outs|], cats, season);
    if outs == [] {
      assert [] + [next] == [next] && [next][1..] == [];
    } else {
      LeagueRunsSnoc(fetch, leagues[1..], cats, season, outs[1..]);
      assert leagues[1..][|outs[1..]|] == leagues[|outs|];
      assert (outs + [next])[1..] == outs[1..] + [next];
    }
  }

  /** The league loop's view of the run: the runs of the leagues it went
      through, in order, make up the whole run once every league is done or
      one of them failed. */
  lemma {:induction false} StatsRunRuns(fetch: string -> Result<Page, Error>, leagues: seq<string>, cats: seq<string>,
                                        season: string, outs: seq<Outcome>)
    requires LeagueRunsAre(fetch, leagues, cats, season, outs)
    requires |outs| == |leagues| || Runs(outs).failure.Some?
    ensures StatsRun(fetch, leagues, cats, season) == Runs(outs)
    decreases |outs|
  {
    if outs != [] && outs[0].failure.None? {
      StatsRunRuns(fetch, leagues[1..], cats, season, outs[1..]);
    }
  }

  lemma AfterAfter(f1: seq<string>, a1: seq<Append>, f2: seq<string>, a2: seq<Append>, rest: Outcome)
    ensures After(f1, a1, After(f2, a2, rest)) == After(f1 + f2, a1 + a2, rest)
  {
    assert f1 + (f2 + rest.fetched) == (f1 + f2) + rest.fetched;
    assert a1 + (a2 + rest.appends) == (a1 + a2) + rest.appends;
  }

  /** A table's rows after a sequence of appends: its earlier rows followed
      by the rows appended to it, in order. */
  lemma {:induction false} ApplyRows(store: Store, appends: seq<Append>, table: string)
    ensures Get(Apply(store, appends), table) == Get(store, table) + RowsFor(appends, table)
    decreases |appends|
  {
    if appends != [] {
      ApplyRows(store, appends[..|appends| - 1], table);
    }
  }

  /** Appending never removes a table or a row: every table of the store is
      still there, its rows a prefix of what it holds afterwards. */
  lemma AppendOnly(store: Store, appends: seq<Append>)
    ensures forall t :: t in store ==> t in Apply(store, appends) && store[t] <= Apply(store, appends)[t]
  {
    forall t | t in store
      ensures t in Apply(store, appends) && store[t] <= Apply(store, appends)[t]
    {
      ApplyKeys(store, appends);
      ApplyRows(store, appends, t);
    }
  }

  lemma {:induction false} ApplyKeys(store: Store, appends: seq<Append>)
    ensures store.Keys <= Apply(store, appends).Keys
    decreases |appends|
  {
    if appends != [] {
      ApplyKeys(store, appends[..|appends| - 1]);
    }
  }

  /** The appends of a run split at any point: applying them all is applying
      the first part, then the rest. */
  lemma {:induction false} ApplyConcat(store: Store, first: seq<Append>, rest: seq<Append>)
    ensures Apply(store, first + rest) == Apply(Apply(store, first), rest)
    decreases |rest|
  {
    if rest == [] {
      assert first + rest == first;
    } else {
      var init, last := rest[..|rest| - 1], rest[|rest| - 1];
      assert rest == init + [last];
      assert first + rest == (first + init) + [last];
      ApplyConcat(store, first, init);
      AppendStep(store, first + init, last);
      AppendStep(Apply(store, first), init, last);
    }
  }

  /** Running the same ingestion twice over the same pages puts every
      appended row into its table twice. */
  lemma RunTwice(store: Store, appends: seq<Append>, table: string)
    ensures Get(Apply(Apply(store, appends), appends), table) ==
      Get(store, table) + RowsFor(appends, table) + RowsFor(appends, table)
  {
    ApplyRows(store, appends, table);
    ApplyRows(Apply(store, appends), appends, table);
  }

  /** The append goes to the table of one of the categories, and each of its
      rows carries the season label. */
  predicate AppendStamped(a: Append, cats: seq<string>, season: string)
  {
    (exists c :: 0 <= c < |cats| && a.table == StatsTable(cats[c])) &&
    forall k :: 0 <= k < |a.rows| ==> SeasonColumn in a.rows[k] && a.rows[k][SeasonColumn] == Text(season)
  }

  predicate Stamped(appends: seq<Append>, cats: seq<string>, season: string)
  {
    forall i :: 0 <= i < |appends| ==> AppendStamped(appends[i], cats, season)
  }

  /** The append of a merged category is stamped. */
  lemma CategoryAppendStamped(page: Page, cats: seq<string>, c: nat, season: string)
    requires c < |cats| && MergedCategory(page, cats[c], season).Success?
    ensures AppendStamped(Append(StatsTable(cats[c]), Records(MergedCategory(page, cats[c], season).value)), cats, season)
  {
    MergedCategoryStamped(page, cats[c], season);
    FrameAppendStamped(MergedCategory(page, cats[c], season).value, cats, c, season);
  }

  /** A frame whose every row carries the season label, appended to the
      table of one of the categories, is stamped. */
  lemma FrameAppendStamped(f: Frame, cats: seq<string>, c: nat, season: string)
    requires c < |cats| && WellFormed(f) && SeasonColumn in f.columns
    requires forall k :: 0 <= k < |f.rows| ==> Lookup(f, k, SeasonColumn) == Text(season)
    ensures AppendStamped(Append(StatsTable(cats[c]), Records(f)), cats, season)
  {
    RecordsLookup(f);
  }

  lemma LeagueRunStamped(fetch: string -> Result<Page, Error>, league: string, cats: seq<string>, season: string)
    ensures Stamped(LeagueRun(fetch, league, cats, season).appends, cats, season)
  {
    if fetch(LeagueUrl(league)).Success? {
      var page := fetch(LeagueUrl(league)).value;
      var merged := Merges(page, cats, season);
      var r := CategoryRun(cats, merged);
      CategoryRunAppends(cats, merged);
      assert LeagueRun(fetch, league, cats, season).appends == r.appends;
      forall i | 0 <= i < |r.appends|
        ensures AppendStamped(r.appends[i], cats, season)
      {
        MergesAt(page, cats, season, i);
        CategoryAppendStamped(page, cats, i, season);
      }
    }
  }

  /** Every row a run appends carries the run's season label and goes to the
      table of one of the categories. */
  lemma {:induction false} StatsRunStamped(fetch: string -> Result<Page, Error>, leagues: seq<string>, cats: seq<string>, season: string)
    ensures Stamped(StatsRun(fetch, leagues, cats, season).appends, cats, season)
    decreases |leagues|
  {
    if leagues != [] {
      var first := LeagueRun(fetch, leagues[0], cats, season);
      LeagueRunStamped(fetch, leagues[0], cats, season);
      if first.failure.None? {
        var rest := StatsRun(fetch, leagues[1..], cats, season);
        StatsRunStamped(fetch, leagues[1..], cats, season);
        assert StatsRun(fetch, leagues, cats, season).appends == first.appends + rest.appends;
      }
    }
  }
}
