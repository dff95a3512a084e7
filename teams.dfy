/** Team identity as the scraper derives it from a table row: the id and the
    display name from the row's hyperlink (`get_team_id_and_name`), and the
    league from the country cell of the roster table. */
module Teams {
  import opened Wrappers
  import opened Failures
  import opened Text
  import opened Html

  datatype Team = Team(id: string, name: string, league: string)

  /** Display name from a URL slug: every "-Stats" removed, then every "-"
      turned into a space. */
  function TeamName(slug: string): (name: string)
    ensures '-' !in name
  {
    var stripped := Replace(slug, "-Stats", "");
    ReplaceCharAt(stripped, '-', ' ');
    var name := Replace(stripped, "-", " ");
    assert forall i :: 0 <= i < |name| ==> name[i] != '-';
    name
  }

  /** For a slug of the site's shape "<words>-Stats", where "-Stats" occurs
      only as the suffix, the name is the words with each "-" read as a space. */
  lemma TeamNameOfSlug(words: string)
    requires forall i :: 0 <= i < |words| ==> !OccursAt(words + "-Stats", "-Stats", i)
    ensures |TeamName(words + "-Stats")| == |words|
    ensures forall i :: 0 <= i < |words| ==>
      TeamName(words + "-Stats")[i] == (if words[i] == '-' then ' ' else words[i])
  {
    RemoveTrailing(words, "-Stats");
    ReplaceCharAt(words, '-', ' ');
  }

  /** `get_team_id_and_name`: splits the first hyperlink's href on "/"; piece 3
      is the id and piece 4 the slug of the name. A row without a hyperlink,
      or an href with fewer than five pieces, fails. */
  function TeamIdAndName(row: Row): (r: Result<(string, string), Error>)
    ensures FirstLink(row).None? ==> r == Failure(MissingLink)
    ensures FirstLink(row).Some? ==>
      (r.Success? <==> multiset(FirstLink(row).value)['/'] >= 4)
    ensures FirstLink(row).Some? && r.Failure? ==> r.error == MalformedHref(FirstLink(row).value)
    ensures r.Success? ==> '/' !in r.value.0 && '-' !in r.value.1
  {
    match FirstLink(row)
    case None => Failure(MissingLink)
    case Some(href) =>
      var parts := Split(href, '/');
      SplitCount(href, '/');
      if |parts| < 5 then Failure(MalformedHref(href))
      else Success((parts[3], TeamName(parts[4])))
  }

  /** An href built from "/"-free segments yields segment 3 as the id and the
      name of segment 4. */
  lemma TeamIdFromSegments(row: Row, segments: seq<string>)
    requires |segments| >= 5
    requires forall i :: 0 <= i < |segments| ==> '/' !in segments[i]
    requires FirstLink(row) == Some(Join(segments, '/'))
    ensures TeamIdAndName(row) == Success((segments[3], TeamName(segments[4])))
  {
    SplitJoin(segments, '/');
  }

  /** The league of each of the five country codes the roster page uses. */
  const CountryLeagues: map<string, string> := map[
    "GER" := "Bundesliga",
    "FRA" := "Ligue 1",
    "ENG" := "Premier League",
    "ITA" := "Serie A",
    "ESP" := "La Liga"
  ]

  /** `row.find("td", {"data-stat": "country"}).text.strip().split()[-1]`: the
      last word of the country cell. A row without that cell, or a cell with
      no word, fails. */
  function CountryCode(row: Row): (r: Result<string, Error>)
    ensures r.Success? ==> r.value != [] && NoSpace(r.value)
    ensures FindDataCell(row, "country").None? ==> r == Failure(MissingCountry)
    ensures FindDataCell(row, "country").Some? ==>
      (r.Failure? <==> Words(FindDataCell(row, "country").value.text) == [])
    ensures FindDataCell(row, "country").Some? && r.Failure? ==> r.error == EmptyCountry
  {
    match FindDataCell(row, "country")
    case None => Failure(MissingCountry)
    case Some(cell) =>
      var words := Words(cell.text);
      if words == [] then Failure(EmptyCountry) else Success(words[|words| - 1])
  }

  /** A country cell whose text is words separated by single spaces yields its
      last word. */
  lemma CountryCodeOfWords(row: Row, words: seq<string>)
    requires |words| >= 1
    requires forall i :: 0 <= i < |words| ==> words[i] != [] && NoSpace(words[i])
    requires FindDataCell(row, "country").Some?
    requires FindDataCell(row, "country").value.text == Join(words, ' ')
    ensures CountryCode(row) == Success(words[|words| - 1])
  {
    WordsJoin(words);
    CountryCodeIsLastWord(row, words);
  }

  lemma CountryCodeIsLastWord(row: Row, words: seq<string>)
    requires |words| >= 1
    requires FindDataCell(row, "country").Some?
    requires Words(FindDataCell(row, "country").value.text) == words
    ensures CountryCode(row) == Success(words[|words| - 1])
  {
  }

  /** `country_league_map[country_code]`: an unmapped code fails. */
  function LeagueOf(row: Row): (r: Result<string, Error>)
    ensures r.Success? <==> CountryCode(row).Success? && CountryCode(row).value in CountryLeagues
    ensures r.Success? ==> r.value == CountryLeagues[CountryCode(row).value]
    ensures CountryCode(row).Success? && r.Failure? ==> r.error == UnknownCountry(CountryCode(row).value)
  {
    match CountryCode(row)
    case Failure(e) => Failure(e)
    case Success(code) =>
      if code in CountryLeagues then Success(CountryLeagues[code]) else Failure(UnknownCountry(code))
  }

  /** The Team one roster row describes: id and name from the hyperlink first,
      then the league from the country cell. */
  function RosterEntry(row: Row): (r: Result<Team, Error>)
    ensures r.Success? <==> TeamIdAndName(row).Success? && LeagueOf(row).Success?
    ensures r.Success? ==> r.value.id == TeamIdAndName(row).value.0
    ensures r.Success? ==>
      r.value == Team(TeamIdAndName(row).value.0, TeamIdAndName(row).value.1, LeagueOf(row).value)
    ensures r.Success? ==> r.value.league in CountryLeagues.Values
    ensures TeamIdAndName(row).Failure? ==> r == Failure(TeamIdAndName(row).error)
    ensures TeamIdAndName(row).Success? && LeagueOf(row).Failure? ==> r == Failure(LeagueOf(row).error)
  {
    match TeamIdAndName(row)
    case Failure(e) => Failure(e)
    case Success((id, name)) =>
      match LeagueOf(row)
      case Failure(e) => Failure(e)
      case Success(league) => Success(Team(id, name, league))
  }

  /** The site's URL shape: "/en/squads/abc123/Some-Team-Stats" gives the id
      "abc123" and the name "Some Team". */
  lemma TeamIdAndNameExample()
    ensures TeamIdAndName(Row([HtmlCell(true, "team", "Some Team", Some("/en/squads/abc123/Some-Team-Stats"))]))
      == Success(("abc123", "Some Team"))
  {
    var row := Row([HtmlCell(true, "team", "Some Team", Some("/en/squads/abc123/Some-Team-Stats"))]);
    var segments := ["", "en", "squads", "abc123", "Some-Team-Stats"];
    ExampleHref(segments);
    assert FirstLink(row) == Some(Join(segments, '/'));
    TeamIdFromSegments(row, segments);
    ExampleName();
  }

  lemma ExampleHref(segments: seq<string>)
    requires segments == ["", "en", "squads", "abc123", "Some-Team-Stats"]
    ensures Join(segments, '/') == "/en/squads/abc123/Some-Team-Stats"
    ensures forall i :: 0 <= i < |segments| ==> '/' !in segments[i]
  {
    JoinFive(segments, '/');
    ExampleHrefText(segments[0], segments[1], segments[2], segments[3], segments[4]);
  }

  lemma ExampleHrefText(a: string, b: string, c: string, d: string, e: string)
    requires a == "" && b == "en" && c == "squads" && d == "abc123" && e == "Some-Team-Stats"
    ensures a + ['/'] + b + ['/'] + c + ['/'] + d + ['/'] + e == "/en/squads/abc123/Some-Team-Stats"
  {
    ExampleHrefPrefix(a, b, c, d);
    ExampleHrefLast(a + ['/'] + b + ['/'] + c + ['/'] + d, e);
  }

  lemma ExampleHrefPrefix(a: string, b: string, c: string, d: string)
    requires a == "" && b == "en" && c == "squads" && d == "abc123"
    ensures a + ['/'] + b + ['/'] + c + ['/'] + d == "/en/squads/abc123"
  {
  }

  lemma ExampleHrefLast(prefix: string, e: string)
    requires prefix == "/en/squads/abc123" && e == "Some-Team-Stats"
    ensures prefix + ['/'] + e == "/en/squads/abc123/Some-Team-Stats"
  {
  }

  lemma ExampleName()
    ensures TeamName("Some-Team-Stats") == "Some Team"
  {
    var words := "Some-Team";
    assert words + "-Stats" == "Some-Team-Stats";
    forall i | 0 <= i < |words|
      ensures !OccursAt(words + "-Stats", "-Stats", i)
    {
      assert (words + "-Stats")[i + 1] != "-Stats"[1];
    }
    TeamNameOfSlug(words);
    var name := TeamName(words + "-Stats");
    assert |name| == |"Some Team"|;
    assert forall i :: 0 <= i < |name| ==> name[i] == "Some Team"[i];
  }
}
