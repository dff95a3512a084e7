# fbref team statistics scraper — Dafny model

A verified model of the scraper core of fbref-scrapy, `app/scraper.py`. The scraper fills a database from fbref.com pages. It does two things:

- **Roster load** (`write_teams_to_db`). It reads the "Big 5 European Leagues" page. From each row of the table `big5_table` it takes the team id and display name out of the row's hyperlink, and the league out of the country cell. It stores every team whose id is not stored yet. The additions are committed together.
- **Statistics load** (`write_teams_stats_to_db`). For each of six league pages, in order, and each of eleven categories, in order, it:
  - cleans the "for" and "against" tables of the category (`clean_table`);
  - inner-joins them on `team_id`, suffixing shared labels with `_for` and `_against`;
  - stamps every row with the current season label ("2024-2025");
  - appends the rows to the table `team_<category>`.

The model is split into modules that follow the program:

| module | what it holds |
|---|---|
| `Season` | `get_current_season`. The date is a parameter. |
| `Text` | The string operations the scraper relies on: `split("/")`, `replace`, whitespace `split()`, decimal formatting. |
| `Html` | The parsed page as the HTML library shows it: tables by id, header labels, body rows, links, data cells. |
| `Teams` | `get_team_id_and_name`, the country code and the country-to-league map. |
| `Frames` | A data frame: column labels, rows of cells, column assignment, rows as records. |
| `Normalize` | `clean_table`. It is a specification function plus a method with the source's id loop. |
| `Merge` | `parse_and_merge_team_category`: the inner join, suffixing and season stamp. |
| `Roster` | The insert-if-absent walk of `write_teams_to_db`. |
| `Ingest` | The store of appended tables and the outcome of the nested league/category loops. |
| `Scraper` | The class `Database`. Its fields `teams` and `tables` are changed in place by `WriteTeams` and `WriteTeamsStats`, and their loops are proved against the functions above. |

Every failure of the modelled steps is an `Error` value carried by `Result`. These steps are the page fetch, the table lookup, the header and row checks, the hyperlink, the country cell and its league, and the merge. The page fetcher is a function parameter `string -> Result<Page, Error>`, and a failed request is the error it returns. Failures of steps outside the model are listed under "## Left out".

The loops in `write_teams_stats_to_db` (app/scraper.py:117-127) have no `try`, so the first exception ends the whole run. The model does the same: `StatsRun` and `WriteTeamsStats` stop at the first failure. Rows appended before the failure stay, because each `to_sql` call commits on its own.

## Model

| member | source | states |
|---|---|---|
| Season.SeasonLabel | app/scraper.py:27-28 | The label "<first>-<first+1>" reads back as the pair (first, first + 1). |
| Season.CurrentSeason | app/scraper.py:24-28 | The label's years are (Y, Y+1) when the month is August or later, and (Y-1, Y) before. |
| Season.SeasonWindow | app/scraper.py:24-28 | Two dates get the same label exactly when their August-to-July season start years are equal. |
| Text.ParseShowNat | app/scraper.py:27 | A year written in decimal reads back as the same number. |
| Text.Split | app/scraper.py:39 | `split(sep)` gives at least one piece, and no piece holds the separator. Text.SplitCount, Text.JoinSplit and Text.SplitJoin state its count and round trips. |
| Text.SplitCount | app/scraper.py:39 | `split(sep)` gives one more piece than there are separators. |
| Text.JoinSplit | app/scraper.py:39 | Joining the pieces of a split with the separator gives back the string. |
| Text.SplitJoin | app/scraper.py:39 | Splitting a join of separator-free pieces gives back the pieces. |
| Text.ReplaceCharAt | app/scraper.py:40 | Replacing one character by another keeps the length and changes exactly the matching positions. |
| Text.Replace | app/scraper.py:40 | A string in which the pattern never occurs is returned unchanged. |
| Text.ReplaceFirst | app/scraper.py:40 | The text before the first occurrence is kept, that occurrence becomes the replacement, and the scan resumes right after it. So every occurrence is replaced, left to right, without overlaps. |
| Text.RemoveTrailing | app/scraper.py:40 | Removing a pattern that occurs only as the suffix leaves the rest. |
| Text.Words | app/scraper.py:61 | Whitespace `split()` yields non-empty words without whitespace. |
| Text.WordsJoin | app/scraper.py:61 | Whitespace `split()` of words joined by single spaces gives back the words. |
| Html.TableIndex | app/scraper.py:55 | The found table has the id, no earlier table has it, and "not found" means no table has it. |
| Html.LinkIndex | app/scraper.py:38 | The found cell is the first with a hyperlink, and "not found" means no cell has one. |
| Html.DataCellIndex | app/scraper.py:60 | The found cell is the first `td` with the data-stat, and "not found" means there is none. |
| Html.FindTable | app/scraper.py:55 | It gives the first table with the id, in document order, or none exactly when no table has it. |
| Html.FirstLink | app/scraper.py:38 | It gives the href of the first cell holding a hyperlink, or none exactly when no cell holds one. |
| Html.FindDataCell | app/scraper.py:60 | It gives the first `td` cell with the data-stat, or none exactly when there is none. |
| Teams.TeamName | app/scraper.py:40 | The display name contains no "-". |
| Teams.TeamNameOfSlug | app/scraper.py:40 | For a slug "<words>-Stats", the name is the words with every "-" turned into a space. |
| Teams.TeamIdAndName | app/scraper.py:37-41 | A row without a link fails with MissingLink. The href succeeds exactly when it has at least four "/", and otherwise fails as MalformedHref. The id has no "/" and the name no "-". |
| Teams.TeamIdFromSegments | app/scraper.py:37-41 | For an href made of "/"-free segments, the id is segment 3 and the name is the name of segment 4. |
| Teams.TeamIdAndNameExample | app/scraper.py:37-41 | "/en/squads/abc123/Some-Team-Stats" gives ("abc123", "Some Team"). |
| Teams.CountryCode | app/scraper.py:60-61 | The code is a non-empty word without whitespace. A row without a country cell fails with MissingCountry. A present cell fails exactly when it holds no word, and then with EmptyCountry. |
| Teams.CountryCodeIsLastWord | app/scraper.py:61 | A present country cell whose whitespace split is a non-empty word list yields the last word. |
| Teams.CountryCodeOfWords | app/scraper.py:60-61 | A country cell of space-separated words yields its last word. |
| Teams.LeagueOf | app/scraper.py:45-62 | It succeeds exactly for a code among GER, FRA, ENG, ITA and ESP, with that code's league. An unmapped code fails with UnknownCountry. |
| Teams.RosterEntry | app/scraper.py:59-64 | A team is built exactly when both the link and the country succeed. It is the Team of the link's id, the link's name and the league mapped from the row's country code. A link failure is reported first, then a country or league failure. |
| Frames.SetColumn | app/scraper.py:87 | Assigning a column overwrites it in place when the label exists and appends it last otherwise. Every other cell is unchanged. |
| Frames.RecordsLookup | app/scraper.py:122-127 | Each written record holds exactly the frame's labels, each mapped to the row's cell. |
| Normalize.ReadCell | app/scraper.py:72 | An empty cell text reads as a missing value, and any other text is kept as it stands (see "## Left out" for whitespace and the NA strings). |
| Normalize.ParsedFrame | app/scraper.py:72-77 | The parsed frame is well formed, has the last header row's labels and one row per body row. Under each label it holds the read cell at that label's position. |
| Normalize.Without | app/scraper.py:79-80 | A label survives exactly when it is not excluded. |
| Normalize.KeptPositions | app/scraper.py:79-80 | The kept positions ascend and select exactly the surviving labels in order. |
| Normalize.DropColumns | app/scraper.py:79-80 | Dropping keeps row count and the surviving labels in order, and each kept cell. Absent labels are ignored. |
| Normalize.TeamIds | app/scraper.py:83-86 | The id list succeeds exactly when every row's link succeeds. It has one id per row, in row order. |
| Normalize.NormalizedTable | app/scraper.py:70-88 | A cleaned table is well formed and has a `team_id` column. |
| Normalize.NormalizedTableSucceeds | app/scraper.py:70-88 | Cleaning succeeds exactly when the table exists, has a header row, is rectangular with distinct labels, and every row has a team id. A missing table fails with its id. |
| Normalize.ColumnExclusion | app/scraper.py:79-87 | The labels are the header labels minus the four excluded ones, in order, then `team_id`. No excluded label survives. |
| Normalize.RowAlignment | app/scraper.py:72-87 | Row i has the id of body row i in `team_id`. Every other label holds body row i's cell under that label. |
| Normalize.CleanTable | app/scraper.py:70-88 | The loop over body rows yields exactly the cleaned table, or the error of the first failing row. |
| Merge.SuffixedIsNotSeason | app/scraper.py:96-98 | A suffixed label is never `season`. |
| Merge.MergedColumns | app/scraper.py:95-97 | The joined labels are the "for" labels, then the non-key "against" labels, each renamed with its suffix when the other side has it. |
| Merge.RowMatches | app/scraper.py:95-97 | It lists exactly the "against" rows whose key equals one "for" row's key, ascending. |
| Merge.PairsFrom | app/scraper.py:95-97 | It lists exactly the matching row pairs from a given "for" row on, ordered by "for" row and then "against" row. |
| Merge.JoinPairs | app/scraper.py:95-97 | A pair is listed exactly when its two keys are equal. The order is "for" row first, then "against" row. |
| Merge.Joined | app/scraper.py:95-97 | The join is well formed, has the merged labels and has one row per matching pair. |
| Merge.Merge | app/scraper.py:95-98 | The merge fails exactly when suffixing yields a label twice. Otherwise it is well formed with one row per matching pair. |
| Merge.JoinedForCell | app/scraper.py:95-97 | A "for" cell of a joined row sits under its renamed label. |
| Merge.JoinedAgainstCell | app/scraper.py:95-97 | A non-key "against" cell of a joined row sits under its renamed label. |
| Merge.MergedLabelsOrigin | app/scraper.py:96 | Every merged label is a one-sided label, the key, or a shared label with a suffix. |
| Merge.MergeColumns | app/scraper.py:95-98 | `team_id` and `season` are present, a shared label appears with both suffixes, one-sided labels are unchanged, and nothing else appears. |
| Merge.MergeRowValues | app/scraper.py:95-98 | Row k joins two rows with equal team ids. Each of their cells keeps its value under its renamed label, and the season cell holds the season. |
| Merge.MergeKeepsJoined | app/scraper.py:98 | Stamping the season changes no other column. |
| Merge.PairIndex | app/scraper.py:95-97 | Any two rows with equal team ids are joined by some merged row. |
| Merge.MergeKeyColumn | app/scraper.py:95-97 | Merged row k's team id equals the ids of both rows it joins. |
| Merge.JoinKeys | app/scraper.py:95-97 | The keys read off an inner join are those common to both sides. |
| Merge.MergeKeys | app/scraper.py:95-97 | The merged team ids are exactly the ids on both sides. A team on one side only is dropped. |
| Merge.JoinUniqueKeys | app/scraper.py:95-97 | Joining two key columns without repeats yields keys without repeats. |
| Merge.MergeUniqueKeys | app/scraper.py:95-97 | If each side lists a team at most once, so does the merge. |
| Merge.MergedCategory | app/scraper.py:91-99 | A merged category is well formed. |
| Merge.MergedCategoryStamped | app/scraper.py:98 | Every row of a merged category carries the season label. |
| Merge.TableIdsInjective | app/scraper.py:92-93 | Different categories read different "for" tables and different "against" tables. |
| Merge.ForAgainstDistinct | app/scraper.py:92-93 | The "for" and "against" tables of one category have different ids. |
| Merge.ParseAndMerge | app/scraper.py:91-99 | It cleans the "for" table, then the "against" table, then merges and stamps with the season of the date. The first error is returned. |
| Roster.AddTeamsSucceeds | app/scraper.py:58-66 | The roster walk succeeds exactly when every row yields a team. |
| Roster.AddTeamsKeeps | app/scraper.py:58-66 | A successful walk keeps every stored team unchanged. Every row's id is present afterwards, and teams stay under their own ids. |
| Roster.AddTeamsPresent | app/scraper.py:63-65 | Rows whose ids are all stored change nothing. |
| Roster.RosterIdempotent | app/scraper.py:53-66 | Loading the same roster page a second time changes nothing. |
| Roster.AddTeamsNew | app/scraper.py:58-65 | A newly added team is the one described by the first row with its id. Later rows with that id are ignored. |
| Roster.AddTeamsFailure | app/scraper.py:58-62 | A failed walk reports the error of its first unreadable row, and all earlier rows were readable. |
| Roster.AddTeams | app/scraper.py:58-65 | A successful walk keeps every stored id. Roster.AddTeamsSucceeds, Roster.AddTeamsKeeps, Roster.AddTeamsNew, Roster.AddTeamsPresent and Roster.AddTeamsFailure state the rest. |
| Roster.RosterLoad | app/scraper.py:53-66 | A failed fetch or a missing `big5_table` fails with that error. The load succeeds exactly when every body row yields a team, and then keeps every stored team unchanged. Scraper.Database.WriteTeams is proved equal to it. |
| Ingest.AppendTo | app/scraper.py:122-127 | An append creates the table when missing and puts the rows after the existing ones. Other tables are unchanged. |
| Ingest.Apply | app/scraper.py:122-127 | The store after a sequence of appends holds the old tables plus exactly the appended-to tables. Ingest.ApplyRows, Ingest.AppendOnly and Ingest.ApplyConcat state the rows. |
| Ingest.ApplyRows | app/scraper.py:122-127 | After a sequence of appends, a table holds its earlier rows followed by the rows appended to it, in order. |
| Ingest.AppendOnly | app/scraper.py:122-127 | Appends never remove a table or a row: each old table is a prefix of its new contents. |
| Ingest.ApplyKeys | app/scraper.py:122-127 | Appends never remove a table. |
| Ingest.ApplyConcat | app/scraper.py:122-127 | Applying two batches of appends one after the other equals applying their concatenation. |
| Ingest.RunTwice | app/scraper.py:122-127 | Running the same appends twice leaves each table's added rows twice, in order. |
| Ingest.Merges | app/scraper.py:120-121 | There is one merge result per category. |
| Ingest.MergesAt | app/scraper.py:120-121 | Entry c is the merge of category c. |
| Ingest.LeagueUrl | app/scraper.py:119 | The URL is the base followed by the league path, which can be read back from it. |
| Ingest.CategoryRun | app/scraper.py:120-127 | No page is fetched, there is at most one append per category, and the run succeeds exactly when every category was appended. |
| Ingest.StatsTableInjective | app/scraper.py:123 | Different categories are appended to different tables. |
| Ingest.CategoryRunAppends | app/scraper.py:120-127 | Append c goes to `team_<category c>` and holds the records of category c's merged frame. |
| Ingest.CategoryRunFailure | app/scraper.py:120-121 | A failed run stops at the first category whose merge failed, with that error. |
| Ingest.CategoryStepsSnoc | app/scraper.py:120-127 | Each loop iteration extends the recorded category steps. |
| Ingest.CategoryRunRuns | app/scraper.py:120-127 | The categories' steps, in order up to the first failure, are the page's run. |
| Ingest.LeagueRun | app/scraper.py:117-119 | A league run fetches exactly the league's URL, once. A failed fetch appends nothing and ends the run with the fetcher's error. |
| Ingest.LeagueOfPage | app/scraper.py:119-127 | Once the page arrives, a league's appends and failure are those of its categories. |
| Ingest.StatsRun | app/scraper.py:117-127 | The leagues' pages are fetched in order, each once. All six are fetched on success. A failure comes from the last league fetched. |
| Ingest.RunsSnoc | app/scraper.py:117-127 | One more run after several continues only when none of them failed. |
| Ingest.LeagueRunsSnoc | app/scraper.py:117-127 | Each loop iteration extends the recorded league runs. |
| Ingest.StatsRunRuns | app/scraper.py:117-127 | The leagues' runs, in order up to the first failure, are the whole run. |
| Ingest.FrameAppendStamped | app/scraper.py:98-127 | A frame whose rows all hold the season, appended to a category table, writes records that all hold the season. |
| Ingest.CategoryAppendStamped | app/scraper.py:98-127 | Every record appended for a category holds the season label. |
| Ingest.LeagueRunStamped | app/scraper.py:98-127 | Every append of a league goes to a category table, with every record holding the season. |
| Ingest.StatsRunStamped | app/scraper.py:98-127 | Every append of the whole run goes to a category table, with every record holding the season. |
| Scraper.Database.WriteTeams | app/scraper.py:44-67 | The loop adds each row's team unless its id is stored or staged. On success the roster becomes the walk's result. On the first failing row the roster stays as it was and the error is returned. The statistics are untouched. |
| Scraper.Database.AppendFrame | app/scraper.py:122-127 | The frame's records go after the rows of `team_<category>`. The roster is untouched. |
| Scraper.Database.WriteCategory | app/scraper.py:121-127 | The category is merged. On success its records are appended; on failure the error is returned and nothing is appended. |
| Scraper.Database.WriteCategories | app/scraper.py:120-127 | The store becomes the old store with the page's category run applied, and the run's error is returned. |
| Scraper.Database.WriteLeague | app/scraper.py:117-127 | The league's URL is fetched once, then its categories are written. |
| Scraper.Database.WriteTeamsStats | app/scraper.py:102-129 | The fetched URLs, the returned failure and the new store are exactly those of the whole run. The roster is untouched. |

The constants `BASE`, `LEAGUES` and the eleven categories (app/scraper.py:13-21 and 103-115) are `Ingest.Base`, `Ingest.Leagues` and `Ingest.Categories`. The country map (app/scraper.py:45-51) is `Teams.CountryLeagues`.

## Left out

- HTTP (`get_soup`, `requests.get`, `raise_for_status`): the fetcher is a parameter, and a failed request is the Error it returns.
- HTML parsing with BeautifulSoup: a page is already a list of tables with header labels and body rows of cells.
- Normalize.ReadCell: numeric typing of cells by `pd.read_html` is not modelled; a cell is its text or missing. `read_html` also reads its default NA strings ("NA", "N/A", "nan", "null" and others) and whitespace-only cells as missing; the model reads only empty cells as missing. `read_html` also strips each cell's text and turns every line break and every run of two or more whitespace characters into one space; the model keeps the cell text as it is.
- `read_html` on a body row with fewer or more cells than header labels: it is refused as ColumnCountMismatch instead of being padded.
- `print` and `sleep(20)`: they have no effect on the data.
- The SQL schema, `Session` and `to_sql` type mapping: the store is a map from table name to a sequence of records, and the roster is a map from id to Team.
- `app/main.py` and `app/database.py` are not part of this model.
- Season.CurrentSeason: the date is one parameter per run. The scraper reads the clock at every merge, so a run that crosses midnight on July 31 could mix two labels.
- Normalize.NormalizedTable: header labels that repeat are refused as DuplicateLabel. The scraper would build a frame with duplicate labels.
- A header `<th>` without a `data-stat` attribute gets the label None from `th.get` (app/scraper.py:76). The model's labels are always strings, so this case is not represented.
- Normalize.NormalizedTable: the parsed frame and the team-id loop are assumed to see the same body rows. `read_html` (app/scraper.py:72) reads every `tbody` and also the `tfoot` rows, while the loop at app/scraper.py:84 walks only the first `tbody`. On such a table the assignment at app/scraper.py:87 raises on the length mismatch, which the model does not represent.
- Normalize.NormalizedTable, Roster.RosterLoad: a table without `thead` or `tbody` is not distinguished from one with empty header rows or no body rows. The scraper raises on a missing `tbody` (app/scraper.py:58 and 84); the model walks zero body rows and succeeds.
- Merge.Merge: suffixing that yields the same label twice fails as DuplicateColumns. Which pandas versions raise an error and which only warn is not modelled.
- A failing `to_sql` append, for example a frame with a column the existing `team_<category>` table lacks (app/scraper.py:122-127), is not modelled: Ingest.AppendTo never fails.
- A first `<a>` without an `href` attribute (a KeyError at app/scraper.py:38) is not distinguished: a cell's link is the href of its first hyperlink, or none.
