/** `clean_table`: one statistics table of the page becomes a frame whose
    columns are the data-stat labels of the last header row, minus a fixed
    exclusion list, plus a `team_id` column filled row by row from each
    row's hyperlink. */
module Normalize {
  import opened Wrappers
  import opened Failures
  import opened Html
  import opened Teams
  import opened Frames

  /** The labels that are dropped: players used, minutes per game, 90s played
      and the raw team name. */
  const Excluded: seq<string> := ["players_used", "minutes_per_game", "minutes_90s", "team"]

  const TeamIdColumn := "team_id"

  /** The table library's reading of one cell: empty text is a missing value. */
  function ReadCell(text: string): (c: Cell)
    ensures c == Missing <==> text == ""
    ensures c.Text? ==> c.text == text
  {
    if text == "" then Missing else Text(text)
  }

  /** The labels that are not in `drop`, in their original order. */
  function Without(labels: seq<string>, drop: seq<string>): (r: seq<string>)
    ensures forall c :: c in r <==> c in labels && c !in drop
    ensures |r| <= |labels|
  {
    if labels == [] then []
    else (if labels[0] in drop then [] else [labels[0]]) + Without(labels[1..], drop)
  }

  /** The elements of `s` at positions `ps`, in the order of `ps`. */
  function Select<T>(s: seq<T>, ps: seq<nat>): (r: seq<T>)
    requires forall j :: 0 <= j < |ps| ==> ps[j] < |s|
    ensures |r| == |ps|
    ensures forall j :: 0 <= j < |ps| ==> r[j] == s[ps[j]]
  {
    seq(|ps|, j requires 0 <= j < |ps| => s[ps[j]])
  }

  /** Positions, from `from` on, whose labels are not in `drop`, ascending. */
  function KeptPositions(labels: seq<string>, drop: seq<string>, from: nat): (ps: seq<nat>)
    requires from <= |labels|
    ensures forall j :: 0 <= j < |ps| ==> from <= ps[j] < |labels|
    ensures forall a, b :: 0 <= a < b < |ps| ==> ps[a] < ps[b]
    ensures Select(labels, ps) == Without(labels[from..], drop)
    decreases |labels| - from
  {
    if from == |labels| then []
    else
      var head: seq<nat> := if labels[from] in drop then [] else [from];
      var rest := KeptPositions(labels, drop, from + 1);
      KeptPositionsStep(labels, drop, from, head, rest);
      head + rest
  }

  lemma KeptPositionsStep(labels: seq<string>, drop: seq<string>, from: nat, head: seq<nat>, rest: seq<nat>)
    requires from < |labels|
    requires head == if labels[from] in drop then [] else [from]
    requires forall j :: 0 <= j < |rest| ==> from + 1 <= rest[j] < |labels|
    requires forall a, b :: 0 <= a < b < |rest| ==> rest[a] < rest[b]
    requires Select(labels, rest) == Without(labels[from + 1..], drop)
    ensures forall j :: 0 <= j < |head + rest| ==> from <= (head + rest)[j] < |labels|
    ensures forall a, b :: 0 <= a < b < |head + rest| ==> (head + rest)[a] < (head + rest)[b]
    ensures Select(labels, head + rest) == Without(labels[from..], drop)
  {
    WithoutFrom(labels, drop, from);
    SelectConcat(labels, head, rest);
    assert Select(labels, head) == if labels[from] in drop then [] else [labels[from]];
  }

  lemma WithoutFrom(labels: seq<string>, drop: seq<string>, from: nat)
    requires from < |labels|
    ensures Without(labels[from..], drop) ==
      (if labels[from] in drop then [] else [labels[from]]) + Without(labels[from + 1..], drop)
  {
    var s := labels[from..];
    assert s[0] == labels[from];
    assert s[1..] == labels[from + 1..];
  }

  lemma SelectConcat<T>(s: seq<T>, ps: seq<nat>, qs: seq<nat>)
    requires forall j :: 0 <= j < |ps| ==> ps[j] < |s|
    requires forall j :: 0 <= j < |qs| ==> qs[j] < |s|
    ensures forall j :: 0 <= j < |ps + qs| ==> (ps + qs)[j] < |s|
    ensures Select(s, ps + qs) == Select(s, ps) + Select(s, qs)
  {
    var l, r := Select(s, ps), Select(s, qs);
    assert forall j :: 0 <= j < |ps + qs| ==> Select(s, ps + qs)[j] == (l + r)[j];
  }

  lemma DropFacts(f: Frame, ps: seq<nat>, r: Frame)
    requires WellFormed(f)
    requires forall j :: 0 <= j < |ps| ==> ps[j] < |f.columns|
    requires forall a, b :: 0 <= a < b < |ps| ==> ps[a] < ps[b]
    requires r.columns == Select(f.columns, ps)
    requires |r.rows| == |f.rows|
    requires forall k :: 0 <= k < |f.rows| ==> r.rows[k] == Select(f.rows[k], ps)
    ensures WellFormed(r)
    ensures forall k, c :: 0 <= k < |r.rows| && c in r.columns ==>
      c in f.columns && Lookup(r, k, c) == Lookup(f, k, c)
  {
    forall k, c | 0 <= k < |r.rows| && c in r.columns
      ensures c in f.columns && Lookup(r, k, c) == Lookup(f, k, c)
    {
      var a := IndexOf(r.columns, c);
      IndexOfDistinct(f.columns, ps[a]);
    }
  }

  /** `df.drop(drop, axis=1, errors="ignore")`: removes every column whose
      label is in `drop`; labels in `drop` that are absent are ignored. */
  function DropColumns(f: Frame, drop: seq<string>): (r: Frame)
    requires WellFormed(f)
    ensures WellFormed(r) && |r.rows| == |f.rows|
    ensures r.columns == Without(f.columns, drop)
    ensures forall k, c :: 0 <= k < |r.rows| && c in r.columns ==>
      c in f.columns && Lookup(r, k, c) == Lookup(f, k, c)
  {
    var ps := KeptPositions(f.columns, drop, 0);
    assert f.columns[0..] == f.columns;
    var r := Frame(Select(f.columns, ps),
                   seq(|f.rows|, k requires 0 <= k < |f.rows| => Select(f.rows[k], ps)));
    DropFacts(f, ps, r);
    r
  }

  /** `get_team_id_and_name(row)[0]` for every body row, in row order; the
      first row that fails decides the error. */
  function TeamIds(rows: seq<Row>): (r: Result<seq<string>, Error>)
    ensures r.Success? <==> forall i :: 0 <= i < |rows| ==> TeamIdAndName(rows[i]).Success?
    ensures r.Success? ==> |r.value| == |rows|
    ensures r.Success? ==> forall i :: 0 <= i < |rows| ==> r.value[i] == TeamIdAndName(rows[i]).value.0
  {
    if rows == [] then Success([])
    else
      match TeamIdAndName(rows[0])
      case Failure(e) => Failure(e)
      case Success((id, _)) =>
        match TeamIds(rows[1..])
        case Failure(e) =>
          assert forall j :: 1 <= j < |rows| ==> rows[j] == rows[1..][j - 1];
          Failure(e)
        case Success(ids) =>
          assert forall j :: 1 <= j < |rows| ==> rows[j] == rows[1..][j - 1];
          Success([id] + ids)
  }

  /** One step of `TeamIds`: the first row's id, then the ids of the rest. */
  lemma TeamIdsStep(rows: seq<Row>, i: nat)
    requires i < |rows|
    ensures TeamIds(rows[i..]) ==
      match TeamIdAndName(rows[i])
      case Failure(e) => Failure(e)
      case Success(p) => Prepend([p.0], TeamIds(rows[i + 1..]))
  {
    assert rows[i..][1..] == rows[i + 1..];
  }

  /** The result of continuing a partial id list with the ids of the remaining rows. */
  function Prepend(ids: seq<string>, rest: Result<seq<string>, Error>): Result<seq<string>, Error>
  {
    match rest
    case Failure(e) => Failure(e)
    case Success(more) => Success(ids + more)
  }

  lemma PrependTwice(ids: seq<string>, id: string, rest: Result<seq<string>, Error>)
    ensures Prepend(ids, Prepend([id], rest)) == Prepend(ids + [id], rest)
  {
    if rest.Success? {
      assert ids + ([id] + rest.value) == (ids + [id]) + rest.value;
    }
  }

  /** The last header row's labels. */
  function Labels(t: Table): seq<string>
    requires t.headerRows != []
  {
    t.headerRows[|t.headerRows| - 1]
  }

  /** Every body row has one cell per label. */
  predicate Rectangular(t: Table)
    requires t.headerRows != []
  {
    forall i :: 0 <= i < |t.body| ==> |t.body[i].cells| == |Labels(t)|
  }

  /** `pd.read_html` followed by `df.columns = col_names`. */
  function ParsedFrame(t: Table): (f: Frame)
    requires t.headerRows != [] && Rectangular(t) && Distinct(Labels(t))
    ensures WellFormed(f) && f.columns == Labels(t) && |f.rows| == |t.body|
    ensures forall i, c :: 0 <= i < |t.body| && c in Labels(t) ==>
      Lookup(f, i, c) == ReadCell(t.body[i].cells[IndexOf(Labels(t), c)].text)
  {
    Frame(Labels(t), seq(|t.body|, i requires 0 <= i < |t.body| =>
      seq(|t.body[i].cells|, j requires 0 <= j < |t.body[i].cells| => ReadCell(t.body[i].cells[j].text))))
  }

  function IdCells(ids: seq<string>): (cells: seq<Cell>)
    ensures |cells| == |ids| && forall k :: 0 <= k < |ids| ==> cells[k] == Text(ids[k])
  {
    seq(|ids|, k requires 0 <= k < |ids| => Text(ids[k]))
  }

  /** Labels of the normalised table: the kept header labels, then `team_id`
      unless a header label already is `team_id`. */
  function NormalizedColumns(labels: seq<string>): seq<string>
  {
    var kept := Without(labels, Excluded);
    if TeamIdColumn in kept then kept else kept + [TeamIdColumn]
  }

  /** `clean_table(soup, table_id)`: the frame of the page's table with that id. */
  function NormalizedTable(page: Page, tableId: string): (r: Result<Frame, Error>)
    ensures r.Success? ==> WellFormed(r.value) && TeamIdColumn in r.value.columns
  {
    match FindTable(page, tableId)
    case None => Failure(TableNotFound(tableId))
    case Some(t) =>
      if t.headerRows == [] then Failure(MissingHeader(tableId))
      else if !Rectangular(t) then Failure(ColumnCountMismatch(tableId))
      else if !Distinct(Labels(t)) then Failure(DuplicateLabel(tableId))
      else
        var dropped := DropColumns(ParsedFrame(t), Excluded);
        match TeamIds(t.body)
        case Failure(e) => Failure(e)
        case Success(ids) => Success(SetColumn(dropped, TeamIdColumn, IdCells(ids)))
  }

  /** The table can be normalised exactly when it exists, has a header row,
      is rectangular with distinct labels, and every body row yields a team
      id; a missing table is reported by its id. */
  lemma NormalizedTableSucceeds(page: Page, tableId: string)
    ensures FindTable(page, tableId).None? ==> NormalizedTable(page, tableId) == Failure(TableNotFound(tableId))
    ensures NormalizedTable(page, tableId).Success? <==>
      && FindTable(page, tableId).Some?
      && var t := FindTable(page, tableId).value;
      && t.headerRows != [] && Rectangular(t) && Distinct(Labels(t))
      && forall i :: 0 <= i < |t.body| ==> TeamIdAndName(t.body[i]).Success?
  {
  }

  /** Column exclusion: no excluded label survives, an excluded label that is
      absent causes no error, every other label keeps its order, and
      `team_id` comes last unless the header already had it. */
  lemma ColumnExclusion(page: Page, tableId: string)
    requires NormalizedTable(page, tableId).Success?
    ensures var t := FindTable(page, tableId).value;
      NormalizedTable(page, tableId).value.columns == NormalizedColumns(Labels(t))
    ensures forall e :: e in Excluded ==> e !in NormalizedTable(page, tableId).value.columns
  {
  }

  /** Row alignment: one row per body row, and in row `i` the `team_id` is
      the id read from body row `i`'s hyperlink while every other cell is the
      body row's cell under the same label. */
  lemma RowAlignment(page: Page, tableId: string)
    requires NormalizedTable(page, tableId).Success?
    ensures var t := FindTable(page, tableId).value;
      var f := NormalizedTable(page, tableId).value;
      && |f.rows| == |t.body|
      && (forall i :: 0 <= i < |t.body| ==>
            TeamIdAndName(t.body[i]).Success? &&
            Lookup(f, i, TeamIdColumn) == Text(TeamIdAndName(t.body[i]).value.0))
      && (forall i, c :: 0 <= i < |t.body| && c in f.columns && c != TeamIdColumn ==>
            c in Labels(t) && Lookup(f, i, c) == ReadCell(t.body[i].cells[IndexOf(Labels(t), c)].text))
  {
    var t := FindTable(page, tableId).value;
    NormalizedShape(page, tableId);
    TableAlignment(t, NormalizedTable(page, tableId).value);
  }

  /** A table that normalises is the one found by id, with its frame built
      from the parsed rows and the ids of its body rows. */
  lemma NormalizedShape(page: Page, tableId: string)
    requires NormalizedTable(page, tableId).Success?
    ensures FindTable(page, tableId).Some?
    ensures var t := FindTable(page, tableId).value;
      && t.headerRows != [] && Rectangular(t) && Distinct(Labels(t)) && TeamIds(t.body).Success?
      && NormalizedTable(page, tableId).value ==
         SetColumn(DropColumns(ParsedFrame(t), Excluded), TeamIdColumn, IdCells(TeamIds(t.body).value))
  {
  }

  lemma TableAlignment(t: Table, f: Frame)
    requires t.headerRows != [] && Rectangular(t) && Distinct(Labels(t)) && TeamIds(t.body).Success?
    requires f == SetColumn(DropColumns(ParsedFrame(t), Excluded), TeamIdColumn, IdCells(TeamIds(t.body).value))
    ensures |f.rows| == |t.body|
    ensures forall i :: 0 <= i < |t.body| ==>
      TeamIdAndName(t.body[i]).Success? &&
      Lookup(f, i, TeamIdColumn) == Text(TeamIdAndName(t.body[i]).value.0)
    ensures forall i, c :: 0 <= i < |t.body| && c in f.columns && c != TeamIdColumn ==>
      c in Labels(t) && Lookup(f, i, c) == ReadCell(t.body[i].cells[IndexOf(Labels(t), c)].text)
  {
    var parsed := ParsedFrame(t);
    var dropped := DropColumns(parsed, Excluded);
    IdAlignment(t, dropped, f);
    forall i, c | 0 <= i < |t.body| && c in f.columns && c != TeamIdColumn
      ensures c in Labels(t) && Lookup(f, i, c) == ReadCell(t.body[i].cells[IndexOf(Labels(t), c)].text)
    {
      CellAlignment(t, parsed, dropped, f, i, c);
    }
  }

  lemma IdAlignment(t: Table, dropped: Frame, f: Frame)
    requires WellFormed(dropped) && |dropped.rows| == |t.body| && TeamIds(t.body).Success?
    requires f == SetColumn(dropped, TeamIdColumn, IdCells(TeamIds(t.body).value))
    ensures forall i :: 0 <= i < |t.body| ==>
      TeamIdAndName(t.body[i]).Success? &&
      Lookup(f, i, TeamIdColumn) == Text(TeamIdAndName(t.body[i]).value.0)
  {
    var ids := TeamIds(t.body).value;
    forall i | 0 <= i < |t.body|
      ensures TeamIdAndName(t.body[i]).Success? && Lookup(f, i, TeamIdColumn) == Text(TeamIdAndName(t.body[i]).value.0)
    {
      assert Lookup(f, i, TeamIdColumn) == IdCells(ids)[i] == Text(ids[i]);
    }
  }

  lemma CellAlignment(t: Table, parsed: Frame, dropped: Frame, f: Frame, i: nat, c: string)
    requires t.headerRows != [] && Rectangular(t) && Distinct(Labels(t)) && parsed == ParsedFrame(t)
    requires WellFormed(dropped) && |dropped.rows| == |parsed.rows|
    requires forall k, d :: 0 <= k < |dropped.rows| && d in dropped.columns ==>
      d in parsed.columns && Lookup(dropped, k, d) == Lookup(parsed, k, d)
    requires |f.rows| == |dropped.rows| && WellFormed(f)
    requires f.columns == if TeamIdColumn in dropped.columns then dropped.columns else dropped.columns + [TeamIdColumn]
    requires forall k, d :: 0 <= k < |f.rows| && d in dropped.columns && d != TeamIdColumn ==>
      Lookup(f, k, d) == Lookup(dropped, k, d)
    requires i < |t.body| && c in f.columns && c != TeamIdColumn
    ensures c in Labels(t) && Lookup(f, i, c) == ReadCell(t.body[i].cells[IndexOf(Labels(t), c)].text)
  {
    assert c in dropped.columns;
    assert Lookup(f, i, c) == Lookup(dropped, i, c) == Lookup(parsed, i, c);
    var j := IndexOf(Labels(t), c);
    assert parsed.columns == Labels(t);
    assert parsed.rows[i][j] == ReadCell(t.body[i].cells[j].text);
  }

  /** `clean_table` as the scraper runs it: the `team_id` list is built by a
      loop over the body rows that stops at the first failing row. */
  method CleanTable(page: Page, tableId: string) returns (r: Result<Frame, Error>)
    ensures r == NormalizedTable(page, tableId)
  {
    var found := FindTable(page, tableId);
    if found.None? {
      return Failure(TableNotFound(tableId));
    }
    var t := found.value;
    if t.headerRows == [] {
      return Failure(MissingHeader(tableId));
    }
    if !Rectangular(t) {
      return Failure(ColumnCountMismatch(tableId));
    }
    if !Distinct(Labels(t)) {
      return Failure(DuplicateLabel(tableId));
    }
    var dropped := DropColumns(ParsedFrame(t), Excluded);
    var ids: seq<string> := [];
    var i := 0;
    assert t.body[i..] == t.body;
    if TeamIds(t.body).Success? {
      assert ids + TeamIds(t.body).value == TeamIds(t.body).value;
    }
    while i < |t.body|
      invariant 0 <= i <= |t.body|
      invariant TeamIds(t.body) == Prepend(ids, TeamIds(t.body[i..]))
    {
      TeamIdsStep(t.body, i);
      match TeamIdAndName(t.body[i])
      case Failure(e) =>
        return Failure(e);
      case Success((id, _)) =>
        PrependTwice(ids, id, TeamIds(t.body[i + 1..]));
        ids := ids + [id];
      i := i + 1;
    }
    assert t.body[i..] == [];
    assert ids + [] == ids;
    assert TeamIds(t.body) == Success(ids);
    r := Success(SetColumn(dropped, TeamIdColumn, IdCells(ids)));
  }
}
