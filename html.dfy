/** The parsed page as the scraper sees it through its HTML library: tables
    found by id, header rows of data-stat labels, body rows of cells that may
    hold a hyperlink. Parsing the markup itself is not modelled. */
module Html {
  import opened Wrappers

  /** One cell of a body row: whether it is a <th> (else a <td>), its data-stat
      attribute, its text, and the href of the first hyperlink inside it. */
  datatype HtmlCell = HtmlCell(isHeader: bool, stat: string, text: string, link: Option<string>)

  datatype Row = Row(cells: seq<HtmlCell>)

  /** A <table>: its id, the data-stat labels of the <th> cells of each row of
      its <thead>, and the rows of its <tbody>. */
  datatype Table = Table(id: string, headerRows: seq<seq<string>>, body: seq<Row>)

  datatype Page = Page(tables: seq<Table>)

  /** Position of the first table with the given id, in document order. */
  function TableIndex(tables: seq<Table>, id: string): (r: Option<nat>)
    ensures r.None? ==> forall i :: 0 <= i < |tables| ==> tables[i].id != id
    ensures r.Some? ==> r.value < |tables| && tables[r.value].id == id
    ensures r.Some? ==> forall j :: 0 <= j < r.value ==> tables[j].id != id
  {
    if tables == [] then None
    else if tables[0].id == id then Some(0)
    else
      match TableIndex(tables[1..], id)
      case None => None
      case Some(k) => Some(k + 1)
  }

  /** `soup.find("table", id=...)`: the first table with the id, in document
      order, or none when no table has it. */
  function FindTable(page: Page, id: string): (r: Option<Table>)
    ensures r.None? <==> forall i :: 0 <= i < |page.tables| ==> page.tables[i].id != id
    ensures forall i ::
      (0 <= i < |page.tables| && page.tables[i].id == id && forall j :: 0 <= j < i ==> page.tables[j].id != id)
      ==> r == Some(page.tables[i])
  {
    match TableIndex(page.tables, id)
    case None => None
    case Some(i) => Some(page.tables[i])
  }

  /** Position of the first cell that holds a hyperlink. */
  function LinkIndex(cells: seq<HtmlCell>): (r: Option<nat>)
    ensures r.None? ==> forall i :: 0 <= i < |cells| ==> cells[i].link.None?
    ensures r.Some? ==> r.value < |cells| && cells[r.value].link.Some?
    ensures r.Some? ==> forall j :: 0 <= j < r.value ==> cells[j].link.None?
  {
    if cells == [] then None
    else if cells[0].link.Some? then Some(0)
    else
      match LinkIndex(cells[1..])
      case None => None
      case Some(k) => Some(k + 1)
  }

  /** `row.find("a")["href"]`: the target of the row's first hyperlink, or
      none when no cell holds one. */
  function FirstLink(row: Row): (r: Option<string>)
    ensures r.None? <==> forall i :: 0 <= i < |row.cells| ==> row.cells[i].link.None?
    ensures forall i ::
      (0 <= i < |row.cells| && row.cells[i].link.Some? && forall j :: 0 <= j < i ==> row.cells[j].link.None?)
      ==> r == row.cells[i].link
  {
    match LinkIndex(row.cells)
    case None => None
    case Some(i) => row.cells[i].link
  }

  /** Position of the first <td> cell with the given data-stat. */
  function DataCellIndex(cells: seq<HtmlCell>, stat: string): (r: Option<nat>)
    ensures r.None? ==> forall i :: 0 <= i < |cells| ==> cells[i].isHeader || cells[i].stat != stat
    ensures r.Some? ==> r.value < |cells| && !cells[r.value].isHeader && cells[r.value].stat == stat
    ensures r.Some? ==> forall j :: 0 <= j < r.value ==> cells[j].isHeader || cells[j].stat != stat
  {
    if cells == [] then None
    else if !cells[0].isHeader && cells[0].stat == stat then Some(0)
    else
      match DataCellIndex(cells[1..], stat)
      case None => None
      case Some(k) => Some(k + 1)
  }

  /** `row.find("td", {"data-stat": stat})`: the first `td` cell with that
      data-stat, or none when there is none. */
  function FindDataCell(row: Row, stat: string): (r: Option<HtmlCell>)
    ensures r.None? <==> forall i :: 0 <= i < |row.cells| ==> row.cells[i].isHeader || row.cells[i].stat != stat
    ensures forall i ::
      (0 <= i < |row.cells| && !row.cells[i].isHeader && row.cells[i].stat == stat &&
       forall j :: 0 <= j < i ==> row.cells[j].isHeader || row.cells[j].stat != stat)
      ==> r == Some(row.cells[i])
  {
    match DataCellIndex(row.cells, stat)
    case None => None
    case Some(i) => Some(row.cells[i])
  }
}
