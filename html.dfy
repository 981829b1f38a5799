/** The parsed Talend export, as the cleaner sees it through BeautifulSoup.

    A document is the sequence of top-level sibling nodes: second-level headings,
    elements and bare text nodes. Parsing, and the text BeautifulSoup extracts with
    `get_text(strip=True)`, are taken as given: every cell, link and title below
    holds its text already stripped. */
module Html {
  import opened Text

  /** A `td` (isHeader false) or `th` (isHeader true) cell and its stripped text. */
  datatype Cell = Cell(isHeader: bool, text: string)

  /** A `tr`: its `td` and `th` cells in document order. */
  type Row = seq<Cell>

  /** A `table`: every text node inside it, and its rows in document order. */
  datatype Table = Table(strings: seq<string>, rows: seq<Row>)

  /** An `a` or `span` element: its `href` and `data-filepath` attributes (`""` when
      absent) and its stripped text. */
  datatype Link = Link(href: string, dataFilepath: string, text: string)

  /** A top-level sibling. A heading carries its stripped text and the raw text nodes
      inside it; an element carries its classes, the text nodes inside it, the tables
      inside it (itself when it is a table) and its `a`/`span` descendants. */
  datatype Node =
    | Heading(title: string, strings: seq<string>)
    | Element(classes: seq<string>, strings: seq<string>, tables: seq<Table>, links: seq<Link>)
    | TextNode(text: string)

  type Document = seq<Node>

  function NodeTables(n: Node): seq<Table> {
    if n.Element? then n.tables else []
  }

  function NodeLinks(n: Node): seq<Link> {
    if n.Element? then n.links else []
  }

  /** The text nodes of one sibling (`find_all(text=True)` restricted to it). */
  function NodeStrings(n: Node): seq<string> {
    match n
    case Heading(_, strings) => strings
    case Element(_, strings, _, _) => strings
    case TextNode(text) => [text]
  }

  /** `find_all('table')` over a run of siblings, in document order. */
  function TablesOf(nodes: seq<Node>): seq<Table> {
    if nodes == [] then [] else TablesOf(nodes[..|nodes| - 1]) + NodeTables(nodes[|nodes| - 1])
  }

  /** `find_all(['a', 'span'])` over a run of siblings, in document order. */
  function LinksOf(nodes: seq<Node>): seq<Link> {
    if nodes == [] then [] else LinksOf(nodes[..|nodes| - 1]) + NodeLinks(nodes[|nodes| - 1])
  }

  /** `find_all(text=True)` over a run of siblings, in document order. */
  function StringsOf(nodes: seq<Node>): seq<string> {
    if nodes == [] then [] else StringsOf(nodes[..|nodes| - 1]) + NodeStrings(nodes[|nodes| - 1])
  }

  /** `find_all('tr')` over one sibling. */
  function NodeRows(n: Node): seq<Row> {
    RowsOfTables(NodeTables(n))
  }

  /** `find_all('tr')` over a run of siblings, in document order. */
  function RowsOf(nodes: seq<Node>): seq<Row> {
    if nodes == [] then [] else RowsOf(nodes[..|nodes| - 1]) + NodeRows(nodes[|nodes| - 1])
  }

  function RowsOfTables(tables: seq<Table>): seq<Row> {
    if tables == [] then [] else RowsOfTables(tables[..|tables| - 1]) + tables[|tables| - 1].rows
  }

  /** `row.find_all('td')`: the data cells of a row, every one of them. */
  function Tds(row: Row): (r: seq<Cell>)
    ensures |r| <= |row|
    ensures forall k :: 0 <= k < |r| ==> !r[k].isHeader && r[k] in row
    ensures forall k :: 0 <= k < |row| && !row[k].isHeader ==> row[k] in r
  {
    if row == [] then [] else (if row[0].isHeader then [] else [row[0]]) + Tds(row[1..])
  }

  /** The data cells of two runs of cells are those of the first run, then those
      of the second: the cells keep their order in the row. */
  lemma {:induction false} TdsAppend(a: Row, b: Row)
    ensures Tds(a + b) == Tds(a) + Tds(b)
  {
    if a != [] {
      assert (a + b)[0] == a[0];
      assert (a + b)[1..] == a[1..] + b;
      TdsAppend(a[1..], b);
    } else {
      assert a + b == b;
    }
  }

  /** `[th.get_text(strip=True).lower() for th in table.find_all('th')]`. */
  function HeaderTexts(t: Table): seq<string> {
    HeaderTextsOfRows(t.rows)
  }

  function HeaderTextsOfRows(rows: seq<Row>): seq<string> {
    if rows == [] then [] else HeaderTextsOfRows(rows[..|rows| - 1]) + HeaderTextsOfRow(rows[|rows| - 1])
  }

  function HeaderTextsOfRow(row: Row): seq<string> {
    if row == [] then [] else (if row[0].isHeader then [Lower(row[0].text)] else []) + HeaderTextsOfRow(row[1..])
  }
}
