/** The component inventory: the distinct component types listed in the table that
    follows the first heading about components (`extract_unique_components`). */
module Components {
  import opened Options
  import opened Text
  import opened Order
  import opened Html

  predicate IsComposantHeading(n: Node) {
    n.Heading? && Contains(Lower(n.title), "composant")
  }

  /** The position of the first heading at or after `i` that mentions "composant". */
  function FirstComposantHeading(doc: Document, i: nat): (r: Option<nat>)
    ensures r.Some? ==> i <= r.value < |doc| && IsComposantHeading(doc[r.value])
    ensures forall m :: i <= m < |doc| && (r.None? || m < r.value) ==> !IsComposantHeading(doc[m])
    decreases |doc| - i
  {
    if i >= |doc| then None
    else if IsComposantHeading(doc[i]) then Some(i)
    else FirstComposantHeading(doc, i + 1)
  }

  /** `h2.find_next('table')`: the first table after the sibling at position `h`. */
  function TableAfter(doc: Document, h: nat): Option<Table>
    requires h < |doc|
  {
    var tables := TablesOf(doc[h + 1..]);
    if tables == [] then None else Some(tables[0])
  }

  /** `table.find_all('tr')[1:]`: every row but the first. */
  function AfterHeaderRow(rows: seq<Row>): seq<Row> {
    if rows == [] then [] else rows[1..]
  }

  /** The second data cell of every row that has at least two, in row order. */
  function ComponentCells(rows: seq<Row>): (r: seq<string>)
    ensures forall y :: y in r <==>
              exists k :: 0 <= k < |rows| && |Tds(rows[k])| >= 2 && Tds(rows[k])[1].text == y
  {
    if rows == [] then []
    else
      var cols := Tds(rows[|rows| - 1]);
      var r := ComponentCells(rows[..|rows| - 1]) + (if |cols| >= 2 then [cols[1].text] else []);
      assert forall k :: 0 <= k < |rows| - 1 ==> rows[..|rows| - 1][k] == rows[k];
      r
  }

  /** The inventory: sorted, without repetitions, and empty when no heading
      mentions "composant". */
  function Inventory(doc: Document): (r: seq<string>)
    ensures StrictlySorted(r)
    ensures FirstComposantHeading(doc, 0).None? ==> r == []
  {
    match FirstComposantHeading(doc, 0)
    case None => []
    case Some(h) =>
      match TableAfter(doc, h)
      case None => []
      case Some(t) => SortedDistinct(ComponentCells(AfterHeaderRow(t.rows)))
  }

  /** `y` is the second data cell of some row of `t` after the first. */
  ghost predicate ListedIn(t: Table, y: string) {
    exists k :: 1 <= k < |t.rows| && |Tds(t.rows[k])| >= 2 && Tds(t.rows[k])[1].text == y
  }

  /** `y` is listed in the first table after the first heading that mentions
      "composant". */
  ghost predicate ListedComponent(doc: Document, y: string) {
    exists h :: 0 <= h < |doc| && IsComposantHeading(doc[h])
      && (forall m :: 0 <= m < h ==> !IsComposantHeading(doc[m]))
      && TableAfter(doc, h).Some?
      && ListedIn(TableAfter(doc, h).value, y)
  }

  /** Skipping the first row: the cells collected are the ones listed in the table. */
  lemma TableMembers(t: Table, y: string)
    ensures y in ComponentCells(AfterHeaderRow(t.rows)) <==> ListedIn(t, y)
  {
    var rows := AfterHeaderRow(t.rows);
    if ListedIn(t, y) {
      var k :| 1 <= k < |t.rows| && |Tds(t.rows[k])| >= 2 && Tds(t.rows[k])[1].text == y;
      assert rows[k - 1] == t.rows[k];
    }
    if y in ComponentCells(rows) {
      var k :| 0 <= k < |rows| && |Tds(rows[k])| >= 2 && Tds(rows[k])[1].text == y;
      assert rows[k] == t.rows[k + 1];
    }
  }

  /** Only the first "composant" heading qualifies. */
  lemma ListedAtFirstHeading(doc: Document, h: nat, y: string)
    requires FirstComposantHeading(doc, 0) == Some(h)
    ensures ListedComponent(doc, y) <==> TableAfter(doc, h).Some? && ListedIn(TableAfter(doc, h).value, y)
  {
    if ListedComponent(doc, y) {
      var h' :| 0 <= h' < |doc| && IsComposantHeading(doc[h'])
        && (forall m :: 0 <= m < h' ==> !IsComposantHeading(doc[m]))
        && TableAfter(doc, h').Some?
        && ListedIn(TableAfter(doc, h').value, y);
      assert h' == h;
    }
  }

  /** The inventory holds exactly the listed component types: only the first
      "composant" heading and the first table after it are read, and the first row
      of that table is skipped. */
  lemma InventoryMembers(doc: Document, y: string)
    ensures y in Inventory(doc) <==> ListedComponent(doc, y)
  {
    match FirstComposantHeading(doc, 0)
    case None =>
    case Some(h) =>
      ListedAtFirstHeading(doc, h, y);
      match TableAfter(doc, h)
      case None =>
      case Some(t) => TableMembers(t, y);
  }

  /** The inner loop of `extract_unique_components`: gather the second data cell of
      every row that has two into a set. */
  method CollectTypes(rows: seq<Row>) returns (uniqueTypes: set<string>)
    ensures forall y :: y in uniqueTypes <==> y in ComponentCells(rows)
  {
    uniqueTypes := {};
    var k := 0;
    while k < |rows|
      invariant 0 <= k <= |rows|
      invariant forall y :: y in uniqueTypes <==> y in ComponentCells(rows[..k])
    {
      var cols := Tds(rows[k]);
      if |cols| >= 2 {
        uniqueTypes := uniqueTypes + {cols[1].text};
      }
      assert rows[..k + 1][..k] == rows[..k];
      k := k + 1;
    }
    assert rows[..k] == rows;
  }

  /** `extract_unique_components`: find the heading, collect the set, sort it. */
  method ExtractUniqueComponents(doc: Document) returns (r: seq<string>)
    ensures r == Inventory(doc)
  {
    var uniqueTypes: set<string> := {};
    var i := 0;
    while i < |doc|
      invariant 0 <= i <= |doc|
      invariant FirstComposantHeading(doc, 0) == FirstComposantHeading(doc, i)
      invariant uniqueTypes == {}
    {
      if doc[i].Heading? && Contains(Lower(doc[i].title), "composant") {
        var table := TableAfter(doc, i);
        if table.Some? {
          uniqueTypes := CollectTypes(AfterHeaderRow(table.value.rows));
        }
        assert forall y :: y in uniqueTypes <==> y in Inventory(doc);
        break;
      }
      i := i + 1;
    }
    r := SortedOfSet(uniqueTypes);
    SortedUnique(r, Inventory(doc));
  }
}
