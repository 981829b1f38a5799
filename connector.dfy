/** The connector metadata read from the rows of the "Description" section
    (`parse_connector_info`). */
module Connector {
  import opened Options
  import opened Text
  import opened Html
  import opened Sections

  /** The `info` dictionary: one field per key it always holds. */
  datatype ConnectorInfo = ConnectorInfo(
    nom: string, version: string, historique: string, creation: string,
    modification: string, description: string, objectif: string)

  /** The dictionary before any row is read. */
  const NoInfo := ConnectorInfo("", "", "", "", "", "", "")

  predicate IsDescriptionTitle(title: string) {
    Lower(Strip(title)) == "description"
  }

  /** `next(...)`: the first section titled "description" once stripped and
      lower-cased, if any. */
  function DescriptionSection(sections: seq<Section>): (r: Option<Section>)
    ensures r.None? <==> forall k :: 0 <= k < |sections| ==> !IsDescriptionTitle(sections[k].title)
  {
    if sections == [] then None
    else if IsDescriptionTitle(sections[0].title) then Some(sections[0])
    else DescriptionSection(sections[1..])
  }

  /** The section found is the first one with that title. */
  lemma {:induction false} DescriptionSectionIsFirst(sections: seq<Section>, k: nat)
    requires k < |sections| && IsDescriptionTitle(sections[k].title)
    requires forall m :: 0 <= m < k ==> !IsDescriptionTitle(sections[m].title)
    ensures DescriptionSection(sections) == Some(sections[k])
  {
    if k > 0 {
      var tail := sections[1..];
      forall m | 0 <= m < k - 1
        ensures !IsDescriptionTitle(tail[m].title)
      {
        assert tail[m] == sections[m + 1];
      }
      DescriptionSectionIsFirst(tail, k - 1);
    }
  }

  /** A row of exactly two cells, read as its lower-cased key and its value. */
  datatype Entry = Entry(key: string, val: string)

  function EntryOf(row: Row): Entry
    requires |row| == 2
  {
    Entry(Lower(row[0].text), row[1].text)
  }

  /** The entries of the rows that have exactly two cells (`td` or `th`), in row order. */
  function Entries(rows: seq<Row>): (r: seq<Entry>)
    ensures |r| <= |rows|
  {
    if rows == [] then []
    else
      var last := rows[|rows| - 1];
      Entries(rows[..|rows| - 1]) + (if |last| == 2 then [EntryOf(last)] else [])
  }

  /** Only rows of exactly two cells give entries, and each of them gives one. */
  lemma {:induction false} EntriesMembers(rows: seq<Row>)
    ensures forall e :: e in Entries(rows) <==> exists k :: 0 <= k < |rows| && |rows[k]| == 2 && e == EntryOf(rows[k])
  {
    if rows != [] {
      var init := rows[..|rows| - 1];
      EntriesMembers(init);
      assert forall k :: 0 <= k < |init| ==> init[k] == rows[k];
    }
  }

  lemma EntriesSnoc(rows: seq<Row>, row: Row)
    ensures Entries(rows + [row]) == Entries(rows) + (if |row| == 2 then [EntryOf(row)] else [])
  {
    assert (rows + [row])[..|rows|] == rows;
  }

  lemma {:induction false} EntriesAppend(a: seq<Row>, b: seq<Row>)
    ensures Entries(a + b) == Entries(a) + Entries(b)
    decreases |b|
  {
    if b == [] {
      assert a + b == a;
    } else {
      var init := b[..|b| - 1];
      assert (a + b)[..|a + b| - 1] == a + init;
      EntriesAppend(a, init);
    }
  }

  /** The value of the last entry with key `key`, `""` when there is none: a later
      row overwrites an earlier one. */
  function LastValue(es: seq<Entry>, key: string): string {
    if es == [] then ""
    else if es[|es| - 1].key == key then es[|es| - 1].val
    else LastValue(es[..|es| - 1], key)
  }

  /** No entry has the key: the field stays empty. */
  lemma {:induction false} LastValueAbsent(es: seq<Entry>, key: string)
    requires forall k :: 0 <= k < |es| ==> es[k].key != key
    ensures LastValue(es, key) == ""
  {
    if es != [] {
      var init := es[..|es| - 1];
      forall k | 0 <= k < |init|
        ensures init[k].key != key
      {
        assert init[k] == es[k];
      }
      LastValueAbsent(init, key);
    }
  }

  /** The field holds the value of the last entry that has the key. */
  lemma {:induction false} LastValueIsLast(es: seq<Entry>, key: string, k: nat)
    requires k < |es| && es[k].key == key
    requires forall m :: k < m < |es| ==> es[m].key != key
    ensures LastValue(es, key) == es[k].val
  {
    if k < |es| - 1 {
      var init := es[..|es| - 1];
      forall m | k < m < |init|
        ensures init[m].key != key
      {
        assert init[m] == es[m];
      }
      assert init[k] == es[k];
      LastValueIsLast(init, key, k);
    }
  }

  /** The value of the first entry with key `key` whose value is not empty, `""`
      when there is none: a row only fills the field while it is still empty. */
  function FirstNonEmpty(es: seq<Entry>, key: string): string {
    if es == [] then ""
    else if es[0].key == key && es[0].val != "" then es[0].val
    else FirstNonEmpty(es[1..], key)
  }

  /** No entry has the key with a value: the field stays empty. */
  lemma {:induction false} FirstNonEmptyAbsent(es: seq<Entry>, key: string)
    requires forall k :: 0 <= k < |es| && es[k].key == key ==> es[k].val == ""
    ensures FirstNonEmpty(es, key) == ""
  {
    if es != [] {
      var tail := es[1..];
      forall k | 0 <= k < |tail| && tail[k].key == key
        ensures tail[k].val == ""
      {
        assert tail[k] == es[k + 1];
      }
      FirstNonEmptyAbsent(tail, key);
    }
  }

  /** The field holds the value of the first entry that has the key and a
      non-empty value. */
  lemma {:induction false} FirstNonEmptyIsFirst(es: seq<Entry>, key: string, k: nat)
    requires k < |es| && es[k].key == key && es[k].val != ""
    requires forall m :: 0 <= m < k ==> es[m].key != key || es[m].val == ""
    ensures FirstNonEmpty(es, key) == es[k].val
  {
    if k > 0 {
      var tail := es[1..];
      forall m | 0 <= m < k - 1
        ensures tail[m].key != key || tail[m].val == ""
      {
        assert tail[m] == es[m + 1];
      }
      assert tail[k - 1] == es[k];
      FirstNonEmptyIsFirst(tail, key, k - 1);
    }
  }

  lemma {:induction false} FirstNonEmptySnoc(es: seq<Entry>, e: Entry, key: string)
    ensures FirstNonEmpty(es + [e], key)
         == if FirstNonEmpty(es, key) == "" && e.key == key then e.val else FirstNonEmpty(es, key)
  {
    if es == [] {
      assert [e][1..] == [];
    } else {
      assert (es + [e])[1..] == es[1..] + [e];
      FirstNonEmptySnoc(es[1..], e, key);
    }
  }

  /** The fields read from the entries of the description section. */
  function Fields(es: seq<Entry>): ConnectorInfo {
    ConnectorInfo(
      LastValue(es, "nom"), LastValue(es, "version"), LastValue(es, "historique"),
      FirstNonEmpty(es, "création"), FirstNonEmpty(es, "modification"),
      LastValue(es, "description"), LastValue(es, "objectif"))
  }

  /** Python's `s.startswith('v')`. */
  predicate StartsWithV(s: string) {
    |s| > 0 && s[0] == 'v'
  }

  /** The history is empty and the stripped, lower-cased description starts with
      the letter `v`. */
  predicate NeedsBackfill(info: ConnectorInfo) {
    info.historique == "" && StartsWithV(Lower(Strip(info.description)))
  }

  /** An empty history is taken from the description when the stripped,
      lower-cased description starts with the letter `v`; nothing else changes. */
  function Backfill(info: ConnectorInfo): (r: ConnectorInfo)
    ensures r == info.(historique := r.historique)
    ensures NeedsBackfill(info) ==> r.historique == info.description
    ensures !NeedsBackfill(info) ==> r == info
  {
    if NeedsBackfill(info) then info.(historique := info.description) else info
  }

  /** After the backfill no field calls for it again. */
  lemma BackfillSettles(info: ConnectorInfo)
    ensures !NeedsBackfill(Backfill(info))
  {
  }

  /** Backfilling twice is backfilling once. */
  lemma BackfillIdempotent(info: ConnectorInfo)
    ensures Backfill(Backfill(info)) == Backfill(info)
  {
  }

  /** `parse_connector_info`, as a value. */
  function ConnectorInfoOf(sections: seq<Section>): (r: ConnectorInfo)
    ensures !NeedsBackfill(r)
    ensures DescriptionSection(sections).None? ==> r == NoInfo
  {
    var read := match DescriptionSection(sections)
      case None => NoInfo
      case Some(d) => Fields(Entries(RowsOf(d.content)));
    BackfillSettles(read);
    NoInfoBackfilled();
    Backfill(read)
  }

  /** The empty dictionary is left as it is by the backfill. */
  lemma NoInfoBackfilled()
    ensures Backfill(NoInfo) == NoInfo
  {
  }

  /** Reading one more row: the body of the row loop of `parse_connector_info`. */
  lemma FieldsSnoc(es: seq<Entry>, e: Entry)
    ensures Fields(es + [e]) == Fields(es).(
      nom := if e.key == "nom" then e.val else Fields(es).nom,
      version := if e.key == "version" then e.val else Fields(es).version,
      historique := if e.key == "historique" then e.val else Fields(es).historique,
      creation := if e.key == "création" && Fields(es).creation == "" then e.val else Fields(es).creation,
      modification := if e.key == "modification" && Fields(es).modification == "" then e.val else Fields(es).modification,
      description := if e.key == "description" then e.val else Fields(es).description,
      objectif := if e.key == "objectif" then e.val else Fields(es).objectif)
  {
    assert (es + [e])[..|es|] == es;
    FirstNonEmptySnoc(es, e, "création");
    FirstNonEmptySnoc(es, e, "modification");
  }

  /** One pass of the row loop of `parse_connector_info`: a row of two cells
      overwrites the field its key names (`création` and `modification` only while
      still empty); any other row changes nothing. */
  method ReadRow(info: ConnectorInfo, ghost es: seq<Entry>, cols: Row) returns (next: ConnectorInfo)
    requires info == Fields(es)
    ensures next == Fields(es + if |cols| == 2 then [EntryOf(cols)] else [])
  {
    next := info;
    if |cols| == 2 {
      var key := Lower(cols[0].text);
      var val := cols[1].text;
      FieldsSnoc(es, Entry(key, val));
      if key == "nom" {
        next := info.(nom := val);
      } else if key == "version" {
        next := info.(version := val);
      } else if key == "historique" {
        next := info.(historique := val);
      } else if key == "création" && info.creation == "" {
        next := info.(creation := val);
      } else if key == "modification" && info.modification == "" {
        next := info.(modification := val);
      } else if key == "description" {
        next := info.(description := val);
      } else if key == "objectif" {
        next := info.(objectif := val);
      }
    } else {
      assert es + [] == es;
    }
  }

  /** The inner loop of `parse_connector_info`: the rows of one content node. */
  method ReadRows(info: ConnectorInfo, ghost es: seq<Entry>, rows: seq<Row>) returns (next: ConnectorInfo)
    requires info == Fields(es)
    ensures next == Fields(es + Entries(rows))
  {
    next := info;
    ghost var seen := es;
    var k := 0;
    assert es + Entries(rows[..0]) == es;
    while k < |rows|
      invariant 0 <= k <= |rows|
      invariant seen == es + Entries(rows[..k])
      invariant next == Fields(seen)
    {
      next := ReadRow(next, seen, rows[k]);
      assert rows[..k + 1] == rows[..k] + [rows[k]];
      EntriesSnoc(rows[..k], rows[k]);
      seen := seen + if |rows[k]| == 2 then [EntryOf(rows[k])] else [];
      k := k + 1;
    }
    assert rows[..k] == rows;
  }

  /** The outer loop of `parse_connector_info`: every content node of the
      section, in document order. */
  method ReadContent(content: seq<Node>) returns (info: ConnectorInfo)
    ensures info == Fields(Entries(RowsOf(content)))
  {
    info := NoInfo;
    var c := 0;
    while c < |content|
      invariant 0 <= c <= |content|
      invariant info == Fields(Entries(RowsOf(content[..c])))
    {
      assert content[..c + 1][..c] == content[..c];
      EntriesAppend(RowsOf(content[..c]), NodeRows(content[c]));
      info := ReadRows(info, Entries(RowsOf(content[..c])), NodeRows(content[c]));
      c := c + 1;
    }
    assert content[..c] == content;
  }

  /** The last step of `parse_connector_info`: an empty history is taken from a
      description that starts with `v`. */
  method BackfillHistory(read: ConnectorInfo) returns (info: ConnectorInfo)
    ensures info == Backfill(read)
  {
    info := read;
    if NeedsBackfill(info) {
      info := info.(historique := info.description);
    }
  }

  /** `parse_connector_info`: overwrite the dictionary row by row, then backfill
      the history. */
  method ParseConnectorInfo(sections: seq<Section>) returns (info: ConnectorInfo)
    ensures info == ConnectorInfoOf(sections)
  {
    var descSection := DescriptionSection(sections);
    var read := NoInfo;
    if descSection.Some? {
      read := ReadContent(descSection.value.content);
    }
    info := BackfillHistory(read);
  }
}
