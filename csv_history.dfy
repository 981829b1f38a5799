/** The history CSV files that the "Liste des composants" section announces: the
    links to such files, the delimited-file components that write or read them, the
    removal of repeated entries and the "Historique" block that lists them. */
module CsvHistory {
  import opened Options
  import opened Text
  import opened Html
  import opened Contexts

  /** A history file: its base name and its path. */
  datatype CsvRef = CsvRef(name: string, path: string)

  /** One of the words "histo", "historique" or "suivi" occurs in `s`. */
  predicate MentionsHistory(s: string) {
    Contains(s, "histo") || Contains(s, "historique") || Contains(s, "suivi")
  }

  /** `link.get('href') or link.get('data-filepath') or ''`. */
  function LinkTarget(l: Link): string {
    if l.href != "" then l.href else l.dataFilepath
  }

  /** A link to a `.csv` file whose target or text mentions history. */
  predicate IsHistoryLink(l: Link) {
    var target := LinkTarget(l);
    target != "" && EndsWith(Lower(target), ".csv")
    && (MentionsHistory(Lower(target)) || MentionsHistory(Lower(l.text)))
  }

  /** The entry of a history link; `absPath` stands for `os.path.abspath`. */
  function LinkRef(l: Link, absPath: string -> string): CsvRef {
    CsvRef(Basename(LinkTarget(l)), absPath(LinkTarget(l)))
  }

  /** The entries of the links that `keep` selects, in document order. */
  function RefsWhere(links: seq<Link>, keep: Link -> bool, absPath: string -> string): seq<CsvRef> {
    if links == [] then []
    else
      var l := links[|links| - 1];
      RefsWhere(links[..|links| - 1], keep, absPath) + (if keep(l) then [LinkRef(l, absPath)] else [])
  }

  /** The entries of the history links, in document order. */
  function LinkRefs(links: seq<Link>, absPath: string -> string): seq<CsvRef> {
    RefsWhere(links, IsHistoryLink, absPath)
  }

  /** `r` is the entry of one of the history links. */
  ghost predicate FromHistoryLink(links: seq<Link>, absPath: string -> string, r: CsvRef) {
    exists k :: 0 <= k < |links| && IsHistoryLink(links[k]) && r == LinkRef(links[k], absPath)
  }

  lemma {:induction false} RefsWhereComplete(links: seq<Link>, keep: Link -> bool, absPath: string -> string, k: nat)
    requires k < |links| && keep(links[k])
    ensures LinkRef(links[k], absPath) in RefsWhere(links, keep, absPath)
  {
    if k < |links| - 1 {
      var prefix := links[..|links| - 1];
      assert prefix[k] == links[k];
      RefsWhereComplete(prefix, keep, absPath, k);
    }
  }

  lemma {:induction false} RefsWhereSound(links: seq<Link>, keep: Link -> bool, absPath: string -> string, r: CsvRef)
    returns (k: nat)
    requires r in RefsWhere(links, keep, absPath)
    ensures k < |links| && keep(links[k]) && r == LinkRef(links[k], absPath)
  {
    var prefix := links[..|links| - 1];
    if r in RefsWhere(prefix, keep, absPath) {
      k := RefsWhereSound(prefix, keep, absPath, r);
      assert links[k] == prefix[k];
    } else {
      k := |links| - 1;
    }
  }

  /** Every history link contributes its entry. */
  lemma LinkRefsComplete(links: seq<Link>, absPath: string -> string, k: nat)
    requires k < |links| && IsHistoryLink(links[k])
    ensures LinkRef(links[k], absPath) in LinkRefs(links, absPath)
  {
    RefsWhereComplete(links, IsHistoryLink, absPath, k);
  }

  /** Every entry found among the links comes from a history link. */
  lemma LinkRefsSound(links: seq<Link>, absPath: string -> string, r: CsvRef)
    requires r in LinkRefs(links, absPath)
    ensures FromHistoryLink(links, absPath, r)
  {
    var k := RefsWhereSound(links, IsHistoryLink, absPath, r);
    assert IsHistoryLink(links[k]);
  }

  /** The second cell of the last row of at least two cells whose lower-cased first
      cell contains `key`; `""` when there is none (Python's `None`, false like `""`). */
  function LastWith(rows: seq<Row>, key: string): string {
    if rows == [] then ""
    else
      var row := rows[|rows| - 1];
      if |row| >= 2 && Contains(Lower(row[0].text), key) then row[1].text
      else LastWith(rows[..|rows| - 1], key)
  }

  predicate RowHasKey(row: Row, key: string) {
    |row| >= 2 && Contains(Lower(row[0].text), key)
  }

  /** A later row with the key overrides an earlier one. */
  lemma {:induction false} LastWithIsLast(rows: seq<Row>, key: string, k: nat)
    requires k < |rows| && RowHasKey(rows[k], key)
    requires forall m :: k < m < |rows| ==> !RowHasKey(rows[m], key)
    ensures LastWith(rows, key) == rows[k][1].text
  {
    if k < |rows| - 1 {
      var prefix := rows[..|rows| - 1];
      assert forall m :: k < m < |prefix| ==> prefix[m] == rows[m];
      LastWithIsLast(prefix, key, k);
    }
  }

  /** Without a row carrying the key, the value stays `None`. */
  lemma {:induction false} LastWithAbsent(rows: seq<Row>, key: string)
    requires forall m :: 0 <= m < |rows| ==> !RowHasKey(rows[m], key)
    ensures LastWith(rows, key) == ""
  {
    if rows != [] {
      var prefix := rows[..|rows| - 1];
      assert forall m :: 0 <= m < |prefix| ==> prefix[m] == rows[m];
      LastWithAbsent(prefix, key);
    }
  }

  /** The unique name names a `tFileOutputDelimited` or `tFileInputDelimited`. */
  predicate IsDelimitedFile(nomUnique: string) {
    Contains(Lower(nomUnique), "tfileoutputdelimited") || Contains(Lower(nomUnique), "tfileinputdelimited")
  }

  /** The file name is a `.csv` file that mentions history. */
  predicate IsHistoryFileName(nomFichier: string) {
    Contains(Lower(nomFichier), ".csv") && MentionsHistory(Lower(nomFichier))
  }

  /** The entry a component table contributes: its file name with the context
      variables substituted, when the table is a delimited-file component writing or
      reading a history CSV. */
  function TableRef(t: Table, prod: map<string, string>): (r: Option<CsvRef>)
    ensures r.Some? ==> r.value.name == Basename(r.value.path)
    ensures r.Some? ==> forall i :: 0 <= i < |r.value.path| ==> !IsQuoteOrPlus(r.value.path[i]) && !IsSpace(r.value.path[i])
  {
    var nomUnique := LastWith(t.rows, "nom unique");
    var nomFichier := LastWith(t.rows, "nom de fichier");
    if nomUnique != "" && nomFichier != "" && IsDelimitedFile(nomUnique) && IsHistoryFileName(nomFichier) then
      var chemin := SubstituteAsWritten(nomFichier, prod);
      Some(CsvRef(Basename(chemin), chemin))
    else None
  }

  /** A table contributes no entry unless its last unique name is a delimited-file
      component and its last file name a history CSV. */
  lemma TableRefRequires(t: Table, prod: map<string, string>)
    requires TableRef(t, prod).Some?
    ensures IsDelimitedFile(LastWith(t.rows, "nom unique"))
    ensures IsHistoryFileName(LastWith(t.rows, "nom de fichier"))
    ensures TableRef(t, prod).value.path == SubstituteAsWritten(LastWith(t.rows, "nom de fichier"), prod)
  {
  }

  /** The entries of the component tables, in document order. */
  function TableRefs(tables: seq<Table>, prod: map<string, string>): seq<CsvRef> {
    if tables == [] then []
    else
      var t := TableRef(tables[|tables| - 1], prod);
      TableRefs(tables[..|tables| - 1], prod) + (if t.Some? then [t.value] else [])
  }

  /** Every path found in a component table is free of `+`, quotes and whitespace. */
  lemma {:induction false} TableRefsAreClean(tables: seq<Table>, prod: map<string, string>, r: CsvRef)
    requires r in TableRefs(tables, prod)
    ensures r.name == Basename(r.path)
    ensures forall i :: 0 <= i < |r.path| ==> !IsQuoteOrPlus(r.path[i]) && !IsSpace(r.path[i])
  {
    var prefix := tables[..|tables| - 1];
    if r !in TableRefs(prefix, prod) {
      assert TableRef(tables[|tables| - 1], prod) == Some(r);
    } else {
      TableRefsAreClean(prefix, prod, r);
    }
  }

  /** `csv_files`: the link entries first, then the component-table entries. */
  function CsvFiles(doc: Document, absPath: string -> string): seq<CsvRef> {
    LinkRefs(LinksOf(doc), absPath) + TableRefs(TablesOf(doc), ProdMap(doc))
  }

  /** No two positions of `s` hold the same entry. */
  predicate Distinct(s: seq<CsvRef>) {
    forall i, j :: 0 <= i < j < |s| ==> s[i] != s[j]
  }

  /** The `seen`-set loop: an entry is kept unless an equal one was kept before. */
  function Dedup(refs: seq<CsvRef>): seq<CsvRef> {
    if refs == [] then []
    else
      var kept := Dedup(refs[..|refs| - 1]);
      var x := refs[|refs| - 1];
      if x in kept then kept else kept + [x]
  }

  /** Removing repetitions loses no entry and adds none. */
  lemma {:induction false} DedupMembers(refs: seq<CsvRef>, x: CsvRef)
    ensures x in Dedup(refs) <==> x in refs
  {
    if refs != [] {
      var prefix := refs[..|refs| - 1];
      DedupMembers(prefix, x);
      assert refs == prefix + [refs[|refs| - 1]];
    }
  }

  /** No entry is kept twice. */
  lemma {:induction false} DedupDistinct(refs: seq<CsvRef>)
    ensures Distinct(Dedup(refs))
  {
    if refs != [] {
      DedupDistinct(refs[..|refs| - 1]);
    }
  }

  /** The entries that occur in `refs` for the first time, in order: an independent
      description of what `Dedup` keeps. */
  function FirstOccurrences(refs: seq<CsvRef>): seq<CsvRef> {
    if refs == [] then []
    else
      var prefix := refs[..|refs| - 1];
      var x := refs[|refs| - 1];
      FirstOccurrences(prefix) + (if x in prefix then [] else [x])
  }

  /** `Dedup` keeps every entry at its first occurrence and in the original order. */
  lemma {:induction false} DedupKeepsFirstOccurrences(refs: seq<CsvRef>)
    ensures Dedup(refs) == FirstOccurrences(refs)
  {
    if refs != [] {
      var prefix := refs[..|refs| - 1];
      DedupKeepsFirstOccurrences(prefix);
      DedupMembers(prefix, refs[|refs| - 1]);
    }
  }

  /** A list without repetitions is left as it is. */
  lemma {:induction false} DedupOfDistinct(refs: seq<CsvRef>)
    requires Distinct(refs)
    ensures Dedup(refs) == refs
  {
    if refs != [] {
      var prefix := refs[..|refs| - 1];
      DedupOfDistinct(prefix);
      assert refs == prefix + [refs[|refs| - 1]];
    }
  }

  /** Removing repetitions twice is removing them once. */
  lemma DedupIdempotent(refs: seq<CsvRef>)
    ensures Dedup(Dedup(refs)) == Dedup(refs)
  {
    DedupDistinct(refs);
    DedupOfDistinct(Dedup(refs));
  }

  /** The values of `nom_unique` and `nom_fichier` after the row loop over one table. */
  method ScanTable(t: Table) returns (nomUnique: string, nomFichier: string)
    ensures nomUnique == LastWith(t.rows, "nom unique")
    ensures nomFichier == LastWith(t.rows, "nom de fichier")
  {
    nomUnique, nomFichier := "", "";
    var k := 0;
    while k < |t.rows|
      invariant 0 <= k <= |t.rows|
      invariant nomUnique == LastWith(t.rows[..k], "nom unique")
      invariant nomFichier == LastWith(t.rows[..k], "nom de fichier")
    {
      var cols := t.rows[k];
      assert t.rows[..k + 1][..k] == t.rows[..k];
      if |cols| >= 2 {
        var cle := Lower(cols[0].text);
        var val := cols[1].text;
        if Contains(cle, "nom unique") {
          nomUnique := val;
        }
        if Contains(cle, "nom de fichier") {
          nomFichier := val;
        }
      }
      k := k + 1;
    }
    assert t.rows[..k] == t.rows;
  }

  /** The link loop of the history search. */
  method CollectLinkRefs(links: seq<Link>, absPath: string -> string) returns (csv: seq<CsvRef>)
    ensures csv == LinkRefs(links, absPath)
  {
    csv := [];
    var k := 0;
    while k < |links|
      invariant 0 <= k <= |links|
      invariant csv == LinkRefs(links[..k], absPath)
    {
      var link := links[k];
      assert links[..k + 1][..k] == links[..k];
      var href := if link.href != "" then link.href else link.dataFilepath;
      var text := Lower(link.text);
      if href != "" && EndsWith(Lower(href), ".csv") {
        if MentionsHistory(Lower(href)) || MentionsHistory(text) {
          csv := csv + [CsvRef(Basename(href), absPath(href))];
        }
      }
      k := k + 1;
    }
    assert links[..k] == links;
  }

  /** The component-table loop of the history search. */
  method CollectTableRefs(tables: seq<Table>, prod: map<string, string>) returns (csv: seq<CsvRef>)
    ensures csv == TableRefs(tables, prod)
  {
    csv := [];
    var k := 0;
    while k < |tables|
      invariant 0 <= k <= |tables|
      invariant csv == TableRefs(tables[..k], prod)
    {
      assert tables[..k + 1][..k] == tables[..k];
      var nomUnique, nomFichier := ScanTable(tables[k]);
      if nomUnique != "" && nomFichier != "" {
        if IsDelimitedFile(nomUnique) && IsHistoryFileName(nomFichier) {
          var cheminReel := SubstituteAsWritten(nomFichier, prod);
          csv := csv + [CsvRef(Basename(cheminReel), cheminReel)];
        }
      }
      k := k + 1;
    }
    assert tables[..k] == tables;
  }

  /** `csv_files` as the history search builds it. */
  method CollectCsvFiles(doc: Document, absPath: string -> string) returns (csv: seq<CsvRef>)
    ensures csv == CsvFiles(doc, absPath)
  {
    csv := CollectLinkRefs(LinksOf(doc), absPath);
    var prod := BuildProdMap(doc);
    var fromTables := CollectTableRefs(TablesOf(doc), prod);
    csv := csv + fromTables;
  }

  /** The duplicate removal through the `seen` set. */
  method RemoveDuplicates(csv: seq<CsvRef>) returns (unique: seq<CsvRef>)
    ensures unique == Dedup(csv)
  {
    var seen: set<CsvRef> := {};
    unique := [];
    var k := 0;
    while k < |csv|
      invariant 0 <= k <= |csv|
      invariant unique == Dedup(csv[..k])
      invariant forall x :: x in seen <==> x in unique
    {
      var key := csv[k];
      assert csv[..k + 1][..k] == csv[..k];
      if key !in seen {
        seen := seen + {key};
        unique := unique + [key];
      }
      k := k + 1;
    }
    assert csv[..k] == csv;
  }

  /** The path shown for an entry: substituted again when it still mentions a
      context variable. */
  function Shown(path: string, prod: map<string, string>): string {
    if Contains(path, ContextPrefix) then SubstituteAsWritten(path, prod) else path
  }

  function RefLine(r: CsvRef, prod: map<string, string>): string {
    "- **" + r.name + "** : `" + Shown(r.path, prod) + "`\n"
  }

  function RefLines(refs: seq<CsvRef>, prod: map<string, string>): string {
    if refs == [] then "" else RefLines(refs[..|refs| - 1], prod) + RefLine(refs[|refs| - 1], prod)
  }

  /** The "Historique" block: nothing when no history file was found, otherwise one
      line per distinct entry between the heading and a rule. */
  function HistoryBlock(doc: Document, absPath: string -> string): (r: string)
    ensures CsvFiles(doc, absPath) == [] ==> r == ""
  {
    var csv := CsvFiles(doc, absPath);
    if csv == [] then ""
    else "\n## Historique\n\n" + RefLines(Dedup(csv), ProdMap(doc)) + "\n---\n\n"
  }

  /** The block lists the lines of the distinct entries, and of no others. */
  lemma HistoryBlockLists(doc: Document, absPath: string -> string)
    requires CsvFiles(doc, absPath) != []
    ensures HistoryBlock(doc, absPath)
            == "\n## Historique\n\n" + RefLines(FirstOccurrences(CsvFiles(doc, absPath)), ProdMap(doc)) + "\n---\n\n"
  {
    DedupKeepsFirstOccurrences(CsvFiles(doc, absPath));
  }
}
