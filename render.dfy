/** The markdown report: its fixed skeleton, the connector description, the
    "Liste des composants" section with its context list and history files, the
    component descriptions and the plain sections (`write_simple_summary`,
    `write_connector_description`, `write_section`, `generate_markdown`). Each
    writer is a function returning the text it writes. */
module Render {
  import opened Options
  import opened Text
  import opened Html
  import Sections
  import Components
  import History
  import Connector
  import Contexts
  import CsvHistory
  import O2T
  import Order

  // ---------------------------------------------------------------------------
  // The connector description
  // ---------------------------------------------------------------------------

  /** The bullet of one line: none for a blank line. */
  function Bullet(line: string): string {
    if IsBlank(line) then "" else "- " + line + "\n"
  }

  /** One bullet per non-blank line, in order. */
  function HistoryBullets(lines: seq<string>): string {
    if lines == [] then "" else Bullet(lines[0]) + HistoryBullets(lines[1..])
  }

  /** The bullets start with a bullet, unless there is none. */
  lemma {:induction false} HistoryBulletsStart(lines: seq<string>)
    ensures HistoryBullets(lines) == [] || "- " <= HistoryBullets(lines)
  {
    if lines != [] {
      HistoryBulletsStart(lines[1..]);
      var b := Bullet(lines[0]);
      var r := HistoryBullets(lines);
      if b != [] {
        assert b == "- " + (lines[0] + "\n");
        assert r[..2] == b[..2];
      }
    }
  }

  /** There is no bullet exactly when every line is blank. */
  lemma {:induction false} HistoryBulletsEmpty(lines: seq<string>)
    ensures HistoryBullets(lines) == [] <==> forall k :: 0 <= k < |lines| ==> IsBlank(lines[k])
  {
    if lines != [] {
      HistoryBulletsEmpty(lines[1..]);
      assert forall k :: 1 <= k < |lines| ==> lines[k] == lines[1..][k - 1];
    }
  }

  /** The bullets of two runs of lines are those of the first run, then those of
      the second. */
  lemma {:induction false} HistoryBulletsAppend(a: seq<string>, b: seq<string>)
    ensures HistoryBullets(a + b) == HistoryBullets(a) + HistoryBullets(b)
  {
    if a != [] {
      assert (a + b)[0] == a[0];
      assert (a + b)[1..] == a[1..] + b;
      HistoryBulletsAppend(a[1..], b);
    } else {
      assert a + b == b;
    }
  }

  /** Line `k` gives its own bullet, between the bullets of the lines before it and
      those of the lines after it. */
  lemma {:induction false} HistoryBulletsAt(lines: seq<string>, k: nat)
    requires k < |lines|
    ensures HistoryBullets(lines) == HistoryBullets(lines[..k]) + Bullet(lines[k]) + HistoryBullets(lines[k + 1..])
  {
    var tail := [lines[k]] + lines[k + 1..];
    assert lines == lines[..k] + tail;
    HistoryBulletsAppend(lines[..k], tail);
    assert tail[0] == lines[k] && tail[1..] == lines[k + 1..];
    assert HistoryBullets(tail) == Bullet(lines[k]) + HistoryBullets(lines[k + 1..]);
  }

  const NoHistory: string := "(Aucun historique trouvé)\n"

  /** The history part: the notice exactly when the history is blank, otherwise a
      bullet per non-blank line of the formatted history. */
  function HistoryText(historique: string): (r: string)
    ensures r == NoHistory <==> IsBlank(historique)
  {
    if IsBlank(historique) then NoHistory
    else
      var lines := Split(History.FormatHistorique(historique), '\n');
      var r := HistoryBullets(lines);
      HistoryBulletsStart(lines);
      assert r == [] || r[0] == '-';
      assert NoHistory[0] == '(';
      r
  }

  const ResumeLabel: string := "**Résumé :** "

  /** The summary line: present exactly when the objective is not blank, and then
      showing it stripped after its label. */
  function ResumeLine(objectif: string): (r: string)
    ensures r == "" <==> IsBlank(objectif)
    ensures r != "" ==> ResumeLabel <= r && EndsWith(r, Strip(objectif) + "\n\n")
  {
    if IsBlank(objectif) then ""
    else
      var tail := Strip(objectif) + "\n\n";
      PartsOfAppend(ResumeLabel, tail);
      ResumeLabel + tail
  }

  const DescriptionHeading: string := "## Description du connecteur\n\n"
  const VersionLabel: string := "**Version :** "
  const CreationLabel: string := "**Création :** "
  const ModificationLabel: string := "**Modification :** "
  const HistoryLabel: string := "**Historique :**\n\n"

  /** The version, creation and modification lines. */
  function DateLines(info: Connector.ConnectorInfo): string {
    VersionLabel + info.version + "\n\n"
    + CreationLabel + info.creation + "\n\n"
    + ModificationLabel + info.modification + "\n\n"
  }

  /** The connector description block: the heading and the name, then the summary
      line only when the objective is not blank, the version, creation and
      modification dates, and last the history, which is the bullets of the
      formatted history or the notice when the history is blank. */
  function ConnectorDescription(info: Connector.ConnectorInfo): (r: string)
    ensures DescriptionHeading <= r
    ensures DescriptionHeading + ("**Nom :** " + info.nom + "\n\n") <= r
    ensures IsBlank(info.objectif) ==> DescriptionHeading + ("**Nom :** " + info.nom + "\n\n") + VersionLabel <= r
    ensures !IsBlank(info.objectif) ==> DescriptionHeading + ("**Nom :** " + info.nom + "\n\n") + ResumeLabel <= r
    ensures DescriptionHeading + ("**Nom :** " + info.nom + "\n\n") + ResumeLine(info.objectif) + DateLines(info)
            + HistoryLabel <= r
    ensures EndsWith(r, HistoryLabel + (HistoryText(info.historique) + "\n"))
    ensures IsBlank(info.historique) ==> EndsWith(r, HistoryLabel + (NoHistory + "\n"))
  {
    var head := DescriptionHeading + ("**Nom :** " + info.nom + "\n\n");
    var resume := ResumeLine(info.objectif);
    var dates := DateLines(info);
    var tail := HistoryLabel + (HistoryText(info.historique) + "\n");
    var front := head + resume + dates;
    DateLinesStart(info);
    DescriptionFront(head, resume, dates);
    DescriptionBack(front, HistoryLabel, HistoryText(info.historique) + "\n");
    PartsOfAppend(DescriptionHeading, "**Nom :** " + info.nom + "\n\n");
    PrefixTrans(DescriptionHeading, head, front);
    PrefixTrans(DescriptionHeading, front, front + tail);
    if resume == "" then
      PrefixTrans(head + VersionLabel, front, front + tail);
      front + tail
    else
      PrefixTrans(head + ResumeLabel, front, front + tail);
      front + tail
  }

  /** The date lines open with the version label. */
  lemma DateLinesStart(info: Connector.ConnectorInfo)
    ensures VersionLabel <= DateLines(info)
  {
    var rest := info.version + "\n\n" + CreationLabel + info.creation + "\n\n"
                + ModificationLabel + info.modification + "\n\n";
    assert DateLines(info) == VersionLabel + rest;
    PartsOfAppend(VersionLabel, rest);
  }

  /** The head comes first, followed by the summary line or, without one, by the
      version label. */
  lemma DescriptionFront(head: string, resume: string, dates: string)
    requires VersionLabel <= dates
    requires resume == "" || ResumeLabel <= resume
    ensures head <= head + resume + dates
    ensures resume == "" ==> head + VersionLabel <= head + resume + dates
    ensures resume != "" ==> head + ResumeLabel <= head + resume + dates
  {
    assert head + resume + dates == head + (resume + dates);
    PartsOfAppend(head, resume + dates);
    if resume == "" {
      assert resume + dates == dates;
      PrefixAppend(head, VersionLabel, dates);
    } else {
      PartsOfAppend(resume, dates);
      PrefixTrans(ResumeLabel, resume, resume + dates);
      PrefixAppend(head, ResumeLabel, resume + dates);
    }
  }

  /** A labelled part appended after `front` ends the text, with its label right
      after `front`. */
  lemma DescriptionBack(front: string, lead: string, part: string)
    ensures front <= front + (lead + part)
    ensures front + lead <= front + (lead + part)
    ensures EndsWith(front + (lead + part), lead + part)
  {
    PartsOfAppend(front, lead + part);
    PartsOfAppend(lead, part);
    PrefixAppend(front, lead, lead + part);
  }

  // ---------------------------------------------------------------------------
  // The "Context Utilisé" list
  // ---------------------------------------------------------------------------

  /** A variable whose value is never shown: its lower-cased name mentions "o2t" or
      "password". */
  predicate IsSensitive(v: string) {
    Contains(Lower(v), "o2t") || Contains(Lower(v), "password")
  }

  /** The line of one variable: its value from the ContextePROD table is shown only
      when the variable is not sensitive and the value is found and not empty. */
  function ContextLine(v: string, doc: Document): string {
    var plain := "- `" + v + "`\n";
    if IsSensitive(v) then plain
    else
      match Contexts.ContextValue(doc, ReplaceAll(v, Contexts.ContextPrefix, ""))
      case Some(valeur) => if valeur != "" then "- `" + v + "` = `" + valeur + "`\n" else plain
      case None => plain
  }

  /** One line per variable, in order: nothing exactly when there is no variable. */
  function ContextLines(vars: seq<string>, doc: Document): (r: string)
    ensures r == "" <==> vars == []
    ensures vars != [] ==> "- `" <= r
  {
    if vars == [] then ""
    else
      var line := ContextLine(vars[0], doc);
      var r := line + ContextLines(vars[1..], doc);
      assert "- `" <= line;
      r
  }

  /** The lines of two runs of variables are those of the first run, then those of
      the second. */
  lemma {:induction false} ContextLinesAppend(a: seq<string>, b: seq<string>, doc: Document)
    ensures ContextLines(a + b, doc) == ContextLines(a, doc) + ContextLines(b, doc)
  {
    if a != [] {
      assert a + b == [a[0]] + (a[1..] + b);
      assert a == [a[0]] + a[1..];
      ContextLinesAppend(a[1..], b, doc);
      ContextLinesCons(a[0], a[1..] + b, doc);
      ContextLinesCons(a[0], a[1..], doc);
      Assoc(ContextLine(a[0], doc), ContextLines(a[1..], doc), ContextLines(b, doc));
    } else {
      assert a + b == b;
    }
  }

  /** The lines of a run of variables are the first variable's line, then the
      others'. */
  lemma ContextLinesCons(v: string, rest: seq<string>, doc: Document)
    ensures ContextLines([v] + rest, doc) == ContextLine(v, doc) + ContextLines(rest, doc)
  {
    assert ([v] + rest)[0] == v && ([v] + rest)[1..] == rest;
  }

  /** Variable `k` gives its own line, between the lines of the variables before it
      and those of the variables after it. */
  lemma {:induction false} ContextLinesAt(vars: seq<string>, k: nat, doc: Document)
    requires k < |vars|
    ensures ContextLines(vars, doc) == ContextLines(vars[..k], doc) + ContextLine(vars[k], doc) + ContextLines(vars[k + 1..], doc)
  {
    var tail := [vars[k]] + vars[k + 1..];
    assert vars == vars[..k] + tail;
    ContextLinesAppend(vars[..k], tail, doc);
    ContextLinesCons(vars[k], vars[k + 1..], doc);
  }

  const ContextHeading: string := "## Context Utilisé\n\n"
  const NoContext: string := "_No context parameters used._\n"

  /** The list of the context variables used, or the notice when none is. */
  function ContextBlock(doc: Document): (r: string)
    ensures ContextHeading <= r
    ensures r == ContextHeading + NoContext <==> Contexts.ContextUsages(doc) == []
  {
    var vars := Contexts.ContextUsages(doc);
    var r := ContextHeading + (if vars == [] then NoContext else ContextLines(vars, doc));
    assert NoContext[0] == '_';
    assert vars != [] ==> r[|ContextHeading|..] == ContextLines(vars, doc);
    r
  }

  /** The name looked up for a variable found in the text is its identifier:
      `var.replace('context.', '')` removes exactly the leading `context.`. */
  lemma LookupName(doc: Document, v: string)
    requires v in Contexts.ContextUsages(doc)
    ensures |v| > 8
    ensures ReplaceAll(v, Contexts.ContextPrefix, "") == v[8..]
  {
    Contexts.ContextUsagesAreIdentifiers(doc, v);
    var t, p :| t in StringsOf(doc) && Contexts.IdentifierAt(t, p, v[8..]);
    var id := v[8..];
    assert Contexts.ContextPrefix[7] == '.';
    assert forall i :: 0 <= i < |id| ==> id[i] != Contexts.ContextPrefix[7];
    ReplaceAllAbsent(id, Contexts.ContextPrefix, "", 7);
    assert Contexts.ContextPrefix <= v && v[8..] == id;
  }

  /** A sensitive variable is listed without its value, whatever the tables hold. */
  lemma SensitiveNeverShown(v: string, doc: Document)
    requires IsSensitive(v)
    ensures ContextLine(v, doc) == "- `" + v + "`\n"
  {
  }

  /** In the context block the program writes, a sensitive variable's line is its
      bare name, in its place among the lines of the other variables. */
  lemma ContextBlockMasksSensitive(doc: Document, k: nat)
    requires k < |Contexts.ContextUsages(doc)| && IsSensitive(Contexts.ContextUsages(doc)[k])
    ensures var vars := Contexts.ContextUsages(doc);
            ContextBlock(doc) == ContextHeading + ContextLines(vars[..k], doc) + ("- `" + vars[k] + "`\n")
                                 + ContextLines(vars[k + 1..], doc)
  {
    var vars := Contexts.ContextUsages(doc);
    var before, after := ContextLines(vars[..k], doc), ContextLines(vars[k + 1..], doc);
    ContextLinesAt(vars, k, doc);
    SensitiveNeverShown(vars[k], doc);
    ContextBlockLines(doc);
    Regroup(ContextHeading, before, "- `" + vars[k] + "`\n", after);
  }

  /** With some variable used, the block is the heading followed by their lines. */
  lemma ContextBlockLines(doc: Document)
    requires Contexts.ContextUsages(doc) != []
    ensures ContextBlock(doc) == ContextHeading + ContextLines(Contexts.ContextUsages(doc), doc)
  {
  }

  /** A variable that is not sensitive shows the value of the first row of the
      ContextePROD value table that binds its identifier, when that value is not
      empty. */
  lemma ContextLineShowsFirstValue(doc: Document, v: string, t: Table, k: nat)
    requires v in Contexts.ContextUsages(doc) && !IsSensitive(v) && |v| > 8
    requires Contexts.ProdTable(TablesOf(doc)) == Some(t)
    requires k < |t.rows| && Contexts.Binds(t.rows[k], Contexts.ColumnsOf(t), v[8..])
    requires forall m :: 0 <= m < k ==> !Contexts.Binds(t.rows[m], Contexts.ColumnsOf(t), v[8..])
    requires Contexts.RowBinding(t.rows[k], Contexts.ColumnsOf(t)).value.value != ""
    ensures ContextLine(v, doc)
            == "- `" + v + "` = `" + Contexts.RowBinding(t.rows[k], Contexts.ColumnsOf(t)).value.value + "`\n"
  {
    LookupName(doc, v);
    Contexts.LookupFirstRow(t.rows, Contexts.ColumnsOf(t), v[8..], k);
  }

  // ---------------------------------------------------------------------------
  // The "Liste des composants" section
  // ---------------------------------------------------------------------------

  /** The table row of one component type. */
  function TypeRow(c: string): string {
    "| " + c + " |\n"
  }

  /** One table row per component type, in order. */
  function TypeRows(types: seq<string>): string {
    if types == [] then "" else TypeRow(types[0]) + TypeRows(types[1..])
  }

  /** The rows of two runs of types are those of the first run, then those of the
      second. */
  lemma {:induction false} TypeRowsAppend(a: seq<string>, b: seq<string>)
    ensures TypeRows(a + b) == TypeRows(a) + TypeRows(b)
  {
    if a != [] {
      assert (a + b)[0] == a[0];
      assert (a + b)[1..] == a[1..] + b;
      TypeRowsAppend(a[1..], b);
    } else {
      assert a + b == b;
    }
  }

  /** Type `k` gives its own row, between the rows of the types before it and those
      of the types after it. */
  lemma {:induction false} TypeRowsAt(types: seq<string>, k: nat)
    requires k < |types|
    ensures TypeRows(types) == TypeRows(types[..k]) + TypeRow(types[k]) + TypeRows(types[k + 1..])
  {
    var tail := [types[k]] + types[k + 1..];
    assert types == types[..k] + tail;
    TypeRowsAppend(types[..k], tail);
    assert tail[0] == types[k] && tail[1..] == types[k + 1..];
  }

  /** The rows of the inventory: one per component type listed under the first
      "composant" heading, in sorted order, each in its place. */
  lemma InventoryRowAt(doc: Document, k: nat)
    requires k < |Components.Inventory(doc)|
    ensures var types := Components.Inventory(doc);
            && Components.ListedComponent(doc, types[k])
            && TypeRows(types) == TypeRows(types[..k]) + TypeRow(types[k]) + TypeRows(types[k + 1..])
  {
    var types := Components.Inventory(doc);
    Components.InventoryMembers(doc, types[k]);
    TypeRowsAt(types, k);
  }

  /** Every component type listed under the first "composant" heading has a row of
      the table, and only one. */
  lemma ListedComponentRow(doc: Document, y: string) returns (k: nat)
    requires Components.ListedComponent(doc, y)
    ensures var types := Components.Inventory(doc);
            && k < |types| && types[k] == y
            && (forall m :: 0 <= m < |types| && m != k ==> types[m] != y)
            && TypeRows(types) == TypeRows(types[..k]) + TypeRow(y) + TypeRows(types[k + 1..])
  {
    var types := Components.Inventory(doc);
    Components.InventoryMembers(doc, y);
    k :| 0 <= k < |types| && types[k] == y;
    TypeRowsAt(types, k);
    assert Order.StrictlySorted(types);
  }

  const ComponentListHeading: string :=
    "## Liste des composants\n\n"
    + "### Types de composants utilisés\n\n"
    + "| Type de composant |\n"
    + "|-------------------|\n"

  /** The section replacing "Liste des composants": the inventory table, the context
      list, the history files and a rule. `absPath` stands for `os.path.abspath`.
      With no component the table is empty and the context list follows at once;
      with no history file the context list is followed by the closing rule. */
  function ComponentList(doc: Document, absPath: string -> string): (r: string)
    ensures ComponentListHeading <= r && EndsWith(r, "\n---\n\n")
    ensures r == ComponentListHeading + TypeRows(Components.Inventory(doc)) + "\n---\n\n"
                 + ContextBlock(doc) + CsvHistory.HistoryBlock(doc, absPath) + "\n---\n\n"
    ensures Components.Inventory(doc) == [] ==> ComponentListHeading + ("\n---\n\n" + ContextHeading) <= r
    ensures CsvHistory.CsvFiles(doc, absPath) == [] ==> EndsWith(r, ContextBlock(doc) + "\n---\n\n")
  {
    var rows := TypeRows(Components.Inventory(doc));
    var block := ContextBlock(doc);
    var files := CsvHistory.HistoryBlock(doc, absPath);
    ComponentListLayout(rows, block, files);
    ListRegroup(ComponentListHeading, rows, "\n---\n\n", block, files);
    ComponentListHeading + (rows + "\n---\n\n" + (block + files + "\n---\n\n"))
  }

  /** The section's parts, regrouped. */
  lemma ListRegroup(h: string, rows: string, rule: string, block: string, files: string)
    ensures h + (rows + rule + (block + files + rule)) == h + rows + rule + block + files + rule
  {
  }

  /** Where the parts of the "Liste des composants" section sit. */
  lemma ComponentListLayout(rows: string, block: string, files: string)
    requires ContextHeading <= block
    ensures var rule := "\n---\n\n";
            var r := ComponentListHeading + (rows + rule + (block + files + rule));
            && ComponentListHeading <= r && EndsWith(r, rule)
            && (rows == "" ==> ComponentListHeading + (rule + ContextHeading) <= r)
            && (files == "" ==> EndsWith(r, block + rule))
  {
    var rule := "\n---\n\n";
    var tail := block + files + rule;
    var body := rows + rule + tail;
    PartsOfAppend(ComponentListHeading, body);
    PartsOfAppend(rows + rule, tail);
    PartsOfAppend(block + files, rule);
    SuffixTrans(tail, body, ComponentListHeading + body);
    SuffixTrans(rule, tail, ComponentListHeading + body);
    if rows == "" {
      assert rows + rule == rule;
      PartsOfAppend(block, files);
      PrefixTrans(ContextHeading, block, block + files);
      PrefixTrans(ContextHeading, block + files, tail);
      PrefixAppend(rule, ContextHeading, tail);
      PrefixAppend(ComponentListHeading, rule + ContextHeading, body);
    }
    if files == "" {
      assert block + files == block;
    }
  }

  // ---------------------------------------------------------------------------
  // The "Description des composants" section
  // ---------------------------------------------------------------------------

  const NoDescription: string := "- _Description non renseignée " + "dans le fichier de configuration._\n\n"

  /** `desc.get(key, '')`. */
  function Field(desc: map<string, string>, key: string): string {
    if key in desc then desc[key] else ""
  }

  /** The entry of one component type; a missing or empty description gives the
      notice. */
  function DescriptionEntry(c: string, descriptions: map<string, map<string, string>>): (r: string)
    ensures (c !in descriptions || descriptions[c] == map[]) <==> r == "#### " + c + "\n" + NoDescription
  {
    var head := "#### " + c + "\n";
    if c in descriptions && descriptions[c] != map[] then
      var desc := descriptions[c];
      var r := head + "- **Utilité** : " + Field(desc, "utilite") + "\n" + "- **Exemple** : " + Field(desc, "exemple") + "\n\n";
      var other := head + NoDescription;
      assert r[|head| + 2] == '*';
      assert other[|head| + 2] == NoDescription[2] == '_';
      r
    else head + NoDescription
  }

  /** One entry per component type, in order. */
  function DescriptionEntries(types: seq<string>, descriptions: map<string, map<string, string>>): string {
    if types == [] then "" else DescriptionEntry(types[0], descriptions) + DescriptionEntries(types[1..], descriptions)
  }

  /** The entries of two runs of types are those of the first run, then those of
      the second. */
  lemma {:induction false} DescriptionEntriesAppend(a: seq<string>, b: seq<string>,
                                                    descriptions: map<string, map<string, string>>)
    ensures DescriptionEntries(a + b, descriptions) == DescriptionEntries(a, descriptions) + DescriptionEntries(b, descriptions)
  {
    if a != [] {
      assert (a + b)[0] == a[0];
      assert (a + b)[1..] == a[1..] + b;
      DescriptionEntriesAppend(a[1..], b, descriptions);
    } else {
      assert a + b == b;
    }
  }

  /** Type `k` gives its own entry, between the entries of the types before it and
      those of the types after it. */
  lemma {:induction false} DescriptionEntriesAt(types: seq<string>, k: nat,
                                                descriptions: map<string, map<string, string>>)
    requires k < |types|
    ensures DescriptionEntries(types, descriptions)
            == DescriptionEntries(types[..k], descriptions) + DescriptionEntry(types[k], descriptions)
               + DescriptionEntries(types[k + 1..], descriptions)
  {
    var tail := [types[k]] + types[k + 1..];
    assert types == types[..k] + tail;
    DescriptionEntriesAppend(types[..k], tail, descriptions);
    DescriptionEntriesCons(types[k], types[k + 1..], descriptions);
  }

  /** The entries of a run of types are the first type's entry, then the others'. */
  lemma DescriptionEntriesCons(c: string, rest: seq<string>, descriptions: map<string, map<string, string>>)
    ensures DescriptionEntries([c] + rest, descriptions) == DescriptionEntry(c, descriptions) + DescriptionEntries(rest, descriptions)
  {
    assert ([c] + rest)[0] == c && ([c] + rest)[1..] == rest;
  }

  const DescriptionsHeading: string :=
    "## Description des composants\n\n"
    + "### Utilité et exemples des composants\n\n"

  /** The section replacing "Description des composants": its heading, one entry
      per component type in the order given, and a rule. */
  function ComponentDescriptions(types: seq<string>, descriptions: map<string, map<string, string>>): (r: string)
    ensures "## Description des composants\n\n" <= r
  {
    var r := DescriptionsHeading + DescriptionEntries(types, descriptions) + "---\n\n";
    assert r == "## Description des composants\n\n" + ("### Utilité et exemples des composants\n\n"
                + DescriptionEntries(types, descriptions) + "---\n\n");
    PartsOfAppend("## Description des composants\n\n", r[|"## Description des composants\n\n"|..]);
    r
  }

  /** In the written section, type `k` has its entry in its place: after the
      heading and the entries of the types before it, and before those of the types
      after it and the closing rule. */
  lemma ComponentDescriptionsAt(types: seq<string>, k: nat, descriptions: map<string, map<string, string>>)
    requires k < |types|
    ensures ComponentDescriptions(types, descriptions)
            == DescriptionsHeading + DescriptionEntries(types[..k], descriptions) + DescriptionEntry(types[k], descriptions)
               + DescriptionEntries(types[k + 1..], descriptions) + "---\n\n"
  {
    DescriptionEntriesAt(types, k, descriptions);
    Regroup(DescriptionsHeading, DescriptionEntries(types[..k], descriptions), DescriptionEntry(types[k], descriptions),
            DescriptionEntries(types[k + 1..], descriptions));
  }

  // ---------------------------------------------------------------------------
  // Sections
  // ---------------------------------------------------------------------------

  /** The other sections: the text of each content node that is not blank, followed
      by an empty line. `toMarkdown` stands for `html_to_markdown`. */
  /** The section writes nothing exactly when every content node converts to blank
      text. */
  function PlainSection(content: seq<Node>, toMarkdown: Node -> string): (r: string)
    ensures r == "" <==> forall k :: 0 <= k < |content| ==> IsBlank(toMarkdown(content[k]))
  {
    if content == [] then ""
    else
      var md := toMarkdown(content[0]);
      var part := if IsBlank(md) then "" else md + "\n\n";
      var rest := PlainSection(content[1..], toMarkdown);
      BlankContentStep(content, toMarkdown);
      assert part + rest == "" <==> part == "" && rest == "";
      part + rest
  }

  /** The stripped, lower-cased title that picks the writer of a section. */
  function Key(sec: Sections.Section): string {
    Lower(Strip(sec.title))
  }

  const ListTitle: string := "liste des " + "composants"
  const DescriptionsTitle: string := "description " + "des composants"
  const ContextTitle: string := "context " + "utilisé"
  const ContextTitleAscii: string := "context " + "utilise"

  /** Every node converts to blank text exactly when the first one does and every
      later one does. */
  lemma BlankContentStep(content: seq<Node>, toMarkdown: Node -> string)
    requires content != []
    ensures (forall k :: 0 <= k < |content| ==> IsBlank(toMarkdown(content[k])))
            <==> IsBlank(toMarkdown(content[0]))
                 && forall k :: 0 <= k < |content[1..]| ==> IsBlank(toMarkdown(content[1..][k]))
  {
    assert forall k :: 1 <= k < |content| ==> content[k] == content[1..][k - 1];
  }

  /** `write_section`: the title, stripped and lower-cased, picks the writer; a
      "context utilisé" section writes nothing. */
  function WriteSection(sec: Sections.Section, doc: Document, absPath: string -> string,
                        descriptions: map<string, map<string, string>>, toMarkdown: Node -> string): (r: string)
    ensures Key(sec) == ListTitle ==> ComponentListHeading <= r && r == ComponentList(doc, absPath)
    ensures Key(sec) == ContextTitle || Key(sec) == ContextTitleAscii ==> r == ""
    ensures Key(sec) == DescriptionsTitle ==>
              "## Description des composants\n\n" <= r && r == ComponentDescriptions(Components.Inventory(doc), descriptions)
    ensures Key(sec) != ListTitle && Key(sec) != ContextTitle && Key(sec) != ContextTitleAscii && Key(sec) != DescriptionsTitle ==>
              (r == "" <==> forall k :: 0 <= k < |sec.content| ==> IsBlank(toMarkdown(sec.content[k])))
  {
    var title := Key(sec);
    if title == ListTitle then ComponentList(doc, absPath)
    else if title == ContextTitle || title == ContextTitleAscii then ""
    else if title == DescriptionsTitle then ComponentDescriptions(Components.Inventory(doc), descriptions)
    else PlainSection(sec.content, toMarkdown)
  }

  /** Lower-casing commutes with taking a slice. */
  lemma LowerSlice(s: string, a: nat, b: nat)
    requires a <= b <= |s|
    ensures Lower(s)[a..b] == Lower(s[a..b])
  {
  }

  /** A title whose stripped, lower-cased form starts with "context" contains the
      keyword "context" once lower-cased. */
  lemma StrippedPrefixInTitle(title: string)
    requires |Strip(title)| >= 7 && Lower(Strip(title))[..7] == "context"
    ensures Contains(Lower(title), "context")
  {
    var st := Strip(title);
    var a := |title| - |TrimLeft(title)|;
    StripIsSlice(title);
    LowerSlice(title, a, a + 7);
    assert title[a..a + 7] == st[..7];
    LowerSlice(st, 0, 7);
    var lt := Lower(title);
    assert lt[a..a + 7] == "context";
    assert "context" <= lt[a..];
  }

  /** A title that reads "context utilisé" once stripped and lower-cased contains
      "context", so it is ignored when the sections are extracted. */
  lemma KeptTitleNotContext(title: string)
    requires !Sections.IsContextSection(title)
    ensures Lower(Strip(title)) != ContextTitle && Lower(Strip(title)) != ContextTitleAscii
  {
    var l := Lower(Strip(title));
    if l == ContextTitle || l == ContextTitleAscii {
      assert |Strip(title)| == |l| >= 7;
      assert l[..7] == "context";
      StrippedPrefixInTitle(title);
      assert false;
    }
  }


  /** The "context utilisé" branch of `write_section` is never taken. */
  lemma ContextBranchUnreachable(doc: Document, k: nat)
    requires k < |Sections.Sections(doc)|
    ensures Lower(Strip(Sections.Sections(doc)[k].title)) != ContextTitle
    ensures Lower(Strip(Sections.Sections(doc)[k].title)) != ContextTitleAscii
  {
    Sections.SectionsQualify(doc, 0);
    KeptTitleNotContext(Sections.Sections(doc)[k].title);
  }

  // ---------------------------------------------------------------------------
  // The document
  // ---------------------------------------------------------------------------

  const Preamble: string := "# Talend Documentation\n\n> Generated automatically.\n\n---\n\n"

  const Summary: string :=
    "## Sommaire\n\n"
    + "- Description du connecteur\n"
    + "- En-tête One2Team\n"
    + "- Liste des composants\n"
    + "- Description des composants\n"
    + "\n"

  /** The titles, stripped and lower-cased, of the sections the report does not
      write: the ones the connector description and the O2T header replace, and the
      project, parameter and source-code sections. */
  const Excluded: seq<string> := [
    "description du connecteur", "en-tête one2team", "description du projet",
    "description", "résumé", "paramètres", "code source"
  ]

  predicate IsExcluded(sec: Sections.Section) {
    Lower(Strip(sec.title)) in Excluded
  }

  /** The section loop of `generate_markdown`. */
  function Body(sections: seq<Sections.Section>, doc: Document, absPath: string -> string,
                descriptions: map<string, map<string, string>>, toMarkdown: Node -> string): string
  {
    if sections == [] then ""
    else
      (if IsExcluded(sections[0]) then "" else WriteSection(sections[0], doc, absPath, descriptions, toMarkdown))
      + Body(sections[1..], doc, absPath, descriptions, toMarkdown)
  }

  /** The sections that are written, in order. */
  function Kept(sections: seq<Sections.Section>): (r: seq<Sections.Section>)
    ensures forall k :: 0 <= k < |r| ==> !IsExcluded(r[k]) && r[k] in sections
  {
    if sections == [] then []
    else (if IsExcluded(sections[0]) then [] else [sections[0]]) + Kept(sections[1..])
  }

  /** Every section, written in order. */
  function WriteAll(sections: seq<Sections.Section>, doc: Document, absPath: string -> string,
                    descriptions: map<string, map<string, string>>, toMarkdown: Node -> string): string
  {
    if sections == [] then ""
    else WriteSection(sections[0], doc, absPath, descriptions, toMarkdown)
         + WriteAll(sections[1..], doc, absPath, descriptions, toMarkdown)
  }

  /** The body is exactly the sections outside the exclusion list, written in order. */
  lemma {:induction false} BodyWritesKept(sections: seq<Sections.Section>, doc: Document, absPath: string -> string,
                                          descriptions: map<string, map<string, string>>, toMarkdown: Node -> string)
    ensures Body(sections, doc, absPath, descriptions, toMarkdown)
            == WriteAll(Kept(sections), doc, absPath, descriptions, toMarkdown)
  {
    if sections != [] {
      BodyWritesKept(sections[1..], doc, absPath, descriptions, toMarkdown);
      var rest := Kept(sections[1..]);
      if !IsExcluded(sections[0]) {
        assert Kept(sections) == [sections[0]] + rest;
        assert ([sections[0]] + rest)[1..] == rest;
      } else {
        assert Kept(sections) == rest;
      }
    }
  }

  /** `generate_markdown`. The O2T header is built from the text and the tables of
      the export it reads, `o2tContent` and `o2tTables`. The report is the preamble
      and the summary, the connector description, the O2T header (the notice exactly
      when no O2T component name occurs), the sections outside the exclusion list
      written in order, and a closing rule. */
  function GenerateMarkdown(doc: Document, absPath: string -> string,
                            descriptions: map<string, map<string, string>>, toMarkdown: Node -> string,
                            o2tContent: string, o2tTables: seq<Table>): (r: string)
    ensures Preamble + Summary + DescriptionHeading <= r
    ensures var sections := Sections.Sections(doc);
            var o2t := O2T.O2THeader(o2tContent, o2tTables);
            && (o2t == O2T.NoO2T <==> O2T.NamesFrom(o2tContent, 0) == [])
            && r == Preamble + Summary + ConnectorDescription(Connector.ConnectorInfoOf(sections)) + o2t
                    + WriteAll(Kept(sections), doc, absPath, descriptions, toMarkdown) + "\n---\n"
    ensures EndsWith(r, "\n---\n")
  {
    var sections := Sections.Sections(doc);
    var info := ConnectorDescription(Connector.ConnectorInfoOf(sections));
    var o2t := O2T.O2THeader(o2tContent, o2tTables);
    var body := Body(sections, doc, absPath, descriptions, toMarkdown);
    BodyWritesKept(sections, doc, absPath, descriptions, toMarkdown);
    ReportLayout(info, o2t, body);
    Preamble + Summary + info + o2t + body + "\n---\n"
  }

  /** Where the parts of the report sit: the connector description right after the
      preamble and the summary, and a closing rule at the end. */
  lemma ReportLayout(info: string, o2t: string, body: string)
    requires DescriptionHeading <= info
    ensures var head := Preamble + Summary;
            var r := head + info + o2t + body + "\n---\n";
            head + DescriptionHeading <= r && EndsWith(r, "\n---\n")
  {
    var head := Preamble + Summary;
    var front := head + info + o2t + body;
    PrefixAppend(head, DescriptionHeading, info);
    PartsOfAppend(head + info, o2t);
    PartsOfAppend(head + info + o2t, body);
    PartsOfAppend(front, "\n---\n");
    PrefixTrans(head + info, head + info + o2t, front);
    PrefixTrans(head + DescriptionHeading, head + info, front);
    PrefixTrans(head + DescriptionHeading, front, front + "\n---\n");
  }
}
