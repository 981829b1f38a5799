/** The One2Team header: the `tO2TInput_<n>` and `tO2TOutput_<n>` components named
    anywhere in the export, each with the parameters of its own component table
    (`write_o2t_header`, from the point where the export has been read). */
module O2T {
  import opened Options
  import opened Text
  import opened Order
  import opened Html
  import opened Contexts

  const InputPrefix: string := "tO2TInput_"
  const OutputPrefix: string := "tO2TOutput_"

  /** The length of the match of `p\d+` that starts at `i`, or 0 when none starts
      there. */
  function PrefixRun(s: string, i: nat, p: string): (n: nat)
    requires i <= |s|
    ensures i + n <= |s|
  {
    if PrefixAt(s, i, p) && RunFrom(s, i + |p|, IsDigit) > 0 then |p| + RunFrom(s, i + |p|, IsDigit) else 0
  }

  /** The length of the match of `tO2T(?:Input|Output)_\d+` that starts at `i`, or
      0 when none starts there. */
  function NameAt(s: string, i: nat): (n: nat)
    requires i <= |s|
    ensures i + n <= |s|
  {
    if PrefixRun(s, i, InputPrefix) > 0 then PrefixRun(s, i, InputPrefix) else PrefixRun(s, i, OutputPrefix)
  }

  /** `re.findall(r"tO2T(?:Input|Output)_\d+", s[i..])`: the matches, left to right,
      each search resuming after the previous match. */
  function NamesFrom(s: string, i: nat): seq<string>
    requires i <= |s|
    decreases |s| - i
  {
    if i == |s| then []
    else
      var n := NameAt(s, i);
      if n > 0 then [s[i..i + n]] + NamesFrom(s, i + n) else NamesFrom(s, i + 1)
  }

  /** `y` is `p` followed by a non-empty run of digits. */
  predicate NameWith(y: string, p: string) {
    |y| > |p| && y[..|p|] == p && forall k :: |p| <= k < |y| ==> IsDigit(y[k])
  }

  /** `y` is one of the two prefixes followed by a non-empty run of digits. */
  predicate IsO2TName(y: string) {
    NameWith(y, InputPrefix) || NameWith(y, OutputPrefix)
  }

  /** `y` occurs in `s` at `p` and the digits are not followed by another digit. */
  predicate WholeNameAt(s: string, p: nat, y: string) {
    p + |y| <= |s| && s[p..p + |y|] == y && (p + |y| == |s| || !IsDigit(s[p + |y|]))
  }

  /** A prefix followed by a run of digits, cut where the run stops, is a whole
      name made of that prefix and digits. */
  lemma PrefixRunIsName(s: string, i: nat, p: string)
    requires i <= |s| && PrefixRun(s, i, p) > 0
    ensures NameWith(s[i..i + PrefixRun(s, i, p)], p) && WholeNameAt(s, i, s[i..i + PrefixRun(s, i, p)])
  {
    var e := i + PrefixRun(s, i, p);
    var y := s[i..e];
    RunAll(s, i + |p|, IsDigit);
    assert y[..|p|] == s[i..i + |p|] == p;
    assert forall k :: |p| <= k < |y| ==> y[k] == s[i + k];
  }

  /** A match is a whole O2T name of the text. */
  lemma MatchIsName(s: string, i: nat)
    requires i < |s| && NameAt(s, i) > 0
    ensures IsO2TName(s[i..i + NameAt(s, i)]) && WholeNameAt(s, i, s[i..i + NameAt(s, i)])
  {
    if PrefixRun(s, i, InputPrefix) > 0 {
      PrefixRunIsName(s, i, InputPrefix);
    } else {
      PrefixRunIsName(s, i, OutputPrefix);
    }
  }

  /** A name `findall` returns is the match at the current position (`here`) or a
      name returned by the search resumed at `j`, after that position. */
  lemma NamesFromStep(s: string, i: nat, y: string) returns (here: bool, j: nat)
    requires i <= |s| && y in NamesFrom(s, i)
    ensures i < |s| && i < j <= |s|
    ensures here ==> NameAt(s, i) > 0 && y == s[i..i + NameAt(s, i)]
    ensures !here ==> y in NamesFrom(s, j)
  {
    NamesFromInside(s, i, y);
    if NameAt(s, i) > 0 {
      here, j := NamesFromHitStep(s, i, y);
    } else {
      NamesFromMiss(s, i);
      here, j := false, i + 1;
    }
  }

  /** `findall` returns nothing from the end of the text. */
  lemma NamesFromInside(s: string, i: nat, y: string)
    requires i <= |s| && y in NamesFrom(s, i)
    ensures i < |s|
  {
  }

  /** The step where a name matches: either it is the name returned, or the search
      resumed after the match returns it. */
  lemma NamesFromHitStep(s: string, i: nat, y: string) returns (here: bool, j: nat)
    requires i < |s| && NameAt(s, i) > 0 && y in NamesFrom(s, i)
    ensures j == i + NameAt(s, i)
    ensures here ==> y == s[i..i + NameAt(s, i)]
    ensures !here ==> y in NamesFrom(s, j)
  {
    var n := NameAt(s, i);
    j := i + n;
    if y == s[i..j] {
      here := true;
    } else {
      here := false;
      NamesFromRest(s, i, y, n);
    }
  }

  /** Where a name matches, `findall` returns it and resumes after it. */
  lemma NamesFromHit(s: string, i: nat, n: nat)
    requires i < |s| && n == NameAt(s, i) && n > 0
    ensures NamesFrom(s, i) == [s[i..i + n]] + NamesFrom(s, i + n)
  {
  }

  /** A name returned from a position where another name matches is returned
      by the search resumed after that match. */
  lemma NamesFromRest(s: string, i: nat, y: string, n: nat)
    requires i < |s| && n == NameAt(s, i) && n > 0 && y in NamesFrom(s, i) && y != s[i..i + n]
    ensures y in NamesFrom(s, i + n)
  {
    NamesFromHit(s, i, n);
    assert y in [s[i..i + n]] + NamesFrom(s, i + n);
  }

  /** Where no name matches, `findall` resumes at the next position. */
  lemma NamesFromMiss(s: string, i: nat)
    requires i < |s| && NameAt(s, i) == 0
    ensures NamesFrom(s, i) == NamesFrom(s, i + 1)
  {
  }


  /** Every name found is the match at some position at or after the start of
      the search. */
  lemma {:induction false} NamePosition(s: string, i: nat, y: string) returns (p: nat)
    requires i <= |s| && y in NamesFrom(s, i)
    ensures i <= p < |s| && NameAt(s, p) > 0 && y == s[p..p + NameAt(s, p)]
    decreases |s| - i
  {
    var here, j := NamesFromStep(s, i, y);
    if here {
      p := i;
    } else {
      p := NamePosition(s, j, y);
    }
  }

  /** Every name found is a whole O2T name occurring in the text, at a position `p`
      at or after the start of the search. */
  lemma NamesAreO2TNames(s: string, i: nat, y: string) returns (p: nat)
    requires i <= |s| && y in NamesFrom(s, i)
    ensures IsO2TName(y) && i <= p && WholeNameAt(s, p, y)
  {
    p := NamePosition(s, i, y);
    MatchIsName(s, p);
  }

  /** `noms_uniques` in the order `sorted` gives it. */
  function O2TNames(content: string): (r: seq<string>)
    ensures StrictlySorted(r)
  {
    SortedDistinct(NamesFrom(content, 0))
  }

  /** Every listed name is an O2T name, listed once, and every match is listed. */
  lemma O2TNamesMembers(content: string, y: string)
    ensures y in O2TNames(content) <==> y in NamesFrom(content, 0)
    ensures y in O2TNames(content) ==> IsO2TName(y)
  {
    if y in NamesFrom(content, 0) {
      var p := NamesAreO2TNames(content, 0, y);
    }
  }

  // ---------------------------------------------------------------------------
  // The parameter table of a name
  // ---------------------------------------------------------------------------

  /** A row of at least two cells whose first cell contains "Nom unique" and whose
      second cell is `nom`. */
  predicate NamesRow(row: Row, nom: string) {
    |row| >= 2 && Contains(row[0].text, "Nom unique") && row[1].text == nom
  }

  predicate NamesTable(t: Table, nom: string) {
    exists k | 0 <= k < |t.rows| :: NamesRow(t.rows[k], nom)
  }

  /** `cols[0] -> cols[1]` over the rows of at least two cells, later rows
      overriding earlier ones. */
  function Params(rows: seq<Row>): map<string, string> {
    if rows == [] then map[]
    else
      var row := rows[|rows| - 1];
      var prev := Params(rows[..|rows| - 1]);
      if |row| >= 2 then prev[row[0].text := row[1].text] else prev
  }

  /** A key is set exactly by the rows of at least two cells that carry it. */
  lemma {:induction false} ParamsDomain(rows: seq<Row>, key: string)
    ensures key in Params(rows) <==> exists k :: 0 <= k < |rows| && |rows[k]| >= 2 && rows[k][0].text == key
  {
    if rows != [] {
      var prefix := rows[..|rows| - 1];
      ParamsDomain(prefix, key);
      assert forall k :: 0 <= k < |prefix| ==> prefix[k] == rows[k];
    }
  }

  /** The last row carrying a key gives its value. */
  lemma {:induction false} ParamsLastRow(rows: seq<Row>, key: string, k: nat)
    requires k < |rows| && |rows[k]| >= 2 && rows[k][0].text == key
    requires forall m :: k < m < |rows| ==> |rows[m]| < 2 || rows[m][0].text != key
    ensures key in Params(rows) && Params(rows)[key] == rows[k][1].text
  {
    if k < |rows| - 1 {
      var prefix := rows[..|rows| - 1];
      assert prefix[k] == rows[k];
      assert forall m :: k < m < |prefix| ==> prefix[m] == rows[m];
      ParamsLastRow(prefix, key, k);
    }
  }

  /** The position of the first table at or after `i` that names `nom`. */
  function FirstNaming(tables: seq<Table>, i: nat, nom: string): (r: Option<nat>)
    ensures r.Some? ==> i <= r.value < |tables| && NamesTable(tables[r.value], nom)
    ensures forall m :: i <= m < |tables| && (r.None? || m < r.value) ==> !NamesTable(tables[m], nom)
    decreases |tables| - i
  {
    if i >= |tables| then None
    else if NamesTable(tables[i], nom) then Some(i)
    else FirstNaming(tables, i + 1, nom)
  }

  /** `param_data.get(nom, {})`: the parameters of the first table naming `nom`,
      none when no table does. */
  function ParamsFor(tables: seq<Table>, nom: string): map<string, string> {
    match FirstNaming(tables, 0, nom)
    case None => map[]
    case Some(q) => Params(tables[q].rows)
  }

  /** `params.get(key, "")`. */
  function Get(params: map<string, string>, key: string): string {
    if key in params then params[key] else ""
  }

  /** The row of the header table for one name. */
  function NameRow(nom: string, params: map<string, string>): string {
    if "tO2TInput" <= nom then
      "| " + nom + " | " + Get(params, "modèle de fiche") + " | " + Get(params, "Requête O2T") + " |\n"
    else if "tO2TOutput" <= nom then
      "| " + nom + " | " + Get(params, "Type List") + " |  |\n"
    else ""
  }

  /** Every O2T name gets a row that starts with its name: the fall-through of the
      `elif` never happens. */
  lemma NameRowOfName(nom: string, params: map<string, string>)
    requires IsO2TName(nom)
    ensures "| " + nom + " | " <= NameRow(nom, params)
  {
    if NameWith(nom, InputPrefix) {
      assert nom[..9] == InputPrefix[..9] == "tO2TInput";
      assert "tO2TInput" <= nom;
    } else {
      assert nom[..10] == OutputPrefix[..10] == "tO2TOutput";
      assert nom[4] == 'O';
      assert !("tO2TInput" <= nom);
      assert "tO2TOutput" <= nom;
    }
  }

  /** One row per name, in the order given, each with the parameters of its first
      naming table. */
  function NameRows(names: seq<string>, tables: seq<Table>): string {
    if names == [] then ""
    else NameRows(names[..|names| - 1], tables) + NameRow(names[|names| - 1], ParamsFor(tables, names[|names| - 1]))
  }

  /** A name appended to a run adds its row after the run's rows. */
  lemma NameRowsLast(init: seq<string>, last: string, tables: seq<Table>)
    ensures NameRows(init + [last], tables) == NameRows(init, tables) + NameRow(last, ParamsFor(tables, last))
  {
    var c := init + [last];
    assert c[..|c| - 1] == init;
  }

  /** The rows of two runs of names are those of the first run, then those of the
      second. */
  lemma {:induction false} NameRowsAppend(a: seq<string>, b: seq<string>, tables: seq<Table>)
    ensures NameRows(a + b, tables) == NameRows(a, tables) + NameRows(b, tables)
    decreases |b|
  {
    if b == [] {
      assert a + b == a;
    } else {
      var init := b[..|b| - 1];
      var last := b[|b| - 1];
      assert b == init + [last];
      assert a + b == (a + init) + [last];
      var row := NameRow(last, ParamsFor(tables, last));
      NameRowsAppend(a, init, tables);
      NameRowsLast(a + init, last, tables);
      NameRowsLast(init, last, tables);
      var x, y := NameRows(a, tables), NameRows(init, tables);
      assert NameRows(a + b, tables) == x + y + row;
      assert NameRows(b, tables) == y + row;
      Assoc(x, y, row);
    }
  }

  /** Name `k` gives its own row, with the parameters of its first naming table,
      between the rows of the names before it and those of the names after it. */
  lemma {:induction false} NameRowsAt(names: seq<string>, tables: seq<Table>, k: nat)
    requires k < |names|
    ensures NameRows(names, tables)
            == NameRows(names[..k], tables) + NameRow(names[k], ParamsFor(tables, names[k])) + NameRows(names[k + 1..], tables)
  {
    var one := names[..k + 1];
    assert names == one + names[k + 1..];
    NameRowsAppend(one, names[k + 1..], tables);
    assert one[..|one| - 1] == names[..k] && one[|one| - 1] == names[k];
  }

  const NoO2T: string := "_Aucun composant O2T" + " trouvé dans la documentation._\n\n---\n\n"

  const O2THeading: string :=
    "## En-tête One2Team\n\n"
    + "| Nom unique | Modèle de fiche | Requête O2T / Type List |\n"
    + "|------------|-----------------|-------------------------|\n"

  /** The header: a notice when the export names no O2T component, otherwise the
      table of the names in sorted order and a rule. */
  function O2THeader(content: string, tables: seq<Table>): (r: string)
    ensures r == NoO2T <==> NamesFrom(content, 0) == []
    ensures NamesFrom(content, 0) != [] ==> O2THeading <= r && EndsWith(r, "\n---\n\n")
    ensures NamesFrom(content, 0) != [] ==> r == O2THeading + NameRows(O2TNames(content), tables) + "\n---\n\n"
  {
    var names := O2TNames(content);
    if names == [] then NoO2T
    else
      O2THeadingStart();
      O2TLayout(O2THeading, NameRows(names, tables));
      O2THeading + NameRows(names, tables) + "\n---\n\n"
  }

  /** In the header, the `k`-th name in sorted order is an O2T name found in the
      text, and its row, which starts with the name, sits between the rows of the
      names before it and those of the names after it, with the parameters of its
      first naming table. */
  lemma O2THeaderRowAt(content: string, tables: seq<Table>, k: nat)
    requires k < |O2TNames(content)|
    ensures var names := O2TNames(content);
            var row := NameRow(names[k], ParamsFor(tables, names[k]));
            && names[k] in NamesFrom(content, 0) && IsO2TName(names[k])
            && "| " + names[k] + " | " <= row
            && O2THeader(content, tables)
               == O2THeading + NameRows(names[..k], tables) + row + NameRows(names[k + 1..], tables) + "\n---\n\n"
  {
    var names := O2TNames(content);
    O2TNamesMembers(content, names[k]);
    NameRowOfName(names[k], ParamsFor(tables, names[k]));
    NameRowsAt(names, tables, k);
    Regroup(O2THeading, NameRows(names[..k], tables), NameRow(names[k], ParamsFor(tables, names[k])),
            NameRows(names[k + 1..], tables));
  }

  /** The heading opens with `#`. */
  lemma O2THeadingStart()
    ensures O2THeading != [] && O2THeading[0] == '#'
  {
    assert O2THeading == "## En-tête One2Team\n\n" + (O2THeading[|"## En-tête One2Team\n\n"|..]);
  }

  /** A table under a heading that opens with `#` ends with a rule and is never the notice. */
  lemma O2TLayout(heading: string, rows: string)
    requires heading != [] && heading[0] == '#'
    ensures var r := heading + rows + "\n---\n\n";
            heading <= r && EndsWith(r, "\n---\n\n") && r != NoO2T
  {
    var r := heading + rows + "\n---\n\n";
    PartsOfAppend(heading + rows, "\n---\n\n");
    PartsOfAppend(heading, rows);
    PrefixTrans(heading, heading + rows, r);
    NoO2TStart();
    assert r[0] != NoO2T[0];
  }

  /** The notice opens with `_`. */
  lemma NoO2TStart()
    ensures NoO2T != [] && NoO2T[0] == '_'
  {
  }

  // ---------------------------------------------------------------------------
  // The loops of `write_o2t_header`
  // ---------------------------------------------------------------------------

  /** Whether a row of the table names `nom`, stopping at the first that does. */
  method TableNames(t: Table, nom: string) returns (found: bool)
    ensures found == NamesTable(t, nom)
  {
    found := false;
    var k := 0;
    while k < |t.rows|
      invariant 0 <= k <= |t.rows|
      invariant forall m :: 0 <= m < k ==> !NamesRow(t.rows[m], nom)
    {
      var cols := t.rows[k];
      if |cols| >= 2 && Contains(cols[0].text, "Nom unique") && nom == cols[1].text {
        found := true;
        return;
      }
      k := k + 1;
    }
  }

  /** The first table naming `nom`. */
  method FindNameTable(tables: seq<Table>, nom: string) returns (table: Option<Table>)
    ensures FirstNaming(tables, 0, nom).None? ==> table.None?
    ensures FirstNaming(tables, 0, nom).Some? ==>
              table == Some(tables[FirstNaming(tables, 0, nom).value])
  {
    table := None;
    var k := 0;
    while k < |tables|
      invariant 0 <= k <= |tables|
      invariant forall m :: 0 <= m < k ==> !NamesTable(tables[m], nom)
    {
      var found := TableNames(tables[k], nom);
      if found {
        table := Some(tables[k]);
        NoEarlierTable(tables, nom, k);
        return;
      }
      k := k + 1;
    }
    NoTable(tables, nom);
  }

  lemma NoEarlierTable(tables: seq<Table>, nom: string, k: nat)
    requires k < |tables| && NamesTable(tables[k], nom)
    requires forall m :: 0 <= m < k ==> !NamesTable(tables[m], nom)
    ensures FirstNaming(tables, 0, nom) == Some(k)
  {
    var f := FirstNaming(tables, 0, nom);
    assert f.Some?;
  }

  lemma NoTable(tables: seq<Table>, nom: string)
    requires forall m :: 0 <= m < |tables| ==> !NamesTable(tables[m], nom)
    ensures FirstNaming(tables, 0, nom).None?
  {
  }

  /** The `params` dictionary of one table. */
  method ReadParams(rows: seq<Row>) returns (params: map<string, string>)
    ensures params == Params(rows)
  {
    params := map[];
    var k := 0;
    while k < |rows|
      invariant 0 <= k <= |rows|
      invariant params == Params(rows[..k])
    {
      var cols := rows[k];
      assert rows[..k + 1][..k] == rows[..k];
      if |cols| >= 2 {
        var cle := cols[0].text;
        var val := cols[1].text;
        params := params[cle := val];
      }
      k := k + 1;
    }
    assert rows[..k] == rows;
  }

  /** `noms_uniques` and `param_data`: every name matched, and the parameters of each
      name that some table names. */
  method CollectO2T(content: string, tables: seq<Table>)
    returns (nomsUniques: set<string>, paramData: map<string, map<string, string>>)
    ensures forall y :: y in nomsUniques <==> y in NamesFrom(content, 0)
    ensures forall y :: y in paramData ==> y in nomsUniques
    ensures forall y :: y in nomsUniques ==>
              (if y in paramData then paramData[y] else map[]) == ParamsFor(tables, y)
  {
    var matches := NamesFrom(content, 0);
    nomsUniques := {};
    var k := 0;
    while k < |matches|
      invariant 0 <= k <= |matches|
      invariant forall y :: y in nomsUniques <==> y in matches[..k]
    {
      nomsUniques := nomsUniques + {matches[k]};
      assert matches[..k + 1] == matches[..k] + [matches[k]];
      k := k + 1;
    }
    assert matches[..k] == matches;
    paramData := map[];
    var rest := nomsUniques;
    while rest != {}
      invariant rest <= nomsUniques
      invariant forall y :: y in paramData ==> y in nomsUniques && y !in rest
      invariant forall y :: y in nomsUniques && y !in rest ==>
                  (if y in paramData then paramData[y] else map[]) == ParamsFor(tables, y)
      decreases |rest|
    {
      var nom :| nom in rest;
      var table := FindNameTable(tables, nom);
      if table.Some? {
        var params := ReadParams(table.value.rows);
        paramData := paramData[nom := params];
      }
      rest := rest - {nom};
    }
  }

  /** A sorted listing of the set of matches is the listing of the header. */
  lemma SortedNames(names: seq<string>, nomsUniques: set<string>, content: string)
    requires StrictlySorted(names)
    requires forall y :: y in names <==> y in nomsUniques
    requires forall y :: y in nomsUniques <==> y in NamesFrom(content, 0)
    ensures names == O2TNames(content)
    ensures names == [] <==> nomsUniques == {}
  {
    SortedUnique(names, O2TNames(content));
    if names != [] {
      assert names[0] in nomsUniques;
    }
  }

  /** The rows of the header, name by name in sorted order. */
  method WriteRows(names: seq<string>, tables: seq<Table>, nomsUniques: set<string>,
                   paramData: map<string, map<string, string>>) returns (rows: string)
    requires forall y :: y in names ==> y in nomsUniques
    requires forall y :: y in nomsUniques ==>
               (if y in paramData then paramData[y] else map[]) == ParamsFor(tables, y)
    ensures rows == NameRows(names, tables)
  {
    rows := "";
    var k := 0;
    while k < |names|
      invariant 0 <= k <= |names|
      invariant rows == NameRows(names[..k], tables)
    {
      var nom := names[k];
      var params := if nom in paramData then paramData[nom] else map[];
      assert names[..k + 1][..k] == names[..k];
      rows := rows + NameRow(nom, params);
      k := k + 1;
    }
    assert names[..k] == names;
  }

  /** The header as `write_o2t_header` writes it. */
  method WriteO2THeader(content: string, tables: seq<Table>) returns (out: string)
    ensures out == O2THeader(content, tables)
  {
    var nomsUniques, paramData := CollectO2T(content, tables);
    var names := SortedOfSet(nomsUniques);
    SortedNames(names, nomsUniques, content);
    if nomsUniques == {} {
      return NoO2T;
    }
    var rows := WriteRows(names, tables, nomsUniques, paramData);
    out := O2THeading + rows + "\n---\n\n";
  }
}
