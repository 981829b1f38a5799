/** Context variables: the `context.<id>` references found in the text, the
    ContextePROD value table and the substitution of values into a path expression
    (`extract_context_usages`, `get_context_value_from_table`,
    `substitute_context_vars`). */
module Contexts {
  import opened Options
  import opened Text
  import opened Order
  import opened Html

  // ---------------------------------------------------------------------------
  // Scanning for `context\.([a-zA-Z0-9_]+)`
  // ---------------------------------------------------------------------------

  const ContextPrefix: string := "context."

  /** `p` occurs in `s` at position `i`. */
  predicate PrefixAt(s: string, i: nat, p: string) {
    i + |p| <= |s| && p <= s[i..]
  }

  /** The length of the identifier of a match of `context\.([a-zA-Z0-9_]+)` that
      starts at position `i`, or 0 when no match starts there. */
  function IdAt(s: string, i: nat): (n: nat)
    requires i <= |s|
    ensures n > 0 ==> PrefixAt(s, i, ContextPrefix) && i + 8 + n <= |s|
  {
    if PrefixAt(s, i, ContextPrefix) then RunFrom(s, i + 8, IsIdChar) else 0
  }

  /** `re.findall(r'context\.([a-zA-Z0-9_]+)', s[i..])`: the identifiers of the
      matches, left to right, each search resuming after the previous match. */
  function IdsFrom(s: string, i: nat): seq<string>
    requires i <= |s|
    decreases |s| - i
  {
    if i == |s| then []
    else
      var n := IdAt(s, i);
      if n > 0 then [s[i + 8..i + 8 + n]] + IdsFrom(s, i + 8 + n)
      else IdsFrom(s, i + 1)
  }

  function ContextIds(s: string): seq<string> {
    IdsFrom(s, 0)
  }

  /** `id` is a whole identifier written after `context.` at position `p`: not
      empty, made of `[a-zA-Z0-9_]`, and not followed by another such character. */
  predicate IdentifierAt(s: string, p: nat, id: string) {
    PrefixAt(s, p, ContextPrefix + id) && id != []
    && (forall k :: 0 <= k < |id| ==> IsIdChar(id[k]))
    && (p + 8 + |id| == |s| || !IsIdChar(s[p + 8 + |id|]))
  }

  lemma MatchIsIdentifier(s: string, i: nat)
    requires i <= |s| && IdAt(s, i) > 0
    ensures IdentifierAt(s, i, s[i + 8..i + 8 + IdAt(s, i)])
  {
    var n := IdAt(s, i);
    var id := s[i + 8..i + 8 + n];
    RunAll(s, i + 8, IsIdChar);
    assert s[i..i + 8 + n] == s[i..i + 8] + id;
    forall k | 0 <= k < |id|
      ensures IsIdChar(id[k])
    {
      assert id[k] == s[i + 8 + k];
    }
  }

  /** Every identifier found is a whole identifier written after `context.` in the
      text. */
  lemma {:induction false} IdsAreIdentifiers(s: string, i: nat)
    requires i <= |s|
    ensures forall id :: id in IdsFrom(s, i) ==> exists p :: i <= p < |s| && IdentifierAt(s, p, id)
    decreases |s| - i
  {
    if i < |s| {
      var n := IdAt(s, i);
      if n > 0 {
        IdsAreIdentifiers(s, i + 8 + n);
        MatchIsIdentifier(s, i);
      } else {
        IdsAreIdentifiers(s, i + 1);
      }
    }
  }

  // ---------------------------------------------------------------------------
  // `extract_context_usages`
  // ---------------------------------------------------------------------------

  /** `"context." + id` for every identifier found, text after text. */
  function UsagesOf(texts: seq<string>): seq<string> {
    if texts == [] then []
    else UsagesOf(texts[..|texts| - 1]) + Prefixed(ContextIds(texts[|texts| - 1]))
  }

  function Prefixed(ids: seq<string>): (r: seq<string>)
    ensures forall y :: y in r <==> exists id :: id in ids && y == ContextPrefix + id
  {
    if ids == [] then [] else [ContextPrefix + ids[0]] + Prefixed(ids[1..])
  }

  lemma {:induction false} UsagesOfMembers(texts: seq<string>, y: string)
    ensures y in UsagesOf(texts) <==>
              exists t, id :: t in texts && id in ContextIds(t) && y == ContextPrefix + id
  {
    if texts != [] {
      var init := texts[..|texts| - 1];
      UsagesOfMembers(init, y);
      assert texts == init + [texts[|texts| - 1]];
    }
  }

  /** `extract_context_usages`: every `context.<id>` of every text node, sorted and
      without repetitions. */
  function ContextUsages(doc: Document): (r: seq<string>)
    ensures StrictlySorted(r)
  {
    SortedDistinct(UsagesOf(StringsOf(doc)))
  }

  /** Each usage is `context.` followed by a whole identifier of some text node, and
      every such identifier found by the scan is listed. */
  lemma ContextUsagesMembers(doc: Document, y: string)
    ensures y in ContextUsages(doc) <==>
              exists t, id :: t in StringsOf(doc) && id in ContextIds(t) && y == ContextPrefix + id
  {
    UsagesOfMembers(StringsOf(doc), y);
  }

  lemma ContextUsagesAreIdentifiers(doc: Document, y: string)
    requires y in ContextUsages(doc)
    ensures |y| > 8 && y[..8] == ContextPrefix
    ensures exists t, p :: t in StringsOf(doc) && IdentifierAt(t, p, y[8..])
  {
    ContextUsagesMembers(doc, y);
    var t, id :| t in StringsOf(doc) && id in ContextIds(t) && y == ContextPrefix + id;
    IdsAreIdentifiers(t, 0);
    var p :| 0 <= p < |t| && IdentifierAt(t, p, id);
    assert y[8..] == id && y[..8] == ContextPrefix;
  }

  // ---------------------------------------------------------------------------
  // The ContextePROD value table
  // ---------------------------------------------------------------------------

  /** Some text node of the table contains "ContextePROD". */
  predicate MentionsProd(t: Table) {
    exists k | 0 <= k < |t.strings| :: Contains(t.strings[k], "ContextePROD")
  }

  /** Among the lower-cased `th` texts of the table are both "nom" and "valeur". */
  predicate HasNomValeur(t: Table) {
    "nom" in HeaderTexts(t) && "valeur" in HeaderTexts(t)
  }

  /** The position of the first table at or after `i` satisfying `p`. */
  function FirstTable(tables: seq<Table>, i: nat, p: Table -> bool): (r: Option<nat>)
    ensures r.Some? ==> i <= r.value < |tables| && p(tables[r.value])
    ensures forall m :: i <= m < |tables| && (r.None? || m < r.value) ==> !p(tables[m])
    decreases |tables| - i
  {
    if i >= |tables| then None
    else if p(tables[i]) then Some(i)
    else FirstTable(tables, i + 1, p)
  }

  /** The table the values are read from: the first table with "nom" and "valeur"
      headers after the first table that mentions ContextePROD. Later ContextePROD
      tables and later "nom"/"valeur" tables are never consulted. */
  function ProdTable(tables: seq<Table>): (r: Option<Table>)
    ensures r.Some? ==> HasNomValeur(r.value)
  {
    match FirstTable(tables, 0, MentionsProd)
    case None => None
    case Some(p) =>
      match FirstTable(tables, p + 1, HasNomValeur)
      case None => None
      case Some(q) => Some(tables[q])
  }

  /** `headers.index(x)`: the first position of `x`. */
  function IndexOf(xs: seq<string>, x: string): (r: nat)
    requires x in xs
    ensures r < |xs| && xs[r] == x
    ensures forall m :: 0 <= m < r ==> xs[m] != x
  {
    if xs[0] == x then 0 else 1 + IndexOf(xs[1..], x)
  }

  function Max(a: nat, b: nat): nat {
    if a < b then b else a
  }

  /** The columns of the names and of the values in a table that has both. */
  datatype Columns = Columns(nom: nat, valeur: nat)

  function ColumnsOf(t: Table): Columns
    requires HasNomValeur(t)
  {
    Columns(IndexOf(HeaderTexts(t), "nom"), IndexOf(HeaderTexts(t), "valeur"))
  }

  /** A name and its value. */
  datatype Binding = Binding(name: string, value: string)

  /** The name and the value a row holds, when it has enough `td` cells. */
  function RowBinding(row: Row, cols: Columns): Option<Binding> {
    var tds := Tds(row);
    if |tds| > Max(cols.nom, cols.valeur) then Some(Binding(tds[cols.nom].text, tds[cols.valeur].text))
    else None
  }

  predicate Binds(row: Row, cols: Columns, name: string) {
    RowBinding(row, cols).Some? && RowBinding(row, cols).value.name == name
  }

  /** The value of the first row that binds `name`. */
  function LookupRows(rows: seq<Row>, cols: Columns, name: string): Option<string> {
    if rows == [] then None
    else if Binds(rows[0], cols, name) then Some(RowBinding(rows[0], cols).value.value)
    else LookupRows(rows[1..], cols, name)
  }

  /** The first row that binds the name wins. */
  lemma {:induction false} LookupFirstRow(rows: seq<Row>, cols: Columns, name: string, k: nat)
    requires k < |rows| && Binds(rows[k], cols, name)
    requires forall m :: 0 <= m < k ==> !Binds(rows[m], cols, name)
    ensures LookupRows(rows, cols, name) == Some(RowBinding(rows[k], cols).value.value)
  {
    if k > 0 {
      var tail := rows[1..];
      forall m | 0 <= m < k - 1
        ensures !Binds(tail[m], cols, name)
      {
        assert tail[m] == rows[m + 1];
      }
      assert tail[k - 1] == rows[k];
      LookupFirstRow(tail, cols, name, k - 1);
    }
  }

  /** No row binds the name: nothing is found. */
  lemma {:induction false} LookupNoRow(rows: seq<Row>, cols: Columns, name: string)
    requires forall m :: 0 <= m < |rows| ==> !Binds(rows[m], cols, name)
    ensures LookupRows(rows, cols, name) == None
  {
    if rows != [] {
      var tail := rows[1..];
      forall m | 0 <= m < |tail|
        ensures !Binds(tail[m], cols, name)
      {
        assert tail[m] == rows[m + 1];
      }
      LookupNoRow(tail, cols, name);
    }
  }

  /** Some row binds the name exactly when the lookup finds a value. */
  lemma {:induction false} LookupRowsFound(rows: seq<Row>, cols: Columns, name: string)
    ensures LookupRows(rows, cols, name).Some? <==> exists k :: 0 <= k < |rows| && Binds(rows[k], cols, name)
  {
    if rows != [] {
      var tail := rows[1..];
      LookupRowsFound(tail, cols, name);
      assert forall k :: 0 <= k < |tail| ==> tail[k] == rows[k + 1];
      if !Binds(rows[0], cols, name) {
        forall k | 0 <= k < |rows| && Binds(rows[k], cols, name)
          ensures exists m :: 0 <= m < |tail| && Binds(tail[m], cols, name)
        {
          assert tail[k - 1] == rows[k];
        }
      }
    }
  }

  /** `get_context_value_from_table`, as a value: a value is found exactly for the
      names the production dictionary binds. */
  function ContextValue(doc: Document, name: string): (r: Option<string>)
    ensures r.Some? <==> name in ProdMap(doc)
  {
    match ProdTable(TablesOf(doc))
    case None => None
    case Some(t) =>
      LookupRowsFound(t.rows, ColumnsOf(t), name);
      BindingsOfDomain(t.rows, ColumnsOf(t), name);
      LookupRows(t.rows, ColumnsOf(t), name)
  }

  /** The table search shared by `get_context_value_from_table` and
      `substitute_context_vars`: two nested scans, each stopping at its first hit. */
  method FindProdTable(tables: seq<Table>) returns (r: Option<Table>)
    ensures r == ProdTable(tables)
  {
    var idx := 0;
    while idx < |tables|
      invariant 0 <= idx <= |tables|
      invariant FirstTable(tables, 0, MentionsProd) == FirstTable(tables, idx, MentionsProd)
    {
      if MentionsProd(tables[idx]) {
        var j := idx + 1;
        while j < |tables|
          invariant idx + 1 <= j <= |tables|
          invariant FirstTable(tables, idx + 1, HasNomValeur) == FirstTable(tables, j, HasNomValeur)
        {
          var headers := HeaderTexts(tables[j]);
          if "nom" in headers && "valeur" in headers {
            return Some(tables[j]);
          }
          j := j + 1;
        }
        return None;
      }
      idx := idx + 1;
    }
    return None;
  }

  /** The row scan of `get_context_value_from_table`: return at the first row whose
      name cell equals the name. */
  method LookupValue(rows: seq<Row>, cols: Columns, contextName: string) returns (r: Option<string>)
    ensures r == LookupRows(rows, cols, contextName)
  {
    var k := 0;
    while k < |rows|
      invariant 0 <= k <= |rows|
      invariant LookupRows(rows, cols, contextName) == LookupRows(rows[k..], cols, contextName)
    {
      var tds := Tds(rows[k]);
      if |tds| > Max(cols.nom, cols.valeur) {
        var nom := tds[cols.nom].text;
        var valeur := tds[cols.valeur].text;
        if nom == contextName {
          return Some(valeur);
        }
      }
      assert rows[k..][1..] == rows[k + 1..];
      k := k + 1;
    }
    return None;
  }

  /** `get_context_value_from_table`. */
  method GetContextValueFromTable(doc: Document, contextName: string) returns (r: Option<string>)
    ensures r == ContextValue(doc, contextName)
  {
    var table := FindProdTable(TablesOf(doc));
    if table.None? {
      return None;
    }
    var headers := HeaderTexts(table.value);
    var cols := Columns(IndexOf(headers, "nom"), IndexOf(headers, "valeur"));
    r := LookupValue(table.value.rows, cols, contextName);
  }

  // ---------------------------------------------------------------------------
  // `substitute_context_vars`
  // ---------------------------------------------------------------------------

  /** The `context_prod` dictionary: every row that has enough cells binds its
      name, a later row overwriting an earlier one. */
  function BindingsOf(rows: seq<Row>, cols: Columns): map<string, string> {
    if rows == [] then map[]
    else
      var m := BindingsOf(rows[..|rows| - 1], cols);
      var b := RowBinding(rows[|rows| - 1], cols);
      if b.Some? then m[b.value.name := b.value.value] else m
  }

  /** A name is bound exactly when some row binds it. */
  lemma {:induction false} BindingsOfDomain(rows: seq<Row>, cols: Columns, name: string)
    ensures name in BindingsOf(rows, cols) <==> exists k :: 0 <= k < |rows| && Binds(rows[k], cols, name)
  {
    if rows != [] {
      var init := rows[..|rows| - 1];
      BindingsOfDomain(init, cols, name);
      assert forall k :: 0 <= k < |init| ==> init[k] == rows[k];
    }
  }

  /** The last row that binds a name gives its value. */
  lemma {:induction false} BindingsOfLastRow(rows: seq<Row>, cols: Columns, name: string, k: nat)
    requires k < |rows| && Binds(rows[k], cols, name)
    requires forall m :: k < m < |rows| ==> !Binds(rows[m], cols, name)
    ensures name in BindingsOf(rows, cols)
    ensures BindingsOf(rows, cols)[name] == RowBinding(rows[k], cols).value.value
  {
    if k < |rows| - 1 {
      var init := rows[..|rows| - 1];
      forall m | k < m < |init|
        ensures !Binds(init[m], cols, name)
      {
        assert init[m] == rows[m];
      }
      assert init[k] == rows[k];
      BindingsOfLastRow(init, cols, name, k);
    }
  }

  /** The values `substitute_context_vars` substitutes. */
  function ProdMap(doc: Document): map<string, string> {
    match ProdTable(TablesOf(doc))
    case None => map[]
    case Some(t) => BindingsOf(t.rows, ColumnsOf(t))
  }

  /** When a single row binds a name, the dictionary and the lookup of
      `get_context_value_from_table` agree on its value. */
  lemma ProdMapAgreesWithLookup(doc: Document, name: string, k: nat)
    requires ProdTable(TablesOf(doc)).Some?
    requires k < |ProdTable(TablesOf(doc)).value.rows|
    requires Binds(ProdTable(TablesOf(doc)).value.rows[k], ColumnsOf(ProdTable(TablesOf(doc)).value), name)
    requires forall m :: 0 <= m < |ProdTable(TablesOf(doc)).value.rows| && m != k ==>
               !Binds(ProdTable(TablesOf(doc)).value.rows[m], ColumnsOf(ProdTable(TablesOf(doc)).value), name)
    ensures name in ProdMap(doc) && ContextValue(doc, name) == Some(ProdMap(doc)[name])
  {
    var t := ProdTable(TablesOf(doc)).value;
    LookupFirstRow(t.rows, ColumnsOf(t), name, k);
    BindingsOfLastRow(t.rows, ColumnsOf(t), name, k);
  }

  /** The loop of `substitute_context_vars` over the identifiers found: each one
      bound in the dictionary has every occurrence of `context.<id>` replaced by its
      value, in turn, in the text the previous replacements left. */
  function ReplaceEach(expr: string, ids: seq<string>, prod: map<string, string>): string
    decreases |ids|
  {
    if ids == [] then expr
    else
      var next := if ids[0] in prod then ReplaceAll(expr, ContextPrefix + ids[0], prod[ids[0]]) else expr;
      ReplaceEach(next, ids[1..], prod)
  }

  predicate IsQuoteOrPlus(c: char) {
    c == '+' || c == '"' || c == '\''
  }

  /** `.replace('+', '').replace('"', '').replace("'", '').strip()` and then
      `re.sub(r'\s+', '', ...)`. */
  function Cleanup(expr: string): (r: string)
    ensures forall i :: 0 <= i < |r| ==> !IsQuoteOrPlus(r[i]) && !IsSpace(r[i])
  {
    var e := Drop(expr, IsQuoteOrPlus);
    var r := Drop(Strip(e), IsSpace);
    StripKeepsChars(e);
    DropKeepsChars(Strip(e), IsSpace);
    r
  }

  /** `substitute_context_vars` as written: the result holds no quote, `+` or
      whitespace. */
  function SubstituteAsWritten(expr: string, prod: map<string, string>): (r: string)
    ensures forall i :: 0 <= i < |r| ==> !IsQuoteOrPlus(r[i]) && !IsSpace(r[i])
  {
    Cleanup(ReplaceEach(expr, ContextIds(expr), prod))
  }

  /** `substitute_context_vars` as evidently intended: every match of
      `context\.([a-zA-Z0-9_]+)` whose identifier is bound is replaced by its value,
      and only that match. */
  function Substitute(expr: string, prod: map<string, string>): (r: string)
    ensures forall i :: 0 <= i < |r| ==> !IsQuoteOrPlus(r[i]) && !IsSpace(r[i])
  {
    Cleanup(SubstituteFrom(expr, 0, prod))
  }

  function SubstituteFrom(s: string, i: nat, prod: map<string, string>): string
    requires i <= |s|
    decreases |s| - i
  {
    if i == |s| then []
    else
      var n := IdAt(s, i);
      if n > 0 then
        var id := s[i + 8..i + 8 + n];
        (if id in prod then prod[id] else s[i..i + 8 + n]) + SubstituteFrom(s, i + 8 + n, prod)
      else [s[i]] + SubstituteFrom(s, i + 1, prod)
  }

  lemma IdsFromMatch(s: string, i: nat)
    requires i < |s| && IdAt(s, i) > 0
    ensures IdsFrom(s, i) == [s[i + 8..i + 8 + IdAt(s, i)]] + IdsFrom(s, i + 8 + IdAt(s, i))
  {
  }

  lemma SubstituteFromMatch(s: string, i: nat, prod: map<string, string>)
    requires i < |s| && IdAt(s, i) > 0 && s[i + 8..i + 8 + IdAt(s, i)] !in prod
    ensures SubstituteFrom(s, i, prod) == s[i..i + 8 + IdAt(s, i)] + SubstituteFrom(s, i + 8 + IdAt(s, i), prod)
  {
  }

  lemma SubstituteFromNoMatch(s: string, i: nat, prod: map<string, string>)
    requires i < |s| && IdAt(s, i) == 0
    ensures IdsFrom(s, i) == IdsFrom(s, i + 1)
    ensures SubstituteFrom(s, i, prod) == [s[i]] + SubstituteFrom(s, i + 1, prod)
  {
  }

  /** None of the identifiers is bound. */
  predicate NoneBound(ids: seq<string>, prod: map<string, string>) {
    forall k :: 0 <= k < |ids| ==> ids[k] !in prod
  }

  lemma NoneBoundCons(id: string, ids: seq<string>, prod: map<string, string>)
    requires NoneBound([id] + ids, prod)
    ensures id !in prod && NoneBound(ids, prod)
  {
    assert ([id] + ids)[0] == id;
    forall k | 0 <= k < |ids|
      ensures ids[k] !in prod
    {
      assert ([id] + ids)[k + 1] == ids[k];
    }
  }

  /** A text none of whose identifiers is bound comes through the replacement
      unchanged: an unbound `context.<id>` survives as written. */
  lemma {:induction false} SubstituteFromUnbound(s: string, i: nat, prod: map<string, string>)
    requires i <= |s| && NoneBound(IdsFrom(s, i), prod)
    ensures SubstituteFrom(s, i, prod) == s[i..]
    decreases |s| - i, 1
  {
    if i < |s| {
      if IdAt(s, i) > 0 {
        UnboundMatch(s, i, prod);
      } else {
        UnboundChar(s, i, prod);
      }
    }
  }

  /** Replacing identifiers none of which is bound changes nothing. */
  lemma {:induction false} ReplaceEachUnbound(expr: string, ids: seq<string>, prod: map<string, string>)
    requires NoneBound(ids, prod)
    ensures ReplaceEach(expr, ids, prod) == expr
    decreases |ids|
  {
    if ids != [] {
      assert ids == [ids[0]] + ids[1..];
      NoneBoundCons(ids[0], ids[1..], prod);
      ReplaceEachUnbound(expr, ids[1..], prod);
    }
  }

  /** When no identifier of the text is bound, the function as written and the
      corrected one agree: both only clean the text up. */
  lemma AsWrittenAgreesWhenUnbound(expr: string, prod: map<string, string>)
    requires NoneBound(ContextIds(expr), prod)
    ensures SubstituteAsWritten(expr, prod) == Cleanup(expr)
    ensures Substitute(expr, prod) == Cleanup(expr)
  {
    ReplaceEachUnbound(expr, ContextIds(expr), prod);
    SubstituteFromUnbound(expr, 0, prod);
  }

  lemma {:induction false} UnboundMatch(s: string, i: nat, prod: map<string, string>)
    requires i < |s| && IdAt(s, i) > 0 && NoneBound(IdsFrom(s, i), prod)
    ensures SubstituteFrom(s, i, prod) == s[i..]
    decreases |s| - i, 0
  {
    var j := i + 8 + IdAt(s, i);
    IdsFromMatch(s, i);
    NoneBoundCons(s[i + 8..j], IdsFrom(s, j), prod);
    SubstituteFromMatch(s, i, prod);
    SubstituteFromUnbound(s, j, prod);
    SplitAt(s, i, j);
    var head, rest := s[i..j], SubstituteFrom(s, j, prod);
    assert SubstituteFrom(s, i, prod) == head + rest;
  }

  lemma {:induction false} UnboundChar(s: string, i: nat, prod: map<string, string>)
    requires i < |s| && IdAt(s, i) == 0 && NoneBound(IdsFrom(s, i), prod)
    ensures SubstituteFrom(s, i, prod) == s[i..]
    decreases |s| - i, 0
  {
    SubstituteFromNoMatch(s, i, prod);
    SubstituteFromUnbound(s, i + 1, prod);
    SplitAt(s, i, i + 1);
  }

  /** `substitute_context_vars`: build the dictionary, replace, clean up. */
  method SubstituteContextVars(expr: string, doc: Document) returns (r: string)
    ensures r == SubstituteAsWritten(expr, ProdMap(doc))
  {
    var contextProd := BuildProdMap(doc);
    var matches := ContextIds(expr);
    var e := expr;
    var k := 0;
    while k < |matches|
      invariant 0 <= k <= |matches|
      invariant ReplaceEach(e, matches[k..], contextProd) == ReplaceEach(expr, matches, contextProd)
    {
      var v := matches[k];
      if v in contextProd {
        e := ReplaceAll(e, ContextPrefix + v, contextProd[v]);
      }
      assert matches[k..][1..] == matches[k + 1..];
      k := k + 1;
    }
    r := Cleanup(e);
  }

  /** The first half of `substitute_context_vars`: fill the dictionary row by row. */
  method BuildProdMap(doc: Document) returns (contextProd: map<string, string>)
    ensures contextProd == ProdMap(doc)
  {
    contextProd := map[];
    var table := FindProdTable(TablesOf(doc));
    if table.Some? {
      var headers := HeaderTexts(table.value);
      var cols := Columns(IndexOf(headers, "nom"), IndexOf(headers, "valeur"));
      var rows := table.value.rows;
      var k := 0;
      while k < |rows|
        invariant 0 <= k <= |rows|
        invariant contextProd == BindingsOf(rows[..k], cols)
      {
        var tds := Tds(rows[k]);
        if |tds| > Max(cols.nom, cols.valeur) {
          var nomVar := tds[cols.nom].text;
          var valeurVar := tds[cols.valeur].text;
          contextProd := contextProd[nomVar := valeurVar];
        }
        assert rows[..k + 1][..k] == rows[..k];
        k := k + 1;
      }
      assert rows[..k] == rows;
    }
  }

  /** Characters `Cleanup` keeps. */
  predicate Clean(s: string) {
    forall i :: 0 <= i < |s| ==> !IsQuoteOrPlus(s[i]) && !IsSpace(s[i])
  }

  /** Dropping the `+` between two clean halves joins them. */
  lemma DropPlus(a: string, b: string)
    requires Clean(a) && Clean(b)
    ensures Drop(a + "+" + b, IsQuoteOrPlus) == a + b
  {
    DropAppend(a + "+", b, IsQuoteOrPlus);
    DropAppend(a, "+", IsQuoteOrPlus);
    DropNothing(a, IsQuoteOrPlus);
    DropNothing(b, IsQuoteOrPlus);
    DropStep("+", IsQuoteOrPlus);
  }

  /** `Cleanup` leaves clean text as it is. */
  lemma CleanupOfClean(e: string)
    requires Clean(e)
    ensures Cleanup(e) == e
  {
    DropNothing(e, IsQuoteOrPlus);
    assert TrimLeft(e) == e;
    assert TrimRight(e) == e;
    DropNothing(e, IsSpace);
  }

  /** Cleaning `a+b` joins the two clean halves. */
  lemma CleanupJoins(a: string, b: string)
    requires Clean(a) && Clean(b)
    ensures Cleanup(a + "+" + b) == a + b
  {
    DropPlus(a, b);
    forall i | 0 <= i < |a + b|
      ensures !IsQuoteOrPlus((a + b)[i]) && !IsSpace((a + b)[i])
    {
      if i >= |a| {
        assert (a + b)[i] == b[i - |a|];
      }
    }
    assert Clean(a + b);
    DropNothing(a + b, IsQuoteOrPlus);
    CleanupOfClean(a + b);
  }

  /** Where the matches of the counterexample below start and how long their
      identifiers are. */
  lemma CollisionMatches(s: string)
    requires s == ContextPrefix + "A+" + ContextPrefix + "AB"
    ensures IdAt(s, 0) == 1 && IdAt(s, 9) == 0 && IdAt(s, 10) == 2
    ensures s[8..9] == "A" && s[18..20] == "AB"
  {
    assert s[10..] == ContextPrefix + "AB";
    assert s[8] == 'A' && s[9] == '+';
    assert s[18] == 'A' && s[19] == 'B';
    assert RunFrom(s, 9, IsIdChar) == 0;
    assert RunFrom(s, 20, IsIdChar) == 0;
  }

  /** The two matches of the counterexample below. */
  lemma CollisionIds(s: string)
    requires s == ContextPrefix + "A+" + ContextPrefix + "AB"
    ensures ContextIds(s) == ["A", "AB"]
  {
    CollisionMatches(s);
    IdsFromMatch(s, 10);
    SubstituteFromNoMatch(s, 9, map[]);
    IdsFromMatch(s, 0);
  }

  lemma CollisionSubstituted(s: string, prod: map<string, string>)
    requires s == ContextPrefix + "A+" + ContextPrefix + "AB"
    requires prod == map["A" := "x", "AB" := "y"]
    ensures SubstituteFrom(s, 0, prod) == "x" + "+" + "y"
  {
    CollisionMatches(s);
    assert SubstituteFrom(s, 10, prod) == "y" + SubstituteFrom(s, 20, prod);
    SubstituteFromNoMatch(s, 9, prod);
    assert s[9] == '+';
    assert SubstituteFrom(s, 0, prod) == "x" + SubstituteFrom(s, 9, prod);
  }

  lemma CollisionReplaced(s: string, prod: map<string, string>)
    requires s == ContextPrefix + "A+" + ContextPrefix + "AB"
    requires prod == map["A" := "x", "AB" := "y"]
    ensures ReplaceEach(s, ["A", "AB"], prod) == "x" + "+" + "xB"
  {
    var pat := ContextPrefix + "A";
    var t := ContextPrefix + "AB";
    assert ReplaceAll("B", pat, "x") == "B";
    assert pat <= t && t[9..] == "B";
    assert ReplaceAll(t, pat, "x") == "xB";
    assert ("+" + t)[1..] == t;
    assert ReplaceAll("+" + t, pat, "x") == "+xB";
    assert s == pat + ("+" + t);
    assert ReplaceAll(s, pat, "x") == "x+xB";
    assert ReplaceAll("x+xB", t, "y") == "x+xB";
  }

  lemma CollisionCleaned()
    ensures Cleanup("x" + "+" + "xB") == "xxB"
    ensures Cleanup("x" + "+" + "y") == "xy"
  {
    assert Clean("x") && Clean("xB") && Clean("y");
    CleanupJoins("x", "xB");
    CleanupJoins("x", "y");
  }

  /** `context.A` is replaced inside `context.AB` as well: with both names bound,
      the second reference ends up as the first value followed by `B` instead of
      its own value. */
  lemma PrefixCollision()
    ensures SubstituteAsWritten(ContextPrefix + "A+" + ContextPrefix + "AB", map["A" := "x", "AB" := "y"]) == "xxB"
    ensures Substitute(ContextPrefix + "A+" + ContextPrefix + "AB", map["A" := "x", "AB" := "y"]) == "xy"
  {
    var s := ContextPrefix + "A+" + ContextPrefix + "AB";
    var prod := map["A" := "x", "AB" := "y"];
    CollisionIds(s);
    CollisionReplaced(s, prod);
    CollisionSubstituted(s, prod);
    CollisionCleaned();
  }
}
