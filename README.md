# Talend documentation cleaner, modelled in Dafny

`talend_doc_cleaner.py` turns the HTML documentation that Talend exports for a job
into a short markdown report. It reads the document's second-level headings as
sections and drops the ones about contexts. It builds a sorted inventory of the
component types. It reads the connector metadata from the "Description" section and
formats its version history. It finds the `context.<id>` variables used and their
values in the ContextePROD table. It lists the history CSV files that the components
read or write. It builds the One2Team (O2T) header from the `tO2TInput_<n>` and
`tO2TOutput_<n>` components. Finally it assembles the report.

This project models each of those steps. The model follows the program's own
structure:

- functions over values where the program computes;
- methods with loops and invariants where the program iterates;
- lemmas for what the program promises.

The modules are:

| module | file | what it models |
|---|---|---|
| `Text` | `text.dfy` | the Python string operations the program uses: `strip`, `lower`, `replace`, `split`, `endswith`, `in`, `os.path.basename`, and the regular-expression classes `\s`, `\d`, `[a-zA-Z0-9_]` |
| `Order` | `order.dfy` | Python's ordering of strings and `sorted(set(...))` |
| `Html` | `html.dfy` | the parsed document as the program queries it through BeautifulSoup: top-level siblings, tables, rows, cells, links, text nodes |
| `Sections` | `sections.dfy` | `is_context_section`, `extract_sections` |
| `Components` | `components.dfy` | `extract_unique_components` |
| `History` | `history.dfy` | `format_historique_versions` |
| `Connector` | `connector.dfy` | `parse_connector_info` |
| `Contexts` | `contexts.dfy` | `extract_context_usages`, `get_context_value_from_table`, `substitute_context_vars` |
| `CsvHistory` | `csv_history.dfy` | the history-CSV search and its duplicate removal in `write_section` |
| `O2T` | `o2t.dfy` | `write_o2t_header` |
| `Render` | `render.dfy` | `write_connector_description`, `write_section`, `write_simple_summary`, `generate_markdown` |

The document is a sequence of top-level sibling nodes:

- a `Heading` (an `h2`, with its stripped text and its raw text nodes);
- an `Element`, with its classes, its text nodes, its tables and its `a`/`span` links;
- a bare `TextNode`.

A table carries its text nodes and its rows. A row is its `td`/`th` cells in order,
each cell with its stripped text. Parsing HTML into this shape belongs to
BeautifulSoup, so it is not part of the model.

Where the program writes to a file, the model builds the text it writes. The report
is one string made of the parts in the order the program writes them.

Where the description of the program and its code disagree, the model follows the
code:

- The creation and modification dates keep the first row whose value is not empty. Later rows do not override them. Every other field keeps the last row's value.
- The history is backfilled from the description when the stripped, lower-cased description merely starts with `v`. It does not have to start with a full version number.
- Only names mentioning `o2t` or `password` are shown without their value in the context list. No other name is.
- The `context utilisé` branch of `write_section` can never be taken. `extract_sections` already drops every title that contains `context`. `Render.ContextBranchUnreachable` proves this.
- A history made only of `<br>` tags is not blank, so it does not get the "no history" notice. It also yields no bullet.

The context substitution has a defect, described under "## Findings". The model keeps
both versions. `Contexts.SubstituteAsWritten` follows the code as written, and the
history-CSV search uses it, as the program does. `Contexts.Substitute` is the corrected
version, and `Contexts.AsWrittenAgreesWhenUnbound` shows that the two agree whenever no
identifier of the expression is bound.

## Model

| member | source | states |
|---|---|---|
| `Text.RunFrom` | talend_doc_cleaner.py:15 | the length of the longest run of `\d`- or `\s`-characters from a position: it stays inside the text, its last character satisfies the class, and the character after it does not |
| `Text.RunAll` | talend_doc_cleaner.py:15 | every character of such a run satisfies the class |
| `Text.RunExact` | talend_doc_cleaner.py:15 | a stretch of characters of the class that ends at the end of the text or before a character outside the class is exactly the run |
| `Text.Lower` | talend_doc_cleaner.py:43 | `str.lower` keeps the length and lower-cases each character in place |
| `Text.TrimLeft` | talend_doc_cleaner.py:16 | `lstrip` returns a suffix of the text that does not start with whitespace |
| `Text.TrimLeftDropsSpaces` | talend_doc_cleaner.py:16 | `lstrip` removes only whitespace |
| `Text.TrimRight` | talend_doc_cleaner.py:16 | `rstrip` returns a prefix of the text that does not end with whitespace |
| `Text.TrimRightDropsSpaces` | talend_doc_cleaner.py:16 | `rstrip` removes only whitespace |
| `Text.Strip` | talend_doc_cleaner.py:16 | `strip` returns a text that is empty or neither starts nor ends with whitespace |
| `Text.StripKeepsChars` | talend_doc_cleaner.py:16 | every character of the stripped text comes from the text |
| `Text.StripIsSlice` | talend_doc_cleaner.py:16 | the stripped text is the contiguous slice that starts where `lstrip` stops |
| `Text.Drop` | talend_doc_cleaner.py:13 | taking out the characters of a class (`replace(c, '')`, `re.sub(r'\s+', '', ...)`) leaves none of them and never lengthens the text |
| `Text.DropKeepsChars` | talend_doc_cleaner.py:13 | what remains after taking characters out comes from the text |
| `Text.DropAppend` | talend_doc_cleaner.py:259-260 | taking characters out of a concatenation is taking them out of each part |
| `Text.DropSnoc` | talend_doc_cleaner.py:13 | taking characters out works one trailing character at a time |
| `Text.DropNothing` | talend_doc_cleaner.py:259-260 | a text without any character of the class is left as it is |
| `Text.ReplaceAllAbsent` | talend_doc_cleaner.py:298 | `replace` leaves a text unchanged when a character of the pattern never occurs in it |
| `Text.Split` | talend_doc_cleaner.py:183 | `split` on a one-character separator yields at least one piece, and no piece holds the separator |
| `Text.JoinSplit` | talend_doc_cleaner.py:183 | joining the pieces of `split` with the separator gives back the text: the pieces are the text cut at every separator, in order, with nothing lost |
| `Text.Basename` | talend_doc_cleaner.py:316 | `os.path.basename` is the suffix after the last `/`: it contains no `/`, and a `/` stands right before it whenever it is shorter than the path |
| `Order.BelowReflexive` | talend_doc_cleaner.py:88 | every string sorts at or before itself |
| `Order.BelowAntisymmetric` | talend_doc_cleaner.py:88 | two strings that each sort at or before the other are equal |
| `Order.BelowTransitive` | talend_doc_cleaner.py:88 | the string order is transitive |
| `Order.BelowTotal` | talend_doc_cleaner.py:88 | any two strings are ordered one way or the other |
| `Order.Insert` | talend_doc_cleaner.py:88 | adding one string to a strictly sorted list keeps it strictly sorted and adds exactly that string |
| `Order.InsertFront` | talend_doc_cleaner.py:88 | a string below the head of a strictly sorted list can go in front of it |
| `Order.SortedDistinct` | talend_doc_cleaner.py:88 | `sorted(set(xs))` is strictly sorted and holds exactly the elements of `xs` |
| `Order.SortedUnique` | talend_doc_cleaner.py:388 | two strictly sorted lists with the same elements are equal, so the sorted listing of a set is unique |
| `Order.SortedOfSet` | talend_doc_cleaner.py:516 | `sorted` of a set is strictly sorted and holds exactly its elements |
| `Html.Tds` | talend_doc_cleaner.py:83 | `find_all('td')` keeps exactly the data cells: every cell returned is a data cell of the row, and every data cell of the row is returned |
| `Html.TdsAppend` | talend_doc_cleaner.py:83 | the data cells come in row order: those of two consecutive stretches of cells are the first stretch's followed by the second's |
| `Sections.UnderEarlierHeading` | talend_doc_cleaner.py:52 | a section under a heading at or after one position is under a heading at or after an earlier one |
| `Sections.IsContextSection` | talend_doc_cleaner.py:35-43 | a title that contains "context" in any letter case is ignored, since "context" is one of the keywords compared lower-cased |
| `Sections.SectionsQualify` | talend_doc_cleaner.py:45-65 | no section kept has an ignored title or empty content, and each is the title and the filtered content of one of the headings |
| `Sections.CollectContent` | talend_doc_cleaner.py:56-62 | the inner sibling loop collects the siblings up to the next heading, without those with a class containing "context" |
| `Sections.ExtractSections` | talend_doc_cleaner.py:45-65 | the two nested loops build exactly the section list |
| `Sections.NextHeading` | talend_doc_cleaner.py:57-59 | the sibling loop stops at the first heading after the start, or at the end of the document |
| `Sections.WithoutContextClassPrepend` | talend_doc_cleaner.py:60-61 | the class filter keeps or drops the first node on its own, independently of the rest |
| `Sections.ContentIsSiblingsUntilNextHeading` | talend_doc_cleaner.py:56-62 | the content under a heading is exactly the siblings before the next heading, minus the context-classed ones |
| `Sections.EveryQualifyingHeadingIsKept` | talend_doc_cleaner.py:52-64 | every heading with a title that is not ignored and non-empty content gives a section |
| `Components.FirstComposantHeading` | talend_doc_cleaner.py:77-78 | finds the first heading whose lower-cased text contains "composant", and no earlier heading has it |
| `Components.ComponentCells` | talend_doc_cleaner.py:82-86 | the second `td` of each row with at least two `td`s, and nothing else |
| `Components.Inventory` | talend_doc_cleaner.py:67-88 | the inventory is strictly sorted, and empty when no heading mentions "composant" |
| `Components.TableMembers` | talend_doc_cleaner.py:82 | skipping the header row, a type is collected exactly when some later row lists it |
| `Components.ListedAtFirstHeading` | talend_doc_cleaner.py:87 | only the table after the first "composant" heading is read |
| `Components.InventoryMembers` | talend_doc_cleaner.py:67-88 | a type is in the inventory exactly when the table after the first "composant" heading lists it in the second cell of a row past the first |
| `Components.CollectTypes` | talend_doc_cleaner.py:82-86 | the row loop's set holds exactly the cells listed |
| `Components.ExtractUniqueComponents` | talend_doc_cleaner.py:67-88 | the heading loop, the row loop and `sorted` produce the inventory |
| `History.RunAgree` | talend_doc_cleaner.py:15 | a `\d+` or `\s+` run that ends inside a stretch two texts share is the same in both |
| `History.BrTagLength` | talend_doc_cleaner.py:12 | the length of a `<br\s*/?>` tag (either case) at the start of a text never exceeds the text |
| `History.BrTagLengthIsTag` | talend_doc_cleaner.py:12 | the tag measured at the start of a text is `m` characters long exactly when its first `m` characters are `<`, `b`/`B`, `r`/`R`, whitespace, an optional `/` and `>`: the scan finds the tag `<br\s*/?>` describes, and only it |
| `History.ReplaceBrTagsTag` | talend_doc_cleaner.py:12 | such a tag at the start of the text becomes one line feed, and the rest is replaced on its own |
| `History.ReplaceBrTagsChar` | talend_doc_cleaner.py:12 | a character that does not open such a tag is kept as it is, and the rest is replaced on its own |
| `History.ReplaceBrTagsPlain` | talend_doc_cleaner.py:12 | text without `<` comes through the replacement unchanged |
| `History.Cleaned` | talend_doc_cleaner.py:12-13 | after the `<br>` replacement and the removal of `\r` and `\n`, no line break is left |
| `History.CleanedTag` | talend_doc_cleaner.py:12-13 | a `<br>` tag leaves nothing in the cleaned history |
| `History.CleanedChar` | talend_doc_cleaner.py:12-13 | a character that does not open a `<br>` tag is kept, in place, unless it is a carriage return or a line feed |
| `History.CleanedPlain` | talend_doc_cleaner.py:12-13 | text without `<` keeps all its characters but carriage returns and line feeds, in order |
| `History.VersionEnd` | talend_doc_cleaner.py:15 | the end of a `v\d+\.\d+` match starts at a `v` and ends in a digit |
| `History.DateAfter` | talend_doc_cleaner.py:15 | the `\s+\d{2}/\d{2}/\d{4}` part stays in the text and ends in a digit |
| `History.VersionDateAt` | talend_doc_cleaner.py:15 | a version token starts at a `v`, ends in a digit and stays in the text |
| `History.TokenFound` | talend_doc_cleaner.py:15 | a token the scan finds is `v`, digits, a dot, digits, whitespace and a `dd/mm/yyyy` date, and its length is the length of those parts |
| `History.TokenMeasured` | talend_doc_cleaner.py:15 | text of that shape is taken whole by the scan |
| `History.VersionDateAtIsToken` | talend_doc_cleaner.py:15 | the scan finds a token at a position exactly when `v\d+\.\d+\s+\d{2}/\d{2}/\d{4}` matches there, and then measures the whole match |
| `History.VersionEndAgree` | talend_doc_cleaner.py:15 | the version part of a token depends only on the characters it covers |
| `History.DateAfterAgree` | talend_doc_cleaner.py:15 | the date part of a token depends only on the characters it covers |
| `History.VersionDateAgree` | talend_doc_cleaner.py:15 | a whole token depends only on the characters it covers |
| `History.VersionEndNoInnerV` | talend_doc_cleaner.py:15 | no `v` occurs inside the version part past its first character |
| `History.DateAfterNoV` | talend_doc_cleaner.py:15 | no `v` occurs inside the date part |
| `History.TokenNoInnerV` | talend_doc_cleaner.py:15 | no token starts strictly inside another token |
| `History.InsertBreaksKeepsChars` | talend_doc_cleaner.py:15 | the substitution adds line feeds and nothing else |
| `History.InsertBreaksDropsBack` | talend_doc_cleaner.py:15 | taking the inserted line feeds out again gives back the text |
| `History.InsertBreaksBeforeTokens` | talend_doc_cleaner.py:15 | every line feed the substitution produces stands right before a version token |
| `History.InsertBreaksAtTokens` | talend_doc_cleaner.py:15 | every version token past the start gets a line feed right before it (the two lookbehinds) |
| `History.InsertBreaksCopies` | talend_doc_cleaner.py:15 | before its first line feed, the output is the text itself |
| `History.MatchTokensAfterBreaks` | talend_doc_cleaner.py:15 | a replaced match followed by a correctly broken rest is correctly broken |
| `History.TokenAtStartComesFromText` | talend_doc_cleaner.py:15 | a token at the start of the output is a token of the text |
| `History.SuffixKeepsBreaks` | talend_doc_cleaner.py:16 | cutting leading characters keeps every token preceded by its line feed |
| `History.SuffixKeepsTokens` | talend_doc_cleaner.py:16 | cutting leading characters keeps every line feed followed by a token |
| `History.PrefixKeepsBreaks` | talend_doc_cleaner.py:16 | cutting trailing characters keeps every token preceded by its line feed |
| `History.TrimLeftKeepsTokens` | talend_doc_cleaner.py:16 | `lstrip` keeps every line feed followed by a token |
| `History.TrimRightKeepsTokens` | talend_doc_cleaner.py:16 | `rstrip` keeps every line feed followed by a token, because a token ends in a digit |
| `History.DropNewlinesTrimLeft` | talend_doc_cleaner.py:13-16 | removing line feeds and `lstrip` commute |
| `History.DropNewlinesTrimRight` | talend_doc_cleaner.py:13-16 | removing line feeds and `rstrip` commute |
| `History.FormatHistoriqueIsClean` | talend_doc_cleaner.py:7-16 | the formatted history has no surrounding whitespace and no carriage return |
| `History.FormatHistoriqueBreaksBeforeTokens` | talend_doc_cleaner.py:7-16 | every line feed of the formatted history is followed by a `vX.Y dd/mm/yyyy` token |
| `History.FormatHistoriqueBreaksAtTokens` | talend_doc_cleaner.py:7-16 | every such token but a leading one has a line feed right before it |
| `History.FormatHistoriqueLines` | talend_doc_cleaner.py:7-16 | past the first character, a line feed stands before a position exactly when a token starts there |
| `History.FormatHistoriqueOnlyAddsBreaks` | talend_doc_cleaner.py:7-16 | deleting the line feeds of the formatted history gives back the stripped, cleaned input |
| `Connector.DescriptionSection` | talend_doc_cleaner.py:132 | no section is found exactly when no title reads "description" once stripped and lower-cased |
| `Connector.DescriptionSectionIsFirst` | talend_doc_cleaner.py:132 | the section found is the first one so titled |
| `Connector.Entries` | talend_doc_cleaner.py:137-142 | at most one key-value entry per row |
| `Connector.EntriesMembers` | talend_doc_cleaner.py:139-142 | exactly the rows of two `td`/`th` cells give entries |
| `Connector.EntriesAppend` | talend_doc_cleaner.py:135-138 | the entries of consecutive contents are concatenated |
| `Connector.LastValueAbsent` | talend_doc_cleaner.py:133 | a key no row carries leaves its field empty |
| `Connector.LastValueIsLast` | talend_doc_cleaner.py:143-156 | nom, version, historique, description and objectif hold the value of the last row carrying the key |
| `Connector.FirstNonEmptyAbsent` | talend_doc_cleaner.py:149-152 | without a non-empty value for the key, création or modification stays empty |
| `Connector.FirstNonEmptyIsFirst` | talend_doc_cleaner.py:149-152 | création and modification hold the first non-empty value, later rows being ignored |
| `Connector.FirstNonEmptySnoc` | talend_doc_cleaner.py:149-152 | one more row sets the field only when it is still empty |
| `Connector.Backfill` | talend_doc_cleaner.py:158-159 | an empty history is replaced by the description when that starts with `v` after stripping and lower-casing; no other field changes and nothing else does |
| `Connector.BackfillIdempotent` | talend_doc_cleaner.py:158-159 | applying the backfill twice is applying it once |
| `Connector.ConnectorInfoOf` | talend_doc_cleaner.py:120-160 | after the parse no field calls for the backfill again: the history is left empty only when the description does not start with `v`; without a description section every field is empty |
| `Connector.FieldsSnoc` | talend_doc_cleaner.py:143-156 | one more row updates exactly the field its key names, creation and modification only while they are empty |
| `Connector.ReadRow` | talend_doc_cleaner.py:139-156 | one iteration of the row loop updates the dictionary as the entries so far plus this row dictate |
| `Connector.ReadRows` | talend_doc_cleaner.py:137-156 | the row loop over one content node |
| `Connector.ReadContent` | talend_doc_cleaner.py:135-156 | the loop over the contents reads all their rows in order |
| `Connector.BackfillHistory` | talend_doc_cleaner.py:158-159 | the last step is the backfill |
| `Connector.ParseConnectorInfo` | talend_doc_cleaner.py:120-160 | the whole parse returns the backfilled fields of the first description section, or the backfilled empty dictionary |
| `Contexts.IdAt` | talend_doc_cleaner.py:255 | a match of `context\.([a-zA-Z0-9_]+)` starts with `context.` and stays in the text |
| `Contexts.MatchIsIdentifier` | talend_doc_cleaner.py:382 | a match's identifier is non-empty, made of identifier characters, and not followed by another one |
| `Contexts.IdsAreIdentifiers` | talend_doc_cleaner.py:255 | every identifier `findall` returns is a whole identifier written after `context.` in the text |
| `Contexts.Prefixed` | talend_doc_cleaner.py:387 | each usage is `context.` followed by a found identifier, and each found identifier gives one |
| `Contexts.UsagesOfMembers` | talend_doc_cleaner.py:385-387 | the usages are exactly `context.` plus an identifier of some text node |
| `Contexts.ContextUsages` | talend_doc_cleaner.py:388 | the usage list is strictly sorted |
| `Contexts.ContextUsagesMembers` | talend_doc_cleaner.py:374-388 | a name is listed exactly when it is `context.` plus an identifier found in some text node of the document |
| `Contexts.ContextUsagesAreIdentifiers` | talend_doc_cleaner.py:382-387 | every listed usage is `context.` followed by a whole identifier written in some text node |
| `Contexts.FirstTable` | talend_doc_cleaner.py:204-206 | the first table after a position with the property, and none earlier |
| `Contexts.ProdTable` | talend_doc_cleaner.py:204-211 | the value table found has both "nom" and "valeur" headers |
| `Contexts.IndexOf` | talend_doc_cleaner.py:212-213 | `headers.index(x)` is the first position holding `x` |
| `Contexts.LookupFirstRow` | talend_doc_cleaner.py:214-220 | the lookup returns the value of the first row that binds the name |
| `Contexts.LookupNoRow` | talend_doc_cleaner.py:223 | without such a row the lookup returns `None` |
| `Contexts.LookupRowsFound` | talend_doc_cleaner.py:214-223 | the row lookup finds a value exactly when some row binds the name |
| `Contexts.FindProdTable` | talend_doc_cleaner.py:202-222 | the nested table loops, each stopping at its first hit, find the value table |
| `Contexts.LookupValue` | talend_doc_cleaner.py:214-220 | the row loop returns at the first row binding the name |
| `Contexts.GetContextValueFromTable` | talend_doc_cleaner.py:190-223 | the whole lookup returns the value of the first binding row of the value table, or `None` |
| `Contexts.ContextValue` | talend_doc_cleaner.py:190-223 | the lookup returns a value exactly when the name is bound in the value table, which is when it is a key of `context_prod` |
| `Contexts.BindingsOfDomain` | talend_doc_cleaner.py:247-252 | a name is in `context_prod` exactly when some row binds it |
| `Contexts.BindingsOfLastRow` | talend_doc_cleaner.py:247-252 | in `context_prod`, the last row binding a name gives its value |
| `Contexts.ProdMapAgreesWithLookup` | talend_doc_cleaner.py:214-220 | when one row alone binds a name, `context_prod` and the lookup agree on its value |
| `Contexts.Cleanup` | talend_doc_cleaner.py:259-260 | the cleaned expression holds no `+`, quote or whitespace |
| `Contexts.Substitute` | talend_doc_cleaner.py:255-261 | the substituted and cleaned expression holds no `+`, quote or whitespace |
| `Contexts.SubstituteAsWritten` | talend_doc_cleaner.py:255-261 | the function as written: the result holds no `+`, quote or whitespace |
| `Contexts.ReplaceEachUnbound` | talend_doc_cleaner.py:256-258 | replacing identifiers none of which is bound leaves the expression unchanged |
| `Contexts.AsWrittenAgreesWhenUnbound` | talend_doc_cleaner.py:255-261 | when no identifier of the expression is bound, both the function as written and the corrected one only clean the expression up |
| `Contexts.SubstituteFromUnbound` | talend_doc_cleaner.py:255-258 | an expression none of whose identifiers is bound comes through the replacement unchanged |
| `Contexts.UnboundMatch` | talend_doc_cleaner.py:255-258 | the same, when a match starts at the first position |
| `Contexts.UnboundChar` | talend_doc_cleaner.py:255-258 | the same, when no match starts at the first position |
| `Contexts.SubstituteContextVars` | talend_doc_cleaner.py:225-261 | the function as written: build the value dictionary, replace every bound identifier in turn, clean up |
| `Contexts.BuildProdMap` | talend_doc_cleaner.py:238-254 | the table loops fill `context_prod` with the bindings of the value table |
| `Contexts.DropPlus` | talend_doc_cleaner.py:259 | dropping the `+` between two clean halves joins them |
| `Contexts.CleanupOfClean` | talend_doc_cleaner.py:259-260 | the cleanup leaves clean text unchanged |
| `Contexts.CleanupJoins` | talend_doc_cleaner.py:259-260 | cleaning `a+b` joins the two clean halves |
| `Contexts.CollisionMatches` | talend_doc_cleaner.py:255 | where the two matches of `context.A+context.AB` start, and their lengths |
| `Contexts.CollisionIds` | talend_doc_cleaner.py:255 | `findall` on `context.A+context.AB` returns `A` and `AB` |
| `Contexts.CollisionSubstituted` | talend_doc_cleaner.py:255-258 | replacing match by match gives `x+y` |
| `Contexts.CollisionReplaced` | talend_doc_cleaner.py:256-258 | replacing name by name over the whole text gives `x+xB` |
| `Contexts.CollisionCleaned` | talend_doc_cleaner.py:259-260 | the cleanup turns these into `xxB` and `xy` |
| `Contexts.PrefixCollision` | talend_doc_cleaner.py:255-261 | as written the function returns `xxB` for `context.A+context.AB` with A bound to x and AB to y; as intended it returns `xy` |
| `CsvHistory.RefsWhereComplete` | talend_doc_cleaner.py:310-316 | every link the filter accepts contributes its entry |
| `CsvHistory.RefsWhereSound` | talend_doc_cleaner.py:310-316 | every entry comes from a link the filter accepts |
| `CsvHistory.LinkRefsComplete` | talend_doc_cleaner.py:310-316 | every `.csv` link whose target or text mentions history contributes its base name and absolute path |
| `CsvHistory.LinkRefsSound` | talend_doc_cleaner.py:310-316 | every link entry comes from such a link |
| `CsvHistory.LastWithIsLast` | talend_doc_cleaner.py:321-329 | `nom_unique` and `nom_fichier` hold the value of the last row whose key contains them |
| `CsvHistory.LastWithAbsent` | talend_doc_cleaner.py:319-320 | without such a row they stay unset |
| `CsvHistory.TableRef` | talend_doc_cleaner.py:330-334 | a component table's entry is named after the base name of its path, and the path holds no `+`, quote or whitespace |
| `CsvHistory.TableRefsAreClean` | talend_doc_cleaner.py:318-334 | every path found in a component table is clean and named after its base name |
| `CsvHistory.DedupMembers` | talend_doc_cleaner.py:338-344 | removing repetitions loses no entry and adds none |
| `CsvHistory.DedupDistinct` | talend_doc_cleaner.py:338-344 | no entry is kept twice |
| `CsvHistory.DedupKeepsFirstOccurrences` | talend_doc_cleaner.py:338-344 | each entry is kept at its first occurrence, in the original order |
| `CsvHistory.DedupOfDistinct` | talend_doc_cleaner.py:338-344 | a list without repetitions is left unchanged |
| `CsvHistory.DedupIdempotent` | talend_doc_cleaner.py:338-344 | removing repetitions twice is removing them once |
| `CsvHistory.ScanTable` | talend_doc_cleaner.py:319-329 | the row loop leaves the last values of the two keys |
| `CsvHistory.CollectLinkRefs` | talend_doc_cleaner.py:310-316 | the link loop collects the link entries in order |
| `CsvHistory.CollectTableRefs` | talend_doc_cleaner.py:318-334 | the table loop collects the component-table entries in order, with paths substituted as the program does it |
| `CsvHistory.CollectCsvFiles` | talend_doc_cleaner.py:308-334 | `csv_files` holds the link entries, then the table entries, in document order |
| `CsvHistory.RemoveDuplicates` | talend_doc_cleaner.py:338-344 | the `seen`-set loop removes the repetitions |
| `CsvHistory.HistoryBlock` | talend_doc_cleaner.py:336 | no block is written when no history file is found |
| `CsvHistory.HistoryBlockLists` | talend_doc_cleaner.py:336-351 | otherwise the block is the heading, one line per distinct entry in first-occurrence order with its path substituted as the program does it, and a rule |
| `O2T.PrefixRun` | talend_doc_cleaner.py:483 | the match of one prefix followed by `\d+` stays in the text |
| `O2T.NameAt` | talend_doc_cleaner.py:483 | the match of `tO2T(?:Input/Output)_\d+` at a position stays in the text |
| `O2T.PrefixRunIsName` | talend_doc_cleaner.py:483 | such a match is the prefix followed by digits, and a whole name of the text |
| `O2T.MatchIsName` | talend_doc_cleaner.py:483 | a match is a whole O2T name of the text |
| `O2T.NamesFromStep` | talend_doc_cleaner.py:483 | a name `findall` returns is the match at the current position, or a name returned by the search resumed after it |
| `O2T.NamePosition` | talend_doc_cleaner.py:483 | every name found is the match at some position at or after the start of the search |
| `O2T.NamesAreO2TNames` | talend_doc_cleaner.py:483-484 | every name found is a whole O2T name occurring in the text |
| `O2T.O2TNames` | talend_doc_cleaner.py:516 | the names are listed in strictly sorted order |
| `O2T.O2TNamesMembers` | talend_doc_cleaner.py:483-484 | a name is listed exactly when `findall` returns it, and every listed name is an O2T name |
| `O2T.ParamsDomain` | talend_doc_cleaner.py:501-507 | a key is in `params` exactly when some row of two or more cells carries it |
| `O2T.ParamsLastRow` | talend_doc_cleaner.py:501-507 | the last row carrying a key gives its value |
| `O2T.FirstNaming` | talend_doc_cleaner.py:489-498 | the first table with a "Nom unique" row naming the component, and none earlier |
| `O2T.NameRowOfName` | talend_doc_cleaner.py:518-524 | every O2T name gets a row starting with its name, so the `elif` never falls through |
| `O2T.O2THeader` | talend_doc_cleaner.py:509-525 | the notice exactly when no O2T name occurs; otherwise the table heading, the rows of the names in sorted order with their parameters, and a rule |
| `O2T.NameRowsAppend` | talend_doc_cleaner.py:516-524 | the rows of consecutive names are concatenated in order |
| `O2T.NameRowsAt` | talend_doc_cleaner.py:516-524 | each name gets its own row, with the parameters of its first naming table, at its own place in the order of the list |
| `O2T.O2THeaderRowAt` | talend_doc_cleaner.py:509-525 | the `k`-th name of the header is an O2T name found in the text, and its row starts with the name and sits between the rows of the names before and after it |
| `O2T.TableNames` | talend_doc_cleaner.py:491-496 | the row loop finds a row naming the component exactly when one exists |
| `O2T.FindNameTable` | talend_doc_cleaner.py:487-498 | the table loop finds the first table naming the component, or none |
| `O2T.NoEarlierTable` | talend_doc_cleaner.py:489-498 | a naming table with none before it is the one found |
| `O2T.NoTable` | talend_doc_cleaner.py:489-498 | without a naming table none is found |
| `O2T.ReadParams` | talend_doc_cleaner.py:501-507 | the row loop builds the `params` dictionary |
| `O2T.CollectO2T` | talend_doc_cleaner.py:483-508 | `noms_uniques` holds exactly the matches, and `param_data` gives each name the parameters of its first naming table (none when no table names it) |
| `O2T.SortedNames` | talend_doc_cleaner.py:509-516 | sorting the set gives the header's listing, empty exactly when the set is |
| `O2T.WriteRows` | talend_doc_cleaner.py:516-524 | the row loop writes one row per name in sorted order |
| `O2T.WriteO2THeader` | talend_doc_cleaner.py:466-525 | the whole function writes the header |
| `Render.HistoryBulletsEmpty` | talend_doc_cleaner.py:183-185 | no bullet is written exactly when every line of the history is blank |
| `Render.HistoryBulletsAt` | talend_doc_cleaner.py:183-185 | each line contributes its own bullet at its own place: the bullets of the lines before it, then its bullet, then those of the lines after it |
| `Render.HistoryBulletsAppend` | talend_doc_cleaner.py:183-185 | the bullets of consecutive lines are concatenated in order |
| `Render.HistoryBulletsStart` | talend_doc_cleaner.py:183-185 | written bullets start with `- ` |
| `Render.HistoryText` | talend_doc_cleaner.py:180-187 | the "no history" notice is written exactly when the history is blank |
| `Render.ResumeLine` | talend_doc_cleaner.py:174-175 | the summary line is absent exactly when the objective is blank, and otherwise ends with the stripped objective |
| `Render.ConnectorDescription` | talend_doc_cleaner.py:162-188 | the block starts with the heading and the name line, followed by the summary line when the objective is not blank and by the version line otherwise; the version, creation and modification lines and the history label come right after the summary line; the block ends with the history label, the history text (the bullets of the formatted history, or the "no history" notice when the history is blank) and an empty line |
| `Render.ContextLines` | talend_doc_cleaner.py:290-305 | no line is written exactly when no variable is used, and otherwise the first line is a bullet |
| `Render.ContextLinesAt` | talend_doc_cleaner.py:291-303 | each variable gets its own line at its own place, in the order of the list |
| `Render.ContextLinesAppend` | talend_doc_cleaner.py:291-303 | the lines of consecutive variables are concatenated in order |
| `Render.ContextBlockMasksSensitive` | talend_doc_cleaner.py:289-294 | in the written context block, a variable mentioning o2t or password is listed by its bare name, in its place among the other variables' lines |
| `Render.ContextBlock` | talend_doc_cleaner.py:289-305 | the context block starts with its heading and is the "no context" notice exactly when no usage is found |
| `Render.ComponentList` | talend_doc_cleaner.py:280-352 | the component-list section is its heading, the rows of the component inventory, a rule, the context block, the history-file block and a closing rule; with no component type the context block follows the rule at once; with no history file the context block is followed only by the closing rule |
| `Render.TypeRowsAppend` | talend_doc_cleaner.py:285-286 | the rows of consecutive types are concatenated in order |
| `Render.TypeRowsAt` | talend_doc_cleaner.py:285-286 | each type gets its own row at its own place, in the order of the list |
| `Render.InventoryRowAt` | talend_doc_cleaner.py:285-286 | every row of the type table is a component type listed under the first "composant" heading, in its place |
| `Render.ListedComponentRow` | talend_doc_cleaner.py:285-286 | every component type listed under the first "composant" heading has exactly one row of the type table |
| `Render.LookupName` | talend_doc_cleaner.py:298 | the name looked up for a listed usage is its identifier |
| `Render.ContextLineShowsFirstValue` | talend_doc_cleaner.py:295-301 | any other variable shows the non-empty value of the first row binding its identifier |
| `Render.DescriptionEntriesAppend` | talend_doc_cleaner.py:358-366 | the entries of consecutive types are concatenated in order |
| `Render.DescriptionEntriesAt` | talend_doc_cleaner.py:358-366 | each type gets its own entry at its own place, in the order of the list |
| `Render.ComponentDescriptions` | talend_doc_cleaner.py:356-367 | the component-description section starts with its heading |
| `Render.ComponentDescriptionsAt` | talend_doc_cleaner.py:356-367 | in that section each type's entry sits after the heading and the entries of the types before it, and before those of the types after it and the closing rule |
| `Render.DescriptionEntry` | talend_doc_cleaner.py:360-366 | the notice is written exactly when the type has no description or an empty one |
| `Render.PlainSection` | talend_doc_cleaner.py:368-372 | a plain section writes nothing exactly when every content node converts to blank text |
| `Render.WriteSection` | talend_doc_cleaner.py:263-372 | the four branches on the stripped, lower-cased title: "liste des composants" writes the component-list section, the context titles write nothing, "description des composants" writes one entry per inventory type in inventory order, and any other section writes nothing exactly when all its content is blank |
| `Render.StrippedPrefixInTitle` | talend_doc_cleaner.py:43 | a title whose stripped, lower-cased form starts with "context" contains that keyword once lower-cased |
| `Render.KeptTitleNotContext` | talend_doc_cleaner.py:43 | a title that is not ignored never reads "context utilisé" or "context utilise" |
| `Render.ContextBranchUnreachable` | talend_doc_cleaner.py:353-355 | no extracted section reaches the `context utilisé` branch |
| `Render.Kept` | talend_doc_cleaner.py:569-573 | the sections written come from the section list and none of them is excluded |
| `Render.BodyWritesKept` | talend_doc_cleaner.py:569-573 | the body is exactly the non-excluded sections, each written in order |
| `Render.GenerateMarkdown` | talend_doc_cleaner.py:542-575 | the report is the preamble, the summary, the connector description, the O2T header (the notice exactly when the export names no O2T component), the written sections and a closing rule, in that order; it starts with the preamble, summary and description heading and ends with the rule |

## Left out

- HTML parsing (BeautifulSoup): the document arrives already parsed as siblings, tables, rows, cells, links and text nodes. `get_text(strip=True)` is taken as already applied to cell texts.
- `html_to_markdown` is the parameter `toMarkdown` of `Render.PlainSection`, because it is BeautifulSoup text extraction.
- `load_composant_descriptions` (YAML reading, and its error message) is the parameter `descriptions`.
- `os.path.abspath` is the parameter `absPath`, because it depends on the working directory.
- In `write_o2t_header`, the scan of the `documentations` directory and the file read are left out. The file's text and tables are the parameters `o2tContent` and `o2tTables`. When no HTML file is found, the header is the one for a text with no O2T name.
- `write_context_section` is not modelled. It is never called, and its body refers to undefined names (`tag`, `context_dict`), so it would fail on its first variable.
- File writes and `print` messages are left out. The model builds the written text as a string.
- `main.py` and `talend_zip_importer.py` (the command-line driver and the ZIP import) are not part of this model.
- `Text.Lower`: lower-cases only ASCII and Latin-1 letters. Python's `str.lower` covers all of Unicode; the titles and keywords the program compares are in that range.
- `Text.IsDigit`: `\d` is taken as the ASCII digits. Python's `\d` also matches other Unicode decimal digits.
- `Contexts.SubstituteContextVars`: the variable name is put into the pattern through `re.escape`, and the value is used as a replacement template. The model replaces the literal text `context.<name>` by the value verbatim. A value containing a backslash escape would be expanded by `re.sub`.
- `Text.ReplaceAll`: replacement left to right without overlaps, as `str.replace` does. It has no contract of its own beyond `Text.ReplaceAllAbsent`.

## Findings

| source | as written | input that shows it | evidently intended | confidence | as-written member | corrected member |
|---|---|---|---|---|---|---|
| talend_doc_cleaner.py:255-258 | each identifier found is replaced by `re.sub(r'context\.' + name, ...)` over the whole expression, so `context.A` also matches the start of `context.AB` | `context.A+context.AB` with `A` bound to `x` and `AB` bound to `y` gives `xxB` | each match replaced by its own value, giving `xy` | not executed | `Contexts.SubstituteAsWritten`, `Contexts.PrefixCollision` | `Contexts.Substitute`, `Contexts.SubstituteFromUnbound` |
