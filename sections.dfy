/** Splitting the document at its second-level headings, dropping the
    administrative and context sections (`is_context_section`, `extract_sections`). */
module Sections {
  import opened Text
  import opened Html

  /** Keywords of the titles that are never turned into sections. */
  const SectionsToIgnore: seq<string> := [
    "Liste des contextes", "Context List", "ContexteDefault", "ContextePROD",
    "Context", "context", "Contexts", "contexts",
    "Paramètres supplémentaires", "Statut & Logs", "Prévisualiser l'image",
    "Propriétés", "Valeurs", "Nom", "Langue", "Statut",
    "Exécution multi thread", "tContextLoad implicite",
    "Utiliser les statistiques (tStatCatcher)", "Utiliser les logs (tLogCatcher)",
    "Utiliser les volumes (tFlowMeterCatcher)", "Dans la console",
    "Dans des fichiers", "Dans la base de données",
    "Capturer les statistiques des composants", "Capturer les erreurs de l'exécutable",
    "Capturer les erreurs de l'utilisateur", "Capturer les alertes à l'utilisateur"
  ]

  /** The keyword "context" of the ignore list, which lower-casing leaves as it is. */
  lemma ContextKeyword()
    ensures Lower(SectionsToIgnore[5]) == "context"
  {
    assert SectionsToIgnore[5] == "context";
  }

  /** A title is ignored when some keyword occurs in it, both lower-cased; in
      particular every title that mentions "context" in any case is ignored. */
  predicate IsContextSection(title: string)
    ensures Contains(Lower(title), "context") ==> IsContextSection(title)
  {
    ContextKeyword();
    exists k | 0 <= k < |SectionsToIgnore| :: Contains(Lower(title), Lower(SectionsToIgnore[k]))
  }

  /** A section: the heading's title and the siblings kept under it. */
  datatype Section = Section(title: string, content: seq<Node>)

  /** An element one of whose classes contains "context" is left out of its section. */
  predicate HasContextClass(n: Node) {
    n.Element? && exists c | c in n.classes :: Contains(c, "context")
  }

  /** The siblings from position `j` up to the next heading, without the
      context-classed ones. */
  function ContentFrom(doc: Document, j: nat): seq<Node>
    decreases |doc| - j
  {
    if j >= |doc| || doc[j].Heading? then []
    else (if HasContextClass(doc[j]) then [] else [doc[j]]) + ContentFrom(doc, j + 1)
  }

  /** The sections of the headings at positions `i` and later, in document order. */
  function SectionsFrom(doc: Document, i: nat): seq<Section>
    decreases |doc| - i
  {
    if i >= |doc| then []
    else
      var rest := SectionsFrom(doc, i + 1);
      if doc[i].Heading? && !IsContextSection(doc[i].title) && ContentFrom(doc, i + 1) != [] then
        [Section(doc[i].title, ContentFrom(doc, i + 1))] + rest
      else rest
  }

  function Sections(doc: Document): seq<Section> {
    SectionsFrom(doc, 0)
  }

  /** `sec` is the title and the content of one of the headings at `lo` or later. */
  ghost predicate UnderHeading(doc: Document, lo: nat, sec: Section) {
    exists h :: lo <= h < |doc| && doc[h].Heading? && doc[h].title == sec.title && sec.content == ContentFrom(doc, h + 1)
  }

  lemma UnderEarlierHeading(doc: Document, lo: nat, sec: Section)
    requires UnderHeading(doc, lo + 1, sec)
    ensures UnderHeading(doc, lo, sec)
  {
    var h :| lo + 1 <= h < |doc| && doc[h].Heading? && doc[h].title == sec.title && sec.content == ContentFrom(doc, h + 1);
  }

  /** No ignored title and no empty section survives, and every section is the
      content under one of the headings at `i` or later. */
  lemma {:induction false} SectionsQualify(doc: Document, i: nat)
    ensures forall k :: 0 <= k < |SectionsFrom(doc, i)| ==>
              !IsContextSection(SectionsFrom(doc, i)[k].title) && SectionsFrom(doc, i)[k].content != []
    ensures forall k :: 0 <= k < |SectionsFrom(doc, i)| ==> UnderHeading(doc, i, SectionsFrom(doc, i)[k])
    decreases |doc| - i
  {
    if i < |doc| {
      SectionsQualify(doc, i + 1);
      var rest := SectionsFrom(doc, i + 1);
      forall k | 0 <= k < |rest|
        ensures UnderHeading(doc, i, rest[k])
      {
        UnderEarlierHeading(doc, i, rest[k]);
      }
      if doc[i].Heading? && !IsContextSection(doc[i].title) && ContentFrom(doc, i + 1) != [] {
        var r := SectionsFrom(doc, i);
        assert r == [Section(doc[i].title, ContentFrom(doc, i + 1))] + rest;
        assert doc[i].title == r[0].title;
        assert forall k :: 0 < k < |r| ==> r[k] == rest[k - 1];
      }
    }
  }

  /** The inner loop of `extract_sections`: the siblings after a heading up to the
      next one, skipping context-classed elements. */
  method CollectContent(doc: Document, start: nat) returns (sectionContent: seq<Node>)
    requires start <= |doc|
    ensures sectionContent == ContentFrom(doc, start)
  {
    sectionContent := [];
    var j := start;
    while j < |doc|
      invariant start <= j <= |doc|
      invariant sectionContent + ContentFrom(doc, j) == ContentFrom(doc, start)
    {
      if doc[j].Heading? {
        break;
      }
      if !HasContextClass(doc[j]) {
        sectionContent := sectionContent + [doc[j]];
      }
      j := j + 1;
    }
  }

  /** `extract_sections`: one pass over the headings, one inner pass over the
      siblings of each. */
  method ExtractSections(doc: Document) returns (output: seq<Section>)
    ensures output == Sections(doc)
  {
    output := [];
    var i := 0;
    while i < |doc|
      invariant 0 <= i <= |doc|
      invariant output + SectionsFrom(doc, i) == SectionsFrom(doc, 0)
    {
      if doc[i].Heading? && !IsContextSection(doc[i].title) {
        var title := doc[i].title;
        var sectionContent := CollectContent(doc, i + 1);
        if sectionContent != [] {
          output := output + [Section(title, sectionContent)];
        }
      }
      i := i + 1;
    }
  }

  /** The first heading at or after `j`, or the end of the document. */
  function NextHeading(doc: Document, j: nat): (h: nat)
    requires j <= |doc|
    ensures j <= h <= |doc|
    ensures h < |doc| ==> doc[h].Heading?
    ensures forall m :: j <= m < h ==> !doc[m].Heading?
    decreases |doc| - j
  {
    if j == |doc| || doc[j].Heading? then j else NextHeading(doc, j + 1)
  }

  /** The nodes of `nodes` whose classes do not mention "context", in order. */
  function WithoutContextClass(nodes: seq<Node>): seq<Node> {
    if nodes == [] then []
    else
      var last := nodes[|nodes| - 1];
      WithoutContextClass(nodes[..|nodes| - 1]) + (if HasContextClass(last) then [] else [last])
  }

  lemma {:induction false} WithoutContextClassPrepend(n: Node, nodes: seq<Node>)
    ensures WithoutContextClass([n] + nodes)
         == (if HasContextClass(n) then [] else [n]) + WithoutContextClass(nodes)
    decreases |nodes|
  {
    if nodes != [] {
      assert ([n] + nodes)[..|nodes|] == [n] + nodes[..|nodes| - 1];
      WithoutContextClassPrepend(n, nodes[..|nodes| - 1]);
    } else {
      assert ([n] + nodes)[..0] == [];
    }
  }

  /** The content under a heading is exactly the siblings between it and the next
      heading, minus the context-classed elements, in document order. */
  lemma {:induction false} ContentIsSiblingsUntilNextHeading(doc: Document, j: nat)
    requires j <= |doc|
    ensures ContentFrom(doc, j) == WithoutContextClass(doc[j..NextHeading(doc, j)])
    decreases |doc| - j
  {
    if j < |doc| && !doc[j].Heading? {
      ContentIsSiblingsUntilNextHeading(doc, j + 1);
      assert doc[j..NextHeading(doc, j)] == [doc[j]] + doc[j + 1..NextHeading(doc, j + 1)];
      WithoutContextClassPrepend(doc[j], doc[j + 1..NextHeading(doc, j + 1)]);
    } else {
      assert doc[j..NextHeading(doc, j)] == [];
    }
  }

  /** Conversely, every heading whose title is not ignored and whose content is not
      empty gives a section. */
  lemma {:induction false} EveryQualifyingHeadingIsKept(doc: Document, i: nat, h: nat)
    requires i <= h < |doc| && doc[h].Heading?
    requires !IsContextSection(doc[h].title) && ContentFrom(doc, h + 1) != []
    ensures Section(doc[h].title, ContentFrom(doc, h + 1)) in SectionsFrom(doc, i)
    decreases h - i
  {
    if i < h {
      EveryQualifyingHeadingIsKept(doc, i + 1, h);
    }
  }
}
