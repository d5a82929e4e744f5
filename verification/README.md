# Scientific research platform: citation graph, selection and export

This project models the data logic of the TruthSeeker research-search screen, the
React component `frontend/components/scientific-research-platform.tsx`. A search
fills the screen with a list of papers. Each paper carries an id, a title, an
author, an organization, a release date, a publication type, bibliometric
indicators and the titles of the papers it references. The model covers these
parts of the screen:

- **Citation graph** (`CitationGraph`). Each paper becomes a node. Its id is the
  paper's position, its caption is the paper's title, and its `value`, which the view scales to a
  size, is the paper's citation count. Each reference becomes an edge from the citing paper to the
  first paper whose title equals the reference. References that match no title
  produce no edge.
- **Paper selection** (`Selection`). Ticking a paper's checkbox adds it to the
  selection when no selected paper has its id. Otherwise it removes every selected
  paper with that id.
- **Publication-type checkboxes** (`PublicationTypes`). The form offers four
  type labels. Checking a box appends its label to the criteria list. Unchecking
  it removes every occurrence of the label.
- **Citation export** (`CitationExport`, `Decimal`). Each selected paper is
  rendered as `author (year). title. organization.`. The lines are joined with a
  blank line between them.
- **Mock corpus** (`MockCorpus`). These are the three papers a search shows,
  together with the graph they produce.

`Seqs` holds the order-preserving filter (`Array.prototype.filter`) and the
flattening (`flatMap`) that the component relies on, with their lemmas.
`Papers` holds the paper record. `Wrappers` holds `Option`.

The node label is called `caption` because `label` is a reserved word in Dafny.
For the same reason the checkbox label parameter is called `typeLabel`.

Three facts about the code shape the model:

- A reference resolves to the first paper with that title, as `findIndex` does
  at line 101. A later paper with a repeated title never receives an edge.
- The search criteria are collected but never applied to the papers, so the
  model has no filter.
- The mock corpus gives four edges: 0→1, 0→2, 1→0 and 2→0. The third paper
  references the first (line 212).

## Model

| member | source | states |
|---|---|---|
| CitationGraph.FindIndex | frontend/components/scientific-research-platform.tsx:101 | returns -1 exactly when no paper has the title; otherwise it returns the position of the first paper with that title |
| CitationGraph.FindIndexFrom | frontend/components/scientific-research-platform.tsx:101 | the scan from a starting position returns -1 exactly when no later paper has the title; otherwise it returns the first such position at or after the start |
| CitationGraph.BuildNodes | frontend/components/scientific-research-platform.tsx:89-95 | there is one node per paper; node i has id i, the paper's title as its caption and the paper's citation count as its value |
| CitationGraph.RawEdges | frontend/components/scientific-research-platform.tsx:99-102 | there is one candidate edge per reference, in reference order, all from the citing paper; its target is -1 exactly when the reference names no paper, otherwise the first paper with that title |
| CitationGraph.PaperEdges | frontend/components/scientific-research-platform.tsx:99-103 | after the `to !== -1` filter, every edge of paper i starts at i and ends at a valid paper position |
| CitationGraph.BuildEdges | frontend/components/scientific-research-platform.tsx:97-104 | every edge of the graph joins two valid paper positions |
| CitationGraph.PaperEdgesMembership | frontend/components/scientific-research-platform.tsx:99-103 | an edge is among paper i's edges exactly when it starts at i and some reference of paper i resolves, by first title match, to its target |
| CitationGraph.EdgeMembership | frontend/components/scientific-research-platform.tsx:97-104 | an edge is in the graph exactly when some reference of its source paper resolves, by first title match, to its target paper |
| CitationGraph.EdgesMatchNodes | frontend/components/scientific-research-platform.tsx:89-104 | the nodes and edges agree: every edge joins two drawn nodes, and its target is the first node captioned with one of the source paper's references |
| CitationGraph.UnresolvedReferencesDropped | frontend/components/scientific-research-platform.tsx:99-103 | a paper none of whose references names a paper in the list has no outgoing edge |
| CitationGraph.EdgeMultiplicity | frontend/components/scientific-research-platform.tsx:97-104 | edges are not deduplicated: edge i→j occurs as many times as paper i's references resolve to paper j |
| CitationGraph.EdgeCount | frontend/components/scientific-research-platform.tsx:97-104 | the number of edges is the total number of resolvable references, and so at most the total number of references |
| CitationGraph.EdgesOrdered | frontend/components/scientific-research-platform.tsx:97-104 | `flatMap` keeps paper order: the source positions of the edges never decrease along the edge list |
| CitationGraph.PaperBlock | frontend/components/scientific-research-platform.tsx:97-104 | the edges of the graph that start at paper i are exactly paper i's own filtered edges, in order |
| CitationGraph.SmallGraphs | frontend/components/scientific-research-platform.tsx:89-104 | an empty list gives no nodes and no edges; a single paper without references gives one node and no edges |
| MockCorpus.MockPapers | frontend/components/scientific-research-platform.tsx:156-214 | the mock result list holds three papers; their fields are those of lines 157-213, pinned by `MockIdsAndTypes`, `MockTitlesResolve` and `MockGraph` |
| MockCorpus.MockIdsAndTypes | frontend/components/scientific-research-platform.tsx:156-214 | the three mock papers have distinct ids, and each carries one of the four publication types the form offers (line 602) |
| MockCorpus.MockTitlesResolve | frontend/components/scientific-research-platform.tsx:156-214 | each of the three mock titles resolves to its own paper: positions 0, 1 and 2 |
| MockCorpus.MockPaperEdges0 | frontend/components/scientific-research-platform.tsx:174 | both references of the first mock paper resolve, giving edges 0→1 and 0→2 in that order |
| MockCorpus.MockPaperEdges1 | frontend/components/scientific-research-platform.tsx:193 | the second mock paper's single reference gives edge 1→0 |
| MockCorpus.MockPaperEdges2 | frontend/components/scientific-research-platform.tsx:212 | the third mock paper's single reference gives edge 2→0 |
| MockCorpus.MockGraph | frontend/components/scientific-research-platform.tsx:156-214 | the mock search yields nodes of values 45, 78 and 32 captioned with the three titles, and exactly the edges 0→1, 0→2, 1→0 and 2→0 |
| Selection.Toggle | frontend/components/scientific-research-platform.tsx:233-239 | when no selected paper has the id, the paper is appended at the end; otherwise no paper with that id remains, the survivors keep their order, and every paper with another id keeps its multiplicity |
| Selection.ToggleTwiceRestores | frontend/components/scientific-research-platform.tsx:233-239 | selecting an unselected paper and then toggling it again restores the original selection exactly |
| Selection.ToggleFlipsMembership | frontend/components/scientific-research-platform.tsx:233-239 | a toggle flips whether the paper's id is selected and leaves whether any other id is selected unchanged |
| Selection.ToggleKeepsUniqueIds | frontend/components/scientific-research-platform.tsx:233-239 | if no id occurs twice in the selection, none does after a toggle |
| PublicationTypes.SetChecked | frontend/components/scientific-research-platform.tsx:607-613 | checking appends the label at the end; unchecking removes every occurrence of it, keeps the other labels in order and keeps each other label's multiplicity |
| PublicationTypes.UncheckAfterCheck | frontend/components/scientific-research-platform.tsx:607-613 | unchecking right after checking gives the same list as unchecking straight away |
| PublicationTypes.CheckUncheckRestores | frontend/components/scientific-research-platform.tsx:607-613 | checking an absent label and then unchecking it restores the original list |
| PublicationTypes.UncheckIdempotent | frontend/components/scientific-research-platform.tsx:611 | unchecking twice is the same as unchecking once |
| PublicationTypes.Click | frontend/components/scientific-research-platform.tsx:606-613 | a click sets the box to the negation of `includes`: the clicked label ends up in the list exactly when it was absent, and every other label's membership is unchanged |
| PublicationTypes.ClickKeepsDistinct | frontend/components/scientific-research-platform.tsx:606-613 | a click, whose new state is the negation of `includes`, keeps the list free of duplicates, flips membership of the clicked label and leaves every other label's membership as it was |
| PublicationTypes.ClicksStayOffered | frontend/components/scientific-research-platform.tsx:602-613 | from a duplicate-free list of offered labels, any run of clicks on the four offered boxes leaves a duplicate-free list of offered labels with at most four entries |
| Decimal.YearText | frontend/components/scientific-research-platform.tsx:253 | the `${…getFullYear()}` interpolation: a non-empty text without line breaks; a year of zero or more renders as digits only, a negative year as `-` followed by digits, `NaN` as neither; `YearTextRoundTrip` shows the rendering is injective |
| Decimal.NatTextRoundTrip | frontend/components/scientific-research-platform.tsx:253 | the decimal digits of a year read back as that number |
| Decimal.YearTextRoundTrip | frontend/components/scientific-research-platform.tsx:253 | the text interpolated for a year (`NaN`, a signed decimal) reads back as the same year, so distinct years render differently |
| CitationExport.CitationLine | frontend/components/scientific-research-platform.tsx:253 | the template literal itself, so its contract can only state its shape: it starts with the author and ` (`, ends with `.`, and holds no line break when author, title and organization hold none; `SmithCitationLine` pins a concrete line and `ExportRoundTrip` shows the lines are recoverable from the export |
| CitationExport.CitationLines | frontend/components/scientific-research-platform.tsx:252-253 | there is one citation line per selected paper, in selection order |
| CitationExport.Join | frontend/components/scientific-research-platform.tsx:254 | `join`: the empty list joins to the empty text; otherwise the text starts with the first line and its length is the total line length plus one separator between each pair of neighbours |
| CitationExport.JoinSplit | frontend/components/scientific-research-platform.tsx:254 | splitting a `join("\n\n")` of one or more line-break-free lines at blank lines gives the lines back |
| CitationExport.ExportCitations | frontend/components/scientific-research-platform.tsx:251-254 | an empty selection exports the empty text; a single paper exports exactly its citation line |
| CitationExport.ExportRoundTrip | frontend/components/scientific-research-platform.tsx:252-254 | for a non-empty selection in which no author, title or organization contains a line break, splitting the export at blank lines gives back the citation lines, one per selected paper |
| CitationExport.ExportAppend | frontend/components/scientific-research-platform.tsx:252-254 | selecting one more paper appends a blank line and that paper's citation line to the export |
| CitationExport.SmithCitationLine | frontend/components/scientific-research-platform.tsx:253 | a paper by Smith titled X from Org, released in 2023, renders as `Smith (2023). X. Org.` |
| CitationExport.ExportScenario | frontend/components/scientific-research-platform.tsx:251-254 | exporting two such papers gives the two lines separated by one blank line |

## Left out

- The date parsing inside `new Date(releaseDate).getFullYear()` is a parameter, `yearOf`, from the date string to a year or to `NaN` (none). Its result depends on the host's time zone and date parser.
- The download at lines 256-262 is left out. It creates a Blob, an object URL and a temporary link, and clicks it. The model stops at the exported text.
- The export button is disabled when nothing is selected (line 639). `ExportCitations` still defines the empty export as the empty text, which is what `join` gives.
- The graph is built only while its container is mounted and the paper list is non-empty (line 88). It is rebuilt from scratch whenever `papers` changes (line 142). `BuildNodes` and `BuildEdges` model the derivation itself. `CitationGraph.SmallGraphs` states what that derivation gives for an empty list, a case the component never draws.
- The network layout and physics options (lines 108-140) are fixed literals handed to the graph library. The drawing itself is not modelled either.
- The random decoration dots (lines 220-231) use `Math.random`. They are left out.
- The canned analysis text (lines 241-244) and the saved-search names (lines 246-249) are left out. The analysis is a fixed string. A saved-search name is numbered by how many searches are already saved. Neither depends on the papers.
- The generic keyed-field updates of the search criteria (lines 144-151) are left out. Only the publication-type list is modelled.
- The search criteria are never applied to the papers. There is no filtering to model, so none is modelled.
- The other state resets in the search handler (selection, analysis) are left out. Only the papers it installs are modelled, as `MockCorpus.MockPapers`.
- The rendered markup (lines 265-823) is left out. This includes the tabs, dialogs and charts.
- `impactFactor` is kept as a `real` and never computed on. Citation counts and h-index are natural numbers. The source types them as JavaScript numbers, which could also be fractional, negative or `NaN`. The graph passes the citation count through unchanged as the node value.
- MockCorpus.MockPapers: the long summary and conclusions strings of the three mock papers are shortened to the empty string. No modelled operation reads them. All other fields are as in the source.
- CitationExport.ExportRoundTrip: the round trip is stated only for a non-empty selection of papers whose author, title and organization contain no line break. With a line break, the blank-line split is not injective. For the empty selection, splitting the empty export gives one empty piece, as `"".split("\n\n")` does, not zero lines; `ExportCitations` pins that case as the empty text, and the export button is disabled then (line 639).
- CitationGraph.BuildEdges: its own contract states only the bounds. Membership, multiplicity, count and order are separate lemmas (`EdgeMembership`, `EdgeMultiplicity`, `EdgeCount`, `EdgesOrdered`).
