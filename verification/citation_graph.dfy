/**
 The citation graph the component hands to its network view: one node per paper
 and one directed edge per reference occurrence that names the title of a paper
 in the same list (frontend/components/scientific-research-platform.tsx, the
 effect on `papers`).
 */
module CitationGraph {
  import opened Seqs
  import opened Papers

  /** A graph node: `id` is the paper's position, `caption` (the view's `label`) its title, `value` its citation count. */
  datatype Node = Node(id: nat, caption: string, value: nat)

  /** A directed edge between paper positions; `to` is -1 before unresolved edges are dropped. */
  datatype Edge = Edge(from: int, to: int)

  /** `j` is the first position in `papers` whose title is `title`. */
  predicate FirstTitled(papers: seq<Paper>, title: string, j: int)
  {
    && 0 <= j < |papers|
    && papers[j].title == title
    && forall m :: 0 <= m < j ==> papers[m].title != title
  }

  /** At most one position is the first with a given title. */
  lemma FirstTitledUnique(papers: seq<Paper>, title: string, a: int, b: int)
    requires FirstTitled(papers, title, a) && FirstTitled(papers, title, b)
    ensures a == b
  {
  }

  /** Reference `k` of paper `i` resolves, by first title match, to paper `j`. */
  ghost predicate Cites(papers: seq<Paper>, i: int, k: int, j: int)
  {
    && 0 <= i < |papers|
    && 0 <= k < |papers[i].references|
    && FirstTitled(papers, papers[i].references[k], j)
  }

  /** `findIndex` by title, scanning from position `start`. */
  function FindIndexFrom(papers: seq<Paper>, title: string, start: nat): (r: int)
    requires start <= |papers|
    ensures r == -1 <==> forall j :: start <= j < |papers| ==> papers[j].title != title
    ensures r != -1 ==>
              && start <= r < |papers|
              && papers[r].title == title
              && forall j :: start <= j < r ==> papers[j].title != title
    decreases |papers| - start
  {
    if start == |papers| then -1
    else if papers[start].title == title then start
    else FindIndexFrom(papers, title, start + 1)
  }

  /** `papers.findIndex(p => p.title === title)`: the first match, or -1. */
  function FindIndex(papers: seq<Paper>, title: string): (r: int)
    ensures r == -1 <==> !HasTitle(papers, title)
    ensures r != -1 ==> FirstTitled(papers, title, r)
  {
    FindIndexFrom(papers, title, 0)
  }

  /** One node per paper, in list order. */
  function BuildNodes(papers: seq<Paper>): (r: seq<Node>)
    ensures |r| == |papers|
    ensures forall i :: 0 <= i < |r| ==>
              && r[i].id == i
              && r[i].caption == papers[i].title
              && r[i].value == papers[i].bibliometricIndicators.citations
  {
    seq(|papers|, i requires 0 <= i < |papers| =>
      Node(i, papers[i].title, papers[i].bibliometricIndicators.citations))
  }

  /** The candidate edges of one paper: one per reference, in reference order. */
  function RawEdges(papers: seq<Paper>, from: nat, refs: seq<string>): (r: seq<Edge>)
    ensures |r| == |refs|
    ensures forall k :: 0 <= k < |r| ==>
              && r[k].from == from
              && (r[k].to == -1 <==> !HasTitle(papers, refs[k]))
              && (r[k].to != -1 ==> FirstTitled(papers, refs[k], r[k].to))
  {
    if |refs| == 0 then []
    else [Edge(from, FindIndex(papers, refs[0]))] + RawEdges(papers, from, refs[1..])
  }

  /** The `edge.to !== -1` filter. */
  function Resolved(e: Edge): bool
  {
    e.to != -1
  }

  /** Edges that start at paper `i`. */
  function From(i: int): Edge -> bool
  {
    (e: Edge) => e.from == i
  }

  /** The edges contributed by paper `i`: its candidate edges that resolved. */
  function PaperEdges(papers: seq<Paper>, i: nat): (r: seq<Edge>)
    requires i < |papers|
    ensures forall k :: 0 <= k < |r| ==> r[k].from == i && 0 <= r[k].to < |papers|
  {
    var raw := RawEdges(papers, i, papers[i].references);
    KeepMembers(raw, Resolved);
    Keep(raw, Resolved)
  }

  /** The per-paper edge blocks, in paper order. */
  function Blocks(papers: seq<Paper>): (r: seq<seq<Edge>>)
    ensures |r| == |papers|
    ensures forall i :: 0 <= i < |r| ==> r[i] == PaperEdges(papers, i)
  {
    seq(|papers|, i requires 0 <= i < |papers| => PaperEdges(papers, i))
  }

  /** All edges of the graph: `papers.flatMap(...)` over the per-paper blocks. */
  function BuildEdges(papers: seq<Paper>): (r: seq<Edge>)
    ensures forall e :: e in r ==> 0 <= e.from < |papers| && 0 <= e.to < |papers|
  {
    var blocks: seq<seq<Edge>> := Blocks(papers);
    ConcatMembers(blocks);
    Concat(blocks)
  }

  // ---------------------------------------------------------------------------
  // Membership: an edge exists exactly when some reference resolves to it.

  lemma {:induction false} PaperEdgesMembership(papers: seq<Paper>, i: nat, e: Edge)
    requires i < |papers|
    ensures e in PaperEdges(papers, i) <==> e.from == i && exists k :: Cites(papers, i, k, e.to)
  {
    var refs := papers[i].references;
    var raw := RawEdges(papers, i, refs);
    KeepMembers(raw, Resolved);
    if e in PaperEdges(papers, i) {
      var k :| 0 <= k < |raw| && raw[k] == e;
      assert Cites(papers, i, k, e.to);
    }
    if e.from == i && exists k :: Cites(papers, i, k, e.to) {
      var k :| Cites(papers, i, k, e.to);
      assert HasTitle(papers, refs[k]) by {
        assert papers[e.to].title == refs[k];
      }
      assert raw[k].to != -1;
      FirstTitledUnique(papers, refs[k], raw[k].to, e.to);
      assert raw[k] == e;
      assert e in raw;
    }
  }

  /** Soundness and completeness: `from -> to` is an edge iff some reference of
      paper `from` is the title of paper `to` and no earlier paper has that title. */
  lemma EdgeMembership(papers: seq<Paper>, e: Edge)
    ensures e in BuildEdges(papers) <==> exists k :: Cites(papers, e.from, k, e.to)
  {
    var blocks: seq<seq<Edge>> := Blocks(papers);
    ConcatMembers(blocks);
    if e in BuildEdges(papers) {
      var b :| 0 <= b < |blocks| && e in blocks[b];
      PaperEdgesMembership(papers, b, e);
    }
    if exists k :: Cites(papers, e.from, k, e.to) {
      var k :| Cites(papers, e.from, k, e.to);
      PaperEdgesMembership(papers, e.from, e);
      assert e in blocks[e.from];
    }
  }

  /** Edges and nodes agree: every edge joins two drawn nodes, and its target is
      the first node whose caption is one of the source paper's references. */
  lemma EdgesMatchNodes(papers: seq<Paper>, e: Edge)
    requires e in BuildEdges(papers)
    ensures 0 <= e.from < |BuildNodes(papers)| && 0 <= e.to < |BuildNodes(papers)|
    ensures exists k :: 0 <= k < |papers[e.from].references| &&
              papers[e.from].references[k] == BuildNodes(papers)[e.to].caption
    ensures forall m :: 0 <= m < e.to ==> BuildNodes(papers)[m].caption != BuildNodes(papers)[e.to].caption
  {
    var nodes := BuildNodes(papers);
    EdgeMembership(papers, e);
    var k :| Cites(papers, e.from, k, e.to);
    assert papers[e.from].references[k] == nodes[e.to].caption;
  }

  /** A paper none of whose references names a paper in the list has no outgoing edge. */
  lemma UnresolvedReferencesDropped(papers: seq<Paper>, i: int)
    requires 0 <= i < |papers|
    requires forall k :: 0 <= k < |papers[i].references| ==> !HasTitle(papers, papers[i].references[k])
    ensures forall e :: e in BuildEdges(papers) ==> e.from != i
  {
    forall e | e in BuildEdges(papers)
      ensures e.from != i
    {
      EdgeMembership(papers, e);
      var k :| Cites(papers, e.from, k, e.to);
      assert HasTitle(papers, papers[e.from].references[k]) by {
        assert papers[e.to].title == papers[e.from].references[k];
      }
    }
  }

  // ---------------------------------------------------------------------------
  // Counting: every resolvable reference occurrence gives exactly one edge.

  /** How many references in `refs` resolve, by first title match, to paper `j`. */
  ghost function CountCiting(papers: seq<Paper>, refs: seq<string>, j: int): nat
  {
    if |refs| == 0 then 0
    else (if FirstTitled(papers, refs[0], j) then 1 else 0) + CountCiting(papers, refs[1..], j)
  }

  /** How many references in `refs` name the title of some paper. */
  ghost function CountResolvable(papers: seq<Paper>, refs: seq<string>): nat
  {
    if |refs| == 0 then 0
    else (if HasTitle(papers, refs[0]) then 1 else 0) + CountResolvable(papers, refs[1..])
  }

  /** Per paper, the number of its references that resolve. */
  ghost function ResolvableCounts(papers: seq<Paper>): (r: seq<nat>)
    ensures |r| == |papers|
  {
    seq(|papers|, i requires 0 <= i < |papers| => CountResolvable(papers, papers[i].references))
  }

  /** Per paper, the number of its references. */
  function ReferenceCounts(papers: seq<Paper>): (r: seq<nat>)
    ensures |r| == |papers|
  {
    seq(|papers|, i requires 0 <= i < |papers| => |papers[i].references|)
  }

  lemma {:induction false} RawEdgesMultiset(papers: seq<Paper>, i: nat, refs: seq<string>, j: int)
    requires j != -1
    ensures multiset(RawEdges(papers, i, refs))[Edge(i, j)] == CountCiting(papers, refs, j)
    decreases |refs|
  {
    if |refs| > 0 {
      RawEdgesMultiset(papers, i, refs[1..], j);
      var raw := RawEdges(papers, i, refs);
      assert raw == [raw[0]] + RawEdges(papers, i, refs[1..]);
      assert multiset(raw) == multiset([raw[0]]) + multiset(RawEdges(papers, i, refs[1..]));
      var t := raw[0].to;
      if FirstTitled(papers, refs[0], j) {
        assert papers[j].title == refs[0];
        assert t != -1;
        FirstTitledUnique(papers, refs[0], t, j);
      } else if t != -1 {
        assert FirstTitled(papers, refs[0], t);
      }
    }
  }

  lemma {:induction false} CountCitingNone(papers: seq<Paper>, refs: seq<string>)
    ensures CountCiting(papers, refs, -1) == 0
    decreases |refs|
  {
    if |refs| > 0 {
      CountCitingNone(papers, refs[1..]);
    }
  }

  /** No deduplication: the edge `i -> j` occurs exactly as many times as paper
      `i` has references that resolve to paper `j`. */
  lemma EdgeMultiplicity(papers: seq<Paper>, i: nat, j: int)
    requires i < |papers|
    ensures multiset(BuildEdges(papers))[Edge(i, j)] == CountCiting(papers, papers[i].references, j)
  {
    var blocks: seq<seq<Edge>> := Blocks(papers);
    forall b | 0 <= b < |blocks| && b != i
      ensures Edge(i, j) !in blocks[b]
    {
      assert forall k :: 0 <= k < |blocks[b]| ==> blocks[b][k].from == b;
    }
    ConcatMultiset(blocks, i, Edge(i, j));
    var raw := RawEdges(papers, i, papers[i].references);
    KeepMultiset(raw, Resolved, Edge(i, j));
    if j != -1 {
      RawEdgesMultiset(papers, i, papers[i].references, j);
    } else {
      CountCitingNone(papers, papers[i].references);
    }
  }

  lemma {:induction false} PaperEdgesCount(papers: seq<Paper>, i: nat, refs: seq<string>)
    ensures |Keep(RawEdges(papers, i, refs), Resolved)| == CountResolvable(papers, refs)
    ensures CountResolvable(papers, refs) <= |refs|
    decreases |refs|
  {
    if |refs| > 0 {
      PaperEdgesCount(papers, i, refs[1..]);
      var raw := RawEdges(papers, i, refs);
      assert raw[1..] == RawEdges(papers, i, refs[1..]);
    }
  }

  /** One edge per resolvable reference occurrence, so never more edges than references. */
  lemma EdgeCount(papers: seq<Paper>)
    ensures |BuildEdges(papers)| == Sum(ResolvableCounts(papers))
    ensures |BuildEdges(papers)| <= Sum(ReferenceCounts(papers))
  {
    var blocks: seq<seq<Edge>> := Blocks(papers);
    ConcatLength(blocks);
    forall i | 0 <= i < |papers|
      ensures Lengths(blocks)[i] == ResolvableCounts(papers)[i]
      ensures ResolvableCounts(papers)[i] <= ReferenceCounts(papers)[i]
    {
      PaperEdgesCount(papers, i, papers[i].references);
    }
    assert Lengths(blocks) == ResolvableCounts(papers);
    SumMonotone(ResolvableCounts(papers), ReferenceCounts(papers));
  }

  // ---------------------------------------------------------------------------
  // Order: edges come in paper order, and within a paper in reference order.

  /** The `from` fields never decrease along `edges`. */
  predicate OrderedByFrom(edges: seq<Edge>)
  {
    forall a, b :: 0 <= a < b < |edges| ==> edges[a].from <= edges[b].from
  }

  /** The `from` field, as the ordering key `ConcatOrdered` takes; `From(i)` is
      the filter that selects one value of the same field. */
  function FromKey(e: Edge): int
  {
    e.from
  }

  /** Edges are grouped by citing paper, in paper order. */
  lemma EdgesOrdered(papers: seq<Paper>)
    ensures OrderedByFrom(BuildEdges(papers))
  {
    var blocks: seq<seq<Edge>> := Blocks(papers);
    ConcatOrdered(blocks, FromKey, 0);
  }

  /** The edges leaving paper `i`, in graph order, are exactly the resolved
      candidates of its references, in reference order. */
  lemma PaperBlock(papers: seq<Paper>, i: nat)
    requires i < |papers|
    ensures Keep(BuildEdges(papers), From(i)) == PaperEdges(papers, i)
  {
    var blocks: seq<seq<Edge>> := Blocks(papers);
    ConcatKeepBlock(blocks, From(i), i);
  }

  /** An empty list gives the empty graph; one paper without references gives one node and no edge. */
  lemma SmallGraphs(p: Paper)
    requires |p.references| == 0
    ensures BuildNodes([]) == [] && BuildEdges([]) == []
    ensures BuildNodes([p]) == [Node(0, p.title, p.bibliometricIndicators.citations)]
    ensures BuildEdges([p]) == []
  {
    assert RawEdges([p], 0, p.references) == [];
    assert Blocks([p]) == [[]];
    assert Blocks([p])[1..] == [];
  }
}
