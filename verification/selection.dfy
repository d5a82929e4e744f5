/**
 The list of papers ticked for export (`handlePaperSelection`): ticking a paper
 whose identifier is already selected removes every entry with that
 identifier; otherwise the paper is appended.
 */
module Selection {
  import opened Seqs
  import opened Papers

  /** Papers whose identifier differs from `id`. */
  function OtherId(id: string): Paper -> bool
  {
    (p: Paper) => p.id != id
  }

  /** The new selection after the user ticks or unticks `paper`. */
  function Toggle(selected: seq<Paper>, paper: Paper): (r: seq<Paper>)
    ensures !HasId(selected, paper.id) ==> r == selected + [paper]
    ensures HasId(selected, paper.id) ==>
              && !HasId(r, paper.id)
              && IsSubsequence(r, selected)
              && forall p: Paper :: p.id != paper.id ==> multiset(r)[p] == multiset(selected)[p]
  {
    if HasId(selected, paper.id) then
      var r := Keep(selected, OtherId(paper.id));
      KeepIsSubsequence(selected, OtherId(paper.id));
      assert forall p: Paper :: p.id != paper.id ==> multiset(r)[p] == multiset(selected)[p] by {
        forall p: Paper | p.id != paper.id
          ensures multiset(r)[p] == multiset(selected)[p]
        {
          KeepMultiset(selected, OtherId(paper.id), p);
        }
      }
      r
    else
      selected + [paper]
  }

  /** Ticking a paper that is not selected and then ticking it again restores the selection. */
  lemma ToggleTwiceRestores(selected: seq<Paper>, paper: Paper)
    requires !HasId(selected, paper.id)
    ensures Toggle(Toggle(selected, paper), paper) == selected
  {
    var once := selected + [paper];
    assert once[|selected|] == paper;
    KeepAppend(selected, [paper], OtherId(paper.id));
    KeepAll(selected, OtherId(paper.id));
    assert Keep([paper], OtherId(paper.id)) == [];
    assert selected + [] == selected;
  }

  /** Ticking flips whether the paper's identifier is selected and leaves every other identifier as it was. */
  lemma ToggleFlipsMembership(selected: seq<Paper>, paper: Paper, id: string)
    ensures HasId(Toggle(selected, paper), id) <==>
              if id == paper.id then !HasId(selected, id) else HasId(selected, id)
  {
    var r := Toggle(selected, paper);
    if HasId(selected, paper.id) {
      KeepMembers(selected, OtherId(paper.id));
      if id != paper.id {
        if HasId(selected, id) {
          var k :| 0 <= k < |selected| && selected[k].id == id;
          assert selected[k] in r;
        }
        if HasId(r, id) {
          var k :| 0 <= k < |r| && r[k].id == id;
          assert r[k] in selected;
        }
      }
    } else {
      if id == paper.id {
        assert r[|selected|] == paper;
      } else {
        if HasId(r, id) {
          var k :| 0 <= k < |r| && r[k].id == id;
          assert k < |selected| && r[k] == selected[k];
        }
        if HasId(selected, id) {
          var k :| 0 <= k < |selected| && selected[k].id == id;
          assert r[k] == selected[k];
        }
      }
    }
  }

  /** The identifier of a paper, as the key `DistinctBy` compares. */
  function IdOf(p: Paper): string
  {
    p.id
  }

  /** No two entries share an identifier. */
  predicate UniqueIds(selected: seq<Paper>)
  {
    DistinctBy(selected, IdOf)
  }

  /** Ticking keeps identifiers unique, so the selection behaves as a set keyed by identifier. */
  lemma ToggleKeepsUniqueIds(selected: seq<Paper>, paper: Paper)
    requires UniqueIds(selected)
    ensures UniqueIds(Toggle(selected, paper))
  {
    if HasId(selected, paper.id) {
      KeepIsSubsequence(selected, OtherId(paper.id));
      SubsequenceKeepsDistinct(Toggle(selected, paper), selected, IdOf);
    } else {
      AppendKeepsDistinct(selected, paper, IdOf);
    }
  }
}
