/**
 The publication-type checkboxes of the search form: checking a box appends
 its label to `publicationTypes`; unchecking removes every occurrence of it.
 */
module PublicationTypes {
  import opened Seqs

  /** The four labels the form offers, in display order. */
  const OfferedTypes: seq<string> :=
    ["Научная статья", "Обзорная статья", "Экспериментальное исследование", "Монография"]

  /** The new type list after the box for `typeLabel` reports `checked`. */
  function SetChecked(types: seq<string>, typeLabel: string, checked: bool): (r: seq<string>)
    ensures checked ==> r == types + [typeLabel]
    ensures !checked ==>
              && typeLabel !in r
              && IsSubsequence(r, types)
              && forall t :: t != typeLabel ==> multiset(r)[t] == multiset(types)[t]
  {
    if checked then types + [typeLabel]
    else
      var r := Keep(types, Other(typeLabel));
      KeepMembers(types, Other(typeLabel));
      KeepIsSubsequence(types, Other(typeLabel));
      assert forall t :: t != typeLabel ==> multiset(r)[t] == multiset(types)[t] by {
        forall t | t != typeLabel
          ensures multiset(r)[t] == multiset(types)[t]
        {
          KeepMultiset(types, Other(typeLabel), t);
        }
      }
      r
  }

  /** Unchecking after checking is the same as unchecking straight away. */
  lemma UncheckAfterCheck(types: seq<string>, typeLabel: string)
    ensures SetChecked(SetChecked(types, typeLabel, true), typeLabel, false) == SetChecked(types, typeLabel, false)
  {
    KeepAppend(types, [typeLabel], Other(typeLabel));
    assert Keep([typeLabel], Other(typeLabel)) == [];
    assert Keep(types, Other(typeLabel)) + [] == Keep(types, Other(typeLabel));
  }

  /** Checking a label that is absent and then unchecking it restores the list. */
  lemma CheckUncheckRestores(types: seq<string>, typeLabel: string)
    requires typeLabel !in types
    ensures SetChecked(SetChecked(types, typeLabel, true), typeLabel, false) == types
  {
    UncheckAfterCheck(types, typeLabel);
    KeepAll(types, Other(typeLabel));
  }

  /** Unchecking twice is the same as unchecking once. */
  lemma UncheckIdempotent(types: seq<string>, typeLabel: string)
    ensures SetChecked(SetChecked(types, typeLabel, false), typeLabel, false) == SetChecked(types, typeLabel, false)
  {
    KeepIdempotent(types, Other(typeLabel));
  }

  /** A label, as its own key. `DistinctBy` takes the key as a function value,
      so label lists use this identity key. */
  function LabelKey(t: string): string
  {
    t
  }

  /** No label occurs twice. */
  predicate Distinct(types: seq<string>)
  {
    DistinctBy(types, LabelKey)
  }

  /** A click on the box for `typeLabel`: the box reports its new state, the
      negation of `types.includes(typeLabel)`. */
  function Click(types: seq<string>, typeLabel: string): (r: seq<string>)
    ensures typeLabel in r <==> typeLabel !in types
    ensures forall t :: t != typeLabel ==> (t in r <==> t in types)
  {
    KeepMembers(types, Other(typeLabel));
    SetChecked(types, typeLabel, typeLabel !in types)
  }

  /** Clicks keep the list free of duplicates, flip the clicked label and leave
      every other label as it was. */
  lemma ClickKeepsDistinct(types: seq<string>, typeLabel: string)
    requires Distinct(types)
    ensures Distinct(Click(types, typeLabel))
    ensures typeLabel in Click(types, typeLabel) <==> typeLabel !in types
    ensures forall t :: t != typeLabel ==> (t in Click(types, typeLabel) <==> t in types)
  {
    var r := Click(types, typeLabel);
    if typeLabel in types {
      KeepMembers(types, Other(typeLabel));
      KeepIsSubsequence(types, Other(typeLabel));
      SubsequenceKeepsDistinct(r, types, LabelKey);
    } else {
      AppendKeepsDistinct(types, typeLabel, LabelKey);
    }
  }

  /** Every label in `types` is one the form offers. */
  predicate WithinOffered(types: seq<string>)
  {
    forall i :: 0 <= i < |types| ==> types[i] in OfferedTypes
  }

  /** The list after the boxes named in `clicks` are clicked in turn. */
  function ApplyClicks(types: seq<string>, clicks: seq<string>): seq<string>
    decreases |clicks|
  {
    if |clicks| == 0 then types else ApplyClicks(Click(types, clicks[0]), clicks[1..])
  }

  /** A duplicate-free list drawn from `universe` is no longer than `universe`. */
  lemma {:induction false} DistinctWithinBound(s: seq<string>, universe: seq<string>)
    requires Distinct(s)
    requires forall i :: 0 <= i < |s| ==> s[i] in universe
    ensures |s| <= |universe|
    decreases |s|
  {
    if |s| > 0 {
      var x := s[|s| - 1];
      var rest := s[..|s| - 1];
      var smaller := Keep(universe, Other(x));
      KeepMembers(universe, Other(x));
      KeepDropsMember(universe, x);
      forall i | 0 <= i < |rest|
        ensures rest[i] in smaller
      {
        assert rest[i] == s[i] && LabelKey(s[i]) != LabelKey(x);
      }
      assert Distinct(rest) by {
        forall a, b | 0 <= a < b < |rest|
          ensures LabelKey(rest[a]) != LabelKey(rest[b])
        {
          assert rest[a] == s[a] && rest[b] == s[b];
        }
      }
      DistinctWithinBound(rest, smaller);
    }
  }

  /** Starting from a duplicate-free list of offered labels, any run of clicks on
      the offered boxes leaves a duplicate-free list of offered labels, so at most
      one entry per box. */
  lemma {:induction false} ClicksStayOffered(types: seq<string>, clicks: seq<string>)
    requires Distinct(types) && WithinOffered(types)
    requires forall i :: 0 <= i < |clicks| ==> clicks[i] in OfferedTypes
    ensures Distinct(ApplyClicks(types, clicks))
    ensures WithinOffered(ApplyClicks(types, clicks))
    ensures |ApplyClicks(types, clicks)| <= |OfferedTypes|
    decreases |clicks|
  {
    if |clicks| == 0 {
      DistinctWithinBound(types, OfferedTypes);
    } else {
      var next := Click(types, clicks[0]);
      ClickKeepsDistinct(types, clicks[0]);
      assert WithinOffered(next) by {
        forall i | 0 <= i < |next|
          ensures next[i] in OfferedTypes
        {
          assert next[i] in next;
          if next[i] != clicks[0] {
            var j :| 0 <= j < |types| && types[j] == next[i];
          }
        }
      }
      ClicksStayOffered(next, clicks[1..]);
    }
  }
}
