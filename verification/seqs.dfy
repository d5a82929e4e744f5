/**
 Order-preserving filtering over sequences, the `Array.prototype.filter` that the
 component applies to its selection list, its publication-type list and its
 candidate citation edges.
 */
module Seqs {

  /** The elements of `s` that satisfy `f`, in their original order. */
  function Keep<T(==,!new)>(s: seq<T>, f: T -> bool): (r: seq<T>)
    ensures |r| <= |s|
    ensures forall k :: 0 <= k < |r| ==> f(r[k])
  {
    if |s| == 0 then [] else (if f(s[0]) then [s[0]] else []) + Keep(s[1..], f)
  }

  /** The kept elements are exactly the elements that satisfy `f`. */
  lemma {:induction false} KeepMembers<T(!new)>(s: seq<T>, f: T -> bool)
    ensures forall x :: x in Keep(s, f) <==> x in s && f(x)
    decreases |s|
  {
    if |s| > 0 {
      KeepMembers(s[1..], f);
      assert forall x :: x in s <==> x == s[0] || x in s[1..];
    }
  }

  /** The predicate "differs from `x`", used to remove every occurrence of `x`. */
  function Other<T(==)>(x: T): T -> bool
  {
    y => y != x
  }

  /** Removing every occurrence of an element that is present shortens the sequence. */
  lemma {:induction false} KeepDropsMember<T(!new)>(s: seq<T>, x: T)
    requires x in s
    ensures |Keep(s, Other(x))| < |s|
    decreases |s|
  {
    if s[0] != x {
      KeepDropsMember(s[1..], x);
    }
  }

  /** True when `sub` can be obtained from `s` by deleting elements. */
  predicate IsSubsequence<T(==)>(sub: seq<T>, s: seq<T>)
    decreases |s|
  {
    if |sub| == 0 then true
    else if |s| == 0 then false
    else if sub[0] == s[0] then IsSubsequence(sub[1..], s[1..])
    else IsSubsequence(sub, s[1..])
  }

  /** Filtering distributes over concatenation. */
  lemma {:induction false} KeepAppend<T(!new)>(a: seq<T>, b: seq<T>, f: T -> bool)
    ensures Keep(a + b, f) == Keep(a, f) + Keep(b, f)
    decreases |a|
  {
    if |a| == 0 {
      assert a + b == b;
    } else {
      assert (a + b)[0] == a[0];
      assert (a + b)[1..] == a[1..] + b;
      KeepAppend(a[1..], b, f);
    }
  }

  /** Filtering with a predicate every element satisfies changes nothing. */
  lemma {:induction false} KeepAll<T(!new)>(s: seq<T>, f: T -> bool)
    requires forall k :: 0 <= k < |s| ==> f(s[k])
    ensures Keep(s, f) == s
    decreases |s|
  {
    if |s| > 0 {
      KeepAll(s[1..], f);
      assert [s[0]] + s[1..] == s;
    }
  }

  /** Filtering with a predicate no element satisfies leaves nothing. */
  lemma {:induction false} KeepNone<T(!new)>(s: seq<T>, f: T -> bool)
    requires forall k :: 0 <= k < |s| ==> !f(s[k])
    ensures Keep(s, f) == []
    decreases |s|
  {
    if |s| > 0 {
      KeepNone(s[1..], f);
    }
  }

  /** A prefix whose elements all pass survives whole in front of the filtered rest. */
  lemma KeepPassingPrefix<T(!new)>(head: seq<T>, tail: seq<T>, f: T -> bool)
    requires forall k :: 0 <= k < |head| ==> f(head[k])
    ensures Keep(head + tail, f) == head + Keep(tail, f)
  {
    KeepAppend(head, tail, f);
    KeepAll(head, f);
  }

  /** A prefix whose elements all fail vanishes. */
  lemma KeepFailingPrefix<T(!new)>(head: seq<T>, tail: seq<T>, f: T -> bool)
    requires forall k :: 0 <= k < |head| ==> !f(head[k])
    ensures Keep(head + tail, f) == Keep(tail, f)
  {
    KeepAppend(head, tail, f);
    KeepNone(head, f);
    assert [] + Keep(tail, f) == Keep(tail, f);
  }

  /** Each kept value occurs as often as before; each dropped value not at all. */
  lemma {:induction false} KeepMultiset<T(!new)>(s: seq<T>, f: T -> bool, x: T)
    ensures multiset(Keep(s, f))[x] == if f(x) then multiset(s)[x] else 0
    decreases |s|
  {
    if |s| > 0 {
      KeepMultiset(s[1..], f, x);
      assert s == [s[0]] + s[1..];
      assert multiset(s) == multiset([s[0]]) + multiset(s[1..]);
      var head := if f(s[0]) then [s[0]] else [];
      assert multiset(Keep(s, f)) == multiset(head) + multiset(Keep(s[1..], f));
    }
  }

  /** Filtering keeps the surviving elements in their original relative order. */
  lemma {:induction false} KeepIsSubsequence<T(!new)>(s: seq<T>, f: T -> bool)
    ensures IsSubsequence(Keep(s, f), s)
    decreases |s|
  {
    if |s| > 0 {
      KeepIsSubsequence(s[1..], f);
      if !f(s[0]) {
        var k := Keep(s[1..], f);
        assert Keep(s, f) == k;
      }
    }
  }

  /** Applying the same filter twice is the same as applying it once. */
  lemma {:induction false} KeepIdempotent<T(!new)>(s: seq<T>, f: T -> bool)
    ensures Keep(Keep(s, f), f) == Keep(s, f)
  {
    KeepAll(Keep(s, f), f);
  }

  // ---------------------------------------------------------------------------
  // Concatenation of blocks: the `flatMap` shape.

  /** The blocks of `blocks` laid end to end. */
  function Concat<T>(blocks: seq<seq<T>>): seq<T>
    decreases |blocks|
  {
    if |blocks| == 0 then [] else blocks[0] + Concat(blocks[1..])
  }

  /** The sum of a sequence of naturals. */
  function Sum(xs: seq<nat>): nat
    decreases |xs|
  {
    if |xs| == 0 then 0 else xs[0] + Sum(xs[1..])
  }

  /** The block lengths of `blocks`. */
  function Lengths<T>(blocks: seq<seq<T>>): (r: seq<nat>)
    ensures |r| == |blocks|
    ensures forall b :: 0 <= b < |r| ==> r[b] == |blocks[b]|
  {
    seq(|blocks|, b requires 0 <= b < |blocks| => |blocks[b]|)
  }

  /** An element is in the concatenation iff it is in one of the blocks. */
  lemma {:induction false} ConcatMembers<T(!new)>(blocks: seq<seq<T>>)
    ensures forall x :: x in Concat(blocks) <==> exists b :: 0 <= b < |blocks| && x in blocks[b]
    decreases |blocks|
  {
    if |blocks| > 0 {
      ConcatMembers(blocks[1..]);
      forall x | x in Concat(blocks)
        ensures exists b :: 0 <= b < |blocks| && x in blocks[b]
      {
        assert Concat(blocks) == blocks[0] + Concat(blocks[1..]);
        if x !in blocks[0] {
          assert x in Concat(blocks[1..]);
          var b :| 0 <= b < |blocks[1..]| && x in blocks[1..][b];
          assert x in blocks[b + 1];
        }
      }
      forall x, b | 0 <= b < |blocks| && x in blocks[b]
        ensures x in Concat(blocks)
      {
        if b > 0 {
          assert x in blocks[1..][b - 1];
        }
      }
    }
  }

  /** The concatenation is as long as all blocks together. */
  lemma {:induction false} ConcatLength<T>(blocks: seq<seq<T>>)
    ensures |Concat(blocks)| == Sum(Lengths(blocks))
    decreases |blocks|
  {
    if |blocks| > 0 {
      ConcatLength(blocks[1..]);
      assert Lengths(blocks)[1..] == Lengths(blocks[1..]);
    }
  }

  /** A value that occurs in block `b0` only occurs as often as it does there. */
  lemma {:induction false} ConcatMultiset<T>(blocks: seq<seq<T>>, b0: nat, x: T)
    requires b0 < |blocks|
    requires forall b :: 0 <= b < |blocks| && b != b0 ==> x !in blocks[b]
    ensures multiset(Concat(blocks))[x] == multiset(blocks[b0])[x]
    decreases |blocks|
  {
    assert multiset(Concat(blocks)) == multiset(blocks[0]) + multiset(Concat(blocks[1..]));
    if b0 == 0 {
      ConcatAbsent(blocks[1..], x);
    } else {
      ConcatMultiset(blocks[1..], b0 - 1, x);
    }
  }

  /** A value in no block does not occur in the concatenation. */
  lemma {:induction false} ConcatAbsent<T>(blocks: seq<seq<T>>, x: T)
    requires forall b :: 0 <= b < |blocks| ==> x !in blocks[b]
    ensures multiset(Concat(blocks))[x] == 0
    decreases |blocks|
  {
    if |blocks| > 0 {
      assert multiset(Concat(blocks)) == multiset(blocks[0]) + multiset(Concat(blocks[1..]));
      ConcatAbsent(blocks[1..], x);
    }
  }

  /** When the elements of block `b` carry key `base + b`, keys never decrease. */
  lemma {:induction false} ConcatOrdered<T>(blocks: seq<seq<T>>, key: T -> int, base: int)
    requires forall b, k :: 0 <= b < |blocks| && 0 <= k < |blocks[b]| ==> key(blocks[b][k]) == base + b
    ensures forall a, c :: 0 <= a < c < |Concat(blocks)| ==> key(Concat(blocks)[a]) <= key(Concat(blocks)[c])
    ensures forall a :: 0 <= a < |Concat(blocks)| ==> base <= key(Concat(blocks)[a])
    decreases |blocks|
  {
    if |blocks| > 0 {
      var head := blocks[0];
      var tail := Concat(blocks[1..]);
      ConcatOrdered(blocks[1..], key, base + 1);
      assert Concat(blocks) == head + tail;
      forall a | 0 <= a < |head + tail|
        ensures key((head + tail)[a]) == base || (a >= |head| && key((head + tail)[a]) >= base + 1)
      {
        if a < |head| {
          assert key(head[a]) == base + 0;
        }
      }
    }
  }

  /** Filtering by a predicate that exactly one block's elements satisfy yields that block. */
  lemma {:induction false} ConcatKeepBlock<T(!new)>(blocks: seq<seq<T>>, f: T -> bool, b0: nat)
    requires b0 < |blocks|
    requires forall b, k :: 0 <= b < |blocks| && 0 <= k < |blocks[b]| ==> (f(blocks[b][k]) <==> b == b0)
    ensures Keep(Concat(blocks), f) == blocks[b0]
    decreases |blocks|
  {
    var head := blocks[0];
    var tail := Concat(blocks[1..]);
    assert Concat(blocks) == head + tail;
    if b0 == 0 {
      assert forall k :: 0 <= k < |head| ==> f(head[k]) by {
        assert forall k :: 0 <= k < |head| ==> head[k] == blocks[0][k];
      }
      KeepPassingPrefix(head, tail, f);
      ConcatMembers(blocks[1..]);
      forall k | 0 <= k < |tail|
        ensures !f(tail[k])
      {
        assert tail[k] in tail;
        var b :| 0 <= b < |blocks[1..]| && tail[k] in blocks[1..][b];
        var m :| 0 <= m < |blocks[b + 1]| && blocks[b + 1][m] == tail[k];
      }
      KeepNone(tail, f);
      assert head + [] == head;
    } else {
      forall k | 0 <= k < |head|
        ensures !f(head[k])
      {
        assert head[k] == blocks[0][k];
      }
      KeepFailingPrefix(head, tail, f);
      ConcatKeepBlock(blocks[1..], f, b0 - 1);
    }
  }

  /** Pointwise-smaller sequences have smaller sums. */
  lemma {:induction false} SumMonotone(xs: seq<nat>, ys: seq<nat>)
    requires |xs| == |ys|
    requires forall k :: 0 <= k < |xs| ==> xs[k] <= ys[k]
    ensures Sum(xs) <= Sum(ys)
    decreases |xs|
  {
    if |xs| > 0 {
      SumMonotone(xs[1..], ys[1..]);
    }
  }

  // ---------------------------------------------------------------------------
  // Subsequences and distinct keys.

  /** Every element of a subsequence is an element of the whole. */
  lemma {:induction false} SubsequenceIn<T(!new)>(sub: seq<T>, s: seq<T>)
    requires IsSubsequence(sub, s)
    ensures forall x :: x in sub ==> x in s
    decreases |s|
  {
    if |sub| > 0 && |s| > 0 {
      if sub[0] == s[0] {
        SubsequenceIn(sub[1..], s[1..]);
        assert forall x :: x in sub ==> x == sub[0] || x in sub[1..];
      } else {
        SubsequenceIn(sub, s[1..]);
      }
    }
  }

  /** No two elements of `s` share a key. */
  predicate DistinctBy<T, K(==)>(s: seq<T>, key: T -> K)
  {
    forall a, b :: 0 <= a < b < |s| ==> key(s[a]) != key(s[b])
  }

  /** Deleting elements cannot make two keys collide. */
  lemma {:induction false} SubsequenceKeepsDistinct<T(!new), K>(sub: seq<T>, s: seq<T>, key: T -> K)
    requires IsSubsequence(sub, s) && DistinctBy(s, key)
    ensures DistinctBy(sub, key)
    decreases |s|
  {
    if |sub| > 0 && |s| > 0 {
      assert DistinctBy(s[1..], key);
      if sub[0] == s[0] {
        SubsequenceKeepsDistinct(sub[1..], s[1..], key);
        SubsequenceIn(sub[1..], s[1..]);
        forall a, b | 0 <= a < b < |sub|
          ensures key(sub[a]) != key(sub[b])
        {
          assert sub[b] == sub[1..][b - 1];
          if a == 0 {
            assert sub[1..][b - 1] in sub[1..];
            var m :| 0 <= m < |s[1..]| && s[1..][m] == sub[b];
            assert s[m + 1] == sub[b];
          } else {
            assert sub[a] == sub[1..][a - 1];
          }
        }
      } else {
        SubsequenceKeepsDistinct(sub, s[1..], key);
      }
    }
  }

  /** Appending an element whose key is new keeps keys distinct. */
  lemma AppendKeepsDistinct<T, K>(s: seq<T>, x: T, key: T -> K)
    requires DistinctBy(s, key)
    requires forall k :: 0 <= k < |s| ==> key(s[k]) != key(x)
    ensures DistinctBy(s + [x], key)
  {
    var r := s + [x];
    forall a, b | 0 <= a < b < |r|
      ensures key(r[a]) != key(r[b])
    {
      assert r[a] == s[a];
      if b < |s| {
        assert r[b] == s[b];
      }
    }
  }
}
