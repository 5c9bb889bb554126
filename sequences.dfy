/**
 * Sequence helpers used by the scorer and the suggestion parser:
 * the JavaScript `Array.prototype.filter` and the first-occurrence
 * de-duplication `[...new Set(xs)]`.
 */
module Sequences {

  /** `sub` is obtained from `s` by deleting elements (order kept). */
  ghost predicate IsSubsequence<T>(sub: seq<T>, s: seq<T>)
    decreases |s|
  {
    if sub == [] then true
    else if s == [] then false
    else if sub[0] == s[0] then IsSubsequence(sub[1..], s[1..])
    else IsSubsequence(sub, s[1..])
  }

  ghost predicate NoDuplicates<T>(s: seq<T>)
  {
    forall i, j :: 0 <= i < j < |s| ==> s[i] != s[j]
  }

  /** The set of elements of a sequence. */
  function Elements<T>(s: seq<T>): set<T>
  {
    set x | x in s
  }

  /** Every element of `xs` occurs in `ref`, and `xs` lists them in the order of their first occurrence in `ref`. */
  ghost predicate InFirstOccurrenceOrder<T>(xs: seq<T>, ref: seq<T>)
  {
    && (forall i :: 0 <= i < |xs| ==> xs[i] in ref)
    && (forall i, j :: 0 <= i < j < |xs| ==> FirstIndex(ref, xs[i]) < FirstIndex(ref, xs[j]))
  }

  /** Index of the first occurrence of `x` in `s`. */
  function FirstIndex<T(==)>(s: seq<T>, x: T): (k: nat)
    requires x in s
    ensures k < |s| && s[k] == x && x !in s[..k]
  {
    if s[0] == x then 0 else 1 + FirstIndex(s[1..], x)
  }

  /** `xs.filter(keep)`: the elements that satisfy `keep`, in their original order. */
  function Filter<T(!new)>(s: seq<T>, keep: T -> bool): (r: seq<T>)
    ensures forall x :: x in r <==> x in s && keep(x)
    ensures |r| <= |s|
    ensures IsSubsequence(r, s)
    ensures forall x :: multiset(r)[x] == if keep(x) then multiset(s)[x] else 0
  {
    if s == [] then []
    else
      assert s == [s[0]] + s[1..];
      if keep(s[0]) then [s[0]] + Filter(s[1..], keep)
      else Filter(s[1..], keep)
  }

  /**
   * `[...new Set(s)]`: a JavaScript Set iterates in insertion order, so each
   * element appears once, at the place of its first occurrence in `s`.
   */
  function Dedup<T(==,!new)>(s: seq<T>): (r: seq<T>)
    ensures NoDuplicates(r)
    ensures forall x :: x in r <==> x in s
    ensures InFirstOccurrenceOrder(r, s)
  {
    if s == [] then []
    else
      var init := s[..|s| - 1];
      var d := Dedup(init);
      var last := s[|s| - 1];
      FirstIndexInPrefix(s);
      if last in d then d
      else
        assert FirstIndex(s, last) == |s| - 1;
        d + [last]
  }

  /** Appending to a sequence does not move the first occurrence of anything already in it. */
  lemma {:induction false} FirstIndexInPrefix<T>(s: seq<T>)
    requires s != []
    ensures forall x :: x in s[..|s| - 1] ==> FirstIndex(s, x) == FirstIndex(s[..|s| - 1], x)
    ensures s[|s| - 1] !in s[..|s| - 1] ==> FirstIndex(s, s[|s| - 1]) == |s| - 1
  {
    var init := s[..|s| - 1];
    forall x | x in init
      ensures FirstIndex(s, x) == FirstIndex(init, x)
    {
      var k := FirstIndex(init, x);
      assert s[..k] == init[..k];
      FirstIndexUnique(s, x, k);
    }
    if s[|s| - 1] !in init {
      assert s[..|s| - 1] == init;
      FirstIndexUnique(s, s[|s| - 1], |s| - 1);
    }
  }

  /** The first occurrence is the only index holding `x` with no earlier `x`. */
  lemma FirstIndexUnique<T>(s: seq<T>, x: T, k: nat)
    requires k < |s| && s[k] == x && x !in s[..k]
    ensures FirstIndex(s, x) == k
  {
  }

  /** A subsequence of a sequence without duplicates has none either. */
  lemma {:induction false} SubsequenceNoDuplicates<T>(sub: seq<T>, s: seq<T>)
    requires IsSubsequence(sub, s) && NoDuplicates(s)
    ensures NoDuplicates(sub)
    decreases |s|
  {
    if sub != [] && s != [] {
      assert NoDuplicates(s[1..]) by {
        forall i, j | 0 <= i < j < |s[1..]| ensures s[1..][i] != s[1..][j] {
          assert s[1..][i] == s[i + 1] && s[1..][j] == s[j + 1];
        }
      }
      if sub[0] == s[0] {
        SubsequenceNoDuplicates(sub[1..], s[1..]);
        SubsequenceElements(sub[1..], s[1..]);
        forall i, j | 0 <= i < j < |sub| ensures sub[i] != sub[j] {
          if i == 0 {
            assert sub[j] == sub[1..][j - 1];
            assert sub[j] in s[1..];
          } else {
            assert sub[i] == sub[1..][i - 1] && sub[j] == sub[1..][j - 1];
          }
        }
      } else {
        SubsequenceNoDuplicates(sub, s[1..]);
      }
    }
  }

  /** Every element of a subsequence is an element of the sequence. */
  lemma {:induction false} SubsequenceElements<T>(sub: seq<T>, s: seq<T>)
    requires IsSubsequence(sub, s)
    ensures forall x :: x in sub ==> x in s
    decreases |s|
  {
    if sub != [] && s != [] {
      if sub[0] == s[0] {
        SubsequenceElements(sub[1..], s[1..]);
        forall x | x in sub ensures x in s {
          if x != sub[0] {
            assert x in sub[1..];
          }
        }
      } else {
        SubsequenceElements(sub, s[1..]);
      }
    }
  }

  /** A sequence without duplicates has exactly as many elements as its set. */
  lemma {:induction false} DistinctCardinality<T>(s: seq<T>)
    requires NoDuplicates(s)
    ensures |Elements(s)| == |s|
  {
    if s != [] {
      var tail := s[1..];
      assert NoDuplicates(tail) by {
        forall i, j | 0 <= i < j < |tail| ensures tail[i] != tail[j] {
          assert tail[i] == s[i + 1] && tail[j] == s[j + 1];
        }
      }
      DistinctCardinality(tail);
      assert s[0] !in tail by {
        forall i | 0 <= i < |tail| ensures tail[i] != s[0] {
          assert tail[i] == s[i + 1];
        }
      }
      assert Elements(s) == Elements(tail) + {s[0]} by {
        assert s == [s[0]] + tail;
      }
    }
  }

  /** Deleting elements keeps the remaining ones in first-occurrence order. */
  lemma {:induction false} SubsequenceKeepsOrder<T>(sub: seq<T>, s: seq<T>, ref: seq<T>)
    requires IsSubsequence(sub, s) && InFirstOccurrenceOrder(s, ref)
    ensures InFirstOccurrenceOrder(sub, ref)
    decreases |s|
  {
    if sub != [] && s != [] {
      var tail := s[1..];
      assert InFirstOccurrenceOrder(tail, ref) by {
        forall i, j | 0 <= i < j < |tail|
          ensures FirstIndex(ref, tail[i]) < FirstIndex(ref, tail[j])
        {
          assert tail[i] == s[i + 1] && tail[j] == s[j + 1];
        }
      }
      if sub[0] == s[0] {
        SubsequenceKeepsOrder(sub[1..], tail, ref);
        SubsequenceElements(sub[1..], tail);
        forall i, j | 0 <= i < j < |sub|
          ensures FirstIndex(ref, sub[i]) < FirstIndex(ref, sub[j])
        {
          assert sub[j] == sub[1..][j - 1];
          if i == 0 {
            assert sub[1..][j - 1] in sub[1..];
            assert sub[j] in tail;
            var k :| 0 <= k < |tail| && tail[k] == sub[j];
            assert s[k + 1] == sub[j];
          } else {
            assert sub[i] == sub[1..][i - 1];
          }
        }
      } else {
        SubsequenceKeepsOrder(sub, tail, ref);
      }
    }
  }

  /** A sequence built from the head of `xs` and the rest of `xs` is `xs`. */
  lemma ConsOfTail<T>(xs: seq<T>, ys: seq<T>, tail: seq<T>)
    requires xs != [] && ys == [xs[0]] + tail && tail == xs[1..]
    ensures ys == xs
  {
  }

  /** A filter that keeps everything returns its input. */
  lemma {:induction false} FilterKeepsAll<T(!new)>(s: seq<T>, keep: T -> bool)
    requires forall i :: 0 <= i < |s| ==> keep(s[i])
    ensures Filter(s, keep) == s
  {
    if s != [] {
      FilterKeepsAll(s[1..], keep);
    }
  }
}
