/**
 * Generic facts about sequences that the auditor's lists and counters rely on:
 * filtering a fixed list, being a subsequence of it, having no duplicates, and
 * counting the true entries of a list of flags.
 */
module Sequences {

  /** The elements of `xs` that satisfy `keep`, in their original order
      (defined element by element from the end, as successive pushes build it). */
  function Filter<T>(xs: seq<T>, keep: T -> bool): seq<T>
  {
    if xs == [] then [] else PushIf(Filter(Init(xs), keep), keep(Last(xs)), Last(xs))
  }

  /** `xs` with `x` pushed at the end when `cond` holds. */
  function PushIf<T>(xs: seq<T>, cond: bool, x: T): seq<T> {
    if cond then xs + [x] else xs
  }

  function Init<T>(xs: seq<T>): seq<T>
    requires xs != []
  {
    xs[..|xs| - 1]
  }

  function Last<T>(xs: seq<T>): T
    requires xs != []
  {
    xs[|xs| - 1]
  }

  /** `s` can be obtained from `t` by deleting elements. */
  predicate IsSubsequence<T(==)>(s: seq<T>, t: seq<T>)
    decreases |t|
  {
    if s == [] then true
    else if t == [] then false
    else if Last(s) == Last(t) then IsSubsequence(Init(s), Init(t))
    else IsSubsequence(s, Init(t))
  }

  /** No element occurs twice. */
  predicate Distinct<T(==)>(s: seq<T>) {
    forall i, j :: 0 <= i < j < |s| ==> s[i] != s[j]
  }

  /** Filtering a list extended by one element: the element is pushed when kept. */
  lemma FilterPush<T>(xs: seq<T>, x: T, keep: T -> bool)
    ensures Filter(xs + [x], keep) == PushIf(Filter(xs, keep), keep(x), x)
  {
    assert Init(xs + [x]) == xs;
  }

  lemma {:induction false} FilterMembership<T>(xs: seq<T>, keep: T -> bool, x: T)
    ensures x in Filter(xs, keep) <==> x in xs && keep(x)
  {
    if xs != [] {
      FilterMembership(Init(xs), keep, x);
      assert xs == Init(xs) + [Last(xs)];
    }
  }

  lemma {:induction false} FilterIsSubsequence<T>(xs: seq<T>, keep: T -> bool)
    ensures IsSubsequence(Filter(xs, keep), xs)
  {
    if xs != [] {
      FilterIsSubsequence(Init(xs), keep);
      var rest := Filter(Init(xs), keep);
      if keep(Last(xs)) {
        var r := rest + [Last(xs)];
        assert Filter(xs, keep) == r;
        assert Init(r) == rest;
      } else {
        assert Filter(xs, keep) == rest;
        SubsequenceOfInit(rest, xs);
      }
    }
  }

  /** A subsequence of all but the last element is a subsequence of the whole. */
  lemma {:induction false} SubsequenceOfInit<T>(s: seq<T>, t: seq<T>)
    requires t != [] && IsSubsequence(s, Init(t))
    ensures IsSubsequence(s, t)
    decreases |t|, |s|
  {
    if s != [] && Last(s) == Last(t) {
      // matching the last element of t leaves Init(s) to be found in Init(t)
      SubsequenceDropLast(s, Init(t));
    }
  }

  /** Dropping the last element of a subsequence keeps it a subsequence. */
  lemma {:induction false} SubsequenceDropLast<T>(s: seq<T>, t: seq<T>)
    requires s != [] && IsSubsequence(s, t)
    ensures IsSubsequence(Init(s), t)
    decreases |t|, |s|
  {
    if t == [] {
    } else if Last(s) == Last(t) {
      if Init(s) != [] {
        SubsequenceOfInit(Init(s), t);
      }
    } else {
      SubsequenceDropLast(s, Init(t));
      if Init(s) != [] {
        SubsequenceOfInit(Init(s), t);
      }
    }
  }

  lemma {:induction false} FilterKeepsDistinct<T>(xs: seq<T>, keep: T -> bool)
    requires Distinct(xs)
    ensures Distinct(Filter(xs, keep))
  {
    if xs != [] {
      var init := Init(xs);
      assert Distinct(init) by {
        forall i, j | 0 <= i < j < |init| ensures init[i] != init[j] {
          assert init[i] == xs[i] && init[j] == xs[j];
        }
      }
      FilterKeepsDistinct(init, keep);
      var rest := Filter(init, keep);
      if keep(Last(xs)) {
        var r := rest + [Last(xs)];
        assert Filter(xs, keep) == r;
        forall i | 0 <= i < |rest| ensures r[i] != Last(xs) {
          FilterMembership(init, keep, r[i]);
          assert r[i] == rest[i];
        }
      }
    }
  }

  lemma {:induction false} FilterLength<T>(xs: seq<T>, keep: T -> bool)
    ensures |Filter(xs, keep)| <= |xs|
    ensures |Filter(xs, keep)| == 0 <==> forall i :: 0 <= i < |xs| ==> !keep(xs[i])
  {
    if xs != [] {
      FilterLength(Init(xs), keep);
      assert forall i :: 0 <= i < |xs| - 1 ==> xs[i] == Init(xs)[i];
    }
  }

  /** Number of true entries. */
  function CountTrue(flags: seq<bool>): nat
  {
    if flags == [] then 0
    else CountTrue(flags[..|flags| - 1]) + (if flags[|flags| - 1] then 1 else 0)
  }

  lemma {:induction false} CountTrueBounds(flags: seq<bool>)
    ensures CountTrue(flags) <= |flags|
    ensures CountTrue(flags) == |flags| <==> forall i :: 0 <= i < |flags| ==> flags[i]
  {
    if flags != [] {
      var init := flags[..|flags| - 1];
      CountTrueBounds(init);
      assert forall i :: 0 <= i < |init| ==> init[i] == flags[i];
    }
  }
}
