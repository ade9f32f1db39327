/** Order-preserving filtering (PHP `array_values(array_filter(...))`) and
    the subsequence relation it produces. */
module Sequences {

  /** The elements of `s` that satisfy `keep`, in their original order. */
  function Filtered<T>(s: seq<T>, keep: T -> bool): (r: seq<T>)
    ensures |r| <= |s|
    ensures forall x :: x in r ==> x in s && keep(x)
  {
    if s == [] then []
    else Filtered(s[..|s| - 1], keep) + (if keep(s[|s| - 1]) then [s[|s| - 1]] else [])
  }

  lemma FilteredSnoc<T>(s: seq<T>, x: T, keep: T -> bool)
    ensures Filtered(s + [x], keep) == Filtered(s, keep) + (if keep(x) then [x] else [])
  {
    assert (s + [x])[..|s|] == s;
  }

  /** `a` can be obtained from `b` by deleting elements (greedy match from the back). */
  predicate IsSubsequence<T(==)>(a: seq<T>, b: seq<T>)
    decreases |b|
  {
    if a == [] then true
    else if b == [] then false
    else if a[|a| - 1] == b[|b| - 1] then IsSubsequence(a[..|a| - 1], b[..|b| - 1])
    else IsSubsequence(a, b[..|b| - 1])
  }

  /** Filtering distributes over concatenation: it never reorders. */
  lemma {:induction false} FilteredAppend<T>(a: seq<T>, b: seq<T>, keep: T -> bool)
    ensures Filtered(a + b, keep) == Filtered(a, keep) + Filtered(b, keep)
    decreases |b|
  {
    if b == [] {
      assert a + b == a;
    } else {
      var b' := b[..|b| - 1];
      assert (a + b)[..|a + b| - 1] == a + b';
      assert (a + b)[|a + b| - 1] == b[|b| - 1];
      FilteredAppend(a, b', keep);
    }
  }

  /** An element survives filtering exactly when it occurs and is kept. */
  lemma {:induction false} FilteredMember<T>(s: seq<T>, keep: T -> bool, x: T)
    ensures x in Filtered(s, keep) <==> x in s && keep(x)
  {
    if s != [] {
      var s' := s[..|s| - 1];
      assert s == s' + [s[|s| - 1]];
      FilteredMember(s', keep, x);
    }
  }

  lemma {:induction false} SubsequenceDropLast<T>(a: seq<T>, b: seq<T>)
    requires a != [] && IsSubsequence(a, b)
    ensures IsSubsequence(a[..|a| - 1], b)
    decreases |b|, 0
  {
    var a' := a[..|a| - 1];
    if a' != [] {
      if a[|a| - 1] == b[|b| - 1] {
        SubsequenceExtend(a', b[..|b| - 1], b[|b| - 1]);
        assert b[..|b| - 1] + [b[|b| - 1]] == b;
      } else {
        SubsequenceDropLast(a, b[..|b| - 1]);
        SubsequenceExtend(a', b[..|b| - 1], b[|b| - 1]);
        assert b[..|b| - 1] + [b[|b| - 1]] == b;
      }
    }
  }

  lemma {:induction false} SubsequenceExtend<T>(a: seq<T>, b: seq<T>, y: T)
    requires IsSubsequence(a, b)
    ensures IsSubsequence(a, b + [y])
    decreases |b|, 1
  {
    var b' := b + [y];
    assert b'[..|b'| - 1] == b;
    if a != [] && a[|a| - 1] == y {
      SubsequenceDropLast(a, b);
    }
  }

  /** Filtering keeps a subsequence of its input. */
  lemma {:induction false} FilteredIsSubsequence<T>(s: seq<T>, keep: T -> bool)
    ensures IsSubsequence(Filtered(s, keep), s)
  {
    if s != [] {
      var s', x := s[..|s| - 1], s[|s| - 1];
      var f' := Filtered(s', keep);
      FilteredIsSubsequence(s', keep);
      assert s' + [x] == s;
      if keep(x) {
        assert Filtered(s, keep) == f' + [x];
        assert (f' + [x])[..|f' + [x]| - 1] == f';
      } else {
        assert Filtered(s, keep) == f';
        SubsequenceExtend(f', s', x);
      }
    }
  }

  /** A stricter filter keeps a subsequence of what a looser one keeps. */
  lemma {:induction false} FilteredMonotone<T>(s: seq<T>, strict: T -> bool, loose: T -> bool)
    requires forall x :: x in s && strict(x) ==> loose(x)
    ensures IsSubsequence(Filtered(s, strict), Filtered(s, loose))
  {
    if s != [] {
      var s', x := s[..|s| - 1], s[|s| - 1];
      FilteredMonotone(s', strict, loose);
      var a, b := Filtered(s', strict), Filtered(s', loose);
      if strict(x) {
        assert Filtered(s, strict) == a + [x] && Filtered(s, loose) == b + [x];
        assert (a + [x])[..|a + [x]| - 1] == a;
        assert (b + [x])[..|b + [x]| - 1] == b;
      } else if loose(x) {
        assert Filtered(s, strict) == a && Filtered(s, loose) == b + [x];
        SubsequenceExtend(a, b, x);
      } else {
        assert Filtered(s, strict) == a && Filtered(s, loose) == b;
      }
    }
  }

  /** Appending the same element to both sides keeps a subsequence. */
  lemma SubsequenceSnoc<T>(a: seq<T>, b: seq<T>, x: T)
    requires IsSubsequence(a, b)
    ensures IsSubsequence(a + [x], b + [x])
  {
    assert (a + [x])[..|a|] == a;
    assert (b + [x])[..|b|] == b;
  }

  /** Filtering a subsequence gives a subsequence of the filtered whole. */
  lemma {:induction false} FilteredPreservesSubsequence<T>(a: seq<T>, b: seq<T>, keep: T -> bool)
    requires IsSubsequence(a, b)
    ensures IsSubsequence(Filtered(a, keep), Filtered(b, keep))
    decreases |b|
  {
    if a != [] {
      var a', b' := a[..|a| - 1], b[..|b| - 1];
      var y := b[|b| - 1];
      assert b == b' + [y];
      FilteredSnoc(b', y, keep);
      if a[|a| - 1] == y {
        assert a == a' + [y];
        FilteredSnoc(a', y, keep);
        FilteredPreservesSubsequence(a', b', keep);
        if keep(y) {
          SubsequenceSnoc(Filtered(a', keep), Filtered(b', keep), y);
        } else {
          assert Filtered(a, keep) == Filtered(a', keep);
          assert Filtered(b, keep) == Filtered(b', keep);
        }
      } else {
        FilteredPreservesSubsequence(a, b', keep);
        if keep(y) {
          SubsequenceExtend(Filtered(a, keep), Filtered(b', keep), y);
        } else {
          assert Filtered(b, keep) == Filtered(b', keep);
        }
      }
    }
  }
}
