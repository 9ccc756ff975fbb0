/** `Array.prototype.filter` on sequences, and the facts about it the model relies on. */
module Filtering {

  /** The elements of `s` that satisfy `keep`, in their original order. */
  function Filter<T>(keep: T -> bool, s: seq<T>): (r: seq<T>)
    ensures |r| <= |s|
  {
    if s == [] then []
    else Filter(keep, s[..|s| - 1]) + (if keep(s[|s| - 1]) then [s[|s| - 1]] else [])
  }

  /** A single element is kept or dropped. */
  lemma FilterSingle<T>(keep: T -> bool, x: T)
    ensures Filter(keep, [x]) == if keep(x) then [x] else []
  {
    assert [x][..0] == [];
  }

  /** Filtering a concatenation filters each part and keeps them in the same order. */
  lemma {:induction false} FilterAppend<T>(keep: T -> bool, a: seq<T>, b: seq<T>)
    ensures Filter(keep, a + b) == Filter(keep, a) + Filter(keep, b)
  {
    if b == [] {
      assert a + b == a;
    } else {
      var b' := b[..|b| - 1];
      assert (a + b)[..|a + b| - 1] == a + b';
      assert (a + b)[|a + b| - 1] == b[|b| - 1];
      FilterAppend(keep, a, b');
    }
  }

  /** Each value occurs in the filtered sequence exactly as often as in the input when it
      is kept, and not at all otherwise. */
  lemma {:induction false} FilterCount<T>(keep: T -> bool, s: seq<T>, x: T)
    ensures multiset(Filter(keep, s))[x] == if keep(x) then multiset(s)[x] else 0
  {
    if s != [] {
      var s' := s[..|s| - 1];
      assert s == s' + [s[|s| - 1]];
      FilterCount(keep, s', x);
    }
  }

  /** A value is in the filtered sequence exactly when it is in the input and is kept. */
  lemma FilterMember<T>(keep: T -> bool, s: seq<T>, x: T)
    ensures x in Filter(keep, s) <==> x in s && keep(x)
  {
    FilterCount(keep, s, x);
    assert x in Filter(keep, s) <==> multiset(Filter(keep, s))[x] > 0;
    assert x in s <==> multiset(s)[x] > 0;
  }

  /** Every element of the filtered sequence is kept. */
  lemma {:induction false} FilterKeeps<T>(keep: T -> bool, s: seq<T>)
    ensures forall i :: 0 <= i < |Filter(keep, s)| ==> keep(Filter(keep, s)[i])
  {
    if s != [] {
      FilterKeeps(keep, s[..|s| - 1]);
    }
  }

  /** Nothing is left when no element is kept. */
  lemma {:induction false} FilterNone<T>(keep: T -> bool, s: seq<T>)
    requires forall i :: 0 <= i < |s| ==> !keep(s[i])
    ensures Filter(keep, s) == []
  {
    if s != [] {
      FilterNone(keep, s[..|s| - 1]);
    }
  }

  /** Nothing is dropped when every element is kept. */
  lemma {:induction false} FilterAll<T>(keep: T -> bool, s: seq<T>)
    requires forall i :: 0 <= i < |s| ==> keep(s[i])
    ensures Filter(keep, s) == s
  {
    if s != [] {
      FilterAll(keep, s[..|s| - 1]);
      assert s[..|s| - 1] + [s[|s| - 1]] == s;
    }
  }
}
