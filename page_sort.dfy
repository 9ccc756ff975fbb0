/** The ordering of page images in index.js: `pngFiles.sort((a, b) => numA - numB)`, where
    each number is the first digit run of the file name. The comparator throws when a name
    holds no digit; the JavaScript sort is stable. */
module PageSort {
  import opened Wrappers
  import opened Filtering

  /** How the comparator reads a page number out of a file name; None where it throws. */
  type Key = string -> Option<nat>
  
  predicate HasPageNumber(key: Key, name: string) {
    key(name).Some?
  }

  function PageNumber(key: Key, name: string): nat
    requires HasPageNumber(key, name)
  {
    key(name).value
  }

  predicate AllNumbered(key: Key, names: seq<string>) {
    forall i :: 0 <= i < |names| ==> HasPageNumber(key, names[i])
  }

  /** The sort finishes without the comparator throwing. A comparison sort compares every
      element of a sequence of two or more at least once, and never compares anything in a
      shorter one. */
  predicate Comparable(key: Key, names: seq<string>) {
    |names| < 2 || AllNumbered(key, names)
  }

  /** `a` may stand before `b`: the comparator returns a value <= 0 for them. */
  predicate PageLe(key: Key, a: string, b: string) {
    HasPageNumber(key, a) && HasPageNumber(key, b) && PageNumber(key, a) <= PageNumber(key, b)
  }

  ghost predicate SortedByPage(key: Key, names: seq<string>) {
    forall i, j :: 0 <= i < j < |names| ==> PageLe(key, names[i], names[j])
  }

  /** The names whose page number is `k`. */
  function OnPage(key: Key, k: nat): string -> bool {
    name => key(name) == Some(k)
  }

  /** Places `x` after every name of `sorted` that the comparator lets stand before it,
      and before the rest. */
  function Insert(key: Key, sorted: seq<string>, x: string): (r: seq<string>)
    ensures |r| == |sorted| + 1
  {
    if sorted == [] then [x]
    else
      var init, last := sorted[..|sorted| - 1], sorted[|sorted| - 1];
      if PageLe(key, last, x) then sorted + [x]
      else Insert(key, init, x) + [last]
  }

  /** The stable sort of `names` by page number: what the JavaScript sort produces when
      its comparator does not throw. */
  function SortByPage(key: Key, names: seq<string>): (r: seq<string>)
    requires Comparable(key, names)
    ensures |r| == |names|
  {
    if names == [] then []
    else Insert(key, SortByPage(key, names[..|names| - 1]), names[|names| - 1])
  }

  /** Inserting adds `x` and loses nothing. */
  lemma {:induction false} InsertPermutes(key: Key, sorted: seq<string>, x: string)
    ensures multiset(Insert(key, sorted, x)) == multiset(sorted) + multiset{x}
  {
    if sorted != [] {
      var init, last := sorted[..|sorted| - 1], sorted[|sorted| - 1];
      assert sorted == init + [last];
      if !PageLe(key, last, x) {
        InsertPermutes(key, init, x);
      }
    }
  }

  /** Sorting neither adds nor drops a name: the result is a permutation of the input. */
  lemma {:induction false} SortByPagePermutes(key: Key, names: seq<string>)
    requires Comparable(key, names)
    ensures multiset(SortByPage(key, names)) == multiset(names)
  {
    if names != [] {
      var init, last := names[..|names| - 1], names[|names| - 1];
      assert names == init + [last];
      SortByPagePermutes(key, init);
      InsertPermutes(key, SortByPage(key, init), last);
    }
  }

  /** Sorting keeps every name, so it keeps every name's page number. */
  lemma SortByPageNumbered(key: Key, names: seq<string>)
    requires AllNumbered(key, names)
    ensures AllNumbered(key, SortByPage(key, names))
  {
    var r := SortByPage(key, names);
    SortByPagePermutes(key, names);
    forall i | 0 <= i < |r| ensures HasPageNumber(key, r[i]) {
      assert r[i] in multiset(names);
    }
  }

  lemma {:induction false} InsertSorted(key: Key, sorted: seq<string>, x: string)
    requires sorted == [] || (AllNumbered(key, sorted) && HasPageNumber(key, x))
    requires SortedByPage(key, sorted)
    ensures SortedByPage(key, Insert(key, sorted, x))
  {
    if sorted != [] {
      var init, last := sorted[..|sorted| - 1], sorted[|sorted| - 1];
      if PageLe(key, last, x) {
        var r := sorted + [x];
        forall i, j | 0 <= i < j < |r| ensures PageLe(key, r[i], r[j]) {
          if j == |sorted| && i < |sorted| - 1 {
            assert PageLe(key, sorted[i], last);
          }
        }
      } else {
        InsertSorted(key, init, x);
        InsertPermutes(key, init, x);
        var r' := Insert(key, init, x);
        var r := r' + [last];
        forall i, j | 0 <= i < j < |r| ensures PageLe(key, r[i], r[j]) {
          if j == |r'| {
            assert r[i] in multiset(r');
            if r[i] != x {
              assert r[i] in multiset(init);
              var i' :| 0 <= i' < |init| && init[i'] == r[i];
              assert PageLe(key, sorted[i'], sorted[|sorted| - 1]);
            }
          } else {
            assert r[i] == r'[i] && r[j] == r'[j];
          }
        }
      }
    }
  }

  /** The sorted names are in ascending order of page number. */
  lemma {:induction false} SortByPageSorted(key: Key, names: seq<string>)
    requires Comparable(key, names)
    ensures SortedByPage(key, SortByPage(key, names))
  {
    if names != [] {
      var init := names[..|names| - 1];
      if |names| >= 2 {
        SortByPageNumbered(key, init);
      }
      SortByPageSorted(key, init);
      InsertSorted(key, SortByPage(key, init), names[|names| - 1]);
    }
  }

  /** Every name has a page number and the page numbers strictly increase. */
  ghost predicate StrictlyByPage(key: Key, names: seq<string>) {
    forall i, j :: 0 <= i < j < |names| ==>
      HasPageNumber(key, names[i]) && HasPageNumber(key, names[j]) &&
      PageNumber(key, names[i]) < PageNumber(key, names[j])
  }

  /** Two names of a strictly increasing arrangement both have page numbers. */
  lemma StrictPairNumbered(key: Key, names: seq<string>, i: nat, j: nat)
    requires StrictlyByPage(key, names) && i < j < |names|
    ensures HasPageNumber(key, names[i]) && HasPageNumber(key, names[j])
  {
  }

  /** In a strictly increasing arrangement of two or more names every name has a page
      number, as each is compared with another. */
  lemma StrictNumbered(key: Key, names: seq<string>)
    requires StrictlyByPage(key, names) && |names| >= 2
    ensures AllNumbered(key, names)
  {
    forall j | 0 <= j < |names|
      ensures HasPageNumber(key, names[j])
    {
      if j == 0 {
        StrictPairNumbered(key, names, 0, 1);
      } else {
        StrictPairNumbered(key, names, 0, j);
      }
    }
  }

  /** Rearranging names keeps them all numbered. */
  lemma NumberedPermutation(key: Key, a: seq<string>, b: seq<string>)
    requires multiset(a) == multiset(b) && AllNumbered(key, b)
    ensures AllNumbered(key, a)
  {
    forall i | 0 <= i < |a|
      ensures HasPageNumber(key, a[i])
    {
      assert a[i] in multiset(b);
      var j :| 0 <= j < |b| && b[j] == a[i];
    }
  }

  /** When no two names share a page number there is one sorted arrangement only: any
      sorted permutation of names in strictly increasing page order is that order. */
  lemma {:induction false} SortedUnique(key: Key, a: seq<string>, b: seq<string>)
    requires SortedByPage(key, a) && StrictlyByPage(key, b)
    requires multiset(a) == multiset(b)
    ensures a == b
  {
    assert |a| == |multiset(a)| == |b|;
    if a != [] {
      var n := |a|;
      SameLast(key, a, b);
      SplitLast(a);
      SplitLast(b);
      assert multiset(a[..n - 1]) == multiset(b[..n - 1]);
      SortedUnique(key, a[..n - 1], b[..n - 1]);
      SameInitAndLast(a, b);
    }
  }

  /** Sequences that agree on everything but their last element, and on that, are equal. */
  lemma SameInitAndLast(a: seq<string>, b: seq<string>)
    requires |a| == |b| > 0
    requires a[..|a| - 1] == b[..|b| - 1] && a[|a| - 1] == b[|b| - 1]
    ensures a == b
  {
    assert a == a[..|a| - 1] + [a[|a| - 1]];
    assert b == b[..|b| - 1] + [b[|b| - 1]];
  }

  /** The names that end the two arrangements of `SortedUnique` coincide. */
  lemma SameLast(key: Key, a: seq<string>, b: seq<string>)
    requires SortedByPage(key, a) && StrictlyByPage(key, b)
    requires multiset(a) == multiset(b) && |a| == |b| > 0
    ensures a[|a| - 1] == b[|b| - 1]
  {
    var n := |a|;
    assert a[n - 1] in multiset(b);
    var m :| 0 <= m < n && b[m] == a[n - 1];
    assert b[n - 1] in multiset(a);
    var p :| 0 <= p < n && a[p] == b[n - 1];
    assert a[p] == a[n - 1] || PageLe(key, a[p], a[n - 1]);
    assert m == n - 1;
  }

  /** Removing the last name from the multiset of a sequence. */
  lemma SplitLast(s: seq<string>)
    requires s != []
    ensures multiset(s[..|s| - 1]) == multiset(s) - multiset{s[|s| - 1]}
  {
    assert s == s[..|s| - 1] + [s[|s| - 1]];
  }

  /** Moving `x` past names that are on other pages leaves the names of every page in the
      same relative order. */
  lemma {:induction false} InsertStable(key: Key, sorted: seq<string>, x: string, k: nat)
    ensures Filter(OnPage(key, k), Insert(key, sorted, x)) == Filter(OnPage(key, k), sorted + [x])
  {
    if sorted != [] {
      var init, last := sorted[..|sorted| - 1], sorted[|sorted| - 1];
      if !PageLe(key, last, x) {
        var keep := OnPage(key, k);
        var fx, fl := Filter(keep, [x]), Filter(keep, [last]);
        FilterSingle(keep, x);
        FilterSingle(keep, last);
        assert fx == [] || fl == [];
        calc {
          Filter(keep, Insert(key, sorted, x));
          { assert Insert(key, sorted, x) == Insert(key, init, x) + [last]; }
          Filter(keep, Insert(key, init, x) + [last]);
          { FilterAppend(keep, Insert(key, init, x), [last]); }
          Filter(keep, Insert(key, init, x)) + fl;
          { InsertStable(key, init, x, k); }
          Filter(keep, init + [x]) + fl;
          { FilterAppend(keep, init, [x]); }
          Filter(keep, init) + fx + fl;
          Filter(keep, init) + fl + fx;
          { FilterAppend(keep, init, [last]); }
          Filter(keep, init + [last]) + fx;
          { assert init + [last] == sorted; FilterAppend(keep, sorted, [x]); }
          Filter(keep, sorted + [x]);
        }
      }
    }
  }

  /** The sort is stable: the names that share a page number keep the order of the
      directory listing. */
  lemma {:induction false} SortByPageStable(key: Key, names: seq<string>, k: nat)
    requires Comparable(key, names)
    ensures Filter(OnPage(key, k), SortByPage(key, names)) == Filter(OnPage(key, k), names)
  {
    if names != [] {
      var init, last := names[..|names| - 1], names[|names| - 1];
      var keep := OnPage(key, k);
      calc {
        Filter(keep, SortByPage(key, names));
        Filter(keep, Insert(key, SortByPage(key, init), last));
        { InsertStable(key, SortByPage(key, init), last, k); }
        Filter(keep, SortByPage(key, init) + [last]);
        { FilterAppend(keep, SortByPage(key, init), [last]); }
        Filter(keep, SortByPage(key, init)) + Filter(keep, [last]);
        { SortByPageStable(key, init, k); }
        Filter(keep, init) + Filter(keep, [last]);
        { FilterAppend(keep, init, [last]); }
        Filter(keep, init + [last]);
        { assert init + [last] == names; }
        Filter(keep, names);
      }
    }
  }

  /** `x` is inserted right after the last name that the comparator lets stand before it:
      behind it, every name is one that the comparator puts after `x`. */
  lemma {:induction false} InsertPosition(key: Key, sorted: seq<string>, x: string, j: nat)
    requires j <= |sorted|
    requires j > 0 ==> PageLe(key, sorted[j - 1], x)
    requires forall k :: j <= k < |sorted| ==> !PageLe(key, sorted[k], x)
    ensures Insert(key, sorted, x) == sorted[..j] + [x] + sorted[j..]
    decreases |sorted| - j
  {
    if j == |sorted| {
      InsertAtEnd(key, sorted, x);
    } else {
      var init := sorted[..|sorted| - 1];
      assert forall k :: j <= k < |init| ==> init[k] == sorted[k];
      assert j > 0 ==> init[j - 1] == sorted[j - 1];
      InsertPosition(key, init, x, j);
      InsertBeforeLast(key, sorted, x, j);
    }
  }

  /** When the last name may stand before `x`, `x` goes to the end. */
  lemma InsertAtEnd(key: Key, sorted: seq<string>, x: string)
    requires sorted != [] ==> PageLe(key, sorted[|sorted| - 1], x)
    ensures Insert(key, sorted, x) == sorted[..|sorted|] + [x] + sorted[|sorted|..]
  {
    assert sorted[..|sorted|] == sorted && sorted[|sorted|..] == [];
  }

  /** When the last name may not stand before `x`, it stays last, behind the insertion
      into the other names. */
  lemma InsertBeforeLast(key: Key, sorted: seq<string>, x: string, j: nat)
    requires j < |sorted| && !PageLe(key, sorted[|sorted| - 1], x)
    requires var init := sorted[..|sorted| - 1];
      j <= |init| && Insert(key, init, x) == init[..j] + [x] + init[j..]
    ensures Insert(key, sorted, x) == sorted[..j] + [x] + sorted[j..]
  {
    var init, last := sorted[..|sorted| - 1], sorted[|sorted| - 1];
    assert init[..j] == sorted[..j];
    assert init[j..] + [last] == sorted[j..];
    calc {
      Insert(key, sorted, x);
      Insert(key, init, x) + [last];
      init[..j] + [x] + init[j..] + [last];
      sorted[..j] + [x] + sorted[j..];
    }
  }

  /** A name without a page number among the sorted prefix and the next name comes from
      the input. */
  lemma UnnumberedSurvives(key: Key, s: seq<string>, i: nat)
    requires i < |s|
    requires Comparable(key, s[..i])
    requires !AllNumbered(key, SortByPage(key, s[..i]) + [s[i]])
    ensures !AllNumbered(key, s)
  {
    var t := SortByPage(key, s[..i]) + [s[i]];
    var k :| 0 <= k < |t| && !HasPageNumber(key, t[k]);
    if k < i {
      SortByPagePermutes(key, s[..i]);
      assert t[k] in multiset(s[..i]);
      var m :| 0 <= m < i && s[..i][m] == t[k];
      assert !HasPageNumber(key, s[m]);
    } else {
      assert !HasPageNumber(key, s[i]);
    }
  }

  /** `pngFiles.sort((a, b) => numA - numB)` on the array of names, by insertion: each
      name in turn is moved towards the front past the names with a larger page number.
      Returns false when the comparator threw because a name compared holds no digit; the
      array then holds the same names in some order. */
  method SortInPlace(key: Key, a: array<string>) returns (ok: bool)
    modifies a
    ensures multiset(a[..]) == multiset(old(a[..]))
    ensures ok <==> Comparable(key, old(a[..]))
    ensures ok ==> a[..] == SortByPage(key, old(a[..]))
  {
    ghost var s := a[..];
    if a.Length < 2 {
      ShortSorted(key, s);
      return true;
    }
    SortStart(key, s);
    var i := 1;
    while i < a.Length
      invariant 1 <= i <= a.Length
      invariant Comparable(key, s[..i])
      invariant a[..] == SortByPage(key, s[..i]) + s[i..]
    {
      ghost var sorted := SortByPage(key, s[..i]);
      SortPrepare(key, s, i);
      ghost var pre := a[..];
      ok := InsertAt(key, a, i, sorted, s[i], s[i + 1..]);
      if !ok {
        assert a[..] == pre;
        SortAborts(key, s, i);
        return false;
      }
      SortStep(key, s, i);
      i := i + 1;
    }
    SortComplete(key, s);
    return true;
  }

  /** Fewer than two names are already sorted, and the comparator is never called. */
  lemma ShortSorted(key: Key, s: seq<string>)
    requires |s| < 2
    ensures Comparable(key, s) && SortByPage(key, s) == s
  {
    if |s| == 1 {
      assert s[..0] == [];
      assert [] + [s[0]] == s;
    }
  }

  /** The first name alone is a sorted prefix. */
  lemma SortStart(key: Key, s: seq<string>)
    requires |s| >= 1
    ensures Comparable(key, s[..1]) && s == SortByPage(key, s[..1]) + s[1..]
  {
    assert s[..1][..0] == [];
    assert SortByPage(key, s[..1]) == [s[0]];
  }

  /** Before the name at `i` is inserted: the array splits into the sorted prefix, the name
      and the rest, and a sorted prefix of two or more names is numbered throughout. */
  lemma SortPrepare(key: Key, s: seq<string>, i: nat)
    requires 1 <= i < |s| && Comparable(key, s[..i])
    ensures SortByPage(key, s[..i]) + s[i..] == SortByPage(key, s[..i]) + [s[i]] + s[i + 1..]
    ensures |SortByPage(key, s[..i])| == i
    ensures i >= 2 ==> AllNumbered(key, SortByPage(key, s[..i]))
  {
    assert s[i..] == [s[i]] + s[i + 1..];
    if i >= 2 {
      SortByPageNumbered(key, s[..i]);
    }
  }

  /** Once every name is inserted, the array holds the sort of the whole input. */
  lemma SortComplete(key: Key, s: seq<string>)
    requires Comparable(key, s[..|s|])
    ensures Comparable(key, s)
    ensures SortByPage(key, s[..|s|]) + s[|s|..] == SortByPage(key, s)
    ensures multiset(SortByPage(key, s)) == multiset(s)
  {
    assert s[..|s|] == s;
    assert SortByPage(key, s) + [] == SortByPage(key, s);
    SortByPagePermutes(key, s);
  }

  /** When the insertion of the name at `i` throws, the array still holds the input's names
      and the whole input is not comparable. */
  lemma SortAborts(key: Key, s: seq<string>, i: nat)
    requires 1 <= i < |s| && Comparable(key, s[..i])
    requires !AllNumbered(key, SortByPage(key, s[..i]) + [s[i]])
    ensures multiset(SortByPage(key, s[..i]) + s[i..]) == multiset(s)
    ensures !Comparable(key, s)
  {
    UnnumberedSurvives(key, s, i);
    SortByPagePermutes(key, s[..i]);
    assert s == s[..i] + s[i..];
  }

  /** Inserting the name at `i` into the sorted prefix sorts one more name. */
  lemma SortStep(key: Key, s: seq<string>, i: nat)
    requires 1 <= i < |s| && Comparable(key, s[..i])
    requires AllNumbered(key, SortByPage(key, s[..i]) + [s[i]])
    ensures Comparable(key, s[..i + 1])
    ensures SortByPage(key, s[..i + 1]) == Insert(key, SortByPage(key, s[..i]), s[i])
  {
    var t := SortByPage(key, s[..i]) + [s[i]];
    assert s[..i + 1][..i] == s[..i];
    if i == 1 {
      assert s[..1] == [s[0]] && SortByPage(key, s[..1]) == [s[0]];
      assert HasPageNumber(key, t[0]) && HasPageNumber(key, t[1]);
    } else {
      assert HasPageNumber(key, t[i]);
    }
  }

  /** Moves `a[i]` towards the front, one swap at a time, while the name before it has a
      larger page number; `a[..i]` is already sorted. Returns false, leaving the array as
      it was, when the first comparison, of `a[i - 1]` with `a[i]`, throws; later ones
      cannot. */
  method InsertAt(key: Key, a: array<string>, i: nat, ghost sorted: seq<string>, ghost x: string,
                  ghost rest: seq<string>) returns (ok: bool)
    requires a[..] == sorted + [x] + rest && |sorted| == i >= 1
    requires i >= 2 ==> AllNumbered(key, sorted)
    modifies a
    ensures ok <==> AllNumbered(key, sorted + [x])
    ensures ok ==> a[..] == Insert(key, sorted, x) + rest
    ensures !ok ==> unchanged(a)
  {
    assert a[..i] == sorted && a[i] == x && a[i + 1..] == rest;
    var page, previous := key(a[i]), key(a[i - 1]);
    if page.None? || previous.None? {
      assert !HasPageNumber(key, (sorted + [x])[i - 1]) || !HasPageNumber(key, (sorted + [x])[i]);
      return false;
    }
    Sink(key, a, i, sorted, x, rest);
    ok := true;
  }

  /** The swapping loop of InsertAt: swaps `x` towards the front while the comparator
      puts the name before it after it. */
  method Sink(key: Key, a: array<string>, i: nat, ghost sorted: seq<string>, ghost x: string,
              ghost rest: seq<string>)
    requires a[..] == sorted + [x] + rest && |sorted| == i
    modifies a
    ensures a[..] == Insert(key, sorted, x) + rest
  {
    assert forall k :: 0 <= k < i ==> a[k] == sorted[k];
    assert forall k :: i < k < a.Length ==> a[k] == rest[k - i - 1];
    var j := i;
    while 0 < j && !PageLe(key, a[j - 1], a[j])
      invariant 0 <= j <= i
      invariant forall k :: 0 <= k < j ==> a[k] == sorted[k]
      invariant a[j] == x
      invariant forall k :: j < k <= i ==> a[k] == sorted[k - 1]
      invariant forall k :: i < k < a.Length ==> a[k] == rest[k - i - 1]
      invariant forall k :: j <= k < i ==> !PageLe(key, sorted[k], x)
    {
      a[j - 1], a[j] := a[j], a[j - 1];
      j := j - 1;
    }
    InsertPosition(key, sorted, x, j);
    assert a[..] == sorted[..j] + [x] + sorted[j..] + rest;
  }
}
