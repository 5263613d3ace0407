/** The abstract value of the index-addressed lists: a sequence of elements, index 0 first.
    Each list operation is specified by one of these functions of the old sequence. */
module Sequences {

  /** `s` with `d` placed at index `i`; the elements from `i` on move up by one. */
  function InsertAt<T>(s: seq<T>, i: nat, d: T): (r: seq<T>)
    requires i <= |s|
    ensures |r| == |s| + 1 && r[i] == d
    ensures forall k :: 0 <= k < i ==> r[k] == s[k]
    ensures forall k :: i <= k < |s| ==> r[k + 1] == s[k]
  {
    seq(|s| + 1, k requires 0 <= k <= |s| => if k < i then s[k] else if k == i then d else s[k - 1])
  }

  /** `s` without its element at index `i`; the elements after it move down by one. */
  function RemoveAt<T>(s: seq<T>, i: nat): (r: seq<T>)
    requires i < |s|
    ensures |r| == |s| - 1
    ensures forall k :: 0 <= k < i ==> r[k] == s[k]
    ensures forall k :: i <= k < |r| ==> r[k] == s[k + 1]
  {
    seq(|s| - 1, k requires 0 <= k < |s| - 1 => if k < i then s[k] else s[k + 1])
  }

  /** Inserting adds exactly one occurrence of `d`. */
  lemma InsertAtMultiset<T>(s: seq<T>, i: nat, d: T)
    requires i <= |s|
    ensures multiset(InsertAt(s, i, d)) == multiset(s) + multiset{d}
  {
    assert InsertAt(s, i, d) == s[..i] + [d] + s[i..];
    assert s == s[..i] + s[i..];
  }

  /** Removing takes away exactly one occurrence of the removed element. */
  lemma RemoveAtMultiset<T>(s: seq<T>, i: nat)
    requires i < |s|
    ensures multiset(RemoveAt(s, i)) == multiset(s) - multiset{s[i]}
  {
    assert RemoveAt(s, i) == s[..i] + s[i + 1..];
    assert s == s[..i] + [s[i]] + s[i + 1..];
  }

  /** Inserting at either end is appending or prepending. */
  lemma InsertAtEnds<T>(s: seq<T>, d: T)
    ensures InsertAt(s, |s|, d) == s + [d]
    ensures InsertAt(s, 0, d) == [d] + s
  {
    assert InsertAt(s, |s|, d) == s + [d];
    assert InsertAt(s, 0, d) == [d] + s;
  }

  /** Removing at either end drops the last or the first element. */
  lemma RemoveAtEnds<T>(s: seq<T>)
    requires |s| > 0
    ensures RemoveAt(s, |s| - 1) == s[..|s| - 1]
    ensures RemoveAt(s, 0) == s[1..]
  {
    assert RemoveAt(s, |s| - 1) == s[..|s| - 1];
    assert RemoveAt(s, 0) == s[1..];
  }

  /** Removing what was just inserted at the same index gives the sequence back. */
  lemma RemoveAtInsertAt<T>(s: seq<T>, i: nat, d: T)
    requires i <= |s|
    ensures RemoveAt(InsertAt(s, i, d), i) == s
  {
    var r := RemoveAt(InsertAt(s, i, d), i);
    assert |r| == |s|;
    forall k | 0 <= k < |s| ensures r[k] == s[k] {
    }
  }

  /** Putting a removed element back where it was gives the sequence back. */
  lemma InsertAtRemoveAt<T>(s: seq<T>, i: nat)
    requires i < |s|
    ensures InsertAt(RemoveAt(s, i), i, s[i]) == s
  {
    var r := InsertAt(RemoveAt(s, i), i, s[i]);
    assert |r| == |s|;
    forall k | 0 <= k < |s| ensures r[k] == s[k] {
      if k > i {
        assert r[(k - 1) + 1] == RemoveAt(s, i)[k - 1];
      }
    }
  }

  /** The elements at indices `i` and `j` of `ns` differ unless `i == j`. */
  ghost predicate Apart<T>(ns: seq<T>, i: int, j: int)
    requires 0 <= i < |ns| && 0 <= j < |ns|
  {
    i != j ==> ns[i] != ns[j]
  }

  /** No element occurs twice in `ns`. */
  ghost predicate Distinct<T>(ns: seq<T>) {
    forall i, j :: 0 <= i < |ns| && 0 <= j < |ns| ==> Apart(ns, i, j)
  }

  /** A value not already in a sequence without repetitions can be inserted anywhere in it. */
  lemma DistinctInsertAt<T>(n: seq<T>, i: nat, x: T)
    requires i <= |n| && Distinct(n) && x !in n
    ensures Distinct(InsertAt(n, i, x))
  {
    var m := InsertAt(n, i, x);
    forall a, b | 0 <= a < |m| && 0 <= b < |m| ensures Apart(m, a, b) {
      var a' := if a < i then a else a - 1;
      var b' := if b < i then b else b - 1;
      if a != i && b != i {
        assert m[a] == n[a'] && m[b] == n[b'] && Apart(n, a', b');
      } else if a != i {
        assert m[a] == n[a'];
      } else if b != i {
        assert m[b] == n[b'];
      }
    }
  }

  /** Removing an element keeps a sequence without repetitions so, and the element is no longer in it. */
  lemma DistinctRemoveAt<T>(n: seq<T>, i: nat)
    requires i < |n| && Distinct(n)
    ensures Distinct(RemoveAt(n, i)) && n[i] !in RemoveAt(n, i)
  {
    var m := RemoveAt(n, i);
    forall a, b | 0 <= a < |m| && 0 <= b < |m| ensures Apart(m, a, b) {
      var a' := if a < i then a else a + 1;
      var b' := if b < i then b else b + 1;
      assert m[a] == n[a'] && m[b] == n[b'] && Apart(n, a', b');
    }
    forall a | 0 <= a < |m| ensures m[a] != n[i] {
      var a' := if a < i then a else a + 1;
      assert m[a] == n[a'] && Apart(n, a', i);
    }
  }

  /** A value that is neither in `n` nor `x` is not in `n` with `x` inserted. */
  lemma OutsideInsertAt<T>(n: seq<T>, i: nat, x: T, y: T)
    requires i <= |n| && y !in n && y != x
    ensures y !in InsertAt(n, i, x)
  {
    var m := InsertAt(n, i, x);
    forall k | 0 <= k < |m| ensures m[k] != y {
      if k < i {
        assert m[k] == n[k];
      } else if k > i {
        assert m[k] == n[k - 1];
      }
    }
  }

  /** A value not in `n` is not in `n` with one element removed. */
  lemma OutsideRemoveAt<T>(n: seq<T>, i: nat, y: T)
    requires i < |n| && y !in n
    ensures y !in RemoveAt(n, i)
  {
    var m := RemoveAt(n, i);
    forall k | 0 <= k < |m| ensures m[k] != y {
      if k < i {
        assert m[k] == n[k];
      } else {
        assert m[k] == n[k + 1];
      }
    }
  }

  /** The index of the first occurrence of `d` in `s`, or `|s|` when there is none. */
  function IndexOf<T(==)>(s: seq<T>, d: T): (r: nat)
    ensures r <= |s|
    ensures r < |s| <==> d in s
    ensures r < |s| ==> s[r] == d
    ensures forall k :: 0 <= k < r ==> s[k] != d
  {
    if |s| == 0 then 0
    else if s[0] == d then 0
    else 1 + IndexOf(s[1..], d)
  }

  /** `s` without the first occurrence of `d`; `s` itself when `d` does not occur. */
  function RemoveFirst<T(==)>(s: seq<T>, d: T): (r: seq<T>)
    ensures multiset(r) == multiset(s) - multiset{d}
    ensures d in s ==> r == RemoveAt(s, IndexOf(s, d))
    ensures d !in s ==> r == s
  {
    if d in s then RemoveAtMultiset(s, IndexOf(s, d)); RemoveAt(s, IndexOf(s, d)) else s
  }

  ghost predicate Sorted(s: seq<int>) {
    forall i, j :: 0 <= i < j < |s| ==> s[i] <= s[j]
  }

  /** Where `insert_sorted` puts `d`: before the first element that `d` is not greater than. */
  function SortedIndex(s: seq<int>, d: int): (r: nat)
    ensures r <= |s|
    ensures forall k :: 0 <= k < r ==> s[k] < d
    ensures r < |s| ==> d <= s[r]
  {
    if |s| == 0 || d <= s[0] then 0 else 1 + SortedIndex(s[1..], d)
  }

  /** Inserting at `SortedIndex` keeps a sorted sequence sorted. */
  lemma InsertSortedKeepsSorted(s: seq<int>, d: int)
    requires Sorted(s)
    ensures Sorted(InsertAt(s, SortedIndex(s, d), d))
  {
    var i := SortedIndex(s, d);
    var r := InsertAt(s, i, d);
    forall a, b | 0 <= a < b < |r| ensures r[a] <= r[b] {
      if b < i {
      } else if b == i {
      } else if a < i {
        assert r[b] == s[b - 1];
      } else if a == i {
        assert r[b] == s[b - 1];
      } else {
        assert r[a] == s[a - 1] && r[b] == s[b - 1];
      }
    }
  }
}
