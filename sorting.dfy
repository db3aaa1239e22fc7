/**
 * Sorting by a numeric key, largest first, as `sort_values(key, ascending=False)`
 * orders a frame: the result holds the same elements, in non-increasing key order.
 */
module Sorting {

  predicate SortedDesc<T>(s: seq<T>, key: T -> int) {
    forall i, j :: 0 <= i < j < |s| ==> key(s[i]) >= key(s[j])
  }

  /** A sorted sequence stays sorted when an element no smaller than its first is put in front. */
  lemma PrependSorted<T>(y: T, s: seq<T>, key: T -> int)
    requires SortedDesc(s, key)
    requires s == [] || key(y) >= key(s[0])
    ensures SortedDesc([y] + s, key)
  {
    var r := [y] + s;
    forall i, j | 0 <= i < j < |r| ensures key(r[i]) >= key(r[j]) {
      if i > 0 {
        assert r[i] == s[i - 1] && r[j] == s[j - 1];
      } else {
        assert r[j] == s[j - 1];
      }
    }
  }

  /** Inserting into a sorted sequence keeps it sorted and adds exactly one element. */
  function InsertDesc<T>(x: T, s: seq<T>, key: T -> int): (r: seq<T>)
    requires SortedDesc(s, key)
    ensures SortedDesc(r, key)
    ensures multiset(r) == multiset(s) + multiset{x}
    ensures r != [] && (r[0] == x || (s != [] && r[0] == s[0]))
  {
    if s == [] || key(x) >= key(s[0]) then
      PrependSorted(x, s, key);
      [x] + s
    else
      var rest := InsertDesc(x, s[1..], key);
      PrependSorted(s[0], rest, key);
      assert s == [s[0]] + s[1..];
      [s[0]] + rest
  }

  /** The same elements (as a multiset), largest key first. */
  function SortDesc<T>(s: seq<T>, key: T -> int): (r: seq<T>)
    ensures SortedDesc(r, key)
    ensures multiset(r) == multiset(s)
  {
    if s == [] then []
    else
      assert s == [s[0]] + s[1..];
      InsertDesc(s[0], SortDesc(s[1..], key), key)
  }

  /** After sorting, the first element is one of the input's and no input element has a larger key. */
  lemma FirstIsLargest<T>(s: seq<T>, key: T -> int)
    requires s != []
    ensures SortDesc(s, key)[0] in s
    ensures forall x :: x in s ==> key(x) <= key(SortDesc(s, key)[0])
  {
    var sorted := SortDesc(s, key);
    assert sorted[0] in multiset(s);
    forall x | x in s ensures key(x) <= key(sorted[0]) {
      assert x in multiset(sorted);
      var j :| 0 <= j < |sorted| && sorted[j] == x;
    }
  }
}
