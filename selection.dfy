/**
 * Filtering a sequence by a boolean mask, as `df[mask]` does: the elements the
 * mask holds for, each once, in their original order.
 */
module Selection {

  /** The elements `p` holds for, in order. */
  function Select<T>(t: seq<T>, p: T -> bool): (r: seq<T>)
    ensures |r| <= |t|
  {
    if t == [] then []
    else
      var kept := Select(t[..|t| - 1], p);
      if p(t[|t| - 1]) then kept + [t[|t| - 1]] else kept
  }

  /** An element is returned exactly when it is in the input and `p` holds for it. */
  lemma {:induction false} SelectMembership<T>(t: seq<T>, p: T -> bool, x: T)
    ensures x in Select(t, p) <==> x in t && p(x)
  {
    if t != [] {
      SelectMembership(t[..|t| - 1], p, x);
      assert t == t[..|t| - 1] + [t[|t| - 1]];
    }
  }

  /** The positions of the elements `p` holds for, in increasing order. */
  ghost function MatchIndices<T>(t: seq<T>, p: T -> bool): seq<nat>
  {
    if t == [] then []
    else
      var kept := MatchIndices(t[..|t| - 1], p);
      if p(t[|t| - 1]) then kept + [|t| - 1] else kept
  }

  /**
   * `r` holds the elements of `t` at positions `idx`, the positions increase,
   * and they are exactly the positions where `p` holds.
   */
  ghost predicate Picks<T>(t: seq<T>, p: T -> bool, idx: seq<nat>, r: seq<T>) {
    && |r| == |idx|
    && (forall k :: 0 <= k < |idx| ==> idx[k] < |t| && r[k] == t[idx[k]])
    && (forall k, l :: 0 <= k < l < |idx| ==> idx[k] < idx[l])
    && (forall i :: 0 <= i < |t| ==> (p(t[i]) <==> i in idx))
  }

  /** The number of positions where `p` holds. */
  ghost function MatchCount<T>(t: seq<T>, p: T -> bool): nat {
    |set i | 0 <= i < |t| && p(t[i])|
  }

  /** Filtering keeps exactly the matching elements, each once, in their original order. */
  lemma {:induction false} SelectPicks<T>(t: seq<T>, p: T -> bool)
    ensures Picks(t, p, MatchIndices(t, p), Select(t, p))
  {
    if t != [] {
      var n := |t| - 1;
      var init, last := t[..n], t[n];
      SelectPicks(init, p);
      var idx0, r0 := MatchIndices(init, p), Select(init, p);
      var idx, r := MatchIndices(t, p), Select(t, p);
      assert idx == if p(last) then idx0 + [n] else idx0;
      assert r == if p(last) then r0 + [last] else r0;
      forall k | 0 <= k < |idx| ensures idx[k] < |t| && r[k] == t[idx[k]] {
        if k < |idx0| {
          assert idx[k] == idx0[k] && r[k] == r0[k];
        }
      }
      forall i | 0 <= i < |t| ensures p(t[i]) <==> i in idx {
        if i < n {
          assert t[i] == init[i];
          assert i in idx <==> i in idx0;
        }
      }
    }
  }

  /** Adding one element at the end adds one to the count exactly when it matches. */
  lemma MatchCountLast<T>(t: seq<T>, p: T -> bool)
    requires t != []
    ensures MatchCount(t, p) == MatchCount(t[..|t| - 1], p) + if p(t[|t| - 1]) then 1 else 0
  {
    var n := |t| - 1;
    var init := t[..n];
    var before := set i | 0 <= i < n && p(init[i]);
    var after := set i | 0 <= i < |t| && p(t[i]);
    var added: set<int> := if p(t[n]) then {n} else {};
    assert after == before + added by {
      forall i | i in after ensures i in before + added {
        if i < n { assert init[i] == t[i]; }
      }
      forall i | i in before ensures i in after {
        assert init[i] == t[i];
      }
    }
    assert before !! added;
  }

  /** The number of elements filtering returns is the number of positions that match. */
  lemma {:induction false} SelectCount<T>(t: seq<T>, p: T -> bool)
    ensures |Select(t, p)| == MatchCount(t, p)
  {
    if t != [] {
      SelectCount(t[..|t| - 1], p);
      MatchCountLast(t, p);
    }
  }

  /**
   * Two sequences that agree, position by position, on whether their masks
   * hold give the same positions and the same number of elements.
   */
  lemma {:induction false} SelectAgrees<T>(t1: seq<T>, p1: T -> bool, t2: seq<T>, p2: T -> bool)
    requires |t1| == |t2|
    requires forall i :: 0 <= i < |t1| ==> p1(t1[i]) == p2(t2[i])
    ensures MatchIndices(t1, p1) == MatchIndices(t2, p2)
    ensures |Select(t1, p1)| == |Select(t2, p2)|
    ensures t1 == t2 ==> Select(t1, p1) == Select(t2, p2)
  {
    if t1 != [] {
      SelectAgrees(t1[..|t1| - 1], p1, t2[..|t2| - 1], p2);
    }
  }
}
