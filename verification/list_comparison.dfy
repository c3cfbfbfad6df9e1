/** The element-list comparator used when checking database preassembly
    against in-memory preassembly: two statements' lists (their evidence, or
    the statements they support) are mapped to comparable values and matched
    one for one; whatever is left over on either side is reported. */
module ListComparison {
  import opened Wrappers
  import opened Lists

  /** The unmatched values of the first and of the second list. */
  datatype Mismatch<V> = Mismatch(first: seq<V>, second: seq<V>)

  /** The values `comp` assigns to the elements of a list, in list order. */
  function MapValues<E, V>(comp: E -> V, s: seq<E>): (r: seq<V>)
    ensures |r| == |s|
    ensures forall i :: 0 <= i < |s| ==> r[i] == comp(s[i])
  {
    seq(|s|, i requires 0 <= i < |s| => comp(s[i]))
  }

  /** Multisets are equal exactly when neither difference has an element. */
  lemma MultisetDifferencesEmpty<V>(a: multiset<V>, b: multiset<V>)
    ensures (a - b == multiset{} && b - a == multiset{}) <==> a == b
  {
    if a - b == multiset{} && b - a == multiset{} {
      forall x ensures a[x] == b[x] {
        assert (a - b)[x] == 0 && (b - a)[x] == 0;
      }
    }
  }

  /** One matched value: it leaves the first side and does not reach the second. */
  lemma MatchedStep<V>(a: multiset<V>, b: multiset<V>, left: multiset<V>, right: multiset<V>, v: V)
    requires left == a - b && right == b - a && v in left
    ensures left - multiset{v} == a - (b + multiset{v})
    ensures right == (b + multiset{v}) - a
  {
    forall x ensures (left - multiset{v})[x] == (a - (b + multiset{v}))[x] {
    }
    forall x ensures right[x] == ((b + multiset{v}) - a)[x] {
    }
  }

  /** One unmatched value: the first side is unchanged and the second gains it. */
  lemma UnmatchedStep<V>(a: multiset<V>, b: multiset<V>, left: multiset<V>, right: multiset<V>, v: V)
    requires left == a - b && right == b - a && v !in left
    ensures left == a - (b + multiset{v})
    ensures right + multiset{v} == (b + multiset{v}) - a
  {
    assert left[v] == 0;
    forall x ensures left[x] == (a - (b + multiset{v}))[x] {
    }
    forall x ensures (right + multiset{v})[x] == ((b + multiset{v}) - a)[x] {
    }
  }

  /** What is left after matching the first list against a prefix of the
      second: the multiset differences, each an ordered subsequence. */
  ghost predicate Leftovers<V(!new)>(all1: seq<V>, prefix: seq<V>, left: seq<V>, right: seq<V>)
  {
    && multiset(left) == multiset(all1) - multiset(prefix)
    && multiset(right) == multiset(prefix) - multiset(all1)
    && IsSubsequence(left, all1)
    && IsSubsequence(right, prefix)
  }

  /** Matching one more value of the second list keeps the leftovers right. */
  lemma {:induction false} LeftoversStep<V(!new)>(all1: seq<V>, prefix: seq<V>, left: seq<V>, right: seq<V>, val: V)
    requires Leftovers(all1, prefix, left, right)
    ensures val in left ==> Leftovers(all1, prefix + [val], RemoveFirst(left, val), right)
    ensures val !in left ==> Leftovers(all1, prefix + [val], left, right + [val])
  {
    assert multiset(prefix + [val]) == multiset(prefix) + multiset{val};
    if val in left {
      MatchedStep(multiset(all1), multiset(prefix), multiset(left), multiset(right), val);
      SubsequenceTransitive(RemoveFirst(left, val), left, all1);
      SubsequenceAppendRight(right, prefix, val);
    } else {
      UnmatchedStep(multiset(all1), multiset(prefix), multiset(left), multiset(right), val);
      SubsequenceAppendBoth(right, prefix, val);
    }
  }

  /** Every value of the second list cancels one equal value of the first list
      if there is one and is otherwise kept. The leftovers are exactly the two
      multiset differences, each in the order of its own list. */
  method MatchValues<V(==,!new)>(all1: seq<V>, all2: seq<V>) returns (left: seq<V>, right: seq<V>)
    ensures multiset(left) == multiset(all1) - multiset(all2)
    ensures multiset(right) == multiset(all2) - multiset(all1)
    ensures IsSubsequence(left, all1)
    ensures IsSubsequence(right, all2)
  {
    left, right := all1, [];
    SubsequenceReflexive(all1);
    var i := 0;
    while i < |all2|
      invariant 0 <= i <= |all2|
      invariant Leftovers(all1, all2[..i], left, right)
    {
      var val := all2[i];
      assert all2[..i + 1] == all2[..i] + [val];
      LeftoversStep(all1, all2[..i], left, right, val);
      if val in left {
        left := RemoveFirst(left, val);
      } else {
        right := right + [val];
      }
      i := i + 1;
    }
    assert all2[..|all2|] == all2;
  }

  /** The comparator: the result is `None` when nothing is left over on either
      side, which happens exactly when the two lists map to equal multisets of
      values; otherwise it carries the leftovers of each side. */
  method CompareListElements<E, V(==,!new)>(list1: seq<E>, list2: seq<E>, comp: E -> V)
    returns (r: Option<Mismatch<V>>)
    ensures r.None? <==> multiset(MapValues(comp, list1)) == multiset(MapValues(comp, list2))
    ensures r.Some? ==> multiset(r.value.first) == multiset(MapValues(comp, list1)) - multiset(MapValues(comp, list2))
    ensures r.Some? ==> multiset(r.value.second) == multiset(MapValues(comp, list2)) - multiset(MapValues(comp, list1))
    ensures r.Some? ==> IsSubsequence(r.value.first, MapValues(comp, list1))
    ensures r.Some? ==> IsSubsequence(r.value.second, MapValues(comp, list2))
  {
    var all1 := MapValues(comp, list1);
    var all2 := MapValues(comp, list2);
    var left, right := MatchValues(all1, all2);
    MultisetDifferencesEmpty(multiset(all1), multiset(all2));
    if |left| > 0 || |right| > 0 {
      r := Some(Mismatch(left, right));
    } else {
      r := None;
    }
  }
}
