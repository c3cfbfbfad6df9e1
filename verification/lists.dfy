/** Sequence and set utilities: filtering, subsequences, removal of the first
    occurrence of a value (Python's `list.remove`) and cardinality of images. */
module Lists {

  /** `a` can be obtained from `b` by deleting elements, keeping the order. */
  predicate IsSubsequence<T(==)>(a: seq<T>, b: seq<T>)
    decreases |b|
  {
    |a| == 0 ||
    (|b| > 0 &&
     ((a[0] == b[0] && IsSubsequence(a[1..], b[1..])) || IsSubsequence(a, b[1..])))
  }

  /** The elements of `s` satisfying `p`, in their original order. */
  function Filter<T(==,!new)>(p: T -> bool, s: seq<T>): (r: seq<T>)
    ensures IsSubsequence(r, s)
    ensures forall x {:trigger multiset(r)[x]} :: multiset(r)[x] == if p(x) then multiset(s)[x] else 0
  {
    if |s| == 0 then []
    else
      assert s == [s[0]] + s[1..];
      if p(s[0]) then [s[0]] + Filter(p, s[1..]) else Filter(p, s[1..])
  }

  /** Membership in a filtered sequence, derived from the count characterisation. */
  lemma FilterMembership<T(!new)>(p: T -> bool, s: seq<T>, x: T)
    ensures x in Filter(p, s) <==> x in s && p(x)
  {
    assert multiset(Filter(p, s))[x] == if p(x) then multiset(s)[x] else 0;
  }

  /** Filtering by `q` and then by `p` is filtering once by a predicate `r`
      that is their conjunction on the elements. */
  lemma {:induction false} FilterFilter<T(!new)>(p: T -> bool, q: T -> bool, r: T -> bool, s: seq<T>)
    requires forall i :: 0 <= i < |s| ==> r(s[i]) == (q(s[i]) && p(s[i]))
    ensures Filter(p, Filter(q, s)) == Filter(r, s)
  {
    if |s| > 0 {
      FilterFilter(p, q, r, s[1..]);
    }
  }

  /** Filtering by a predicate that implies another keeps a subsequence of
      what filtering by the other keeps. */
  lemma {:induction false} FilterMonotone<T(!new)>(p: T -> bool, q: T -> bool, s: seq<T>)
    requires forall i :: 0 <= i < |s| && p(s[i]) ==> q(s[i])
    ensures IsSubsequence(Filter(p, s), Filter(q, s))
  {
    if |s| > 0 {
      var fp, fq := Filter(p, s[1..]), Filter(q, s[1..]);
      FilterMonotone(p, q, s[1..]);
      if p(s[0]) {
        assert ([s[0]] + fp)[1..] == fp && ([s[0]] + fq)[1..] == fq;
      } else if q(s[0]) {
        assert ([s[0]] + fq)[1..] == fq;
        SubsequenceOfTail([s[0]] + fq);
        SubsequenceTransitive(fp, fq, [s[0]] + fq);
      }
    }
  }

  /** A filter whose predicate holds of every element keeps everything. */
  lemma {:induction false} FilterAll<T(!new)>(p: T -> bool, s: seq<T>)
    requires forall i :: 0 <= i < |s| ==> p(s[i])
    ensures Filter(p, s) == s
  {
    if |s| > 0 {
      FilterAll(p, s[1..]);
      assert s == [s[0]] + s[1..];
    }
  }

  /** Python's `list.remove(v)` on a list that holds `v`, and the identity otherwise. */
  function RemoveFirst<T(==)>(s: seq<T>, v: T): (r: seq<T>)
    ensures v in s ==> multiset(r) == multiset(s) - multiset{v}
    ensures v !in s ==> r == s
    ensures IsSubsequence(r, s)
  {
    if |s| == 0 then []
    else
      assert s == [s[0]] + s[1..];
      if s[0] == v then
        SubsequenceOfTail(s);
        s[1..]
      else [s[0]] + RemoveFirst(s[1..], v)
  }

  /** Removing the first `v` drops one element and keeps every other one. */
  lemma RemoveFirstMembers<T>(s: seq<T>, v: T)
    requires v in s
    ensures |RemoveFirst(s, v)| == |s| - 1
    ensures forall x :: x in RemoveFirst(s, v) ==> x in s
    ensures forall x :: x in s && x != v ==> x in RemoveFirst(s, v)
  {
  }

  lemma {:induction false} SubsequenceReflexive<T>(s: seq<T>)
    ensures IsSubsequence(s, s)
  {
    if |s| > 0 {
      SubsequenceReflexive(s[1..]);
    }
  }

  lemma SubsequenceOfTail<T>(s: seq<T>)
    requires |s| > 0
    ensures IsSubsequence(s[1..], s)
  {
    SubsequenceReflexive(s[1..]);
  }

  /** The subsequence relation is transitive. */
  lemma {:induction false} SubsequenceTransitive<T>(a: seq<T>, b: seq<T>, c: seq<T>)
    requires IsSubsequence(a, b) && IsSubsequence(b, c)
    ensures IsSubsequence(a, c)
    decreases |c|
  {
    if |a| > 0 {
      if b[0] == c[0] && IsSubsequence(b[1..], c[1..]) {
        if a[0] == b[0] && IsSubsequence(a[1..], b[1..]) {
          SubsequenceTransitive(a[1..], b[1..], c[1..]);
        } else {
          SubsequenceTransitive(a, b[1..], c[1..]);
        }
      } else {
        SubsequenceTransitive(a, b, c[1..]);
      }
    }
  }

  /** Concatenating subsequences of two sequences gives a subsequence of
      their concatenation. */
  lemma {:induction false} SubsequenceConcat<T>(a: seq<T>, b: seq<T>, c: seq<T>, d: seq<T>)
    requires IsSubsequence(a, b) && IsSubsequence(c, d)
    ensures IsSubsequence(a + c, b + d)
    decreases |b|
  {
    if |b| > 0 {
      assert (b + d)[0] == b[0];
      assert (b + d)[1..] == b[1..] + d;
      if |a| == 0 {
        SubsequenceConcat(a, b[1..], c, d);
        assert a + c == c;
      } else {
        assert (a + c)[0] == a[0];
        assert (a + c)[1..] == a[1..] + c;
        if a[0] == b[0] && IsSubsequence(a[1..], b[1..]) {
          SubsequenceConcat(a[1..], b[1..], c, d);
        } else {
          SubsequenceConcat(a, b[1..], c, d);
        }
      }
    } else {
      assert a == [];
      assert a + c == c && b + d == d;
    }
  }

  /** Appending an element to both sides keeps the subsequence relation. */
  lemma SubsequenceAppendBoth<T>(a: seq<T>, b: seq<T>, x: T)
    requires IsSubsequence(a, b)
    ensures IsSubsequence(a + [x], b + [x])
  {
    SubsequenceReflexive([x]);
    SubsequenceConcat(a, b, [x], [x]);
  }

  /** Appending an element to the longer side keeps the subsequence relation. */
  lemma SubsequenceAppendRight<T>(a: seq<T>, b: seq<T>, x: T)
    requires IsSubsequence(a, b)
    ensures IsSubsequence(a, b + [x])
  {
    assert IsSubsequence([], [x]);
    SubsequenceConcat(a, b, [], [x]);
    assert a + [] == a;
  }

  /** A subsequence only holds elements of the longer sequence. */
  lemma {:induction false} SubsequenceMembers<T>(a: seq<T>, b: seq<T>)
    requires IsSubsequence(a, b)
    ensures forall x :: x in a ==> x in b
    decreases |b|
  {
    if |a| > 0 {
      if a[0] == b[0] && IsSubsequence(a[1..], b[1..]) {
        SubsequenceMembers(a[1..], b[1..]);
        assert forall x :: x in a ==> x == a[0] || x in a[1..];
      } else {
        SubsequenceMembers(a, b[1..]);
      }
    }
  }

  /** No element occurs twice. */
  predicate Distinct<T(==)>(s: seq<T>)
  {
    |s| == 0 || (s[0] !in s[1..] && Distinct(s[1..]))
  }

  /** A strictly increasing list has no repetitions. */
  lemma {:induction false} IncreasingDistinct(s: seq<nat>)
    requires forall i, j :: 0 <= i < j < |s| ==> s[i] < s[j]
    ensures Distinct(s)
  {
    if |s| > 0 {
      assert forall k :: 0 <= k < |s| - 1 ==> s[1..][k] == s[k + 1];
      IncreasingDistinct(s[1..]);
    }
  }

  /** In a list without repetitions, no element occurs before its position. */
  lemma {:induction false} DistinctNotBefore<T>(s: seq<T>, j: nat)
    requires Distinct(s) && j < |s|
    ensures s[j] !in s[..j]
  {
    if j > 0 {
      DistinctNotBefore(s[1..], j - 1);
      assert s[..j] == [s[0]] + s[1..][..j - 1];
      assert s[j] in s[1..];
    }
  }

  /** Removing an element keeps a list free of repetitions. */
  lemma {:induction false} DistinctRemoveFirst<T>(s: seq<T>, v: T)
    requires Distinct(s)
    ensures Distinct(RemoveFirst(s, v))
  {
    if |s| > 0 && s[0] != v {
      DistinctRemoveFirst(s[1..], v);
      var rest := RemoveFirst(s[1..], v);
      assert s[0] !in rest by {
        if v in s[1..] {
          RemoveFirstMembers(s[1..], v);
        }
      }
      assert ([s[0]] + rest)[1..] == rest;
    }
  }

  /** Removing the first occurrence of the element at position `j`, when it
      does not occur earlier, removes that position: the elements before it
      stay in place and the ones after it move down by one. */
  lemma {:induction false} RemoveFirstAt<T>(s: seq<T>, j: nat)
    requires j < |s| && s[j] !in s[..j]
    ensures |RemoveFirst(s, s[j])| == |s| - 1
    ensures forall k :: 0 <= k < j ==> RemoveFirst(s, s[j])[k] == s[k]
    ensures forall k :: j <= k < |s| - 1 ==> RemoveFirst(s, s[j])[k] == s[k + 1]
  {
    var v := s[j];
    if j > 0 {
      var t := s[1..];
      assert RemoveFirst(s, v) == [s[0]] + RemoveFirst(t, v) by {
        assert s[0] == s[..j][0];
      }
      assert t[j - 1] == v && t[j - 1] !in t[..j - 1] by {
        assert t[..j - 1] == s[..j][1..];
      }
      RemoveFirstAt(t, j - 1);
    }
  }

  /** A subsequence of a list without repetitions that keeps every element
      satisfying `p` contains the filter by `p` as a subsequence. */
  lemma {:induction false} FilterSubsequenceOf<T(!new)>(p: T -> bool, a: seq<T>, b: seq<T>)
    requires Distinct(a)
    requires IsSubsequence(b, a)
    requires forall x :: x in a && p(x) ==> x in b
    ensures IsSubsequence(Filter(p, a), b)
    decreases |a|
  {
    if |a| > 0 {
      var rest := a[1..];
      assert Distinct(rest);
      assert a[0] !in rest by {
        forall k | 0 <= k < |rest| ensures rest[k] != a[0] {
          assert rest[k] == a[k + 1];
        }
      }
      assert forall x :: x in rest ==> x in a;
      if |b| == 0 {
        assert !p(a[0]);
        FilterSubsequenceOf(p, rest, b);
      } else if b[0] == a[0] && IsSubsequence(b[1..], rest) {
        assert forall x :: x in b ==> x == b[0] || x in b[1..];
        FilterSubsequenceOf(p, rest, b[1..]);
        if !p(a[0]) {
          SubsequenceOfTail(b);
          SubsequenceTransitive(Filter(p, rest), b[1..], b);
        }
      } else {
        SubsequenceMembers(b, rest);
        assert a[0] !in b;
        FilterSubsequenceOf(p, rest, b);
      }
    }
  }

  /** The set of elements of a sequence. */
  function Elems<T(==,!new)>(s: seq<T>): set<T>
  {
    set x | x in s
  }

  /** The image of a set under a function. */
  function Image<A, B(==)>(s: set<A>, f: A -> B): set<B>
  {
    set x | x in s :: f(x)
  }

  /** The image of the elements of a sequence under a function. */
  function SeqImage<A(==), B(==)>(s: seq<A>, f: A -> B): set<B>
  {
    set x | x in s :: f(x)
  }

  /** The image of a set under a function is no larger than the set. */
  lemma {:induction false} ImageCard<A, B>(s: set<A>, f: A -> B)
    ensures |Image(s, f)| <= |s|
    decreases |s|
  {
    if s != {} {
      var y :| y in s;
      var rest := s - {y};
      ImageCard(rest, f);
      assert s == rest + {y};
      assert Image(s, f) == Image(rest, f) + {f(y)};
    }
  }

  /** The image of the elements of a sequence is no larger than its length. */
  lemma {:induction false} SeqImageCard<A, B>(s: seq<A>, f: A -> B)
    ensures |SeqImage(s, f)| <= |s|
  {
    if |s| > 0 {
      var last := s[|s| - 1];
      var init := s[..|s| - 1];
      SeqImageCard(init, f);
      assert s == init + [last];
      assert SeqImage(s, f) == SeqImage(init, f) + {f(last)};
    }
  }
}
