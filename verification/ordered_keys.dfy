/** Ascending iteration over finite sets of integers. Python 2 dictionaries
    keyed by small integers are assumed to iterate their keys in ascending
    order; this module supplies that order and sums taken in it. */
module OrderedKeys {

  predicate StrictlyAscending(s: seq<int>) {
    forall i, j :: 0 <= i < j < |s| ==> s[i] < s[j]
  }

  /** A value below every element of an ascending sequence may lead it. */
  lemma AscendingCons(x: int, s: seq<int>)
    requires StrictlyAscending(s) && forall k :: 0 <= k < |s| ==> x < s[k]
    ensures StrictlyAscending([x] + s)
  {
    var t := [x] + s;
    forall i, j | 0 <= i < j < |t| ensures t[i] < t[j] {
      assert t[j] == s[j - 1];
      if i > 0 {
        assert t[i] == s[i - 1];
      }
    }
  }

  /** In an ascending sequence, a member smaller than the element at `i`
      stands before position `i`. */
  lemma SmallerStandsBefore(s: seq<int>, i: nat, x: int)
    requires StrictlyAscending(s) && i < |s| && x in s && x < s[i]
    ensures exists j :: 0 <= j < i && s[j] == x
  {
    var j :| 0 <= j < |s| && s[j] == x;
    assert j < i;
  }

  /** A set is empty or has a member (extensionality, stated for callers). */
  lemma EmptyOrInhabited(s: set<int>)
    ensures s == {} || exists y :: y in s
  {
    if forall y :: y !in s {
      assert s == {};
    }
  }

  lemma {:induction false} MinExists(s: set<int>)
    requires s != {}
    ensures exists m :: m in s && forall x :: x in s ==> m <= x
    decreases |s|
  {
    EmptyOrInhabited(s);
    var y :| y in s;
    var r := s - {y};
    assert forall x :: x in s ==> x == y || x in r;
    EmptyOrInhabited(r);
    if r == {} {
      assert forall x :: x in s ==> y <= x;
    } else {
      MinExists(r);
      var m :| m in r && forall x :: x in r ==> m <= x;
      if y < m {
        assert forall x :: x in s ==> y <= x;
      } else {
        assert forall x :: x in s ==> m <= x;
      }
    }
  }

  lemma {:induction false} MaxExists(s: set<int>)
    requires s != {}
    ensures exists m :: m in s && forall x :: x in s ==> x <= m
    decreases |s|
  {
    EmptyOrInhabited(s);
    var y :| y in s;
    var r := s - {y};
    assert forall x :: x in s ==> x == y || x in r;
    EmptyOrInhabited(r);
    if r == {} {
      assert forall x :: x in s ==> x <= y;
    } else {
      MaxExists(r);
      var m :| m in r && forall x :: x in r ==> x <= m;
      if m < y {
        assert forall x :: x in s ==> x <= y;
      } else {
        assert forall x :: x in s ==> x <= m;
      }
    }
  }

  function SetMin(s: set<int>): (m: int)
    requires s != {}
    ensures m in s
    ensures forall x :: x in s ==> m <= x
  {
    MinExists(s);
    var m :| m in s && forall x :: x in s ==> m <= x;
    m
  }

  function SetMax(s: set<int>): (m: int)
    requires s != {}
    ensures m in s
    ensures forall x :: x in s ==> x <= m
  {
    MaxExists(s);
    var m :| m in s && forall x :: x in s ==> x <= m;
    m
  }

  /** The elements of `s` in ascending order: the order in which the source
      is assumed to see the keys of a dictionary. */
  function SortedSet(s: set<int>): (ks: seq<int>)
    ensures StrictlyAscending(ks)
    ensures forall k :: k in ks <==> k in s
    ensures |ks| == |s|
    decreases |s|
  {
    if s == {} then []
    else
      var m := SetMin(s);
      var rest := SortedSet(s - {m});
      assert forall k :: k in rest ==> m < k;
      [m] + rest
  }

  /** Sum of `f` over `s`, taken in ascending order of the elements. */
  function SumOver(s: set<int>, f: int -> int): int
    decreases |s|
  {
    if s == {} then 0
    else
      var m := SetMin(s);
      f(m) + SumOver(s - {m}, f)
  }

  /** The sum does not depend on the order: any element can be taken out first. */
  lemma {:induction false} SumRemove(s: set<int>, f: int -> int, x: int)
    requires x in s
    ensures SumOver(s, f) == f(x) + SumOver(s - {x}, f)
    decreases |s|
  {
    var m := SetMin(s);
    if m != x {
      SumRemove(s - {m}, f, x);
      var t := s - {x};
      assert m in t && forall y :: y in t ==> m <= y;
      assert SetMin(t) == m;
      assert t - {m} == s - {m} - {x};
    }
  }

  lemma {:induction false} SumCongruent(s: set<int>, f: int -> int, g: int -> int)
    requires forall x :: x in s ==> f(x) == g(x)
    ensures SumOver(s, f) == SumOver(s, g)
    decreases |s|
  {
    if s != {} {
      var m := SetMin(s);
      SumCongruent(s - {m}, f, g);
    }
  }

  /** Adding elements on which `f` is zero leaves the sum unchanged. */
  lemma {:induction false} SumZeroExtension(s: set<int>, t: set<int>, f: int -> int)
    requires s <= t
    requires forall x :: x in t && x !in s ==> f(x) == 0
    ensures SumOver(t, f) == SumOver(s, f)
    decreases |t|
  {
    if x :| x in t && x !in s {
      SumRemove(t, f, x);
      SumZeroExtension(s, t - {x}, f);
    } else {
      assert forall x :: x in t <==> x in s;
      assert t == s;
    }
  }

  lemma {:induction false} SumNonNegative(s: set<int>, f: int -> int)
    requires forall x :: x in s ==> f(x) >= 0
    ensures SumOver(s, f) >= 0
    decreases |s|
  {
    if s != {} {
      SumNonNegative(s - {SetMin(s)}, f);
    }
  }

  /** Sum of `f` over a sequence, front to back. */
  function SeqSum(ks: seq<int>, f: int -> int): int
    decreases |ks|
  {
    if |ks| == 0 then 0 else f(ks[0]) + SeqSum(ks[1..], f)
  }

  /** Walking the keys in ascending order visits each once: the running sum
      over `SortedSet(s)` is the sum over `s`. */
  lemma {:induction false} SeqSumSorted(s: set<int>, f: int -> int)
    ensures SeqSum(SortedSet(s), f) == SumOver(s, f)
    decreases |s|
  {
    if s != {} {
      var m := SetMin(s);
      var ks := SortedSet(s);
      assert ks[1..] == SortedSet(s - {m});
      SeqSumSorted(s - {m}, f);
    }
  }

  /** The last element of the ascending order is the maximum. */
  lemma SortedSetLast(s: set<int>)
    requires s != {}
    ensures |SortedSet(s)| > 0 && SortedSet(s)[|SortedSet(s)| - 1] == SetMax(s)
  {
    var ks := SortedSet(s);
    var n := |ks|;
    var m := SetMax(s);
    assert ks[n - 1] in s;
    var i :| 0 <= i < n && ks[i] == m;
    assert i == n - 1;
  }
}
