/** Counting facts about sequences and finite sets of integers, used to show
    that the table shuffle neither loses nor duplicates a byte. */
module Counting {
  /** Positions at which v occurs in s. */
  ghost function Indices<T>(s: seq<T>, v: T): set<int>
  {
    set i | 0 <= i < |s| && s[i] == v
  }

  /** The multiplicity of v is the number of its positions. */
  lemma {:induction false} CountIsIndices<T>(s: seq<T>, v: T)
    ensures multiset(s)[v] == |Indices(s, v)|
    decreases |s|
  {
    if |s| == 0 {
      assert Indices(s, v) == {};
    } else {
      var s' := s[..|s| - 1];
      var x := s[|s| - 1];
      assert s == s' + [x];
      CountIsIndices(s', v);
      if x == v {
        assert Indices(s, v) == Indices(s', v) + {|s'|};
      } else {
        assert Indices(s, v) == Indices(s', v);
      }
    }
  }

  /** Position of the first occurrence of v in s. */
  function IndexOf<T(==)>(s: seq<T>, v: T): (i: nat)
    requires v in s
    ensures i < |s| && s[i] == v
  {
    if s[0] == v then 0 else 1 + IndexOf(s[1..], v)
  }

  /** Membership test that gives the set comprehension below a trigger. */
  ghost predicate InRange(i: int, n: int)
  {
    0 <= i < n
  }

  /** The integers 0 .. n - 1. */
  ghost function Range(n: int): set<int>
  {
    set i | 0 <= i < n && InRange(i, n)
  }

  lemma {:induction false} RangeCard(n: nat)
    ensures |Range(n)| == n
  {
    if n == 0 {
      assert Range(0) == {};
    } else {
      RangeCard(n - 1);
      assert Range(n) == Range(n - 1) + {n - 1};
    }
  }

  /** f applied to every element of a. */
  ghost function Image(a: set<int>, f: int -> int): set<int>
  {
    set x | x in a :: f(x)
  }

  /** f sends distinct elements of a to distinct values. */
  ghost predicate InjectiveOn(a: set<int>, f: int -> int)
  {
    forall x, y :: x in a && y in a && f(x) == f(y) ==> x == y
  }

  /** An injective map keeps the size of a set. */
  lemma {:induction false} ImageCard(a: set<int>, f: int -> int, n: nat)
    requires a <= Range(n)
    requires InjectiveOn(a, f)
    ensures |Image(a, f)| == |a|
  {
    if n == 0 {
      assert a == {};
      assert Image(a, f) == {};
    } else if n - 1 in a {
      var rest := a - {n - 1};
      ImageCard(rest, f, n - 1);
      assert Image(a, f) == Image(rest, f) + {f(n - 1)};
    } else {
      ImageCard(a, f, n - 1);
    }
  }

  /** A subset as large as the set is the set. */
  lemma SubsetOfSameSize(a: set<int>, b: set<int>)
    requires a <= b && |a| == |b|
    ensures a == b
  {
    assert b == a + (b - a);
    assert a * (b - a) == {};
  }

  /** An injective map of 0 .. n - 1 into itself reaches every slot. */
  lemma InjectiveIsSurjective(f: int -> int, n: nat)
    requires forall k :: 0 <= k < n ==> 0 <= f(k) < n
    requires InjectiveOn(Range(n), f)
    ensures Image(Range(n), f) == Range(n)
  {
    RangeCard(n);
    ImageCard(Range(n), f, n);
    SubsetOfSameSize(Image(Range(n), f), Range(n));
  }

  /** When t holds s[k] at the distinct positions f(k), t is a rearrangement
      of s. */
  lemma RearrangedMultiset<T>(s: seq<T>, t: seq<T>, f: int -> int)
    requires |s| == |t|
    requires forall k :: 0 <= k < |s| ==> 0 <= f(k) < |t| && t[f(k)] == s[k]
    requires InjectiveOn(Range(|s|), f)
    ensures multiset(t) == multiset(s)
  {
    var n := |s|;
    InjectiveIsSurjective(f, n);
    forall v
      ensures multiset(t)[v] == multiset(s)[v]
    {
      forall j | j in Indices(t, v)
        ensures j in Image(Indices(s, v), f)
      {
        assert j in Image(Range(n), f);
        var k :| k in Range(n) && f(k) == j;
        assert k in Indices(s, v);
      }
      assert Indices(t, v) == Image(Indices(s, v), f);
      ImageCard(Indices(s, v), f, n);
      CountIsIndices(s, v);
      CountIsIndices(t, v);
    }
  }
}
