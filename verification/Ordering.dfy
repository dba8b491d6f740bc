/** Finite collections put into the one ascending order that their keys allow.
    The roster sorts twice: its entries by `(ts, content id)` and its members by
    `(admission ts, node id)`. Both are `Keyed` values here. */
module Ordering {

  datatype Keyed<T> = Keyed(major: nat, minor: nat, item: T)

  predicate Before<T>(a: Keyed<T>, b: Keyed<T>) {
    a.major < b.major || (a.major == b.major && a.minor < b.minor)
  }

  ghost predicate Ascending<T>(xs: seq<Keyed<T>>) {
    forall i, j :: 0 <= i < j < |xs| ==> Before(xs[i], xs[j])
  }

  ghost function Elements<T>(xs: seq<T>): set<T> {
    set x | x in xs
  }

  /** No two elements share a minor key. */
  ghost predicate DistinctIds<T>(s: set<Keyed<T>>) {
    forall a, b :: a in s && b in s && a.minor == b.minor ==> a == b
  }

  lemma AscendingOnce<T>(xs: seq<Keyed<T>>, i: nat, j: nat)
    requires Ascending(xs) && i < |xs| && j < |xs| && xs[i] == xs[j]
    ensures i == j
  {
  }

  lemma NoElements<T>(xs: seq<T>)
    ensures Elements(xs) == {} <==> xs == []
  {
    if xs != [] {
      assert xs[0] in Elements(xs);
    }
  }

  /** Ascending sequences over the same elements are the same sequence. */
  lemma {:induction false} ArrangementUnique<T>(xs: seq<Keyed<T>>, ys: seq<Keyed<T>>)
    requires Ascending(xs) && Ascending(ys) && Elements(xs) == Elements(ys)
    ensures xs == ys
  {
    if xs == [] || ys == [] {
      NoElements(xs);
      NoElements(ys);
    } else {
      assert xs[0] in Elements(ys) && ys[0] in Elements(xs);
      assert xs[0] == ys[0];
      forall z
        ensures z in Elements(xs[1..]) <==> z in Elements(ys[1..])
      {
        TailElements(xs, z);
        TailElements(ys, z);
        assert z in Elements(xs) <==> z in Elements(ys);
      }
      ArrangementUnique(xs[1..], ys[1..]);
      assert xs == [xs[0]] + xs[1..] && ys == [ys[0]] + ys[1..];
    }
  }

  lemma TailElements<T>(xs: seq<Keyed<T>>, z: Keyed<T>)
    requires Ascending(xs) && xs != []
    ensures z in xs[1..] <==> z in xs && z != xs[0]
  {
    if z in xs && z != xs[0] {
      var i :| 0 <= i < |xs| && xs[i] == z;
      assert xs[1..][i - 1] == z;
    }
    if z in xs[1..] {
      var i :| 0 <= i < |xs[1..]| && xs[1..][i] == z;
      assert xs[i + 1] == z && Before(xs[0], xs[i + 1]);
    }
  }

  /** Put `x` at its place in an ascending sequence. */
  function Insert<T>(xs: seq<Keyed<T>>, x: Keyed<T>): (ys: seq<Keyed<T>>)
  {
    if xs == [] then [x]
    else if Before(x, xs[0]) then [x] + xs
    else [xs[0]] + Insert(xs[1..], x)
  }

  lemma {:induction false} InsertKeeps<T>(xs: seq<Keyed<T>>, x: Keyed<T>)
    requires Ascending(xs)
    requires forall y :: y in xs ==> y.minor != x.minor
    ensures Ascending(Insert(xs, x))
    ensures Elements(Insert(xs, x)) == Elements(xs) + {x}
  {
    if xs == [] {
    } else if Before(x, xs[0]) {
      forall j | 0 <= j < |xs|
        ensures Before(x, xs[j])
      {
        assert j > 0 ==> Before(xs[0], xs[j]);
      }
    } else {
      var rest := Insert(xs[1..], x);
      InsertKeeps(xs[1..], x);
      forall j | 0 <= j < |rest|
        ensures Before(xs[0], rest[j])
      {
        assert rest[j] in Elements(rest);
        if rest[j] != x {
          assert rest[j] in xs[1..];
          var i :| 0 <= i < |xs[1..]| && xs[1..][i] == rest[j];
          assert Before(xs[0], xs[i + 1]);
        }
      }
      forall z
        ensures z in Elements(Insert(xs, x)) <==> z in Elements(xs) + {x}
      {
        TailElements(xs, z);
        assert z in Elements(rest) <==> z in Elements(xs[1..]) + {x};
      }
    }
  }

  lemma {:induction false} ArrangementExists<T>(s: set<Keyed<T>>)
    requires DistinctIds(s)
    ensures exists xs: seq<Keyed<T>> :: Ascending(xs) && Elements(xs) == s
  {
    if s == {} {
      assert Ascending<T>([]) && Elements<Keyed<T>>([]) == s;
    } else {
      var x :| x in s;
      ArrangementExists(s - {x});
      var rest: seq<Keyed<T>> :| Ascending(rest) && Elements(rest) == s - {x};
      forall y | y in rest
        ensures y.minor != x.minor
      {
        assert y in Elements(rest);
      }
      InsertKeeps(rest, x);
      assert Ascending(Insert(rest, x)) && Elements(Insert(rest, x)) == s;
    }
  }

  /** The ascending sequence of exactly the elements of `s`. */
  ghost function Arrange<T>(s: set<Keyed<T>>): (xs: seq<Keyed<T>>)
    requires DistinctIds(s)
    ensures Ascending(xs) && Elements(xs) == s
  {
    ArrangementExists(s);
    var xs :| Ascending(xs) && Elements(xs) == s;
    xs
  }

  /** The library sort the roster calls, one element at a time. */
  method Sort<T(==)>(s: set<Keyed<T>>) returns (xs: seq<Keyed<T>>)
    requires DistinctIds(s)
    ensures xs == Arrange(s)
  {
    var rest := s;
    xs := [];
    while rest != {}
      invariant rest <= s && Ascending(xs) && Elements(xs) == s - rest
      decreases rest
    {
      var x :| x in rest;
      forall y | y in xs
        ensures y.minor != x.minor
      {
        assert y in Elements(xs);
      }
      InsertKeeps(xs, x);
      xs := Insert(xs, x);
      rest := rest - {x};
    }
    ArrangementUnique(xs, Arrange(s));
  }

  /** An element that comes after all others is arranged last. */
  lemma ArrangeLast<T>(s: set<Keyed<T>>, x: Keyed<T>)
    requires DistinctIds(s) && DistinctIds(s + {x})
    requires forall y :: y in s ==> Before(y, x)
    ensures Arrange(s + {x}) == Arrange(s) + [x]
  {
    var xs := Arrange(s);
    forall i | 0 <= i < |xs|
      ensures Before(xs[i], x)
    {
      assert xs[i] in Elements(xs);
    }
    assert Elements(xs + [x]) == s + {x};
    ArrangementUnique(Arrange(s + {x}), xs + [x]);
  }

  /** `xs` without its element at `k`. */
  function Without<T>(xs: seq<T>, k: nat): seq<T>
    requires k < |xs|
  {
    xs[..k] + xs[k + 1..]
  }

  lemma WithoutAt<T>(xs: seq<T>, k: nat, i: nat)
    requires k < |xs| && i < |xs| - 1
    ensures Without(xs, k)[i] == xs[if i < k then i else i + 1]
  {
  }

  lemma WithoutElements<T>(xs: seq<Keyed<T>>, k: nat, z: Keyed<T>)
    requires Ascending(xs) && k < |xs|
    ensures z in Without(xs, k) <==> z in xs && z != xs[k]
  {
    var ys := Without(xs, k);
    if z in ys {
      var j :| 0 <= j < |ys| && ys[j] == z;
      WithoutAt(xs, k, j);
      if z == xs[k] {
        AscendingOnce(xs, if j < k then j else j + 1, k);
      }
    }
    if z in xs && z != xs[k] {
      var i :| 0 <= i < |xs| && xs[i] == z;
      WithoutAt(xs, k, if i < k then i else i - 1);
    }
  }

  /** Taking one element out leaves the others in their order. */
  lemma ArrangeWithout<T>(s: set<Keyed<T>>, x: Keyed<T>) returns (k: nat)
    requires DistinctIds(s) && x in s
    ensures DistinctIds(s - {x})
    ensures k < |Arrange(s)| && Arrange(s)[k] == x
    ensures Arrange(s - {x}) == Without(Arrange(s), k)
  {
    var xs := Arrange(s);
    assert x in Elements(xs);
    k :| 0 <= k < |xs| && xs[k] == x;
    var ys := Without(xs, k);
    forall i, j | 0 <= i < j < |ys|
      ensures Before(ys[i], ys[j])
    {
      WithoutAt(xs, k, i);
      WithoutAt(xs, k, j);
    }
    forall z
      ensures z in Elements(ys) <==> z in s - {x}
    {
      WithoutElements(xs, k, z);
      assert z in Elements(xs) <==> z in xs;
    }
    ArrangementUnique(Arrange(s - {x}), ys);
  }

  /** The elements of a sequence that satisfy `p`, in order. */
  ghost function Keep<T>(xs: seq<T>, p: T -> bool): seq<T> {
    if xs == [] then []
    else
      var n := |xs| - 1;
      Keep(xs[..n], p) + if p(xs[n]) then [xs[n]] else []
  }

  lemma {:induction false} KeepElements<T>(xs: seq<T>, p: T -> bool, z: T)
    ensures z in Keep(xs, p) <==> z in xs && p(z)
  {
    if xs != [] {
      var n := |xs| - 1;
      KeepElements(xs[..n], p, z);
      assert xs == xs[..n] + [xs[n]];
    }
  }

  /** The elements of a sequence that do not satisfy `p`, in order. */
  ghost function Leave<T>(xs: seq<T>, p: T -> bool): seq<T> {
    if xs == [] then []
    else
      var n := |xs| - 1;
      Leave(xs[..n], p) + if p(xs[n]) then [] else [xs[n]]
  }

  lemma {:induction false} LeaveElements<T>(xs: seq<T>, p: T -> bool, z: T)
    ensures z in Leave(xs, p) <==> z in xs && !p(z)
  {
    if xs != [] {
      var n := |xs| - 1;
      LeaveElements(xs[..n], p, z);
      assert xs == xs[..n] + [xs[n]];
    }
  }

  lemma SnocCount<T>(xs: seq<T>, x: T)
    ensures multiset(xs + [x]) == multiset(xs) + multiset{x}
  {
  }

  lemma OneMoreOfThree<T>(a: multiset<T>, b: multiset<T>, c: multiset<T>, x: multiset<T>)
    requires a + b == c
    ensures a + x + b == c + x && a + (b + x) == c + x
  {
  }

  /** The last element is in one of the two parts. */
  lemma KeepOrLeave<T>(xs: seq<T>, p: T -> bool)
    requires xs != []
    ensures var n := |xs| - 1;
            if p(xs[n]) then Keep(xs, p) == Keep(xs[..n], p) + [xs[n]] && Leave(xs, p) == Leave(xs[..n], p)
            else Keep(xs, p) == Keep(xs[..n], p) && Leave(xs, p) == Leave(xs[..n], p) + [xs[n]]
  {
  }

  /** Each element is in one of the two parts. */
  lemma {:induction false} KeepAndLeave<T>(xs: seq<T>, p: T -> bool)
    ensures multiset(Keep(xs, p)) + multiset(Leave(xs, p)) == multiset(xs)
  {
    if xs != [] {
      var n := |xs| - 1;
      KeepAndLeave(xs[..n], p);
      KeepOrLeave(xs, p);
      OneInTwo(xs[..n], xs[n], Keep(xs[..n], p), Leave(xs[..n], p));
      assert xs == xs[..n] + [xs[n]];
    }
  }

  lemma OneInTwo<T>(xs: seq<T>, x: T, kept: seq<T>, left: seq<T>)
    requires multiset(kept) + multiset(left) == multiset(xs)
    ensures multiset(kept + [x]) + multiset(left) == multiset(xs + [x])
    ensures multiset(kept) + multiset(left + [x]) == multiset(xs + [x])
  {
    SnocCount(xs, x);
    SnocCount(kept, x);
    SnocCount(left, x);
    OneMoreOfThree(multiset(kept), multiset(left), multiset(xs), multiset{x});
  }

  lemma {:induction false} KeepAscending<T>(xs: seq<Keyed<T>>, p: Keyed<T> -> bool)
    requires Ascending(xs)
    ensures Ascending(Keep(xs, p))
  {
    if xs != [] {
      var n := |xs| - 1;
      KeepAscending(xs[..n], p);
      var ys := Keep(xs[..n], p);
      forall i | 0 <= i < |ys|
        ensures Before(ys[i], xs[n])
      {
        KeepElements(xs[..n], p, ys[i]);
        assert ys[i] in ys;
        var j :| 0 <= j < |xs[..n]| && xs[..n][j] == ys[i];
        assert Before(xs[j], xs[n]);
      }
    }
  }

  /** Arranging part of a set keeps that part of the whole arrangement. */
  lemma ArrangeKeep<T>(s: set<Keyed<T>>, p: Keyed<T> -> bool, part: set<Keyed<T>>)
    requires DistinctIds(s) && part == (set x | x in s && p(x))
    ensures DistinctIds(part)
    ensures Arrange(part) == Keep(Arrange(s), p)
  {
    var ys := Keep(Arrange(s), p);
    KeepAscending(Arrange(s), p);
    forall z
      ensures z in Elements(ys) <==> z in part
    {
      KeepElements(Arrange(s), p, z);
      assert z in Elements(Arrange(s)) <==> z in s;
    }
    assert Elements(ys) == part;
    ArrangementUnique(Arrange(part), ys);
  }
}
