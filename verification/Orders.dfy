/** Go maps iterate in any order: sums and concatenations over an arbitrary enumeration of a set. */
module Orders {
  import opened ByteStrings

  /** `order` lists each element of `s` once. */
  ghost predicate Enumerates<T>(order: seq<T>, s: set<T>) {
    multiset(order) == multiset(s)
  }

  predicate Distinct<T(==)>(order: seq<T>) {
    forall i, j :: 0 <= i < j < |order| ==> order[i] != order[j]
  }

  function Sum<T>(order: seq<T>, f: T -> nat): nat {
    if order == [] then 0 else f(order[0]) + Sum(order[1..], f)
  }

  function Concat<T>(order: seq<T>, f: T -> Bytes): Bytes {
    if order == [] then [] else f(order[0]) + Concat(order[1..], f)
  }

  lemma {:induction false} ConcatAppend<T>(a: seq<T>, b: seq<T>, f: T -> Bytes)
    ensures Concat(a + b, f) == Concat(a, f) + Concat(b, f)
  {
    if a == [] {
      assert a + b == b;
    } else {
      assert (a + b)[1..] == a[1..] + b;
      ConcatAppend(a[1..], b, f);
    }
  }

  lemma ConcatOne<T>(x: T, f: T -> Bytes)
    ensures Concat([x], f) == f(x)
  {
    assert Concat([x], f) == f(x) + [];
  }

  lemma {:induction false} ConcatLength<T>(order: seq<T>, f: T -> Bytes, size: T -> nat)
    requires forall x :: x in order ==> size(x) == |f(x)|
    ensures |Concat(order, f)| == Sum(order, size)
  {
    if order != [] { ConcatLength(order[1..], f, size); }
  }

  ghost function SetSum<T(!new)>(s: set<T>, f: T -> nat): nat {
    if s == {} then 0 else var x :| x in s; f(x) + SetSum(s - {x}, f)
  }

  lemma EmptySum<T(!new)>(f: T -> nat) ensures SetSum({}, f) == 0 { }

  /** The sum over a set does not depend on which element is taken first. */
  lemma {:induction false} SetSumRemove<T(!new)>(s: set<T>, x: T, f: T -> nat)
    requires x in s
    ensures SetSum(s, f) == f(x) + SetSum(s - {x}, f)
    decreases |s|
  {
    var y :| y in s && SetSum(s, f) == f(y) + SetSum(s - {y}, f);
    if y != x {
      SetSumRemove(s - {y}, x, f);
      SetSumRemove(s - {x}, y, f);
      assert s - {y} - {x} == s - {x} - {y};
    }
  }

  lemma {:induction false} SetSumCongruent<T(!new)>(s: set<T>, f: T -> nat, g: T -> nat)
    requires forall x :: x in s ==> f(x) == g(x)
    ensures SetSum(s, f) == SetSum(s, g)
    decreases |s|
  {
    if s != {} {
      var x :| x in s;
      SetSumRemove(s, x, f);
      SetSumRemove(s, x, g);
      SetSumCongruent(s - {x}, f, g);
    }
  }

  lemma EnumeratesRest<T>(order: seq<T>, s: set<T>)
    requires Enumerates(order, s) && order != []
    ensures order[0] in s && Enumerates(order[1..], s - {order[0]})
  {
    assert order == [order[0]] + order[1..];
    assert order[0] in multiset(order);
    assert multiset(s - {order[0]}) == multiset(s) - multiset{order[0]};
  }

  /** Every enumeration has the same sum. */
  lemma {:induction false} SumIsSetSum<T(!new)>(order: seq<T>, s: set<T>, f: T -> nat)
    requires Enumerates(order, s)
    ensures Sum(order, f) == SetSum(s, f)
  {
    if order == [] {
      assert |multiset(s)| == |s|;
    } else {
      EnumeratesRest(order, s);
      SetSumRemove(s, order[0], f);
      SumIsSetSum(order[1..], s - {order[0]}, f);
    }
  }

  lemma EnumeratesMembers<T>(order: seq<T>, s: set<T>)
    requires Enumerates(order, s)
    ensures forall x :: x in order <==> x in s
  {
    forall x ensures x in order <==> x in s {
      assert x in order <==> x in multiset(order);
      assert x in s <==> x in multiset(s);
    }
  }

  /** `order` lists the elements of `s` already visited, latest first; `rest` are those to come. */
  ghost predicate Visited<T>(order: seq<T>, rest: set<T>, s: set<T>) {
    rest <= s && multiset(order) + multiset(rest) == multiset(s)
  }

  lemma VisitNext<T>(order: seq<T>, rest: set<T>, s: set<T>, k: T, f: T -> Bytes)
    requires Visited(order, rest, s) && k in rest
    ensures Visited([k] + order, rest - {k}, s)
    ensures Concat([k] + order, f) == f(k) + Concat(order, f)
  {
    assert ([k] + order)[1..] == order;
    assert multiset(rest - {k}) == multiset(rest) - multiset{k};
  }
}
