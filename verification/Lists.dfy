/** Lists of distinct entries: what an intrusive doubly linked list can hold. */
module Lists {

  ghost predicate Distinct<T>(l: seq<T>) {
    forall i, j :: 0 <= i < j < |l| ==> l[i] != l[j]
  }

  lemma {:induction false} DistinctCons<T>(x: T, l: seq<T>)
    requires Distinct(l) && x !in l
    ensures Distinct([x] + l)
  {
    forall i, j | 0 <= i < j < |l| + 1
      ensures ([x] + l)[i] != ([x] + l)[j]
    {
      assert ([x] + l)[j] == l[j - 1] && l[j - 1] in l;
    }
  }

  /** `l` without its first `x`: what unlinking the entry `x` leaves. */
  function Remove<T(==)>(l: seq<T>, x: T): seq<T> {
    if l == [] then [] else if l[0] == x then l[1..] else [l[0]] + Remove(l[1..], x)
  }

  lemma {:induction false} RemoveAt<T>(l: seq<T>, i: nat)
    requires Distinct(l) && i < |l|
    ensures Remove(l, l[i]) == l[..i] + l[i + 1..]
  {
    if i > 0 {
      assert l[0] != l[i];
      RemoveAt(l[1..], i - 1);
    }
  }

  lemma {:induction false} RemoveMembers<T>(l: seq<T>, x: T)
    requires Distinct(l)
    ensures Distinct(Remove(l, x))
    ensures forall y :: y in Remove(l, x) <==> y in l && y != x
  {
    if x in l {
      var i :| 0 <= i < |l| && l[i] == x;
      RemoveAt(l, i);
      assert l == l[..i] + [x] + l[i + 1..];
    } else {
      RemoveAbsent(l, x);
    }
  }

  lemma {:induction false} RemoveAbsent<T>(l: seq<T>, x: T)
    requires x !in l
    ensures Remove(l, x) == l
  {
    if l != [] {
      RemoveAbsent(l[1..], x);
    }
  }
}
