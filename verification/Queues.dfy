/** Linked lists of numbers, as both the web server and the thread library keep them: append at the end, delete anywhere. */
module Queues {
  /** The queue without the first occurrence of i. */
  function Without(q: seq<nat>, i: nat): seq<nat> {
    if q == [] then [] else if q[0] == i then q[1..] else [q[0]] + Without(q[1..], i)
  }

  predicate Distinct(q: seq<nat>) {
    forall a, b | 0 <= a < b < |q| :: q[a] != q[b]
  }

  lemma {:induction false} WithoutMembers(q: seq<nat>, i: nat)
    requires Distinct(q)
    ensures Distinct(Without(q, i)) && forall x :: x in Without(q, i) <==> x in q && x != i
  {
    if q != [] {
      assert forall x :: x in q <==> x == q[0] || x in q[1..];
      assert q[0] !in q[1..];
      WithoutMembers(q[1..], i);
    }
  }

  lemma {:induction false} WithoutShorter(q: seq<nat>, i: nat)
    requires i in q
    ensures |Without(q, i)| == |q| - 1
  {
    if q[0] != i {
      WithoutShorter(q[1..], i);
    }
  }

  /** Deleting the first element is dropping it. */
  lemma WithoutFirst(q: seq<nat>)
    requires q != []
    ensures Without(q, q[0]) == q[1..]
  {}

  lemma {:induction false} WithoutAbsent(q: seq<nat>, i: nat)
    requires i !in q
    ensures Without(q, i) == q
  {
    if q != [] {
      WithoutAbsent(q[1..], i);
    }
  }

  lemma DistinctConcat(a: seq<nat>, b: seq<nat>)
    requires Distinct(a) && Distinct(b) && forall t | t in b :: t !in a
    ensures Distinct(a + b)
  {
    var q := a + b;
    forall i, j | 0 <= i < j < |q| ensures q[i] != q[j] {
      if i < |a| <= j {
        assert b[j - |a|] in b;
      }
    }
  }

  /** How many elements are before the first t. */
  function Pos(q: seq<nat>, t: nat): (k: nat)
    requires t in q
    ensures k < |q| && q[k] == t
  {
    if q[0] == t then 0 else 1 + Pos(q[1..], t)
  }

  lemma {:induction false} PosWithout(q: seq<nat>, n: nat, t: nat)
    requires t in q && t != n
    ensures t in Without(q, n)
    ensures Pos(Without(q, n), t) == Pos(q, t) - (if n in q && Pos(q, n) < Pos(q, t) then 1 else 0)
  {
    if q[0] == n {
      assert t in q[1..];
    } else if q[0] == t {
    } else {
      PosWithout(q[1..], n, t);
      assert Without(q, n)[1..] == Without(q[1..], n);
    }
  }

  lemma {:induction false} PosAppend(q: seq<nat>, b: seq<nat>, t: nat)
    requires t in q
    ensures Pos(q + b, t) == Pos(q, t)
  {
    if q[0] != t {
      assert (q + b)[1..] == q[1..] + b;
      PosAppend(q[1..], b, t);
    }
  }

  lemma {:induction false} WithoutConcat(a: seq<nat>, b: seq<nat>, i: nat)
    ensures i in a ==> Without(a + b, i) == Without(a, i) + b
    ensures i !in b ==> Without(a + b, i) == Without(a, i) + b
  {
    if a == [] {
      assert a + b == b;
      if i !in b {
        WithoutAbsent(b, i);
      }
    } else {
      assert (a + b)[1..] == a[1..] + b;
      WithoutConcat(a[1..], b, i);
    }
  }

  lemma {:induction false} WithoutAt(q: seq<nat>, i: nat, k: nat)
    requires k < |q| && q[k] == i && forall j | 0 <= j < k :: q[j] != i
    ensures Without(q, i) == q[..k] + q[k + 1..]
  {
    if k > 0 {
      WithoutAt(q[1..], i, k - 1);
      assert q[..k] + q[k + 1..] == [q[0]] + (q[1..][..k - 1] + q[1..][k..]);
    }
  }

  /** Element h of the first list is last in the second one, and all others are in the same order in both. */
  ghost predicate MovedToEnd(q: seq<nat>, q': seq<nat>, h: nat) {
    exists k :: 0 <= k < |q| && q[k] == h && q' == q[..k] + q[k + 1..] + [h]
  }

  lemma WithoutThenEnd(q: seq<nat>, h: nat)
    requires h in q
    ensures MovedToEnd(q, Without(q, h) + [h], h)
  {
    var k := Pos(q, h);
    PosFirst(q, h);
    WithoutAt(q, h, k);
  }

  lemma {:induction false} PosFirst(q: seq<nat>, t: nat)
    requires t in q
    ensures forall j | 0 <= j < Pos(q, t) :: q[j] != t
  {
    if q[0] != t {
      PosFirst(q[1..], t);
    }
  }

  /** Walks along the list to the first node for `index` and unlinks it, if there is one. */
  method Delete(queue: seq<nat>, index: nat) returns (rest: seq<nat>)
    ensures rest == Without(queue, index)
  {
    if queue == [] {
      return queue;
    }
    var curr: nat := 0;
    while queue[curr] != index && curr + 1 < |queue|
      invariant curr < |queue|
      invariant forall j | 0 <= j < curr :: queue[j] != index
      decreases |queue| - curr
    {
      curr := curr + 1;
    }
    if queue[curr] == index {
      WithoutAt(queue, index, curr);
      return queue[..curr] + queue[curr + 1..];
    }
    WithoutAbsent(queue, index);
    return queue;
  }
}
