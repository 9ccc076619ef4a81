/** hook_notify of fw/common/hooks.c: calls the hooks of one type in order of their priorities. */
module HookNotify {
  const HOOK_PRIO_FIRST := 1
  const HOOK_PRIO_LAST := 9999

  /** Hook i is to be called before hook j. */
  predicate Before(priority: seq<int>, i: nat, j: nat)
    requires i < |priority| && j < |priority|
  {
    priority[i] < priority[j] || (priority[i] == priority[j] && i < j)
  }

  predicate Ordered(priority: seq<int>, order: seq<nat>) {
    && (forall k :: 0 <= k < |order| ==> order[k] < |priority|)
    && forall k, m :: 0 <= k < m < |order| ==> Before(priority, order[k], order[m])
  }

  /** The number of hooks among the first n with a priority of at most p. */
  function UpTo(priority: seq<int>, n: nat, p: int): (c: nat)
    requires n <= |priority|
    ensures c <= n
    ensures c == n <==> forall i :: 0 <= i < n ==> priority[i] <= p
  {
    if n == 0 then 0 else UpTo(priority, n - 1, p) + if priority[n - 1] <= p then 1 else 0
  }

  /** The number of hooks among the first n with priority p. */
  function Equal(priority: seq<int>, n: nat, p: int): nat
    requires n <= |priority|
  {
    if n == 0 then 0 else Equal(priority, n - 1, p) + if priority[n - 1] == p then 1 else 0
  }

  lemma {:induction false} UpToNext(priority: seq<int>, n: nat, p: int, q: int)
    requires n <= |priority| && p < q
    requires forall i :: 0 <= i < n ==> priority[i] <= p || q <= priority[i]
    ensures UpTo(priority, n, q) == UpTo(priority, n, p) + Equal(priority, n, q)
  {
    if n > 0 { UpToNext(priority, n - 1, p, q); }
  }

  /** Every hook is called exactly once, by priority and, for equal priorities, in table order. */
  method Notify(priority: seq<int>) returns (order: seq<nat>)
    requires forall i :: 0 <= i < |priority| ==> HOOK_PRIO_FIRST <= priority[i] <= HOOK_PRIO_LAST
    ensures Ordered(priority, order)
    ensures |order| == |priority| && forall i :: 0 <= i < |priority| ==> i in order
  {
    order := [];
    var lastPrio := HOOK_PRIO_FIRST - 1;
    NoneUpTo(priority, |priority|, lastPrio);
    while |order| < |priority|
      invariant HOOK_PRIO_FIRST - 1 <= lastPrio <= HOOK_PRIO_LAST
      invariant Ordered(priority, order) && |order| == UpTo(priority, |priority|, lastPrio)
      invariant forall i :: 0 <= i < |priority| ==> (i in order <==> priority[i] <= lastPrio)
      decreases HOOK_PRIO_LAST - lastPrio
    {
      var prio := NextPriority(priority, lastPrio);
      UpToNext(priority, |priority|, lastPrio, prio);
      order := CallAll(priority, order, lastPrio, prio);
      lastPrio := prio;
    }
  }

  lemma {:induction false} NoneUpTo(priority: seq<int>, n: nat, p: int)
    requires n <= |priority| && forall i :: 0 <= i < n ==> p < priority[i]
    ensures UpTo(priority, n, p) == 0
  {
    if n > 0 { NoneUpTo(priority, n - 1, p); }
  }

  /** The lowest remaining priority. */
  method NextPriority(priority: seq<int>, lastPrio: int) returns (prio: int)
    requires forall i :: 0 <= i < |priority| ==> priority[i] <= HOOK_PRIO_LAST
    requires exists i :: 0 <= i < |priority| && priority[i] > lastPrio
    ensures prio in priority && lastPrio < prio
    ensures forall i :: 0 <= i < |priority| ==> priority[i] <= lastPrio || prio <= priority[i]
  {
    prio := HOOK_PRIO_LAST + 1;
    for p := 0 to |priority|
      invariant forall i :: 0 <= i < p ==> priority[i] <= lastPrio || prio <= priority[i]
      invariant prio == HOOK_PRIO_LAST + 1 || (prio in priority && lastPrio < prio)
    {
      if priority[p] < prio && priority[p] > lastPrio {
        prio := priority[p];
      }
    }
  }

  /** Calls the hooks of one priority. */
  method CallAll(priority: seq<int>, called: seq<nat>, lastPrio: int, prio: int) returns (order: seq<nat>)
    requires Ordered(priority, called) && lastPrio < prio
    requires forall i :: 0 <= i < |priority| ==> (i in called <==> priority[i] <= lastPrio)
    ensures Ordered(priority, order) && |order| == |called| + Equal(priority, |priority|, prio)
    ensures forall i :: 0 <= i < |priority| ==> (i in order <==> priority[i] <= lastPrio || priority[i] == prio)
  {
    order := called;
    for p := 0 to |priority|
      invariant Ordered(priority, order) && |order| == |called| + Equal(priority, p, prio)
      invariant forall i :: 0 <= i < |priority| ==>
        (i in order <==> priority[i] <= lastPrio || (priority[i] == prio && i < p))
    {
      if priority[p] == prio {
        assert forall k :: 0 <= k < |order| ==> order[k] in order;
        order := order + [p];
      }
    }
  }

  /** The order is determined: hooks of the same priority are never swapped. */
  lemma {:induction false} OrderIsUnique(priority: seq<int>, a: seq<nat>, b: seq<nat>, n: nat)
    requires Ordered(priority, a) && Ordered(priority, b) && n <= |a| == |b|
    requires forall i :: i in a <==> i in b
    ensures a[..n] == b[..n]
    decreases n
  {
    if n > 0 {
      OrderIsUnique(priority, a, b, n - 1);
      var x, y := a[n - 1], b[n - 1];
      assert x in a && y in b;
      var k :| 0 <= k < |b| && b[k] == x;
      var m :| 0 <= m < |a| && a[m] == y;
      assert k >= n - 1;
      assert m >= n - 1;
    }
  }
}
