/**
 * Removal of one request from the manager's pending queue. The C# code has
 * no way to delete from the middle of a `Queue`, so it dequeues and
 * re-enqueues every other element, with a loop bound (`Count`) that shrinks
 * once the request has been dropped; the effect is a rotation.
 */
module RequestQueue {
  import opened Common

  /**
   * The queue the rotation leaves: the order is kept when `x` was last;
   * otherwise the former last element comes first, followed by the others
   * in their old order.
   */
  function Rotated<T(==)>(q: seq<T>, x: T): (r: seq<T>)
    requires x in q
  {
    var n := |q|;
    if q[n - 1] == x then q[..n - 1] else [q[n - 1]] + Without(q[..n - 1], x)
  }

  /** Without its last element a sequence stays free of duplicates, and does not hold that element. */
  lemma DistinctFront<T>(q: seq<T>)
    requires Distinct(q) && q != []
    ensures Distinct(q[..|q| - 1]) && q[|q| - 1] !in q[..|q| - 1]
  {
    var front := q[..|q| - 1];
    forall i, j | 0 <= i < j < |front| ensures front[i] != front[j] {
      assert front[i] == q[i] && front[j] == q[j];
    }
    forall i | 0 <= i < |front| ensures front[i] != q[|q| - 1] {
      assert front[i] == q[i];
    }
  }

  /** Putting a new element in front keeps a sequence free of duplicates. */
  lemma DistinctCons<T>(x: T, s: seq<T>)
    requires Distinct(s) && x !in s
    ensures Distinct([x] + s)
  {
    forall i, j | 0 <= i < j < |s| + 1 ensures ([x] + s)[i] != ([x] + s)[j] {
      assert ([x] + s)[j] == s[j - 1];
      if i > 0 {
        assert ([x] + s)[i] == s[i - 1];
      }
    }
  }

  /** In a sequence without duplicates, the element at `p` is neither before nor after `p`. */
  lemma AroundAbsent<T>(q: seq<T>, p: nat)
    requires Distinct(q) && p < |q|
    ensures q[p] !in q[..p] && q[p] !in q[p + 1..]
  {
    forall i | 0 <= i < p ensures q[..p][i] != q[p] {
      assert q[..p][i] == q[i];
    }
    var after := q[p + 1..];
    forall i | 0 <= i < |after| ensures after[i] != q[p] {
      assert after[i] == q[p + 1 + i];
    }
  }

  /** Dropping the one occurrence of `x` between two parts that lack it. */
  lemma WithoutOne<T>(a: seq<T>, x: T, b: seq<T>)
    requires x !in a && x !in b
    ensures Without(a + [x] + b, x) == a + b
  {
    var ax := a + [x];
    WithoutConcat(a, [x], x);
    WithoutAbsent(a, x);
    WithoutSingle(x);
    assert Without(ax, x) == a by {
      assert a + [] == a;
    }
    WithoutConcat(ax, b, x);
    WithoutAbsent(b, x);
  }

  lemma WithoutSingle<T>(x: T)
    ensures Without([x], x) == []
  {
    assert [x][1..] == [];
  }

  /** The rotation, written with the position `p` of `x`. */
  lemma {:induction false} RotatedAt<T>(q: seq<T>, x: T, p: nat)
    requires Distinct(q) && p < |q| && q[p] == x
    ensures p == |q| - 1 ==> Rotated(q, x) == q[..p]
    ensures p < |q| - 1 ==> Rotated(q, x) == [q[|q| - 1]] + q[..p] + q[p + 1..|q| - 1]
  {
    var n := |q|;
    if p < n - 1 {
      var front := q[..n - 1];
      DistinctFront(q);
      AroundAbsent(front, p);
      assert front[..p] == q[..p] && front[p + 1..] == q[p + 1..n - 1];
      assert front == q[..p] + [x] + q[p + 1..n - 1];
      WithoutOne(q[..p], x, q[p + 1..n - 1]);
    }
  }

  /**
   * Removing one request keeps every other queued request exactly once,
   * drops the request itself, and keeps the queue free of duplicates.
   */
  lemma {:induction false} RotationKeepsOthers<T>(q: seq<T>, x: T)
    requires Distinct(q) && x in q
    ensures multiset(Rotated(q, x)) == multiset(q)[x := 0]
    ensures |Rotated(q, x)| == |q| - 1
    ensures x !in Rotated(q, x)
    ensures Distinct(Rotated(q, x))
  {
    var n := |q|;
    var last := q[n - 1];
    var front := q[..n - 1];
    assert q == front + [last];
    DistinctFront(q);
    WithoutMultiset(front, x);
    if last == x {
      WithoutAbsent(front, x);
    } else {
      var w := Without(front, x);
      WithoutDistinct(front, x);
      WithoutMembers(front, x, last);
      WithoutLength(front, x);
      DistinctOnce(front, x);
      DistinctCons(last, w);
      assert multiset([last] + w) == multiset{last} + multiset(w);
    }
  }

  /**
   * The order is kept exactly when the removed request was last (or at most
   * one other request remains); otherwise the former last element moves to
   * the front.
   */
  lemma {:induction false} RotationOrder<T>(q: seq<T>, x: T)
    requires Distinct(q) && x in q
    ensures q[|q| - 1] == x ==> Rotated(q, x) == Without(q, x)
    ensures q[|q| - 1] != x ==> Rotated(q, x)[0] == q[|q| - 1]
    ensures q[|q| - 1] != x && |q| >= 3 ==> Rotated(q, x) != Without(q, x)
  {
    var n := |q|;
    var front := q[..n - 1];
    assert q == front + [q[n - 1]];
    WithoutConcat(front, [q[n - 1]], x);
    if q[n - 1] == x {
      assert x !in front;
      WithoutAbsent(front, x);
      assert Without([x], x) == [];
    } else if n >= 3 {
      assert Without([q[n - 1]], x) == [q[n - 1]];
      RotationKeepsOthers(q, x);
      var w := Without(front, x);
      assert |w| >= 1;
      WithoutMembers(front, x, w[0]);
      assert w[0] in front;
      assert q[n - 1] !in front;
      assert Without(q, x)[0] == w[0] != q[n - 1];
    }
  }

  /** Where a member of a sequence without duplicates sits, and that it sits nowhere else. */
  lemma Locate<T>(q: seq<T>, x: T) returns (p: nat)
    requires Distinct(q) && x in q
    ensures p < |q| && q[p] == x
    ensures x !in q[p + 1..] + q[..p]
  {
    p :| 0 <= p < |q| && q[p] == x;
    var a, b := q[p + 1..], q[..p];
    forall i | 0 <= i < |a| ensures a[i] != x { assert a[i] == q[p + 1 + i]; }
    forall i | 0 <= i < |b| ensures b[i] != x { assert b[i] == q[i]; }
  }

  /** One turn of the loop: the front is dequeued, and enqueued again unless it is `x`. */
  lemma RotateStep<T>(queue: seq<T>, x: T, i: nat, q: seq<T>)
    requires i < |queue| && q == queue[i..] + Without(queue[..i], x)
    ensures q != [] && q[0] == queue[i]
    ensures q[1..] + (if q[0] == x then [] else [q[0]]) == queue[i + 1..] + Without(queue[..i + 1], x)
  {
    assert queue[..i + 1] == queue[..i] + [queue[i]];
    WithoutConcat(queue[..i], [queue[i]], x);
    assert [queue[i]][1..] == [];
    assert queue[i..] == [queue[i]] + queue[i + 1..];
  }

  /** Where the loop stops: one turn short of the end, or at the end when `x` was last. */
  lemma RotationDone<T>(queue: seq<T>, x: T, p: nat, i: nat)
    requires Distinct(queue) && p < |queue| && queue[p] == x
    requires p < |queue| - 1 ==> i == |queue| - 1
    requires p == |queue| - 1 ==> i == |queue|
    ensures queue[i..] + Without(queue[..i], x) == Rotated(queue, x)
  {
    var n := |queue|;
    if p < n - 1 {
      assert queue[i..] == [queue[n - 1]];
    } else {
      assert queue[i..] == [];
      assert queue[..n] == queue[..n - 1] + [x];
      AroundAbsent(queue, p);
      WithoutConcat(queue[..n - 1], [x], x);
      WithoutSingle(x);
      WithoutAbsent(queue[..n - 1], x);
    }
  }

  /**
   * The dequeue/re-enqueue loop of RemoveRequestInternal, including its
   * `Contains` test: the loop runs `i` against the current `Count`, which
   * falls by one once the request has been dequeued and not put back.
   */
  method RemoveFromQueue<T(==)>(queue: seq<T>, request: T) returns (r: seq<T>)
    requires Distinct(queue)
    ensures request in queue ==> r == Rotated(queue, request)
    ensures request !in queue ==> r == queue
  {
    if request !in queue {
      return queue;
    }
    var n := |queue|;
    ghost var p := Locate(queue, request);
    var q := queue;
    var i := 0;
    assert queue[..0] == [] && queue[0..] == queue;
    while i < |q|
      invariant 0 <= i <= n
      invariant q == queue[i..] + Without(queue[..i], request)
      invariant |q| == if i > p then n - 1 else n
      invariant p < n - 1 ==> i <= n - 1
      decreases n - i
    {
      RotateStep(queue, request, i, q);
      var item := q[0];
      q := q[1..];
      if item != request {
        q := q + [item];
      }
      i := i + 1;
    }
    RotationDone(queue, request, p, i);
    r := q;
  }

  /** What the removal leaves: every other request once, and not the removed one. */
  lemma RemovedOnce<T>(queue: seq<T>, request: T, r: seq<T>)
    requires Distinct(queue)
    requires request in queue ==> r == Rotated(queue, request)
    requires request !in queue ==> r == queue
    ensures Distinct(r) && Elems(r) == Elems(queue) - {request}
  {
    if request in queue {
      RotationKeepsOthers(queue, request);
      forall y ensures y in r <==> y in queue && y != request {
        assert y in r <==> y in multiset(r);
        assert y in queue <==> y in multiset(queue);
      }
    }
  }
}
