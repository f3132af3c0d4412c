/**
  Ordering nodes by `totalCost` the way Python's `sorted(..., key=totalCost)`
  does: ascending and stable, so nodes of equal cost keep their order. The BFS
  and DFS agents sort the explored list once, when they stop; the A* agent
  sorts its frontier at the top of every iteration.
*/
module CostOrder {
  import opened SearchNode

  /** Index of the earliest node of least cost. */
  function FirstMin<S, M>(xs: seq<Node<S, M>>): (i: nat)
    requires |xs| > 0
    ensures i < |xs|
    ensures forall j | 0 <= j < |xs| :: xs[i].totalCost <= xs[j].totalCost
    ensures forall j | 0 <= j < i :: xs[j].totalCost > xs[i].totalCost
  {
    if |xs| == 1 then 0
    else
      var k := FirstMin(xs[1..]);
      if xs[0].totalCost <= xs[1..][k].totalCost then 0 else k + 1
  }

  /** Insert `x` before the first node that costs at least as much. */
  function InsertByCost<S, M>(x: Node<S, M>, ys: seq<Node<S, M>>): (r: seq<Node<S, M>>)
    ensures |r| == |ys| + 1
  {
    if |ys| == 0 then [x]
    else if x.totalCost <= ys[0].totalCost then [x] + ys
    else [ys[0]] + InsertByCost(x, ys[1..])
  }

  /** Stable insertion sort by ascending `totalCost`. */
  function Sort<S, M>(xs: seq<Node<S, M>>): (r: seq<Node<S, M>>)
    ensures |r| == |xs|
  {
    if |xs| == 0 then [] else InsertByCost(xs[0], Sort(xs[1..]))
  }

  ghost predicate SortedByCost<S, M>(xs: seq<Node<S, M>>) {
    forall i, j | 0 <= i < j < |xs| :: xs[i].totalCost <= xs[j].totalCost
  }

  /** The nodes of `xs` costing exactly `c`, in their order in `xs`. */
  function WithCost<S, M>(xs: seq<Node<S, M>>, c: int): seq<Node<S, M>> {
    if |xs| == 0 then []
    else (if xs[0].totalCost == c then [xs[0]] else []) + WithCost(xs[1..], c)
  }

  lemma {:induction false} InsertByCostMultiset<S, M>(x: Node<S, M>, ys: seq<Node<S, M>>)
    ensures multiset(InsertByCost(x, ys)) == multiset(ys) + multiset{x}
  {
    if |ys| > 0 && x.totalCost > ys[0].totalCost {
      InsertByCostMultiset(x, ys[1..]);
      assert ys == [ys[0]] + ys[1..];
    }
  }

  lemma {:induction false} InsertByCostSorted<S, M>(x: Node<S, M>, ys: seq<Node<S, M>>)
    requires SortedByCost(ys)
    ensures SortedByCost(InsertByCost(x, ys))
    ensures InsertByCost(x, ys)[0] == (if |ys| == 0 || x.totalCost <= ys[0].totalCost then x else ys[0])
  {
    if |ys| > 0 && x.totalCost > ys[0].totalCost {
      InsertByCostSorted(x, ys[1..]);
      var r := InsertByCost(x, ys[1..]);
      assert forall k | 0 <= k < |r| :: r[k].totalCost >= ys[0].totalCost by {
        InsertByCostMultiset(x, ys[1..]);
        forall k | 0 <= k < |r| ensures r[k].totalCost >= ys[0].totalCost {
          assert r[k] in multiset(r);
          assert r[k] == x || r[k] in multiset(ys[1..]);
          if r[k] != x {
            var m :| 0 <= m < |ys[1..]| && ys[1..][m] == r[k];
            assert ys[m + 1] == r[k];
          }
        }
      }
    }
  }

  /** Inserting `x` adds it to the nodes of its own cost ahead of all of them
      and leaves every other cost class alone. */
  lemma {:induction false} InsertByCostWithCost<S, M>(x: Node<S, M>, ys: seq<Node<S, M>>, c: int)
    ensures WithCost(InsertByCost(x, ys), c) == (if x.totalCost == c then [x] else []) + WithCost(ys, c)
  {
    var xc: seq<Node<S, M>> := if x.totalCost == c then [x] else [];
    if |ys| == 0 {
      assert WithCost([x], c) == xc + WithCost([x][1..], c);
    } else if x.totalCost <= ys[0].totalCost {
      assert ([x] + ys)[1..] == ys;
      assert WithCost([x] + ys, c) == xc + WithCost(ys, c);
    } else {
      var y := ys[0];
      var yc: seq<Node<S, M>> := if y.totalCost == c then [y] else [];
      var r := InsertByCost(x, ys[1..]);
      InsertByCostWithCost(x, ys[1..], c);
      assert ([y] + r)[1..] == r;
      assert WithCost([y] + r, c) == yc + WithCost(r, c);
      assert WithCost(ys, c) == yc + WithCost(ys[1..], c);
      assert yc + (xc + WithCost(ys[1..], c)) == xc + (yc + WithCost(ys[1..], c)) by {
        assert xc == [] || yc == [];
      }
    }
  }

  /** `Sort` is a permutation of its input. */
  lemma {:induction false} SortMultiset<S, M>(xs: seq<Node<S, M>>)
    ensures multiset(Sort(xs)) == multiset(xs)
  {
    if |xs| > 0 {
      SortMultiset(xs[1..]);
      InsertByCostMultiset(xs[0], Sort(xs[1..]));
      assert xs == [xs[0]] + xs[1..];
    }
  }

  /** `Sort` orders by ascending cost. */
  lemma {:induction false} SortSorted<S, M>(xs: seq<Node<S, M>>)
    ensures SortedByCost(Sort(xs))
  {
    if |xs| > 0 {
      SortSorted(xs[1..]);
      InsertByCostSorted(xs[0], Sort(xs[1..]));
    }
  }

  /** `Sort` is stable: within each cost, nodes keep their input order. */
  lemma {:induction false} SortStable<S, M>(xs: seq<Node<S, M>>, c: int)
    ensures WithCost(Sort(xs), c) == WithCost(xs, c)
  {
    if |xs| > 0 {
      SortStable(xs[1..], c);
      InsertByCostWithCost(xs[0], Sort(xs[1..]), c);
    }
  }

  /** What `sorted(xs)[0]` / `pop(0)` yields: the earliest node of least cost. */
  lemma {:induction false} SortHead<S, M>(xs: seq<Node<S, M>>)
    requires |xs| > 0
    ensures Sort(xs)[0] == xs[FirstMin(xs)]
  {
    if |xs| > 1 {
      SortHead(xs[1..]);
      SortSorted(xs[1..]);
      InsertByCostSorted(xs[0], Sort(xs[1..]));
    }
  }

  /** Sorting and taking the head leaves exactly the other nodes behind. */
  lemma SortTail<S, M>(xs: seq<Node<S, M>>)
    requires |xs| > 0
    ensures multiset(Sort(xs)[1..]) == multiset(xs) - multiset{xs[FirstMin(xs)]}
  {
    var r := Sort(xs);
    SortMultiset(xs);
    SortHead(xs);
    assert r == [r[0]] + r[1..];
  }
}
