/** The search's priority queue: a binary heap kept in a slice, with no decrease-key. */
module RoutingQueue {

  datatype Item = Item(node: string, cost: real)

  function Parent(i: int): int { (i - 1) / 2 }

  ghost predicate HeapOrdered(s: seq<Item>) {
    forall i | 0 < i < |s| :: s[Parent(i)].cost <= s[i].cost
  }

  /** Ordered except between j and its parent; j's children are above j's parent. */
  ghost predicate OrderedAbove(s: seq<Item>, j: nat) {
    && (forall i | 0 < i < |s| && i != j :: s[Parent(i)].cost <= s[i].cost)
    && (forall i | 0 < i < |s| && j > 0 && Parent(i) == j :: s[Parent(j)].cost <= s[i].cost)
  }

  /** Ordered within the first n except between j and its children. */
  ghost predicate OrderedBelow(s: seq<Item>, n: nat, j: nat)
    requires n <= |s|
  {
    && (forall i | 0 < i < n && Parent(i) != j :: s[Parent(i)].cost <= s[i].cost)
    && (forall i | 0 < i < n && j > 0 && Parent(i) == j :: s[Parent(j)].cost <= s[i].cost)
  }

  lemma {:induction false} RootIsLeast(s: seq<Item>, i: nat)
    requires HeapOrdered(s) && i < |s|
    ensures s[0].cost <= s[i].cost
  {
    if i > 0 {
      RootIsLeast(s, Parent(i));
    }
  }

  function Swap(s: seq<Item>, i: nat, j: nat): (r: seq<Item>)
    requires i < |s| && j < |s|
    ensures |r| == |s| && multiset(r) == multiset(s)
    ensures forall k | 0 <= k < |s| :: r[k] == if k == i then s[j] else if k == j then s[i] else s[k]
  {
    s[i := s[j]][j := s[i]]
  }

  method Up(s: seq<Item>, start: nat) returns (r: seq<Item>)
    requires start < |s| && OrderedAbove(s, start)
    ensures HeapOrdered(r) && multiset(r) == multiset(s)
  {
    r := s;
    var j: nat := start;
    while j > 0 && r[j].cost < r[Parent(j)].cost
      invariant j < |r| && |r| == |s|
      invariant OrderedAbove(r, j)
      invariant multiset(r) == multiset(s)
    {
      r := Swap(r, Parent(j), j);
      j := Parent(j);
    }
  }

  ghost predicate LeastChild(s: seq<Item>, n: nat, i: nat, j: nat)
    requires n <= |s|
  {
    && i < j < n && Parent(j) == i
    && forall k | 0 < k < n && Parent(k) == i :: s[j].cost <= s[k].cost
  }

  lemma SinkStep(s: seq<Item>, n: nat, i: nat, j: nat)
    requires n <= |s| && OrderedBelow(s, n, i) && LeastChild(s, n, i, j)
    requires s[j].cost < s[i].cost
    ensures OrderedBelow(Swap(s, i, j), n, j)
  {
  }

  lemma SinkDone(s: seq<Item>, n: nat, i: nat)
    requires n <= |s| && OrderedBelow(s, n, i)
    requires forall k | 0 < k < n && Parent(k) == i :: s[i].cost <= s[k].cost
    ensures HeapOrdered(s[..n])
  {
  }

  /** Sinks the root within the first n items. */
  method Down(s: seq<Item>, n: nat) returns (r: seq<Item>)
    requires n <= |s| && OrderedBelow(s, n, 0)
    ensures |r| == |s| && multiset(r) == multiset(s)
    ensures r[n..] == s[n..] && HeapOrdered(r[..n])
  {
    r := s;
    var i: nat := 0;
    while 2 * i + 1 < n
      invariant |r| == |s| && multiset(r) == multiset(s)
      invariant r[n..] == s[n..]
      invariant OrderedBelow(r, n, i)
      decreases n - i
    {
      var j: nat := 2 * i + 1;
      if j + 1 < n && r[j + 1].cost < r[j].cost {
        j := j + 1;
      }
      assert LeastChild(r, n, i, j);
      if r[j].cost >= r[i].cost {
        SinkDone(r, n, i);
        return;
      }
      SinkStep(r, n, i, j);
      r := Swap(r, i, j);
      i := j;
    }
    SinkDone(r, n, i);
  }

  class PriorityQueue {
    var items: seq<Item>

    ghost predicate Valid()
      reads this
    {
      HeapOrdered(items)
    }

    constructor (first: Item)
      ensures Valid() && items == [first]
    {
      items := [first];
    }

    method Push(item: Item)
      requires Valid()
      modifies this
      ensures Valid()
      ensures multiset(items) == old(multiset(items)) + multiset{item}
    {
      items := Up(items + [item], |items|);
    }

    method Pop() returns (item: Item)
      requires Valid() && items != []
      modifies this
      ensures Valid()
      ensures item in old(items) && forall other :: other in old(items) ==> item.cost <= other.cost
      ensures multiset(items) == old(multiset(items)) - multiset{item}
      ensures |items| == |old(items)| - 1
    {
      var last := |items| - 1;
      forall i: nat | i < |items|
        ensures items[0].cost <= items[i].cost
      {
        RootIsLeast(items, i);
      }
      var sunk := Down(Swap(items, 0, last), last);
      item := sunk[last];
      assert sunk[last] == sunk[last..][0] == items[0];
      assert sunk == sunk[..last] + [item];
      items := sunk[..last];
    }
  }
}
