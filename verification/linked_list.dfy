/**
 The singly linked list of `cpp/data/list.hpp`: nodes on a heap, a head and
 a tail pointer, the six operations on the two ends, and the stream output
 of an integer list.

 The heap is a map from addresses to nodes, and `new node` takes the next
 unused address. `order` lists the nodes from head to tail; no operation
 consults it to decide anything, it is there so that `Valid` can say which
 node links to which. `(T)0`, what the source returns from an empty list,
 is the parameter `zero`.
 */
module LinkedList {
  import opened Wrappers

  newtype Ref = n: int | 0 <= n

  datatype Node<T> = Node(data: T, next: Option<Ref>)

  datatype List<T> = List(
    nodes: map<Ref, Node<T>>,
    head: Option<Ref>,
    tail: Option<Ref>,
    order: seq<Ref>,
    unused: Ref)

  /** The entries at `i` and `j` are different addresses. */
  ghost predicate Differ(order: seq<Ref>, i: int, j: int)
    requires 0 <= i < |order| && 0 <= j < |order|
  {
    order[i] != order[j]
  }

  /** No address occurs twice in `order`. (`Differ` names the pairwise fact
      so that the solver only looks at the pairs a proof asks about.) */
  ghost predicate Distinct(order: seq<Ref>) {
    forall i, j :: 0 <= i < j < |order| ==> Differ(order, i, j)
  }

  /** The address after entry `i` of `order`; null after the last one. */
  ghost function Successor(order: seq<Ref>, i: int): Option<Ref>
    requires 0 <= i < |order|
  {
    if i + 1 < |order| then Some(order[i + 1]) else None
  }

  /** Each node in `order` is allocated and links to the next one; the last
      links to nothing. */
  ghost predicate Linked<T>(nodes: map<Ref, Node<T>>, order: seq<Ref>) {
    && (forall i :: 0 <= i < |order| ==> order[i] in nodes)
    && (forall i {:trigger nodes[order[i]]} :: 0 <= i < |order| ==>
          nodes[order[i]].next == Successor(order, i))
  }

  /** The nodes form one chain: no address occurs twice, each node links to
      the one after it and the last to nothing, `head` and `tail` point at
      its two ends (null when it is empty), and every allocated address is
      below `unused`. */
  ghost predicate Valid<T>(l: List<T>) {
    && Distinct(l.order)
    && (forall r :: r in l.nodes ==> r < l.unused)
    && l.head == (if |l.order| == 0 then None else Some(l.order[0]))
    && l.tail == (if |l.order| == 0 then None else Some(l.order[|l.order| - 1]))
    && Linked(l.nodes, l.order)
  }

  /** The addresses that occur in `order`. */
  ghost function Addresses(order: seq<Ref>): set<Ref> {
    set r | r in order
  }

  /** No allocated node is outside the chain: nothing has leaked. */
  ghost predicate Owned<T>(l: List<T>) {
    l.nodes.Keys == Addresses(l.order)
  }

  /** The values of the nodes at the addresses in `order`, in that order. */
  ghost function Values<T>(nodes: map<Ref, Node<T>>, order: seq<Ref>): (v: seq<T>)
    requires forall i :: 0 <= i < |order| ==> order[i] in nodes
    ensures |v| == |order|
    ensures forall i {:trigger v[i]} :: 0 <= i < |order| ==> v[i] == nodes[order[i]].data
  {
    seq(|order|, i requires 0 <= i < |order| => nodes[order[i]].data)
  }

  /** The values from head to tail. */
  ghost function Contents<T>(l: List<T>): seq<T>
    requires Valid(l)
  {
    Values(l.nodes, l.order)
  }

  // ---------------------------------------------------------------------
  // How the chain changes at its two ends
  // ---------------------------------------------------------------------

  /** Linking a fresh node after the last one extends the chain by it. */
  lemma LinkAfterLast<T>(nodes: map<Ref, Node<T>>, order: seq<Ref>, last: Ref, n: Ref, x: T)
    requires Linked(nodes, order) && Distinct(order) && n !in nodes
    requires |order| > 0 && last == order[|order| - 1]
    ensures var nodes' := nodes[last := nodes[last].(next := Some(n))][n := Node(x, None)];
      && nodes'.Keys == nodes.Keys + {n}
      && Linked(nodes', order + [n])
      && Distinct(order + [n])
      && Values(nodes', order + [n]) == Values(nodes, order) + [x]
  {
    var k := |order| - 1;
    var nodes' := nodes[last := nodes[last].(next := Some(n))][n := Node(x, None)];
    var order' := order + [n];
    forall i | 0 <= i < |order'|
      ensures order'[i] in nodes'
      ensures nodes'[order'[i]].next == Successor(order', i)
    {
      if i < k {
        assert Differ(order, i, k);
        assert nodes[order[i]].next == Some(order[i + 1]);
      }
    }
    forall i, j | 0 <= i < j < |order'|
      ensures Differ(order', i, j)
    {
      if j < |order| {
        assert Differ(order, i, j);
      }
    }
    assert Values(nodes', order') == Values(nodes, order) + [x];
  }

  /** Linking a fresh node before the first one extends the chain by it. */
  lemma LinkBeforeFirst<T>(nodes: map<Ref, Node<T>>, order: seq<Ref>, first: Option<Ref>, n: Ref, x: T)
    requires Linked(nodes, order) && Distinct(order) && n !in nodes
    requires |order| > 0 && first == Some(order[0])
    ensures var nodes' := nodes[n := Node(x, first)];
      && nodes'.Keys == nodes.Keys + {n}
      && Linked(nodes', [n] + order)
      && Distinct([n] + order)
      && Values(nodes', [n] + order) == [x] + Values(nodes, order)
  {
    var nodes' := nodes[n := Node(x, first)];
    var order' := [n] + order;
    forall i | 0 <= i < |order'|
      ensures order'[i] in nodes'
      ensures nodes'[order'[i]].next == Successor(order', i)
    {
      if i > 0 {
        assert order'[i] == order[i - 1];
        assert nodes[order[i - 1]].next == Successor(order, i - 1);
      }
    }
    forall i, j | 0 <= i < j < |order'|
      ensures Differ(order', i, j)
    {
      if i > 0 {
        assert Differ(order, i - 1, j - 1);
      }
    }
    assert Values(nodes', order') == [x] + Values(nodes, order);
  }

  /** Releasing the first node leaves the chain of the rest. */
  lemma UnlinkFirst<T>(nodes: map<Ref, Node<T>>, order: seq<Ref>, first: Ref)
    requires Linked(nodes, order) && Distinct(order)
    requires |order| > 0 && first == order[0]
    ensures var nodes' := nodes - {first};
      && nodes'.Keys == nodes.Keys - {first}
      && Linked(nodes', order[1..])
      && Distinct(order[1..])
      && Values(nodes', order[1..]) == Values(nodes, order)[1..]
  {
    var nodes' := nodes - {first};
    var order' := order[1..];
    forall i | 0 <= i < |order'|
      ensures order'[i] in nodes'
      ensures nodes'[order'[i]].next == Successor(order', i)
    {
      assert Differ(order, 0, i + 1);
      assert order'[i] == order[i + 1];
      assert nodes[order[i + 1]].next == Successor(order, i + 1);
    }
    forall i, j | 0 <= i < j < |order'|
      ensures Differ(order', i, j)
    {
      assert Differ(order, i + 1, j + 1);
    }
    assert Values(nodes', order') == Values(nodes, order)[1..];
  }

  /** Releasing the last node and clearing its predecessor's link leaves
      the chain of the others. */
  lemma UnlinkLast<T>(nodes: map<Ref, Node<T>>, order: seq<Ref>, last: Ref, before: Ref)
    requires Linked(nodes, order) && Distinct(order)
    requires |order| >= 2 && last == order[|order| - 1] && before == order[|order| - 2]
    ensures var k := |order| - 1;
      var rest := nodes - {last};
      var nodes' := rest[before := rest[before].(next := None)];
      && nodes'.Keys == nodes.Keys - {last}
      && Linked(nodes', order[..k])
      && Distinct(order[..k])
      && Values(nodes', order[..k]) == Values(nodes, order)[..k]
  {
    var k := |order| - 1;
    var rest := nodes - {last};
    var nodes' := rest[before := rest[before].(next := None)];
    var order' := order[..k];
    assert Differ(order, k - 1, k);
    forall i | 0 <= i < k
      ensures order'[i] in nodes'
      ensures nodes'[order'[i]].next == Successor(order', i)
    {
      assert Differ(order, i, k);
      if i < k - 1 {
        assert Differ(order, i, k - 1);
        assert nodes[order[i]].next == Some(order[i + 1]);
      }
    }
    forall i, j | 0 <= i < j < k
      ensures Differ(order', i, j)
    {
      assert Differ(order, i, j);
    }
    assert Values(nodes', order') == Values(nodes, order)[..k];
  }

  /** An address added at either end joins the addresses. */
  lemma AddressesWith(order: seq<Ref>, n: Ref)
    ensures Addresses(order + [n]) == Addresses(order) + {n}
    ensures Addresses([n] + order) == Addresses(order) + {n}
  {
    assert forall r :: r in order + [n] <==> r in order || r == n;
    assert forall r :: r in [n] + order <==> r in order || r == n;
  }

  /** Without its first address, a list of distinct addresses has lost
      exactly that one. */
  lemma AddressesWithoutFirst(order: seq<Ref>)
    requires Distinct(order) && |order| > 0
    ensures Addresses(order[1..]) == Addresses(order) - {order[0]}
  {
    assert order == [order[0]] + order[1..];
    AddressesWith(order[1..], order[0]);
    forall i | 0 <= i < |order[1..]|
      ensures order[1..][i] != order[0]
    {
      assert Differ(order, 0, i + 1);
    }
  }

  /** Without its last address, a list of distinct addresses has lost
      exactly that one. */
  lemma AddressesWithoutLast(order: seq<Ref>)
    requires Distinct(order) && |order| > 0
    ensures Addresses(order[..|order| - 1]) == Addresses(order) - {order[|order| - 1]}
  {
    var k := |order| - 1;
    assert order == order[..k] + [order[k]];
    AddressesWith(order[..k], order[k]);
    forall i | 0 <= i < k
      ensures order[..k][i] != order[k]
    {
      assert Differ(order, i, k);
    }
  }

  // ---------------------------------------------------------------------
  // The operations
  // ---------------------------------------------------------------------

  /** `list()`: no nodes, both pointers null. */
  function Empty<T>(): (l: List<T>)
    ensures Valid(l) && Owned(l) && |Contents(l)| == 0
  {
    List(map[], None, None, [], 0)
  }

  /** A one-node list holding `x`, at the next unused address of the empty
      list `l`: the new node is both head and tail. */
  function Single<T>(l: List<T>, x: T): (r: List<T>)
    requires Valid(l) && l.head == None
    ensures Valid(r) && Contents(r) == [x]
    ensures r.nodes.Keys == l.nodes.Keys + {l.unused}
    ensures Owned(l) ==> Owned(r)
  {
    var n := l.unused;
    AddressesWith([], n);
    List(l.nodes[n := Node(x, None)], Some(n), Some(n), [n], n + 1)
  }

  /** `push_back`: a new node after the tail; on an empty list it is both
      head and tail. */
  function PushBack<T>(l: List<T>, x: T): (r: List<T>)
    requires Valid(l)
    ensures Valid(r) && Contents(r) == Contents(l) + [x]
    ensures r.nodes.Keys == l.nodes.Keys + {l.unused}
    ensures Owned(l) ==> Owned(r)
  {
    if l.head == None then Single(l, x)
    else
      Append(l, x)
  }

  /** The non-empty case of `push_back`: the tail links to the new node,
      which becomes the tail. The chain stays well formed, `x` follows the
      old values, and exactly one address is allocated. */
  function Append<T>(l: List<T>, x: T): (r: List<T>)
    requires Valid(l) && l.head != None
    ensures Valid(r) && Contents(r) == Contents(l) + [x]
    ensures r.head == l.head && r.tail == Some(l.unused)
    ensures r.nodes.Keys == l.nodes.Keys + {l.unused}
    ensures Owned(l) ==> Owned(r)
  {
    var n := l.unused;
    var t := l.tail.value;
    LinkAfterLast(l.nodes, l.order, t, n, x);
    AddressesWith(l.order, n);
    List(l.nodes[t := l.nodes[t].(next := Some(n))][n := Node(x, None)],
         l.head, Some(n), l.order + [n], n + 1)
  }

  /** `push_front`: a new node before the head; on an empty list it is both
      head and tail. */
  function PushFront<T>(l: List<T>, x: T): (r: List<T>)
    requires Valid(l)
    ensures Valid(r) && Contents(r) == [x] + Contents(l)
    ensures r.nodes.Keys == l.nodes.Keys + {l.unused}
    ensures Owned(l) ==> Owned(r)
  {
    if l.head == None then Single(l, x)
    else
      Prepend(l, x)
  }

  /** The non-empty case of `push_front`: the new node links to the head
      and becomes the head. The chain stays well formed, `x` precedes the
      old values, and exactly one address is allocated. */
  function Prepend<T>(l: List<T>, x: T): (r: List<T>)
    requires Valid(l) && l.head != None
    ensures Valid(r) && Contents(r) == [x] + Contents(l)
    ensures r.head == Some(l.unused) && r.tail == l.tail
    ensures r.nodes.Keys == l.nodes.Keys + {l.unused}
    ensures Owned(l) ==> Owned(r)
  {
    var n := l.unused;
    LinkBeforeFirst(l.nodes, l.order, l.head, n, x);
    AddressesWith(l.order, n);
    List(l.nodes[n := Node(x, l.head)], Some(n), l.tail, [n] + l.order, n + 1)
  }

  /** `pop_front`: the head's value, with the head node released; `zero`
      and the list unchanged when empty. */
  function PopFront<T>(l: List<T>, zero: T): (r: (List<T>, T))
    requires Valid(l)
    ensures Valid(r.0)
    ensures |Contents(l)| == 0 ==> r.1 == zero && r.0 == l
    ensures |Contents(l)| > 0 ==> r.1 == Contents(l)[0] && Contents(r.0) == Contents(l)[1..]
    ensures |Contents(l)| > 0 ==> r.0.nodes.Keys == l.nodes.Keys - {l.head.value}
    ensures Owned(l) ==> Owned(r.0)
  {
    if l.head == None then (l, zero)
    else
      (DropHead(l), l.nodes[l.head.value].data)
  }

  /** The release step of `pop_front`: the head node is deleted, its
      successor becomes the head, and the tail is cleared when there is
      no successor. The chain stays well formed, the first value is gone,
      and exactly the head's address is released. */
  function DropHead<T>(l: List<T>): (r: List<T>)
    requires Valid(l) && l.head != None
    ensures Valid(r) && Contents(r) == Contents(l)[1..]
    ensures r.tail == None <==> |Contents(l)| == 1
    ensures r.nodes.Keys == l.nodes.Keys - {l.head.value}
    ensures Owned(l) ==> Owned(r)
  {
    var h := l.head.value;
    UnlinkFirst(l.nodes, l.order, h);
    AddressesWithoutFirst(l.order);
    assert l.nodes[l.order[0]].next == Successor(l.order, 0);
    var next := l.nodes[h].next;
    List(l.nodes - {h}, next, if next == None then None else l.tail, l.order[1..], l.unused)
  }

  /** `pop_back`: the tail's value, with the last node released and its
      predecessor as the new tail; `zero` and the list unchanged when
      empty. */
  method PopBack<T>(l: List<T>, zero: T) returns (r: List<T>, x: T)
    requires Valid(l)
    ensures Valid(r)
    ensures |Contents(l)| == 0 ==> x == zero && r == l
    ensures |Contents(l)| > 0 ==>
              x == Contents(l)[|Contents(l)| - 1] && Contents(r) == Contents(l)[..|Contents(l)| - 1]
    ensures |Contents(l)| > 0 ==> r.nodes.Keys == l.nodes.Keys - {l.tail.value}
    ensures Owned(l) ==> Owned(r)
  {
    if l.head == None {
      return l, zero;
    }
    var current, previous := WalkToLast(l);
    x := l.nodes[current].data;
    r := DropTail(l, current, previous);
  }

  /** The walk of `pop_back`: from the head along the links to the node
      whose link is null, remembering the node before it. */
  method WalkToLast<T>(l: List<T>) returns (current: Ref, previous: Option<Ref>)
    requires Linked(l.nodes, l.order) && |l.order| > 0 && l.head == Some(l.order[0])
    ensures current == l.order[|l.order| - 1]
    ensures previous == if |l.order| == 1 then None else Some(l.order[|l.order| - 2])
  {
    current := l.head.value;
    previous := None;
    ghost var i := 0;
    while l.nodes[current].next != None
      invariant 0 <= i < |l.order| && current == l.order[i]
      invariant previous == if i == 0 then None else Some(l.order[i - 1])
      decreases |l.order| - i
    {
      assert l.nodes[l.order[i]].next == Successor(l.order, i);
      previous := Some(current);
      current := l.nodes[current].next.value;
      i := i + 1;
    }
    assert l.nodes[l.order[i]].next == Successor(l.order, i);
  }

  /** The release step of `pop_back`, given the last node and its
      predecessor: the last node is deleted; with no predecessor both
      pointers become null, otherwise the predecessor's link is cleared and
      it becomes the tail. The chain stays well formed, the last value is
      gone, and exactly the last address is released. */
  function DropTail<T>(l: List<T>, current: Ref, previous: Option<Ref>): (r: List<T>)
    requires Valid(l) && |l.order| > 0 && current == l.order[|l.order| - 1]
    requires previous == if |l.order| == 1 then None else Some(l.order[|l.order| - 2])
    ensures Valid(r) && Contents(r) == Contents(l)[..|l.order| - 1]
    ensures r.tail == previous
    ensures r.nodes.Keys == l.nodes.Keys - {current}
    ensures Owned(l) ==> Owned(r)
  {
    AddressesWithoutLast(l.order);
    var nodes := l.nodes - {current};
    if previous == None then
      assert l.order[..0] == [];
      List(nodes, None, None, [], l.unused)
    else
      var p := previous.value;
      assert Differ(l.order, |l.order| - 2, |l.order| - 1);
      UnlinkLast(l.nodes, l.order, current, p);
      List(nodes[p := nodes[p].(next := None)], l.head, previous, l.order[..|l.order| - 1], l.unused)
  }

  /** `front`: the head's value, `zero` when empty. */
  function Front<T>(l: List<T>, zero: T): (r: T)
    requires Valid(l)
    ensures |Contents(l)| == 0 ==> r == zero
    ensures |Contents(l)| > 0 ==> r == Contents(l)[0]
  {
    if l.head == None then zero else l.nodes[l.head.value].data
  }

  /** `back`: the tail's value, `zero` when empty. */
  function Back<T>(l: List<T>, zero: T): (r: T)
    requires Valid(l)
    ensures |Contents(l)| == 0 ==> r == zero
    ensures |Contents(l)| > 0 ==> r == Contents(l)[|Contents(l)| - 1]
  {
    if l.tail == None then zero else l.nodes[l.tail.value].data
  }

  // ---------------------------------------------------------------------
  // Round trips
  // ---------------------------------------------------------------------

  /** `push_front` then `pop_front` gives back the pushed value and the very
      list it started from; only the next unused address has moved on. */
  lemma PushPopFront<T>(l: List<T>, x: T, zero: T)
    requires Valid(l)
    ensures PopFront(PushFront(l, x), zero) == (l.(unused := l.unused + 1), x)
  {
    var n := l.unused;
    var pushed := PushFront(l, x);
    assert n !in l.nodes;
    if l.head == None {
      assert pushed.nodes - {n} == l.nodes;
    } else {
      assert pushed.nodes - {n} == l.nodes;
      assert pushed.order[1..] == l.order;
    }
  }

  /** `push_back` then `pop_back` gives back the pushed value and the values
      and addresses the list started with. */
  method PushPopBack<T>(l: List<T>, x: T, zero: T) returns (r: List<T>, y: T)
    requires Valid(l)
    ensures y == x
    ensures Valid(r) && Contents(r) == Contents(l)
    ensures r.nodes.Keys == l.nodes.Keys
    ensures Owned(l) ==> Owned(r)
  {
    var c := Contents(l);
    var pushed := PushBack(l, x);
    assert pushed.tail == Some(l.unused);
    assert Contents(pushed) == c + [x];
    r, y := PopBack(pushed, zero);
    assert (c + [x])[..|c|] == c;
  }
}
