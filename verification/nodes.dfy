// The node structure shared by the renderer's TREE and LIST: one record per
// Java `Node` object, kept in an arena and addressed by index (-1 stands for
// Java's null).  Models pdf/Node.java.
module Nodes {
  import opened Common

  /** Which of the four payload slots of a Java `Node` is filled. */
  datatype Kind = Element | Text | Replaced | Marker

  /** The computed value of `page-break-before` / `page-break-after` (Unset = null). */
  datatype PageBreak = BreakUnset | BreakAlways | BreakAvoid | BreakOther

  /** The computed value of `page-break-inside` (Unset = null). */
  datatype PageBreakInside = InsideUnset | InsideAvoid | InsideOther

  /**
   * What the layout engine reports about one box: its kind, its document
   * order id, its absolute content position and size, and its page-break
   * properties (only read for elements).
   */
  datatype Box = Box(kind: Kind, order: int, x: real, y: real, width: real, height: real,
                     before: PageBreak, after: PageBreak, inside: PageBreakInside)

  /**
   * One Java `Node`: parent reference, ordered children, payload, the two
   * pagination accumulators, the parent id remembered while the node waits
   * for its parent, and the LIST-to-TREE reference.
   */
  datatype NodeRec = NodeRec(parent: int, children: seq<nat>, box: Box,
                             plusOffset: real, plusHeight: real,
                             pendingParentId: int, treeEq: int)

  /** The Java constructor `Node(parent, payload, treeEq)`. */
  function NewNodeRec(parent: int, box: Box, treeEq: int): (r: NodeRec)
    ensures r.parent == parent && r.box == box && r.treeEq == treeEq
    ensures r.children == [] && r.plusOffset == 0.0 && r.plusHeight == 0.0
    ensures r.pendingParentId == -1
  {
    NodeRec(parent, [], box, 0.0, 0.0, -1, treeEq)
  }

  predicate IsElem(n: NodeRec) { n.box.kind == Element }

  /** `getID`: the document order of an element, text or replaced box; -1 for a marker. */
  function GetID(n: NodeRec): int {
    if n.box.kind == Marker then -1 else n.box.order
  }

  /** `getElemY`: absolute content top; -1 for a marker. */
  function ElemY(n: NodeRec): real {
    if n.box.kind == Marker then -1.0 else n.box.y
  }

  /** `getElemX`: absolute content left; -1 for a marker. */
  function ElemX(n: NodeRec): real {
    if n.box.kind == Marker then -1.0 else n.box.x
  }

  /** `getElemHeight`; -1 for a marker. */
  function ElemHeight(n: NodeRec): real {
    if n.box.kind == Marker then -1.0 else n.box.height
  }

  /** `getElemWidth`; -1 for a marker. */
  function ElemWidth(n: NodeRec): real {
    if n.box.kind == Marker then -1.0 else n.box.width
  }

  /** The y used to place a new node among its siblings (a marker's own y, unlike `ElemY`). */
  function PlacementY(b: Box): real { b.y }

  /** A marker carries no identity and no geometry of its own. */
  lemma MarkerIsAnonymous(n: NodeRec)
    requires n.box.kind == Marker
    ensures GetID(n) == -1 && ElemY(n) == -1.0 && ElemHeight(n) == -1.0
  {
  }

  predicate SortedReals(ys: seq<real>) {
    forall i, j :: 0 <= i < j < |ys| ==> ys[i] <= ys[j]
  }

  /**
   * Where a node with top `y` goes among siblings whose tops are `ys`: before
   * the first sibling strictly lower on the page, else at the end.
   */
  function InsertPos(ys: seq<real>, y: real): (k: nat)
    ensures k <= |ys|
    ensures forall j :: 0 <= j < k ==> ys[j] <= y
    ensures k < |ys| ==> ys[k] > y
  {
    if ys == [] then 0
    else if ys[0] > y then 0
    else 1 + InsertPos(ys[1..], y)
  }

  /** `InsertPos` is the first position whose top exceeds `y`, all earlier ones being at most `y`. */
  lemma {:induction false} InsertPosIs(ys: seq<real>, y: real, k: nat)
    requires k <= |ys| && (forall j :: 0 <= j < k ==> ys[j] <= y) && (k < |ys| ==> ys[k] > y)
    ensures InsertPos(ys, y) == k
  {
    if ys != [] && k > 0 {
      InsertPosIs(ys[1..], y, k - 1);
    }
  }

  function InsertAt<T>(s: seq<T>, k: nat, x: T): (r: seq<T>)
    requires k <= |s|
  {
    s[..k] + [x] + s[k..]
  }

  /**
   * Inserting at `InsertPos` keeps an ascending sibling order ascending, and
   * the new node lands after every sibling with the same top.
   */
  lemma {:induction false} InsertKeepsSorted(ys: seq<real>, y: real)
    requires SortedReals(ys)
    ensures SortedReals(InsertAt(ys, InsertPos(ys, y), y))
    ensures forall j :: 0 <= j < |ys| && ys[j] == y ==> j < InsertPos(ys, y)
  {
    var k := InsertPos(ys, y);
    var r := InsertAt(ys, k, y);
    assert |r| == |ys| + 1;
    forall i, j | 0 <= i < j < |r| ensures r[i] <= r[j] {
      if j < k {
      } else if j == k {
        assert r[j] == y && r[i] == ys[i];
      } else if i < k {
        assert r[j] == ys[j - 1];
        assert ys[i] <= ys[j - 1];
      } else if i == k {
        assert r[j] == ys[j - 1] && ys[j - 1] >= ys[k];
      } else {
        assert r[i] == ys[i - 1] && r[j] == ys[j - 1];
      }
    }
  }

  /** Arena invariant of one record: in-range links, a parent created before the node, distinct children. */
  predicate Linked(r: NodeRec, self: nat, size: nat) {
    -1 <= r.parent < self && -1 <= r.treeEq < size && NoDups(r.children)
    && forall i :: 0 <= i < |r.children| ==> r.children[i] < size
  }

  lemma NoDupsAppend<T>(a: seq<T>, b: seq<T>)
    requires NoDups(a) && NoDups(b)
    requires forall x :: x in a ==> x !in b
    ensures NoDups(a + b)
  {
    forall i, j | 0 <= i < j < |a + b| ensures (a + b)[i] != (a + b)[j] {
      if j < |a| {
      } else if i >= |a| {
        assert (a + b)[i] == b[i - |a|] && (a + b)[j] == b[j - |a|];
      } else {
        assert (a + b)[i] in a && (a + b)[j] == b[j - |a|];
      }
    }
  }

  lemma NoDupsInsert<T>(s: seq<T>, k: nat, x: T)
    requires k <= |s| && NoDups(s) && x !in s
    ensures NoDups(InsertAt(s, k, x))
    ensures forall y :: y in InsertAt(s, k, x) <==> y in s || y == x
  {
    assert s == s[..k] + s[k..];
    NoDupsAppend(s[..k], [x]);
    NoDupsAppend(s[..k] + [x], s[k..]);
  }

  /**
   * All Java `Node` objects of one renderer.  `ownerOf[c]` is the node whose
   * children list holds `c` (-1: none) and `rank` grows strictly from a node
   * to its children; both are proof devices that make every breadth-first
   * walk finite and free of repeats.
   */
  /**
   * Every record's links are in range; each child sits in exactly the
   * children list its owner names and ranks strictly below it; and every
   * owned node is in its owner's children list.
   */
  ghost predicate ArenaOk(nodes: seq<NodeRec>, ownerOf: seq<int>, rank: seq<nat>) {
    |ownerOf| == |nodes| && |rank| == |nodes|
    && (forall n :: 0 <= n < |nodes| ==> Linked(nodes[n], n, |nodes|))
    && (forall n, c :: 0 <= n < |nodes| && c in nodes[n].children ==>
          c < |nodes| && ownerOf[c] == n && rank[n] < rank[c])
    && (forall c :: 0 <= c < |nodes| && ownerOf[c] != -1 ==>
          0 <= ownerOf[c] < |nodes| && c in nodes[ownerOf[c]].children)
  }

  /** Placing an unattached, childless node among the children of another node keeps the arena well linked. */
  lemma PlaceKeepsArena(nodes: seq<NodeRec>, ownerOf: seq<int>, rank: seq<nat>, p: nat, k: nat, c: nat)
    requires ArenaOk(nodes, ownerOf, rank) && p < |nodes| && c < |nodes| && c != p
    requires k <= |nodes[p].children| && ownerOf[c] == -1 && nodes[c].children == []
    ensures ArenaOk(nodes[p := nodes[p].(children := InsertAt(nodes[p].children, k, c))],
                    ownerOf[c := p], rank[c := rank[p] + 1])
  {
    var ch := nodes[p].children;
    assert c !in ch;
    assert Linked(nodes[p], p, |nodes|);
    NoDupsInsert(ch, k, c);
    var nodes' := nodes[p := nodes[p].(children := InsertAt(ch, k, c))];
    var ownerOf', rank' := ownerOf[c := p], rank[c := rank[p] + 1];
    forall n | 0 <= n < |nodes'| ensures Linked(nodes'[n], n, |nodes'|) {
      assert Linked(nodes[n], n, |nodes|);
    }
    forall n, x | 0 <= n < |nodes'| && x in nodes'[n].children
      ensures x < |nodes'| && ownerOf'[x] == n && rank'[n] < rank'[x]
    {
      if n != p { assert x in nodes[n].children; }
      else if x != c { assert x in ch; }
    }
    forall x | 0 <= x < |nodes'| && ownerOf'[x] != -1
      ensures 0 <= ownerOf'[x] < |nodes'| && x in nodes'[ownerOf'[x]].children
    {
      if x != c {
        var o := ownerOf[x];
        assert x in nodes[o].children;
        assert x in ch ==> x in nodes'[p].children;
      }
    }
  }

  /**
   * A breadth-first walk so far: `order` is what has been visited and
   * `queue` what is waiting; no node occurs twice in them, every start node
   * is in them, the children of visited nodes are in them, and every node in
   * them is a start node or a child of a visited node.
   */
  ghost predicate BfsInv(nodes: seq<NodeRec>, ownerOf: seq<int>, rank: seq<nat>,
                         start: seq<nat>, floor: int, order: seq<nat>, queue: seq<nat>)
    requires |ownerOf| == |nodes| && |rank| == |nodes|
  {
    NoDups(order + queue)
    && (forall x :: x in order + queue ==>
          x < |nodes| && rank[x] > floor && (x in start || (ownerOf[x] != -1 && ownerOf[x] in order)))
    && (forall s :: s in start ==> s in order + queue)
    && (forall x, c :: x in order && x < |nodes| && c in nodes[x].children ==> c in order + queue)
  }

  /** Visiting the head of the queue and enqueueing its children keeps the walk invariant. */
  lemma BfsStep(nodes: seq<NodeRec>, ownerOf: seq<int>, rank: seq<nat>,
                start: seq<nat>, floor: int, order: seq<nat>, queue: seq<nat>)
    requires |ownerOf| == |nodes| && |rank| == |nodes|
    requires BfsInv(nodes, ownerOf, rank, start, floor, order, queue) && queue != []
    requires forall s :: s in start ==> ownerOf[s] == -1 || (0 <= ownerOf[s] < |nodes| && rank[ownerOf[s]] <= floor)
    requires queue[0] < |nodes| && NoDups(nodes[queue[0]].children)
    requires forall c :: c in nodes[queue[0]].children ==>
               c < |nodes| && ownerOf[c] == queue[0] && rank[queue[0]] < rank[c]
    ensures BfsInv(nodes, ownerOf, rank, start, floor, order + [queue[0]], queue[1..] + nodes[queue[0]].children)
  {
    var n := queue[0];
    assert n in order + queue;
    var ch := nodes[n].children;
    var order', queue' := order + [n], queue[1..] + ch;
    assert order' + queue' == (order + queue) + ch;
    assert order + queue == order + [n] + queue[1..];
    assert n !in order by {
      forall i | 0 <= i < |order| ensures order[i] != n {
        assert (order + queue)[i] == order[i] && (order + queue)[|order|] == n;
      }
    }
    forall c | c in ch ensures c !in order + queue {
      assert c !in start;
    }
    NoDupsAppend(order + queue, ch);
    forall x | x in order' + queue'
      ensures x < |nodes| && rank[x] > floor && (x in start || (ownerOf[x] != -1 && ownerOf[x] in order'))
    {
      if x !in order + queue {
        assert x in ch;
      }
    }
  }

  /**
   * `D` is the set of all descendants of `k`: it holds the children of `k`,
   * is closed under children, and every member hangs below `k` or below
   * another member.
   */
  ghost predicate Subtree(nodes: seq<NodeRec>, ownerOf: seq<int>, k: nat, D: set<nat>)
    requires k < |nodes| && |ownerOf| == |nodes|
  {
    (forall c :: c in nodes[k].children ==> c in D)
    && (forall n, c :: n in D && n < |nodes| && c in nodes[n].children ==> c in D)
    && forall x :: x in D ==> x < |nodes| && (ownerOf[x] == k || ownerOf[x] in D)
  }

  lemma SubtreeMember(nodes: seq<NodeRec>, ownerOf: seq<int>, rank: seq<nat>, k: nat, D1: set<nat>, D2: set<nat>, x: nat)
    requires ArenaOk(nodes, ownerOf, rank) && k < |nodes|
    requires Subtree(nodes, ownerOf, k, D1) && Subtree(nodes, ownerOf, k, D2) && x in D1
    ensures x in D2
    decreases rank[x]
  {
    var o := ownerOf[x];
    assert x in nodes[o].children;
    if o != k {
      SubtreeMember(nodes, ownerOf, rank, k, D1, D2, o);
    }
  }

  /** The descendants of a node are determined by the arena. */
  lemma SubtreeUnique(nodes: seq<NodeRec>, ownerOf: seq<int>, rank: seq<nat>, k: nat, D1: set<nat>, D2: set<nat>)
    requires ArenaOk(nodes, ownerOf, rank) && k < |nodes|
    requires Subtree(nodes, ownerOf, k, D1) && Subtree(nodes, ownerOf, k, D2)
    ensures D1 == D2
  {
    forall x | x in D1 ensures x in D2 { SubtreeMember(nodes, ownerOf, rank, k, D1, D2, x); }
    forall x | x in D2 ensures x in D1 { SubtreeMember(nodes, ownerOf, rank, k, D2, D1, x); }
  }

  /**
   * `x` is `k` or hangs, through a chain of owners of falling rank, below
   * `k`: `x` is in the tree rooted at `k`.
   */
  ghost predicate Below(ownerOf: seq<int>, rank: seq<nat>, x: nat, k: nat)
    requires |rank| == |ownerOf| && x < |ownerOf|
    decreases rank[x]
  {
    x == k
    || (0 <= ownerOf[x] < |ownerOf| && rank[ownerOf[x]] < rank[x] && Below(ownerOf, rank, ownerOf[x], k))
  }

  /** A descendant of `k` hangs below `k`. */
  lemma {:induction false} SubtreeBelow(nodes: seq<NodeRec>, ownerOf: seq<int>, rank: seq<nat>,
                                        k: nat, D: set<nat>, x: nat)
    requires ArenaOk(nodes, ownerOf, rank) && k < |nodes| && Subtree(nodes, ownerOf, k, D) && x in D
    ensures Below(ownerOf, rank, x, k)
    decreases rank[x]
  {
    var o := ownerOf[x];
    assert x in nodes[o].children;
    if o != k {
      SubtreeBelow(nodes, ownerOf, rank, k, D, o);
    }
  }

  /** A node other than `k` that hangs below `k` is a descendant of `k`. */
  lemma {:induction false} BelowSubtree(nodes: seq<NodeRec>, ownerOf: seq<int>, rank: seq<nat>,
                                        k: nat, D: set<nat>, x: nat)
    requires ArenaOk(nodes, ownerOf, rank) && k < |nodes| && Subtree(nodes, ownerOf, k, D)
    requires x < |nodes| && x != k && Below(ownerOf, rank, x, k)
    ensures x in D
    decreases rank[x]
  {
    var o := ownerOf[x];
    assert x in nodes[o].children;
    if o != k {
      BelowSubtree(nodes, ownerOf, rank, k, D, o);
    }
  }

  /**
   * Hanging below `k` survives any change of owners and ranks that keeps
   * those of every owned node and of `k` itself.
   */
  lemma {:induction false} BelowKept(ownerOf: seq<int>, rank: seq<nat>, ownerOf': seq<int>, rank': seq<nat>,
                                     x: nat, k: nat)
    requires |rank| == |ownerOf| && |rank'| == |ownerOf'| && |ownerOf| <= |ownerOf'| && x < |ownerOf|
    requires forall y :: 0 <= y < |ownerOf| && (ownerOf[y] != -1 || y == k) ==>
               ownerOf'[y] == ownerOf[y] && rank'[y] == rank[y]
    requires Below(ownerOf, rank, x, k)
    ensures Below(ownerOf', rank', x, k)
    decreases rank[x]
  {
    if x != k {
      var o := ownerOf[x];
      if o != k {
        assert ownerOf[o] != -1;
      }
      BelowKept(ownerOf, rank, ownerOf', rank', o, k);
    }
  }

  /** Every record of the arena is well linked. */
  predicate AllLinked(nodes: seq<NodeRec>) {
    forall n :: 0 <= n < |nodes| ==> Linked(nodes[n], n, |nodes|)
  }

  /**
   * The first `steps` nodes the `queueOpen` loop visits from `queue`: it
   * visits the head, appends the head's children in list order to the
   * queue, drops the head, and repeats.
   */
  function QueueOrder(nodes: seq<NodeRec>, queue: seq<nat>, steps: nat): (r: seq<nat>)
    requires AllLinked(nodes) && forall i :: 0 <= i < |queue| ==> queue[i] < |nodes|
    ensures |r| <= steps && forall i :: 0 <= i < |r| ==> r[i] < |nodes|
    ensures queue != [] && steps > 0 ==> r != [] && r[0] == queue[0]
    decreases steps
  {
    if queue == [] || steps == 0 then []
    else
      assert Linked(nodes[queue[0]], queue[0], |nodes|);
      [queue[0]] + QueueOrder(nodes, queue[1..] + nodes[queue[0]].children, steps - 1)
  }

  /**
   * What has been visited is the start of the whole `queueOpen` walk from
   * `start`, and the queue holds what that walk visits next.
   */
  ghost predicate QueueInv(nodes: seq<NodeRec>, start: seq<nat>, order: seq<nat>, queue: seq<nat>) {
    AllLinked(nodes) && |order| <= |nodes|
    && (forall i :: 0 <= i < |start| ==> start[i] < |nodes|)
    && (forall i :: 0 <= i < |queue| ==> queue[i] < |nodes|)
    && QueueOrder(nodes, start, |nodes|) == order + QueueOrder(nodes, queue, |nodes| - |order|)
  }

  /** Visiting the head of the queue keeps `QueueInv`. */
  lemma QueueStep(nodes: seq<NodeRec>, start: seq<nat>, order: seq<nat>, queue: seq<nat>)
    requires QueueInv(nodes, start, order, queue) && queue != [] && |order| < |nodes|
    ensures queue[0] < |nodes|
    ensures QueueInv(nodes, start, order + [queue[0]], queue[1..] + nodes[queue[0]].children)
  {
    var n := queue[0];
    assert Linked(nodes[n], n, |nodes|);
    var queue' := queue[1..] + nodes[n].children;
    forall i | 0 <= i < |queue'| ensures queue'[i] < |nodes| {
      if i < |queue| - 1 {
        assert queue'[i] == queue[i + 1];
      } else {
        assert queue'[i] == nodes[n].children[i - |queue| + 1];
      }
    }
    var rest := QueueOrder(nodes, queue', |nodes| - |order| - 1);
    assert QueueOrder(nodes, queue, |nodes| - |order|) == [n] + rest;
    assert order + ([n] + rest) == (order + [n]) + rest;
  }

  /** The walk invariant together with the queue order. */
  ghost predicate WalkInv(nodes: seq<NodeRec>, ownerOf: seq<int>, rank: seq<nat>,
                          start: seq<nat>, floor: int, order: seq<nat>, queue: seq<nat>)
    requires |ownerOf| == |nodes| && |rank| == |nodes|
  {
    BfsInv(nodes, ownerOf, rank, start, floor, order, queue) && QueueInv(nodes, start, order, queue)
  }

  /** One step of the `queueOpen` loop keeps the walk invariant. */
  lemma WalkStep(nodes: seq<NodeRec>, ownerOf: seq<int>, rank: seq<nat>,
                 start: seq<nat>, floor: int, order: seq<nat>, queue: seq<nat>)
    requires ArenaOk(nodes, ownerOf, rank) && queue != []
    requires WalkInv(nodes, ownerOf, rank, start, floor, order, queue)
    requires forall s :: s in start ==> ownerOf[s] == -1 || rank[ownerOf[s]] <= floor
    ensures queue[0] < |nodes| && |order| < |nodes|
    ensures WalkInv(nodes, ownerOf, rank, start, floor, order + [queue[0]], queue[1..] + nodes[queue[0]].children)
  {
    Pigeonhole(order + queue, |nodes|);
    var n := queue[0];
    assert n in order + queue;
    assert Linked(nodes[n], n, |nodes|);
    BfsStep(nodes, ownerOf, rank, start, floor, order, queue);
    QueueStep(nodes, start, order, queue);
  }

  /** A walk whose queue has run empty has visited the whole `queueOpen` walk. */
  lemma WalkDone(nodes: seq<NodeRec>, ownerOf: seq<int>, rank: seq<nat>,
                 start: seq<nat>, floor: int, order: seq<nat>)
    requires |ownerOf| == |nodes| && |rank| == |nodes|
    requires WalkInv(nodes, ownerOf, rank, start, floor, order, [])
    ensures NoDups(order)
    ensures forall i :: 0 <= i < |order| ==> order[i] < |nodes|
    ensures forall s :: s in start ==> s in order
    ensures forall x, c :: x in order && x < |nodes| && c in nodes[x].children ==> c in order
    ensures forall x :: x in order ==> x in start || (ownerOf[x] != -1 && ownerOf[x] in order)
    ensures AllLinked(nodes) && order == QueueOrder(nodes, start, |nodes|)
  {
    assert order + [] == order;
    assert forall i :: 0 <= i < |order| ==> order[i] in order + [];
  }

  class NodeArena {
    var nodes: seq<NodeRec>
    ghost var ownerOf: seq<int>
    ghost var rank: seq<nat>

    ghost predicate Valid()
      reads this
    {
      ArenaOk(nodes, ownerOf, rank)
    }

    constructor ()
      ensures Valid() && nodes == []
    {
      nodes := [];
      ownerOf := [];
      rank := [];
    }

    /** Tops (`ElemY`) of the nodes `cs`, in order. */
    ghost function YsOf(cs: seq<nat>): (ys: seq<real>)
      reads this
      requires forall i :: 0 <= i < |cs| ==> cs[i] < |nodes|
      ensures |ys| == |cs|
      ensures forall i :: 0 <= i < |cs| ==> ys[i] == ElemY(nodes[cs[i]])
    {
      if cs == [] then [] else [ElemY(nodes[cs[0]])] + YsOf(cs[1..])
    }

    /** Tops of the children of `n`, in sibling order. */
    ghost function ChildYs(n: nat): (ys: seq<real>)
      reads this
      requires Valid() && n < |nodes|
    {
      assert Linked(nodes[n], n, |nodes|);
      YsOf(nodes[n].children)
    }

    /**
     * `new Node(parent, payload, treeEq)`: a fresh node that no children list
     * holds yet.
     */
    method NewNode(parent: int, box: Box, treeEq: int) returns (idx: nat)
      requires Valid() && -1 <= parent < |nodes| && -1 <= treeEq < |nodes|
      modifies this
      ensures Valid()
      ensures idx == old(|nodes|)
      ensures nodes == old(nodes) + [NewNodeRec(parent, box, treeEq)]
      ensures ownerOf == old(ownerOf) + [-1] && rank == old(rank) + [0]
    {
      idx := |nodes|;
      nodes := nodes + [NewNodeRec(parent, box, treeEq)];
      ownerOf := ownerOf + [-1];
      rank := rank + [0];
      forall n | 0 <= n < |nodes| ensures Linked(nodes[n], n, |nodes|) {
        if n < idx { assert Linked(old(nodes)[n], n, idx); }
      }
    }

    /** Scans the children of `p` for the first one lower than `y`. */
    method FindSlot(p: nat, y: real) returns (k: nat)
      requires Valid() && p < |nodes|
      ensures k == InsertPos(ChildYs(p), y)
    {
      assert Linked(nodes[p], p, |nodes|);
      var ch := nodes[p].children;
      ghost var ys := ChildYs(p);
      k := 0;
      while k < |ch|
        invariant k <= |ch|
        invariant InsertPos(ys, y) == k + InsertPos(ys[k..], y)
      {
        assert ys[k..][0] == ElemY(nodes[ch[k]]);
        if ElemY(nodes[ch[k]]) > y {
          return;
        }
        assert ys[k..][1..] == ys[k + 1..];
        k := k + 1;
      }
    }

    /** Puts the unattached, childless node `c` at position `k` of the children of `p`. */
    method PlaceChild(p: nat, k: nat, c: nat)
      requires Valid() && p < |nodes| && c < |nodes| && c != p
      requires k <= |nodes[p].children| && ownerOf[c] == -1 && nodes[c].children == []
      modifies this
      ensures Valid()
      ensures nodes == old(nodes)[p := old(nodes[p]).(children := InsertAt(old(nodes[p].children), k, c))]
      ensures ownerOf == old(ownerOf)[c := p] && rank == old(rank)[c := old(rank[p]) + 1]
    {
      PlaceKeepsArena(nodes, ownerOf, rank, p, k, c);
      nodes := nodes[p := nodes[p].(children := InsertAt(nodes[p].children, k, c))];
      ownerOf := ownerOf[c := p];
      rank := rank[c := rank[p] + 1];
    }

    /**
     * `insertNewNode(payload, treeEq)`: a new node whose parent is `p`, placed
     * before the first child of `p` lower on the page than the payload.
     */
    method InsertNewNode(p: nat, box: Box, treeEq: int) returns (idx: nat)
      requires Valid() && p < |nodes| && -1 <= treeEq < |nodes|
      modifies this
      ensures Valid()
      ensures idx == old(|nodes|)
      ensures nodes == old(nodes)[p := old(nodes[p]).(children :=
                InsertAt(old(nodes[p].children), InsertPos(old(ChildYs(p)), PlacementY(box)), idx))]
              + [NewNodeRec(p, box, treeEq)]
      ensures ownerOf == old(ownerOf) + [p] && rank == old(rank) + [old(rank[p]) + 1]
    {
      var k := FindSlot(p, PlacementY(box));
      assert Linked(nodes[p], p, |nodes|);
      idx := NewNode(p, box, treeEq);
      PlaceChild(p, k, idx);
    }

    /**
     * `insertNewNode(Node)`: attaches an existing node (a detached one without
     * children) under `p`, placed by its `ElemY`; null (-1) is returned as is.
     * The node's own parent reference is left untouched.
     */
    method InsertExisting(p: nat, c: int) returns (r: int)
      requires Valid() && p < |nodes|
      requires c == -1 || (0 <= c < |nodes| && c != p && ownerOf[c] == -1 && nodes[c].children == [])
      modifies this
      ensures Valid()
      ensures r == c
      ensures c == -1 ==> nodes == old(nodes) && ownerOf == old(ownerOf) && rank == old(rank)
      ensures c != -1 ==> nodes == old(nodes)[p := old(nodes[p]).(children :=
                InsertAt(old(nodes[p].children), InsertPos(old(ChildYs(p)), old(ElemY(nodes[c]))), c))]
      ensures c != -1 ==> ownerOf == old(ownerOf)[c := p] && rank == old(rank)[c := old(rank[p]) + 1]
    {
      r := c;
      if c == -1 {
        return;
      }
      var k := FindSlot(p, ElemY(nodes[c]));
      PlaceChild(p, k, c);
    }

    /**
     * `insertNewNode(Node)` as the renderer's retry pass sees it: `c` now
     * hangs below `p`, and no other node changes its parent reference,
     * children or owner.
     */
    method Adopt(p: nat, c: nat)
      requires Valid() && p < |nodes| && c < |nodes| && c != p
      requires ownerOf[c] == -1 && nodes[c].children == []
      modifies this
      ensures Valid() && |nodes| == |old(nodes)|
      ensures nodes == old(nodes)[p := old(nodes[p]).(children := nodes[p].children)]
      ensures nodes[p].children == InsertAt(old(nodes[p].children), InsertPos(old(ChildYs(p)), old(ElemY(nodes[c]))), c)
      ensures ownerOf == old(ownerOf)[c := p] && rank == old(rank)[c := old(rank[p]) + 1]
      ensures c in nodes[p].children
    {
      ghost var ch, k := nodes[p].children, InsertPos(ChildYs(p), ElemY(nodes[c]));
      assert Linked(nodes[p], p, |nodes|);
      NoDupsInsert(ch, k, c);
      var _ := InsertExisting(p, c);
    }

    /** `getAllChildren`: null (None) for a leaf, otherwise a copy of the children in order. */
    method GetAllChildren(n: nat) returns (r: Option<seq<nat>>)
      requires Valid() && n < |nodes|
      ensures r.None? <==> nodes[n].children == []
      ensures r.Some? ==> r.value == nodes[n].children
    {
      if |nodes[n].children| == 0 {
        r := None;
      } else {
        r := Some(nodes[n].children);
      }
    }

    /** `addPlusOffset`: moves the node down by `d`. */
    method AddPlusOffset(n: nat, d: real)
      requires Valid() && n < |nodes|
      modifies this
      ensures Valid() && ownerOf == old(ownerOf) && rank == old(rank)
      ensures nodes == old(nodes)[n := old(nodes[n]).(plusOffset := old(nodes[n].plusOffset) + d)]
    {
      nodes := nodes[n := nodes[n].(plusOffset := nodes[n].plusOffset + d)];
      assert forall m :: 0 <= m < |nodes| ==> nodes[m].children == old(nodes)[m].children;
      assert forall m :: 0 <= m < |nodes| ==> Linked(old(nodes)[m], m, |nodes|);
    }

    /** `addPlusHeight`: stretches the node by `d`. */
    method AddPlusHeight(n: nat, d: real)
      requires Valid() && n < |nodes|
      modifies this
      ensures Valid() && ownerOf == old(ownerOf) && rank == old(rank)
      ensures nodes == old(nodes)[n := old(nodes[n]).(plusHeight := old(nodes[n].plusHeight) + d)]
    {
      nodes := nodes[n := nodes[n].(plusHeight := nodes[n].plusHeight + d)];
      assert forall m :: 0 <= m < |nodes| ==> nodes[m].children == old(nodes)[m].children;
      assert forall m :: 0 <= m < |nodes| ==> Linked(old(nodes)[m], m, |nodes|);
    }

    /** `setParentIDOfNoninsertedNode`: remembers the parent id of a node waiting for its parent. */
    method SetPendingParent(n: nat, id: int)
      requires Valid() && n < |nodes|
      modifies this
      ensures Valid() && ownerOf == old(ownerOf) && rank == old(rank)
      ensures nodes == old(nodes)[n := old(nodes[n]).(pendingParentId := id)]
    {
      nodes := nodes[n := nodes[n].(pendingParentId := id)];
      assert forall m :: 0 <= m < |nodes| ==> nodes[m].children == old(nodes)[m].children;
      assert forall m :: 0 <= m < |nodes| ==> Linked(old(nodes)[m], m, |nodes|);
    }

    /** Children of every node of `S` are in `S`. */
    ghost predicate ClosedUnderChildren(S: set<nat>)
      reads this
    {
      forall n, c :: n in S && 0 <= n < |nodes| && c in nodes[n].children ==> c in S
    }

    /**
     * The breadth-first walk the renderer performs with a drained queue
     * (`queueOpen`), starting from `start`.  `floor` separates the start
     * nodes' owners (at or below it) from the walked nodes (above it), which
     * rules out walking into a cycle.
     */
    method BreadthFirst(start: seq<nat>, ghost floor: int) returns (order: seq<nat>)
      requires Valid() && NoDups(start)
      requires forall i :: 0 <= i < |start| ==> start[i] < |nodes|
      requires forall s :: s in start ==> rank[s] > floor
      requires forall s :: s in start ==> ownerOf[s] == -1 || rank[ownerOf[s]] <= floor
      ensures NoDups(order)
      ensures forall i :: 0 <= i < |order| ==> order[i] < |nodes|
      ensures forall s :: s in start ==> s in order
      ensures forall x, c :: x in order && x < |nodes| && c in nodes[x].children ==> c in order
      ensures forall x :: x in order ==> x in start || (ownerOf[x] != -1 && ownerOf[x] in order)
      ensures AllLinked(nodes) && order == QueueOrder(nodes, start, |nodes|)
    {
      order := [];
      var queue: seq<nat> := start;
      while queue != []
        invariant WalkInv(nodes, ownerOf, rank, start, floor, order, queue)
        decreases |nodes| - |order|
      {
        WalkStep(nodes, ownerOf, rank, start, floor, order, queue);
        var n := queue[0];
        order := order + [n];
        queue := queue[1..] + nodes[n].children;
      }
      WalkDone(nodes, ownerOf, rank, start, floor, order);
    }

    /** `D` is the set of all descendants of `k`. */
    ghost predicate SubtreeOf(k: nat, D: set<nat>)
      reads this
      requires Valid() && k < |nodes|
    {
      Subtree(nodes, ownerOf, k, D)
    }

    /** A walk from an unattached node `k` that is closed under children and reaches every node it holds covers exactly `k` and its descendants. */
    lemma WalkCoversSubtree(k: nat, order: seq<nat>)
      requires Valid() && k < |nodes| && ownerOf[k] == -1 && k in order
      requires forall i :: 0 <= i < |order| ==> order[i] < |nodes|
      requires forall x, c :: x in order && x < |nodes| && c in nodes[x].children ==> c in order
      requires forall x :: x in order ==> x == k || (ownerOf[x] != -1 && ownerOf[x] in order)
      ensures SubtreeOf(k, (set x | x in order) - {k})
    {
      var D := (set x | x in order) - {k};
      forall c | c in nodes[k].children ensures c in D {
        assert ownerOf[c] == k;
      }
      forall n, c | n in D && 0 <= n < |nodes| && c in nodes[n].children ensures c in D {
        assert ownerOf[c] == n;
      }
    }

    /** A walk from the children of `k`, closed under children, that reaches only descendants of `k` covers exactly them. */
    lemma WalkCoversDescendants(k: nat, order: seq<nat>)
      requires Valid() && k < |nodes|
      requires forall i :: 0 <= i < |order| ==> order[i] < |nodes|
      requires forall c :: c in nodes[k].children ==> c in order
      requires forall x, c :: x in order && x < |nodes| && c in nodes[x].children ==> c in order
      requires forall x :: x in order ==> ownerOf[x] == k || (ownerOf[x] != -1 && ownerOf[x] in order)
      ensures SubtreeOf(k, set x | x in order)
    {
    }
  }
}
