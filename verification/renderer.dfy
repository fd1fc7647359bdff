// The paginating renderer: builds the TREE and the LIST from the boxes the
// layout engine reports, derives the break and avoid tables from the TREE,
// and moves content down so that page boundaries fall where the CSS
// page-break properties ask.  One class covers both renderer packages of
// the library (pdf/PDFRenderer.java and render/PDFRenderer.java); a `Config`
// carries what differs between them.
module Paging {
  import opened Common
  import opened Nodes
  import opened BreakTables
  import opened Geometry

  /**
   * The nodes waiting for their parent are distinct, hang below nothing,
   * have no children, and are none of the `cursors`.
   */
  ghost predicate WaitingOk(nodes: seq<NodeRec>, ownerOf: seq<int>, waiting: seq<nat>, cursors: set<int>) {
    NoDups(waiting)
    && forall s :: s in waiting ==>
         s < |nodes| && s < |ownerOf| && ownerOf[s] == -1 && nodes[s].children == [] && s !in cursors
  }

  /**
   * The records a walk over `order` leaves in the tables `breaks0` and
   * `avoids0`: `stop` nodes are dealt with, all of them or those before the
   * first element with `page-break-before: always` and no parent, where a
   * NullPointerException ends the walk.  `probes` are the query answers for
   * those nodes, and the resulting tables are the old ones with the records
   * of those nodes inserted one at a time, in walk order.
   */
  ghost predicate WalkRecords(nodes: seq<NodeRec>, ownerOf: seq<int>, order: seq<nat>, probes: seq<Probe>,
                              stop: nat, out: Outcome, breaks0: seq<Record>, avoids0: seq<Record>,
                              breaks: seq<Record>, avoids: seq<Record>, c: Config)
  {
    AllLinked(nodes) && |ownerOf| == |nodes| && NoDups(order)
    && (forall j :: 0 <= j < |order| ==> order[j] < |nodes|)
    && stop <= |order| && |probes| == stop
    && (out == Done <==> stop == |order|)
    && (out == NullPointer ==> ThrowsOnBreakBefore(nodes[order[stop]]))
    && (forall j :: 0 <= j < stop ==> !ThrowsOnBreakBefore(nodes[order[j]]))
    && (forall j :: 0 <= j < stop && IsElem(nodes[order[j]]) ==> ProbeOf(nodes, ownerOf, order[j], probes[j], c))
    && breaks == InsertEach(breaks0, AllBreaks(nodes, order[..stop], probes, c))
    && avoids == InsertEach(avoids0, AllAvoids(nodes, order[..stop], probes, c))
  }

  /** Attaching the waiting node at position `i` under a node that is not waiting keeps the rest waiting. */
  lemma WaitingAfterAdopt(nodes: seq<NodeRec>, ownerOf: seq<int>, waiting: seq<nat>, cursors: set<int>,
                          i: nat, p: nat, nodes': seq<NodeRec>, ownerOf': seq<int>)
    requires WaitingOk(nodes, ownerOf, waiting, cursors) && i < |waiting| && p < |nodes| && p !in waiting
    requires |nodes'| == |nodes| && waiting[i] < |ownerOf|
    requires nodes' == nodes[p := nodes[p].(children := nodes'[p].children)]
    requires ownerOf' == ownerOf[waiting[i] := p]
    ensures WaitingOk(nodes', ownerOf', waiting[..i] + waiting[i + 1..], cursors)
  {
    var rest := waiting[..i] + waiting[i + 1..];
    NoDupsRemove(waiting, i);
    assert NoDups(rest);
    forall s | s in rest
      ensures s < |nodes'| && s < |ownerOf'| && ownerOf'[s] == -1 && nodes'[s].children == [] && s !in cursors
    {
      assert s in waiting;
      assert s != waiting[i];
      assert s != p;
      assert s < |nodes| && ownerOf[s] == -1 && nodes[s].children == [] && s !in cursors;
      assert nodes'[s] == nodes[s];
      assert ownerOf'[s] == ownerOf[s];
    }
  }

  /** A fresh childless node appended to the arena may join the waiting list. */
  lemma WaitingAfterAppend(nodes: seq<NodeRec>, ownerOf: seq<int>, waiting: seq<nat>, cursors: set<int>,
                           nodes': seq<NodeRec>, ownerOf': seq<int>)
    requires WaitingOk(nodes, ownerOf, waiting, cursors) && |nodes| !in cursors
    requires |nodes'| == |nodes| + 1 && nodes'[..|nodes|] == nodes && nodes'[|nodes|].children == []
    requires ownerOf' == ownerOf + [-1] && |ownerOf| == |nodes|
    ensures WaitingOk(nodes', ownerOf', waiting + [|nodes|], cursors)
  {
    assert |nodes| !in waiting;
    NoDupsAppend(waiting, [|nodes|]);
    forall s | s in waiting + [|nodes|]
      ensures s < |nodes'| && s < |ownerOf'| && ownerOf'[s] == -1 && nodes'[s].children == [] && s !in cursors
    {
      if s != |nodes| {
        assert s in waiting && nodes'[s] == nodes[s];
      }
    }
  }

  /** New nodes at the end of the arena, and cursors moved onto them, leave the waiting list as it was. */
  lemma WaitingAfterGrow(nodes: seq<NodeRec>, ownerOf: seq<int>, waiting: seq<nat>, cursors: set<int>,
                         nodes': seq<NodeRec>, ownerOf': seq<int>, cursors': set<int>)
    requires WaitingOk(nodes, ownerOf, waiting, cursors) && |ownerOf| == |nodes|
    requires |nodes| <= |nodes'| && nodes'[..|nodes|] == nodes
    requires |ownerOf'| == |nodes'| && ownerOf'[..|ownerOf|] == ownerOf
    requires forall x :: x in cursors' ==> x in cursors || x >= |nodes|
    ensures WaitingOk(nodes', ownerOf', waiting, cursors')
  {
    forall s | s in waiting
      ensures s < |nodes'| && ownerOf'[s] == -1 && nodes'[s].children == [] && s !in cursors'
    {
      assert nodes'[s] == nodes'[..|nodes|][s] && ownerOf'[s] == ownerOf'[..|ownerOf|][s];
    }
  }

  /** Changing nodes without touching any children list keeps the waiting list as it was. */
  lemma WaitingAfterMove(nodes: seq<NodeRec>, ownerOf: seq<int>, waiting: seq<nat>, cursors: set<int>,
                         nodes': seq<NodeRec>)
    requires WaitingOk(nodes, ownerOf, waiting, cursors) && |nodes'| == |nodes|
    requires forall x :: 0 <= x < |nodes| ==> nodes'[x].children == nodes[x].children
    ensures WaitingOk(nodes', ownerOf, waiting, cursors)
  {
    forall s | s in waiting ensures nodes'[s].children == [] {
      assert s < |nodes| && nodes[s].children == [];
    }
  }

  /**
   * The recent TREE node `recent` hangs below the TREE root `root`, and its
   * parent reference is null or the node whose children list holds it.
   */
  ghost predicate RecentOk(nodes: seq<NodeRec>, ownerOf: seq<int>, rank: seq<nat>, root: int, recent: int)
    requires |ownerOf| == |nodes| && |rank| == |nodes| && -1 <= root < |nodes| && -1 <= recent < |nodes|
  {
    root != -1 && recent != -1 ==>
      Below(ownerOf, rank, recent, root)
      && (nodes[recent].parent == -1 || nodes[recent].parent == ownerOf[recent])
  }

  /**
   * Nodes appended to the arena, a children list changed, and owners and
   * ranks given to nodes that had no owner and are not the root, leave the
   * recent TREE node where it was.
   */
  lemma RecentKept(nodes: seq<NodeRec>, ownerOf: seq<int>, rank: seq<nat>, root: int, recent: int,
                   nodes': seq<NodeRec>, ownerOf': seq<int>, rank': seq<nat>)
    requires |ownerOf| == |nodes| && |rank| == |nodes| && -1 <= root < |nodes| && -1 <= recent < |nodes|
    requires |ownerOf'| == |nodes'| && |rank'| == |nodes'| && |nodes| <= |nodes'|
    requires RecentOk(nodes, ownerOf, rank, root, recent)
    requires forall y :: 0 <= y < |ownerOf| && (ownerOf[y] != -1 || y == root) ==>
               ownerOf'[y] == ownerOf[y] && rank'[y] == rank[y]
    requires root != -1 && recent != -1 ==>
               nodes'[recent].parent == nodes[recent].parent && ownerOf'[recent] == ownerOf[recent]
    ensures RecentOk(nodes', ownerOf', rank', root, recent)
  {
    if root != -1 && recent != -1 {
      BelowKept(ownerOf, rank, ownerOf', rank', recent, root);
    }
  }

  /** A node appended under `target`, which hangs below the root, becomes a valid recent TREE node. */
  lemma RecentAttached(nodes: seq<NodeRec>, ownerOf: seq<int>, rank: seq<nat>, root: nat, target: nat,
                       nodes': seq<NodeRec>, ownerOf': seq<int>, rank': seq<nat>)
    requires |ownerOf| == |nodes| && |rank| == |nodes| && root < |nodes| && target < |nodes|
    requires Below(ownerOf, rank, target, root)
    requires |nodes'| == |nodes| + 1 && ownerOf' == ownerOf + [target] && rank' == rank + [rank[target] + 1]
    requires nodes'[|nodes|].parent == target
    ensures RecentOk(nodes', ownerOf', rank', root, |nodes|)
  {
    assert forall y :: 0 <= y < |ownerOf| ==> ownerOf'[y] == ownerOf[y] && rank'[y] == rank[y];
    BelowKept(ownerOf, rank, ownerOf', rank', target, root);
  }

  datatype Outcome = Done | NullPointer

  /** `x` is the first node of `order` with id `id`. */
  ghost predicate FirstWithId(nodes: seq<NodeRec>, order: seq<nat>, id: int, x: nat)
    requires forall i :: 0 <= i < |order| ==> order[i] < |nodes|
  {
    exists i :: 0 <= i < |order| && order[i] == x && GetID(nodes[x]) == id
                && forall j :: 0 <= j < i ==> GetID(nodes[order[j]]) != id
  }

  /** What `findNodeToInsert` yields: a node, Java's null, or a thrown NullPointerException. */
  datatype Lookup = Found(index: nat) | NotFound | Throws

  class PDFRenderer {
    const cfg: Config
    const arena: NodeArena
    var rootTree: int
    var recentTree: int
    var rootList: int
    var recentList: int
    var nodesWithoutParent: seq<nat>
    var breakTable: seq<Record>
    var avoidTable: seq<Record>
    /** Document height in layout units (unscaled). */
    var rootHeight: real
    var pageCount: int
    var pageEnd: real
    /** How many page heights `pageEnd` has advanced. */
    ghost var pagesWalked: nat

    /**
     * The TREE root and recent node and the LIST root and recent node are
     * set together; the TREE root hangs below nothing; nodes waiting for
     * their parent are distinct, hang below nothing, have no children and
     * are none of the four cursors nor the recent node's parent; both tables
     * are ordered by start.
     */
    ghost predicate Valid()
      reads this, arena
    {
      Linkage() && SortedByStart(breakTable) && SortedByStart(avoidTable)
    }

    /** The part of `Valid` about the TREE, the LIST and the waiting list. */
    ghost predicate Linkage()
      reads this`rootTree, this`recentTree, this`rootList, this`recentList, this`nodesWithoutParent, arena
    {
      ConfigOk(cfg) && arena.Valid()
      && -1 <= rootTree < |arena.nodes| && -1 <= recentTree < |arena.nodes|
      && -1 <= rootList < |arena.nodes| && -1 <= recentList < |arena.nodes|
      && (rootTree == -1 <==> recentTree == -1)
      && (rootTree == -1 <==> rootList == -1)
      && (rootTree == -1 <==> recentList == -1)
      && (rootTree != -1 ==>
            arena.ownerOf[rootTree] == -1 && arena.nodes[recentTree].parent !in nodesWithoutParent)
      && WaitingOk(arena.nodes, arena.ownerOf, nodesWithoutParent, {rootTree, recentTree, recentList})
      && (nodesWithoutParent != [] ==> rootTree != -1)
      && RecentOk(arena.nodes, arena.ownerOf, arena.rank, rootTree, recentTree)
    }

    /** The page count follows the document height. */
    ghost predicate Counted()
      reads this`rootHeight, this`pageCount
    {
      ConfigOk(cfg) && pageCount == PageCount(rootHeight, cfg)
    }

    /** The page count follows the document height, and the paging cursor sits on a page boundary. */
    ghost predicate Paged()
      reads this`rootHeight, this`pageCount, this`pageEnd, this`pagesWalked
    {
      Counted() && pageEnd == PageBoundary(pagesWalked, cfg)
    }

    /** A renderer for a document `rootHeight` layout units high. */
    constructor (c: Config, rootHeight: real)
      requires ConfigOk(c)
      ensures Valid() && Paged() && fresh(arena)
      ensures cfg == c && this.rootHeight == rootHeight && arena.nodes == []
      ensures rootTree == -1 && nodesWithoutParent == [] && breakTable == [] && avoidTable == []
      ensures pageCount == PageCount(rootHeight, c)
    {
      cfg := c;
      arena := new NodeArena();
      rootTree, recentTree, rootList, recentList := -1, -1, -1, -1;
      nodesWithoutParent := [];
      breakTable, avoidTable := [], [];
      this.rootHeight := rootHeight;
      pageCount := PageCount(rootHeight, c);
      pageEnd := 0.0;
      pagesWalked := 0;
    }

    /** `T` is the node set of the TREE: the root and all its descendants. */
    ghost predicate TreeSet(T: set<nat>)
      reads this`rootTree, this`recentTree, this`rootList, this`recentList, this`nodesWithoutParent, arena
      requires Linkage()
    {
      rootTree != -1 && rootTree in T && arena.SubtreeOf(rootTree, T - {rootTree})
    }

    /** `x` is the TREE root or hangs below it. */
    ghost predicate InTree(x: int)
      reads this`rootTree, this`recentTree, this`rootList, this`recentList, this`nodesWithoutParent, arena
      requires Linkage()
    {
      rootTree != -1 && 0 <= x < |arena.nodes| && Below(arena.ownerOf, arena.rank, x, rootTree)
    }

    /** A node hanging below the root belongs to the TREE's node set. */
    lemma InTreeMember(x: int)
      requires Linkage() && InTree(x)
      ensures forall T :: TreeSet(T) ==> x in T
    {
      var root: nat := rootTree;
      forall T | TreeSet(T) ensures x in T {
        if x != root {
          BelowSubtree(arena.nodes, arena.ownerOf, arena.rank, root, T - {root}, x);
        }
      }
    }

    /** The order of the `queueOpen` walk over the TREE: the root, then level by level, children in list order. */
    ghost function TreeOrder(): (order: seq<nat>)
      reads this`rootTree, this`recentTree, this`rootList, this`recentList, this`nodesWithoutParent, arena
      requires Linkage() && rootTree != -1
      ensures forall i :: 0 <= i < |order| ==> order[i] < |arena.nodes|
    {
      assert AllLinked(arena.nodes) by {
        forall n | 0 <= n < |arena.nodes| ensures Linked(arena.nodes[n], n, |arena.nodes|) { }
      }
      QueueOrder(arena.nodes, [rootTree], |arena.nodes|)
    }

    /**
     * Visits the TREE breadth-first from the root, as every `queueOpen`
     * walk does; callers that use only the visited set, not the order,
     * call `WalkTree`.
     */
    method OrderedWalk() returns (order: seq<nat>)
      requires Valid() && rootTree != -1
      ensures NoDups(order)
      ensures forall i :: 0 <= i < |order| ==> order[i] < |arena.nodes|
      ensures forall T :: TreeSet(T) <==> T == set x | x in order
      ensures order == TreeOrder()
    {
      order := arena.BreadthFirst([rootTree], arena.rank[rootTree] as int - 1);
      arena.WalkCoversSubtree(rootTree, order);
      TreeSetIs(set x | x in order);
    }

    /** The nodes of a `queueOpen` walk of the TREE: each TREE node once. */
    method WalkTree() returns (order: seq<nat>)
      requires Valid() && rootTree != -1
      ensures NoDups(order)
      ensures forall i :: 0 <= i < |order| ==> order[i] < |arena.nodes|
      ensures forall T :: TreeSet(T) <==> T == set x | x in order
    {
      order := OrderedWalk();
    }

    /** The TREE has exactly one node set. */
    lemma TreeSetIs(T0: set<nat>)
      requires Valid() && rootTree != -1 && arena.SubtreeOf(rootTree, T0 - {rootTree}) && rootTree in T0
      ensures forall T :: TreeSet(T) <==> T == T0
    {
      forall T: set<nat> | TreeSet(T) ensures T == T0 {
        SubtreeUnique(arena.nodes, arena.ownerOf, arena.rank, rootTree, T - {rootTree}, T0 - {rootTree});
        assert T == (T - {rootTree}) + {rootTree};
        assert T0 == (T0 - {rootTree}) + {rootTree};
      }
    }

    /**
     * No TREE node can take a child whose parent has id `parentId`: neither
     * the special case for children of the root, nor the recent node, nor
     * its parent, nor any node of the TREE.
     */
    ghost predicate Homeless(parentId: int, myId: int)
      reads this`rootTree, this`recentTree, this`rootList, this`recentList, this`nodesWithoutParent, arena
      requires Linkage()
    {
      rootTree != -1 && !(myId != 0 && parentId == 0)
      && GetID(arena.nodes[recentTree]) != parentId
      && (arena.nodes[recentTree].parent == -1
          || GetID(arena.nodes[arena.nodes[recentTree].parent]) != parentId)
      && forall T :: TreeSet(T) ==> forall x :: x in T && x < |arena.nodes| ==> GetID(arena.nodes[x]) != parentId
    }

    /**
     * `findNodeToInsert`: the TREE node under which a box with id `myId` and
     * parent id `parentId` goes.  A box whose parent has id 0 goes under the
     * first child of the root (the root's element and the `html` element
     * share id 0); otherwise the recent node, then its parent, then the
     * first node of a breadth-first walk with that id.
     */
    method FindNodeToInsert(parentId: int, myId: int) returns (r: Lookup)
      requires Valid()
      ensures r.Throws? <==>
                rootTree == -1 || (myId != 0 && parentId == 0 && arena.nodes[rootTree].children == [])
      ensures r.NotFound? <==> Homeless(parentId, myId)
      ensures r.Found? ==> r.index < |arena.nodes| && r.index !in nodesWithoutParent
      ensures r.Found? ==> InTree(r.index) && forall T :: TreeSet(T) ==> r.index in T
      ensures r.Found? && myId != 0 && parentId == 0 ==> r.index == arena.nodes[rootTree].children[0]
      ensures r.Found? && !(myId != 0 && parentId == 0) ==> GetID(arena.nodes[r.index]) == parentId
      ensures r.Found? && !(myId != 0 && parentId == 0) && GetID(arena.nodes[recentTree]) == parentId ==>
                r.index == recentTree
      ensures r.Found? && !(myId != 0 && parentId == 0) && GetID(arena.nodes[recentTree]) != parentId
              && ParentOfRecentHas(parentId) ==>
                r.index == arena.nodes[recentTree].parent
      ensures r.Found? && !(myId != 0 && parentId == 0) && GetID(arena.nodes[recentTree]) != parentId
              && !ParentOfRecentHas(parentId) ==>
                FirstWithId(arena.nodes, TreeOrder(), parentId, r.index)
    {
      if rootTree == -1 {
        return Throws;
      }
      if myId != 0 && parentId == 0 {
        if arena.nodes[rootTree].children == [] {
          return Throws;
        }
        var first := FirstUnderRoot();
        return Found(first);
      }
      r := FindNear(parentId);
      if r.NotFound? {
        r := FindInWalk(parentId);
      }
    }

    /** The parent reference of the recent TREE node is a node with id `id`. */
    ghost predicate ParentOfRecentHas(id: int)
      reads this`rootTree, this`recentTree, this`rootList, this`recentList, this`nodesWithoutParent, arena
      requires Linkage() && rootTree != -1
    {
      var p := arena.nodes[recentTree].parent;
      0 <= p < |arena.nodes| && GetID(arena.nodes[p]) == id
    }

    /** The first child of the TREE root, where a box goes whose parent has id 0 while its own id is not 0. */
    method FirstUnderRoot() returns (first: nat)
      requires Valid() && rootTree != -1 && arena.nodes[rootTree].children != []
      ensures first == arena.nodes[rootTree].children[0] && first < |arena.nodes|
      ensures first !in nodesWithoutParent
      ensures InTree(first) && forall T :: TreeSet(T) ==> first in T
    {
      first := arena.nodes[rootTree].children[0];
      assert arena.ownerOf[first] == rootTree;
      assert InTree(first);
      InTreeMember(first);
    }

    /** The first two tries of `findNodeToInsert`: the recent TREE node, then its parent. */
    method FindNear(parentId: int) returns (r: Lookup)
      requires Valid() && rootTree != -1
      ensures !r.Throws?
      ensures r.Found? <==> GetID(arena.nodes[recentTree]) == parentId || ParentOfRecentHas(parentId)
      ensures r.Found? ==> r.index < |arena.nodes| && r.index !in nodesWithoutParent
      ensures r.Found? ==> InTree(r.index) && forall T :: TreeSet(T) ==> r.index in T
      ensures GetID(arena.nodes[recentTree]) == parentId ==> r == Found(recentTree)
      ensures GetID(arena.nodes[recentTree]) != parentId && ParentOfRecentHas(parentId) ==>
                r == Found(arena.nodes[recentTree].parent)
    {
      if GetID(arena.nodes[recentTree]) == parentId {
        InTreeMember(recentTree);
        return Found(recentTree);
      }
      var p := arena.nodes[recentTree].parent;
      assert Linked(arena.nodes[recentTree], recentTree, |arena.nodes|);
      if p != -1 && GetID(arena.nodes[p]) == parentId {
        assert InTree(p);
        InTreeMember(p);
        assert p !in nodesWithoutParent by {
          assert arena.ownerOf[p] != -1 || p == rootTree;
        }
        return Found(p);
      }
      return NotFound;
    }

    /** The last try of `findNodeToInsert`: the first node of the `queueOpen` walk with id `parentId`. */
    method FindInWalk(parentId: int) returns (r: Lookup)
      requires Valid() && rootTree != -1
      ensures !r.Throws?
      ensures r.NotFound? <==>
                forall T :: TreeSet(T) ==> forall x :: x in T && x < |arena.nodes| ==> GetID(arena.nodes[x]) != parentId
      ensures r.Found? ==> r.index < |arena.nodes| && r.index !in nodesWithoutParent
      ensures r.Found? ==> InTree(r.index) && forall T :: TreeSet(T) ==> r.index in T
      ensures r.Found? ==> FirstWithId(arena.nodes, TreeOrder(), parentId, r.index)
    {
      var order := OrderedWalk();
      ghost var T0 := set x | x in order;
      assert TreeSet(T0);
      var i := 0;
      while i < |order|
        invariant i <= |order|
        invariant forall j :: 0 <= j < i ==> GetID(arena.nodes[order[j]]) != parentId
      {
        if GetID(arena.nodes[order[i]]) == parentId {
          var x := order[i];
          assert x in T0;
          if x != rootTree {
            SubtreeBelow(arena.nodes, arena.ownerOf, arena.rank, rootTree, T0 - {rootTree}, x);
          }
          assert InTree(x);
          InTreeMember(x);
          assert x !in nodesWithoutParent by {
            assert arena.ownerOf[x] != -1 || x == rootTree;
          }
          return Found(x);
        }
        i := i + 1;
      }
      assert forall x :: x in T0 && x < |arena.nodes| ==> GetID(arena.nodes[x]) != parentId;
      return NotFound;
    }

    /**
     * A box without a parent starts a new TREE and a new LIST; the LIST
     * root refers to the TREE root.
     */
    method StartTrees(box: Box)
      requires Valid()
      modifies this, arena
      ensures Valid()
      ensures rootTree == old(|arena.nodes|) && recentTree == rootTree
      ensures rootList == rootTree + 1 && recentList == rootList
      ensures arena.nodes == old(arena.nodes) + [NewNodeRec(-1, box, -1), NewNodeRec(-1, box, rootTree)]
      ensures nodesWithoutParent == old(nodesWithoutParent)
      ensures breakTable == old(breakTable) && avoidTable == old(avoidTable)
      ensures rootHeight == old(rootHeight) && pageCount == old(pageCount) && pageEnd == old(pageEnd)
      ensures pagesWalked == old(pagesWalked)
    {
      ghost var nodes0, ownerOf0 := arena.nodes, arena.ownerOf;
      var t := arena.NewNode(-1, box, -1);
      var l := arena.NewNode(-1, box, t);
      WaitingAfterGrow(nodes0, ownerOf0, nodesWithoutParent, {rootTree, recentTree, recentList},
                       arena.nodes, arena.ownerOf, {t, t, l});
      rootTree, recentTree := t, t;
      rootList, recentList := l, l;
    }

    /** A box whose parent is not in the TREE yet waits in `nodesWithoutParent` with its parent's id. */
    method Stage(box: Box, parentId: int) returns (s: nat)
      requires Valid() && rootTree != -1
      modifies this, arena
      ensures Valid()
      ensures s == old(|arena.nodes|)
      ensures arena.nodes == old(arena.nodes) + [NewNodeRec(-1, box, -1).(pendingParentId := parentId)]
      ensures arena.ownerOf == old(arena.ownerOf) + [-1]
      ensures nodesWithoutParent == old(nodesWithoutParent) + [s]
      ensures rootTree == old(rootTree) && recentTree == old(recentTree)
      ensures rootList == old(rootList) && recentList == old(recentList)
      ensures breakTable == old(breakTable) && avoidTable == old(avoidTable)
      ensures rootHeight == old(rootHeight) && pageCount == old(pageCount) && pageEnd == old(pageEnd)
      ensures pagesWalked == old(pagesWalked)
    {
      ghost var before := arena.nodes;
      ghost var nodes0, ownerOf0, rank0 := arena.nodes, arena.ownerOf, arena.rank;
      s := arena.NewNode(-1, box, -1);
      arena.SetPendingParent(s, parentId);
      RecentKept(nodes0, ownerOf0, rank0, rootTree, recentTree, arena.nodes, arena.ownerOf, arena.rank);
      WaitingAfterAppend(before, old(arena.ownerOf), nodesWithoutParent, {rootTree, recentTree, recentList},
                         arena.nodes, arena.ownerOf);
      nodesWithoutParent := nodesWithoutParent + [s];
    }

    /** Puts a box under the TREE node `target`; the new node becomes the recent TREE node. */
    method AttachToTree(target: nat, box: Box)
      requires Valid() && rootTree != -1 && InTree(target) && target !in nodesWithoutParent
      modifies this, arena
      ensures Valid()
      ensures recentTree == old(|arena.nodes|)
      ensures arena.nodes == old(arena.nodes)[target := old(arena.nodes[target]).(children :=
                InsertAt(old(arena.nodes[target].children),
                         InsertPos(old(arena.ChildYs(target)), PlacementY(box)), recentTree))]
              + [NewNodeRec(target, box, -1)]
      ensures arena.ownerOf == old(arena.ownerOf) + [target]
      ensures nodesWithoutParent == old(nodesWithoutParent)
      ensures rootTree == old(rootTree) && rootList == old(rootList) && recentList == old(recentList)
      ensures breakTable == old(breakTable) && avoidTable == old(avoidTable)
      ensures rootHeight == old(rootHeight) && pageCount == old(pageCount) && pageEnd == old(pageEnd)
      ensures pagesWalked == old(pagesWalked)
    {
      ghost var nodes0, ownerOf0, rank0 := arena.nodes, arena.ownerOf, arena.rank;
      var n := arena.InsertNewNode(target, box, -1);
      RecentAttached(nodes0, ownerOf0, rank0, rootTree, target, arena.nodes, arena.ownerOf, arena.rank);
      recentTree := n;
    }

    /**
     * Appends a box to the LIST below the recent LIST node, remembering the
     * recent TREE node as its counterpart; it becomes the recent LIST node.
     */
    method AppendToList(box: Box)
      requires Valid() && rootTree != -1
      modifies this, arena
      ensures Valid()
      ensures recentList == old(|arena.nodes|)
      ensures arena.nodes == old(arena.nodes)[old(recentList) := old(arena.nodes[recentList]).(children :=
                InsertAt(old(arena.nodes[recentList].children),
                         InsertPos(old(arena.ChildYs(recentList)), PlacementY(box)), recentList))]
              + [NewNodeRec(old(recentList), box, recentTree)]
      ensures arena.ownerOf == old(arena.ownerOf) + [old(recentList)]
      ensures nodesWithoutParent == old(nodesWithoutParent)
      ensures rootTree == old(rootTree) && recentTree == old(recentTree) && rootList == old(rootList)
      ensures breakTable == old(breakTable) && avoidTable == old(avoidTable)
      ensures rootHeight == old(rootHeight) && pageCount == old(pageCount) && pageEnd == old(pageEnd)
      ensures pagesWalked == old(pagesWalked)
    {
      ghost var nodes0, ownerOf0, rank0 := arena.nodes, arena.ownerOf, arena.rank;
      var n := arena.InsertNewNode(recentList, box, recentTree);
      RecentKept(nodes0, ownerOf0, rank0, rootTree, recentTree, arena.nodes, arena.ownerOf, arena.rank);
      recentList := n;
    }

    /** A box whose parent is the TREE node `t`: goes under `t` and at the end of the LIST. */
    method AttachAndList(t: nat, box: Box)
      requires Valid() && rootTree != -1 && InTree(t) && t !in nodesWithoutParent
      modifies this, arena
      ensures Valid()
      ensures breakTable == old(breakTable) && avoidTable == old(avoidTable)
      ensures rootHeight == old(rootHeight) && pageCount == old(pageCount) && pageEnd == old(pageEnd)
      ensures pagesWalked == old(pagesWalked)
      ensures var n := old(|arena.nodes|);
              |arena.nodes| == n + 2 && recentList == n + 1 && recentTree == n
              && rootTree == old(rootTree) && rootList == old(rootList)
              && nodesWithoutParent == old(nodesWithoutParent)
              && arena.nodes[n] == NewNodeRec(t, box, -1) && arena.ownerOf[n] == t
              && arena.nodes[n + 1] == NewNodeRec(old(recentList), box, n)
              && GetID(arena.nodes[t]) == old(GetID(arena.nodes[t]))
    {
      AttachToTree(t, box);
      AppendToList(box);
    }

    /** A box whose parent is not in the TREE: waits with its parent's id, and goes at the end of the LIST. */
    method WaitAndList(box: Box, parentId: int)
      requires Valid() && rootTree != -1
      modifies this, arena
      ensures Valid()
      ensures breakTable == old(breakTable) && avoidTable == old(avoidTable)
      ensures rootHeight == old(rootHeight) && pageCount == old(pageCount) && pageEnd == old(pageEnd)
      ensures pagesWalked == old(pagesWalked)
      ensures var n := old(|arena.nodes|);
              |arena.nodes| == n + 2 && recentList == n + 1 && recentTree == old(recentTree)
              && rootTree == old(rootTree) && rootList == old(rootList)
              && nodesWithoutParent == old(nodesWithoutParent) + [n]
              && arena.nodes[n] == NewNodeRec(-1, box, -1).(pendingParentId := parentId) && arena.ownerOf[n] == -1
              && arena.nodes[n + 1] == NewNodeRec(old(recentList), box, recentTree)
    {
      var s := Stage(box, parentId);
      AppendToList(box);
    }

    /**
     * Places a box whose parent box has document order `parentId`: under
     * the TREE node `findNodeToInsert` picks, or in the waiting list when
     * there is none, and in both cases at the end of the LIST.
     */
    method PlaceBox(box: Box, parentId: int) returns (out: Outcome)
      requires Valid()
      modifies this, arena
      ensures Valid()
      ensures breakTable == old(breakTable) && avoidTable == old(avoidTable)
      ensures rootHeight == old(rootHeight) && pageCount == old(pageCount) && pageEnd == old(pageEnd)
      ensures pagesWalked == old(pagesWalked)
      ensures out == NullPointer <==>
                old(rootTree) == -1 || (box.order != 0 && parentId == 0 && old(arena.nodes[rootTree].children) == [])
      ensures out == NullPointer ==>
                arena.nodes == old(arena.nodes) && nodesWithoutParent == old(nodesWithoutParent)
                && rootTree == old(rootTree) && recentTree == old(recentTree) && recentList == old(recentList)
      ensures out == Done ==>
                var n := old(|arena.nodes|);
                |arena.nodes| == n + 2 && recentList == n + 1
                && rootTree == old(rootTree) && rootList == old(rootList)
                && arena.nodes[n].box == box && arena.nodes[n].children == []
                && arena.nodes[n + 1] == NewNodeRec(old(recentList), box, recentTree)
                && (old(Homeless(parentId, box.order)) ==>
                      nodesWithoutParent == old(nodesWithoutParent) + [n] && recentTree == old(recentTree)
                      && arena.ownerOf[n] == -1 && arena.nodes[n].pendingParentId == parentId)
                && (!old(Homeless(parentId, box.order)) ==>
                      nodesWithoutParent == old(nodesWithoutParent) && recentTree == n
                      && 0 <= arena.nodes[n].parent < n && arena.ownerOf[n] == arena.nodes[n].parent
                      && (GetID(arena.nodes[arena.nodes[n].parent]) == parentId
                          || (box.order != 0 && parentId == 0)))
    {
      out := Done;
      var target := FindNodeToInsert(parentId, box.order);
      match target {
        case Throws =>
          out := NullPointer;
        case NotFound =>
          WaitAndList(box, parentId);
        case Found(t) =>
          AttachAndList(t, box);
      }
    }

    /**
     * `renderElementBackground`, `renderTextContent`, `renderReplacedContent`
     * and `renderMarker`: the layout engine reports `box`, whose parent box
     * has document order `parentOrder` (None: no parent).  A parentless box
     * starts new trees; any other box goes under the TREE node
     * `findNodeToInsert` picks, or waits for its parent, and in both cases
     * is appended to the LIST.  The render package ignores markers.
     */
    method Render(box: Box, parentOrder: Option<int>) returns (out: Outcome)
      requires Valid()
      modifies this, arena
      ensures Valid()
      ensures breakTable == old(breakTable) && avoidTable == old(avoidTable)
      ensures rootHeight == old(rootHeight) && pageCount == old(pageCount) && pageEnd == old(pageEnd)
      ensures pagesWalked == old(pagesWalked)
      ensures out == NullPointer <==>
                Handles(cfg, box) && parentOrder.Some?
                && (old(rootTree) == -1
                    || (box.order != 0 && parentOrder.value == 0 && old(arena.nodes[rootTree].children) == []))
      ensures !Handles(cfg, box) ==> unchanged(this, arena)
      ensures Handles(cfg, box) && parentOrder.None? ==>
                rootTree == old(|arena.nodes|) && recentTree == rootTree
                && rootList == rootTree + 1 && recentList == rootList
                && arena.nodes == old(arena.nodes) + [NewNodeRec(-1, box, -1), NewNodeRec(-1, box, rootTree)]
                && nodesWithoutParent == old(nodesWithoutParent)
      ensures Handles(cfg, box) && parentOrder.Some? && out == Done ==>
                |arena.nodes| == old(|arena.nodes|) + 2 && arena.nodes[old(|arena.nodes|)].box == box
                && recentList == old(|arena.nodes|) + 1 && rootTree == old(rootTree)
    {
      out := Done;
      if !Handles(cfg, box) {
        return;
      }
      if parentOrder.None? {
        StartTrees(box);
        return;
      }
      out := PlaceBox(box, parentOrder.value);
    }

    /** Only the TREE and the waiting list may differ from the pre-state. */
    twostate predicate CursorsAndTablesKept()
      reads this
    {
      rootTree == old(rootTree) && recentTree == old(recentTree)
      && rootList == old(rootList) && recentList == old(recentList)
      && breakTable == old(breakTable) && avoidTable == old(avoidTable)
      && rootHeight == old(rootHeight) && pageCount == old(pageCount) && pageEnd == old(pageEnd)
      && pagesWalked == old(pagesWalked)
    }

    /** The waiting node `s` still finds no parent in the TREE. */
    ghost predicate WaitingHomeless(s: nat)
      reads this`rootTree, this`recentTree, this`rootList, this`recentList, this`nodesWithoutParent, arena
      requires Linkage()
    {
      s < |arena.nodes| && Homeless(arena.nodes[s].pendingParentId, GetID(arena.nodes[s]))
    }

    /** Node `x` sits in some node's children list. */
    ghost predicate Attached(x: int)
      reads arena
    {
      0 <= x < |arena.ownerOf| && arena.ownerOf[x] != -1
    }

    /** Attaches the waiting node at position `i` under `p` and drops it from the waiting list. */
    method AttachWaiting(i: nat, p: nat) returns (node: nat)
      requires Valid() && i < |nodesWithoutParent| && p < |arena.nodes| && p !in nodesWithoutParent
      modifies this, arena
      ensures Valid() && CursorsAndTablesKept()
      ensures node == old(nodesWithoutParent[i])
      ensures |arena.nodes| == old(|arena.nodes|)
      ensures nodesWithoutParent == old(nodesWithoutParent[..i] + nodesWithoutParent[i + 1..])
      ensures Attached(node) && forall x :: old(Attached(x)) ==> Attached(x)
    {
      node := nodesWithoutParent[i];
      assert node in nodesWithoutParent;
      var waiting := nodesWithoutParent;
      ghost var before := arena.nodes;
      ghost var ownersBefore, rank0 := arena.ownerOf, arena.rank;
      arena.Adopt(p, node);
      RecentKept(before, ownersBefore, rank0, rootTree, recentTree, arena.nodes, arena.ownerOf, arena.rank);
      WaitingAfterAdopt(before, ownersBefore, waiting, {rootTree, recentTree, recentList}, i, p,
                        arena.nodes, arena.ownerOf);
      NoDupsRemove(waiting, i);
      nodesWithoutParent := waiting[..i] + waiting[i + 1..];
    }

    /**
     * Looks up the parent of the waiting node at position `i`: attaches it
     * when the parent is in the TREE, and otherwise changes nothing.
     */
    method RetryWaiting(i: nat) returns (out: Outcome, attached: bool)
      requires Valid() && i < |nodesWithoutParent|
      modifies this, arena
      ensures Valid() && CursorsAndTablesKept()
      ensures |arena.nodes| == old(|arena.nodes|)
      ensures !attached ==> unchanged(this, arena) && nodesWithoutParent == old(nodesWithoutParent)
      ensures out == NullPointer ==> !attached
      ensures out == Done && !attached ==> WaitingHomeless(nodesWithoutParent[i])
      ensures attached ==>
                out == Done
                && nodesWithoutParent == old(nodesWithoutParent[..i] + nodesWithoutParent[i + 1..])
                && Attached(old(nodesWithoutParent[i]))
                && (forall x :: old(Attached(x)) ==> Attached(x))
    {
      var node := nodesWithoutParent[i];
      assert node in nodesWithoutParent;
      var t := FindNodeToInsert(arena.nodes[node].pendingParentId, GetID(arena.nodes[node]));
      attached := false;
      out := Done;
      match t {
        case Throws =>
          out := NullPointer;
        case NotFound =>
        case Found(p) =>
          var _ := AttachWaiting(i, p);
          attached := true;
      }
    }

    /**
     * One pass of `tryToInsertNotInsertedNodes` over the waiting list.  A
     * pass that attaches nothing changes nothing and leaves every waiting
     * node without a home.
     */
    method InsertionPass() returns (out: Outcome)
      requires Valid()
      modifies this, arena
      ensures Valid() && CursorsAndTablesKept()
      ensures |arena.nodes| == old(|arena.nodes|)
      ensures |nodesWithoutParent| <= old(|nodesWithoutParent|)
      ensures forall s :: s in nodesWithoutParent ==> s in old(nodesWithoutParent)
      ensures forall s :: s in old(nodesWithoutParent) && s !in nodesWithoutParent ==> Attached(s)
      ensures forall x :: old(Attached(x)) ==> Attached(x)
      ensures out == NullPointer ==> nodesWithoutParent != []
      ensures out == Done && |nodesWithoutParent| == old(|nodesWithoutParent|) ==>
                forall s :: s in nodesWithoutParent ==> WaitingHomeless(s)
    {
      out := Done;
      var i := 0;
      while i < |nodesWithoutParent|
        invariant Valid() && CursorsAndTablesKept() && out == Done
        invariant |arena.nodes| == old(|arena.nodes|)
        invariant |nodesWithoutParent| <= old(|nodesWithoutParent|)
        invariant forall s :: s in nodesWithoutParent ==> s in old(nodesWithoutParent)
        invariant forall s :: s in old(nodesWithoutParent) && s !in nodesWithoutParent ==> Attached(s)
        invariant forall x :: old(Attached(x)) ==> Attached(x)
        invariant |nodesWithoutParent| == old(|nodesWithoutParent|) ==>
                    i <= |nodesWithoutParent|
                    && forall j :: 0 <= j < i ==> WaitingHomeless(nodesWithoutParent[j])
        decreases |nodesWithoutParent| - i
      {
        ghost var waiting := nodesWithoutParent;
        var attached;
        out, attached := RetryWaiting(i);
        if out == NullPointer {
          return;
        }
        if attached {
          NoDupsRemove(waiting, i);
        }
        i := i + 1;
      }
    }

    /**
     * `tryToInsertNotInsertedNodes`: passes over the waiting nodes, attaching
     * each one whose parent can now be found, until the list is empty or a
     * whole pass attaches none.  After attaching the node at position `i`
     * the pass moves on to `i + 1`, so the node that slid into position `i`
     * waits for the next pass.  A waiting node is looked up with its own
     * `getID` (-1 for a marker).
     */
    method TryToInsertNotInsertedNodes() returns (out: Outcome)
      requires Valid()
      modifies this, arena
      ensures Valid() && CursorsAndTablesKept()
      ensures |arena.nodes| == old(|arena.nodes|)
      ensures forall s :: s in nodesWithoutParent ==> s in old(nodesWithoutParent)
      ensures forall s :: s in old(nodesWithoutParent) && s !in nodesWithoutParent ==> Attached(s)
      ensures out == Done ==>
                forall s :: s in nodesWithoutParent ==> WaitingHomeless(s)
      ensures out == NullPointer ==> nodesWithoutParent != []
    {
      out := Done;
      while |nodesWithoutParent| > 0
        invariant Valid() && CursorsAndTablesKept() && out == Done
        invariant forall x :: old(Attached(x)) ==> Attached(x)
        invariant |arena.nodes| == old(|arena.nodes|)
        invariant forall s :: s in nodesWithoutParent ==> s in old(nodesWithoutParent)
        invariant forall s :: s in old(nodesWithoutParent) && s !in nodesWithoutParent ==> Attached(s)
        decreases |nodesWithoutParent|
      {
        var sizeBefore := |nodesWithoutParent|;
        out := InsertionPass();
        if out == NullPointer {
          return;
        }
        if sizeBefore == |nodesWithoutParent| {
          break;
        }
      }
    }
  
    // -------------------------------------------------------------------
    // Neighbour and extent queries
    // -------------------------------------------------------------------

    /**
     * `getElementAbove`: scans the children of the parent of `k`, skipping
     * those with the id of `k` and those ending below its top, and keeps the
     * one ending lowest, the later one on ties.
     */
    method GetElementAbove(k: int) returns (r: int)
      requires Valid() && -1 <= k < |arena.nodes|
      ensures -1 <= r < |arena.nodes|
      ensures k == -1 ==> r == -1
      ensures k != -1 ==> IsAbove(arena.nodes, k, r, cfg)
    {
      r := -1;
      if k == -1 {
        return;
      }
      var nodes := arena.nodes;
      assert Linked(nodes[k], k, |nodes|);
      var p := nodes[k].parent;
      if p == -1 {
        return;
      }
      var kids := arena.GetAllChildren(p);
      if kids.None? {
        return;
      }
      var ch := kids.value;
      assert Linked(nodes[p], p, |nodes|);
      ghost var best;
      r, best := ScanAbove(nodes, ch, k, cfg);
    }

    /**
     * `getElementBelow`: scans the children of the parent of `k`, skipping
     * those with the id of `k` and those starting above its bottom, and keeps
     * the one starting highest, the later one on ties.
     */
    method GetElementBelow(k: int) returns (r: int)
      requires Valid() && -1 <= k < |arena.nodes|
      ensures -1 <= r < |arena.nodes|
      ensures k == -1 ==> r == -1
      ensures k != -1 ==> IsBelow(arena.nodes, k, r, cfg)
    {
      r := -1;
      if k == -1 {
        return;
      }
      var nodes := arena.nodes;
      assert Linked(nodes[k], k, |nodes|);
      var p := nodes[k].parent;
      if p == -1 {
        return;
      }
      var kids := arena.GetAllChildren(p);
      if kids.None? {
        return;
      }
      var ch := kids.value;
      assert Linked(nodes[p], p, |nodes|);
      ghost var best;
      r, best := ScanBelow(nodes, ch, k, cfg);
    }

    /**
     * `getFirstTop`: -1 for null, the node's own top for a leaf, and
     * otherwise the highest top found by a breadth-first walk of its
     * descendants, non-elements taking precedence over elements.
     */
    method GetFirstTop(k: int) returns (r: real)
      requires Valid() && -1 <= k < |arena.nodes|
      ensures FirstTopIs(arena.nodes, arena.ownerOf, k, r, cfg)
    {
      if k == -1 {
        return -1.0;
      }
      var kids := arena.GetAllChildren(k);
      if kids.None? {
        return Top(arena.nodes[k], cfg);
      }
      var nodes := arena.nodes;
      assert Linked(nodes[k], k, |nodes|);
      var order := arena.BreadthFirst(kids.value, arena.rank[k]);
      arena.WalkCoversDescendants(k, order);
      assert kids.value[0] in order;
      r := HighestTop(nodes, order, cfg);
      assert Subtree(nodes, arena.ownerOf, k, set x | x in order);
    }

    /**
     * `getLastBottom`: -1 for null, the node's own bottom for a leaf, and
     * otherwise the lowest bottom found by a breadth-first walk of its
     * descendants, non-elements taking precedence over elements.
     */
    method GetLastBottom(k: int) returns (r: real)
      requires Valid() && -1 <= k < |arena.nodes|
      ensures LastBottomIs(arena.nodes, arena.ownerOf, k, r, cfg)
    {
      if k == -1 {
        return -1.0;
      }
      var kids := arena.GetAllChildren(k);
      if kids.None? {
        return Bottom(arena.nodes[k], cfg);
      }
      var nodes := arena.nodes;
      assert Linked(nodes[k], k, |nodes|);
      var order := arena.BreadthFirst(kids.value, arena.rank[k]);
      arena.WalkCoversDescendants(k, order);
      assert kids.value[0] in order;
      r := LowestBottom(nodes, order, cfg);
      assert Subtree(nodes, arena.ownerOf, k, set x | x in order);
    }

    /**
     * One of the first two walks of `makeBreakAt`: the highest top among
     * the non-element nodes of the walk cut by `line`, or `line` itself.
     */
    method LowestStraddleTop(order: seq<nat>, line: real) returns (r: real)
      requires forall i :: 0 <= i < |order| ==> order[i] < |arena.nodes|
      ensures LowestCut(arena.nodes, (set x | x in order), line, r, cfg)
    {
      var nodes := arena.nodes;
      r := line;
      ghost var at: nat := 0;
      var i := 0;
      while i < |order|
        invariant i <= |order| && r <= line
        invariant forall j :: 0 <= j < i && Straddles(nodes[order[j]], line, cfg) ==> r <= Top(nodes[order[j]], cfg)
        invariant r != line ==> at < i && Straddles(nodes[order[at]], line, cfg) && r == Top(nodes[order[at]], cfg)
      {
        var n := nodes[order[i]];
        if !IsElem(n) && Top(n, cfg) < line && Bottom(n, cfg) > line && Top(n, cfg) < r {
          r, at := Top(n, cfg), i;
        }
        i := i + 1;
      }
      if r != line {
        assert order[at] in order;
      }
    }

    // -------------------------------------------------------------------
    // Break and avoid tables
    // -------------------------------------------------------------------

    /** Everything but the two tables is as in the pre-state. */
    twostate predicate OnlyTablesChanged()
      reads this
    {
      rootTree == old(rootTree) && recentTree == old(recentTree)
      && rootList == old(rootList) && recentList == old(recentList)
      && nodesWithoutParent == old(nodesWithoutParent)
      && rootHeight == old(rootHeight) && pageCount == old(pageCount) && pageEnd == old(pageEnd)
      && pagesWalked == old(pagesWalked)
    }

    /**
     * The queries `createBreakAvoidTables` makes for element `x`; a missing
     * neighbour is passed on as null, for which the extent queries answer -1.
     */
    method ProbeElement(x: nat) returns (p: Probe)
      requires Valid() && x < |arena.nodes|
      ensures ProbeOf(arena.nodes, arena.ownerOf, x, p, cfg)
    {
      var above := GetElementAbove(x);
      var below := GetElementBelow(x);
      var firstTop := GetFirstTop(x);
      var lastBottom := GetLastBottom(x);
      var aboveBottom := GetLastBottom(above);
      var belowTop := GetFirstTop(below);
      var parent := arena.nodes[x].parent;
      var parentTop := if 0 <= parent < |arena.nodes| then Top(arena.nodes[parent], cfg) else 0.0;
      p := Probe(above, below, firstTop, lastBottom, aboveBottom, belowTop, parentTop);
    }

    /** The queries of `createBreakAvoidTables` for every element among the first `n` nodes of `xs`. */
    method ProbeAll(xs: seq<nat>, n: nat) returns (probes: seq<Probe>)
      requires Valid() && n <= |xs| && forall j :: 0 <= j < |xs| ==> xs[j] < |arena.nodes|
      ensures |probes| == n
      ensures forall j :: 0 <= j < n && IsElem(arena.nodes[xs[j]]) ==>
                ProbeOf(arena.nodes, arena.ownerOf, xs[j], probes[j], cfg)
    {
      probes := [];
      var i := 0;
      while i < n
        invariant i <= n && |probes| == i
        invariant forall j :: 0 <= j < i && IsElem(arena.nodes[xs[j]]) ==>
                    ProbeOf(arena.nodes, arena.ownerOf, xs[j], probes[j], cfg)
      {
        var p := Probe(-1, -1, -1.0, -1.0, -1.0, -1.0, -1.0);
        if IsElem(arena.nodes[xs[i]]) {
          p := ProbeElement(xs[i]);
        }
        probes := probes + [p];
        i := i + 1;
      }
    }

    /** Replaces both tables. */
    method SetTables(breaks: seq<Record>, avoids: seq<Record>)
      requires Valid() && SortedByStart(breaks) && SortedByStart(avoids)
      modifies this
      ensures Valid() && OnlyTablesChanged()
      ensures breakTable == breaks && avoidTable == avoids
    {
      breakTable, avoidTable := breaks, avoids;
    }

    /**
     * What the walk of `createBreakAvoidTables` makes of the tables `breaks0`
     * and `avoids0`.  Without a TREE it throws at once.  Otherwise `order` is
     * the breadth-first walk of the TREE and `stop` the number of nodes dealt
     * with: all of them, or those before the first element with
     * `page-break-before: always` and no parent, where a NullPointerException
     * ends the walk.  `probes` are the query answers for those nodes, and the
     * resulting tables are the old ones with the records of those nodes
     * inserted one at a time, in walk order.
     */
    ghost predicate TablesBuilt(out: Outcome, order: seq<nat>, probes: seq<Probe>, stop: nat,
                                breaks0: seq<Record>, avoids0: seq<Record>,
                                breaks: seq<Record>, avoids: seq<Record>)
      reads this`rootTree, this`recentTree, this`rootList, this`recentList, this`nodesWithoutParent, arena
      requires Linkage()
    {
      if rootTree == -1 then
        out == NullPointer && breaks == breaks0 && avoids == avoids0
      else
        TreeSet(set x | x in order)
        && WalkRecords(arena.nodes, arena.ownerOf, order, probes, stop, out, breaks0, avoids0, breaks, avoids, cfg)
    }

    /**
     * The walk of `createBreakAvoidTables`, computed without touching the
     * renderer: the tables it would leave behind are `breaks` and `avoids`.
     */
    method WalkForTables() returns (out: Outcome, ghost order: seq<nat>, ghost probes: seq<Probe>,
                                    ghost stop: nat, breaks: seq<Record>, avoids: seq<Record>)
      requires Valid()
      ensures SortedByStart(breaks) && SortedByStart(avoids)
      ensures rootTree == -1 ==> out == NullPointer && breaks == breakTable && avoids == avoidTable
      ensures rootTree != -1 ==>
                TreeSet(set x | x in order)
                && WalkRecords(arena.nodes, arena.ownerOf, order, probes, stop, out, breakTable, avoidTable,
                               breaks, avoids, cfg)
    {
      order, probes, stop := [], [], 0;
      breaks, avoids := breakTable, avoidTable;
      if rootTree == -1 {
        out := NullPointer;
        return;
      }
      var walk := WalkTree();
      order := walk;
      out, probes, stop, breaks, avoids := RecordsAlong(walk);
    }

    /** The records the walk `walk` inserts into the current tables, up to the first node that throws. */
    method RecordsAlong(walk: seq<nat>) returns (out: Outcome, ghost probes: seq<Probe>, ghost stop: nat,
                                                breaks: seq<Record>, avoids: seq<Record>)
      requires Valid() && NoDups(walk) && forall j :: 0 <= j < |walk| ==> walk[j] < |arena.nodes|
      ensures SortedByStart(breaks) && SortedByStart(avoids)
      ensures WalkRecords(arena.nodes, arena.ownerOf, walk, probes, stop, out, breakTable, avoidTable,
                          breaks, avoids, cfg)
    {
      var n := FirstThrowing(arena.nodes, walk);
      stop := n;
      var ps := ProbeAll(walk, n);
      probes := ps;
      breaks, avoids := AddAllRecords(breakTable, avoidTable, arena.nodes, walk[..n], ps, cfg);
      out := if n == |walk| then Done else NullPointer;
    }

    /**
     * `createBreakAvoidTables`: walks the TREE breadth-first and, for each
     * element, inserts its break records into `breakTable` and its avoid
     * records into `avoidTable`, one record at a time by start.  Without a
     * TREE, or at an element with `page-break-before: always` and no
     * parent, a NullPointerException ends the walk; the records of the
     * nodes before it stay inserted.  `order` is the walk, `stop` the number
     * of nodes dealt with, `probes` the query answers for them.
     */
    method CreateBreakAvoidTables() returns (out: Outcome, ghost order: seq<nat>, ghost probes: seq<Probe>,
                                            ghost stop: nat)
      requires Valid()
      modifies this
      ensures Valid() && OnlyTablesChanged()
      ensures TablesBuilt(out, order, probes, stop, old(breakTable), old(avoidTable), breakTable, avoidTable)
    {
      var breaks, avoids;
      out, order, probes, stop, breaks, avoids := WalkForTables();
      SetTables(breaks, avoids);
    }
  
    /**
     * `createAndProcessBreakAndAvoidTables`: builds both tables, then drops
     * the avoid intervals wider than 0.8 of a page and merges overlapping
     * ones.  `created` is the avoid table as the walk left it; when the walk
     * throws, the two later steps do not run.
     */
    method CreateAndProcess() returns (out: Outcome, ghost order: seq<nat>, ghost probes: seq<Probe>,
                                       ghost stop: nat, ghost created: seq<Record>)
      requires Valid()
      modifies this
      ensures Valid() && OnlyTablesChanged()
      ensures TablesBuilt(out, order, probes, stop, old(breakTable), old(avoidTable), breakTable, created)
      ensures out == NullPointer ==> avoidTable == created
      ensures out == Done ==> avoidTable == Merge(DeleteWide(created, AvoidLimit(cfg)), AvoidLimit(cfg))
      ensures out == Done ==> forall i :: 0 < i < |avoidTable| ==> avoidTable[i - 1].end <= avoidTable[i].start
      ensures |avoidTable| <= |created|
    {
      out, order, probes, stop := CreateBreakAvoidTables();
      created := avoidTable;
      if out == Done {
        var avoids := DeleteAvoidsBiggerThan(avoidTable, AvoidLimit(cfg));
        avoids := MergeAvoids(avoids, AvoidLimit(cfg));
        SetTables(breakTable, avoids);
      }
    }
  
    // -------------------------------------------------------------------
    // Pagination
    // -------------------------------------------------------------------

    /** The TREE and LIST cursors, the waiting list and the paging cursor are as in the pre-state. */
    twostate predicate CursorsKept()
      reads this
    {
      rootTree == old(rootTree) && recentTree == old(recentTree)
      && rootList == old(rootList) && recentList == old(recentList)
      && nodesWithoutParent == old(nodesWithoutParent)
      && pageEnd == old(pageEnd) && pagesWalked == old(pagesWalked)
    }

    /**
     * The third walk of `makeBreakAt`: each node of `order` is left alone,
     * stretched by `delta` (`addPlusHeight`) or moved down by `delta`
     * (`addPlusOffset`), as `Action` decides from its own fields.
     */
    method ApplyToTree(order: seq<nat>, line2: real, delta: real)
      requires Valid() && NoDups(order) && forall j :: 0 <= j < |order| ==> order[j] < |arena.nodes|
      modifies arena
      ensures Valid() && arena.ownerOf == old(arena.ownerOf) && |arena.nodes| == old(|arena.nodes|)
      ensures forall x :: 0 <= x < |arena.nodes| ==>
                arena.nodes[x] == if x in order then ApplyBreak(old(arena.nodes[x]), line2, delta, cfg)
                                  else old(arena.nodes[x])
    {
      BreakNodes(arena, order, line2, delta, cfg);
      WaitingAfterMove(old(arena.nodes), arena.ownerOf, nodesWithoutParent, {rootTree, recentTree, recentList},
                       arena.nodes);
    }

    /** Stores the shifted tables and the new document height, and recomputes the page count. */
    method SetAfterBreak(breaks: seq<Record>, avoids: seq<Record>, height: real)
      requires Valid() && SortedByStart(breaks) && SortedByStart(avoids)
      modifies this
      ensures Valid() && CursorsKept()
      ensures breakTable == breaks && avoidTable == avoids
      ensures rootHeight == height && pageCount == PageCount(height, cfg)
    {
      breakTable, avoidTable := breaks, avoids;
      rootHeight := height;
      pageCount := PageCount(height, cfg);
    }

    /**
     * The first two walks of `makeBreakAt`: `line2` is the highest top among
     * the non-element TREE nodes cut by `line`, and `line3` the highest top
     * among those cut by `line2`.
     */
    method CutLines(line: real) returns (line2: real, line3: real)
      requires Valid() && rootTree != -1
      ensures line3 <= line2 <= line
      ensures forall T :: TreeSet(T) ==>
                (forall x :: x in T ==> x < |arena.nodes|)
                && LowestCut(arena.nodes, T, line, line2, cfg) && LowestCut(arena.nodes, T, line2, line3, cfg)
    {
      var walk1 := WalkTree();
      line2 := LowestStraddleTop(walk1, line);
      var walk2 := WalkTree();
      line3 := LowestStraddleTop(walk2, line2);
      assert TreeSet(set x | x in walk1);
      assert (set x | x in walk1) == (set x | x in walk2);
    }

    /**
     * The changes of one break at `line2` inserting `delta`: the nodes of
     * `order` are kept, stretched or moved, the document grows by `delta`,
     * both tables move down by `delta` and the page count follows.
     */
    method CommitBreak(order: seq<nat>, line2: real, delta: real)
      requires Valid() && NoDups(order) && forall j :: 0 <= j < |order| ==> order[j] < |arena.nodes|
      modifies this, arena
      ensures Valid() && CursorsKept()
      ensures |arena.nodes| == old(|arena.nodes|)
      ensures forall x :: 0 <= x < |arena.nodes| ==>
                arena.nodes[x] == if x in order then ApplyBreak(old(arena.nodes[x]), line2, delta, cfg)
                                  else old(arena.nodes[x])
      ensures |breakTable| == |old(breakTable)| && |avoidTable| == |old(avoidTable)|
      ensures ShiftedBy(breakTable, old(breakTable), delta)
      ensures ShiftedBy(avoidTable, old(avoidTable), delta)
      ensures rootHeight == old(rootHeight) + delta / cfg.scale && pageCount == PageCount(rootHeight, cfg)
    {
      ApplyToTree(order, line2, delta);
      var breaks := ShiftTable(breakTable, delta);
      var avoids := ShiftTable(avoidTable, delta);
      ShiftPreserves(breakTable, breaks, delta);
      ShiftPreserves(avoidTable, avoids, delta);
      SetAfterBreak(breaks, avoids, rootHeight + delta / cfg.scale);
    }

    /**
     * What one break at `line1` did, `line1` being in range and a TREE
     * present: with `line1` raised by the bottom padding, `line2` and `line3`
     * are the two cut lines over the TREE nodes `tree`, `delta` is the
     * space inserted, every TREE node was kept, stretched or moved, every
     * record of both tables moved down by `delta`, the document grew by
     * `delta` and the page count follows the new height.
     */
    twostate predicate BrokeAt(line1: real, tree: set<nat>, line2: real, line3: real, delta: real)
      reads this, arena
      requires old(Valid()) && Valid()
    {
      |arena.nodes| == old(|arena.nodes|)
      && (forall x :: x in tree ==> x < |arena.nodes|)
      && old(TreeSet(tree))
      && line3 <= line2 <= line1 - cfg.bottomPadding
      && LowestCut(old(arena.nodes), tree, line1 - cfg.bottomPadding, line2, cfg)
      && LowestCut(old(arena.nodes), tree, line2, line3, cfg)
      && delta == Delta(line1 - cfg.bottomPadding, line3, cfg)
      && delta >= cfg.topPadding + cfg.bottomPadding - 1.0 && delta > 0.0
      && (forall x :: 0 <= x < |arena.nodes| ==>
            arena.nodes[x] == if x in tree then ApplyBreak(old(arena.nodes[x]), line2, delta, cfg)
                              else old(arena.nodes[x]))
      && |breakTable| == |old(breakTable)| && |avoidTable| == |old(avoidTable)|
      && ShiftedBy(breakTable, old(breakTable), delta)
      && ShiftedBy(avoidTable, old(avoidTable), delta)
      && rootHeight == old(rootHeight) + delta / cfg.scale
      && pageCount == PageCount(rootHeight, cfg)
    }

    /**
     * The computing part of `makeBreakAt` for a line in range, with a TREE
     * present: the two cut lines over the TREE, the space to insert and the
     * walk the nodes are changed along.
     */
    method PlanBreak(line1: real) returns (order: seq<nat>, line2: real, line3: real, delta: real)
      requires Valid() && rootTree != -1
      ensures NoDups(order) && forall j :: 0 <= j < |order| ==> order[j] < |arena.nodes|
      ensures TreeSet(set x | x in order)
      ensures line3 <= line2 <= line1 - cfg.bottomPadding
      ensures LowestCut(arena.nodes, (set x | x in order), line1 - cfg.bottomPadding, line2, cfg)
      ensures LowestCut(arena.nodes, (set x | x in order), line2, line3, cfg)
      ensures delta == Delta(line1 - cfg.bottomPadding, line3, cfg)
      ensures delta >= cfg.topPadding + cfg.bottomPadding - 1.0 && delta > 0.0
    {
      var line := line1 - cfg.bottomPadding;
      line2, line3 := CutLines(line);
      delta := Delta(line, line3, cfg);
      DeltaPositive(line, line3, cfg);
      order := WalkTree();
      assert TreeSet(set x | x in order);
    }

    /** `makeBreakAt` for a line in range, with a TREE present. */
    method BreakInRange(line1: real) returns (ghost tree: set<nat>, ghost line2: real, ghost line3: real,
                                              ghost delta: real)
      requires Valid() && rootTree != -1 && 0.0 <= line1 <= OutputHeight(rootHeight, cfg)
      modifies this, arena
      ensures Valid() && Counted() && CursorsKept()
      ensures BrokeAt(line1, tree, line2, line3, delta)
    {
      var order, l2, l3, d := PlanBreak(line1);
      tree, line2, line3, delta := (set x | x in order), l2, l3, d;
      CommitBreak(order, l2, d);
    }

    /**
     * `makeBreakAt(line1)`: does nothing unless `0 <= line1 <= rootHeight`
     * (output units); without a TREE the first walk throws; otherwise one
     * break as `BrokeAt` describes.
     */
    method MakeBreakAt(line1: real) returns (out: Outcome, ghost tree: set<nat>, ghost line2: real,
                                             ghost line3: real, ghost delta: real)
      requires Valid() && Counted()
      modifies this, arena
      ensures Valid() && Counted() && CursorsKept()
      ensures out == NullPointer <==> rootTree == -1 && 0.0 <= line1 <= OutputHeight(old(rootHeight), cfg)
      ensures delta >= 0.0 && rootHeight >= old(rootHeight)
      ensures |breakTable| == |old(breakTable)| && |avoidTable| == |old(avoidTable)|
      ensures ShiftedBy(breakTable, old(breakTable), delta)
      ensures ShiftedBy(avoidTable, old(avoidTable), delta)
      ensures !(0.0 <= line1 <= OutputHeight(old(rootHeight), cfg)) || out == NullPointer ==>
                unchanged(this) && arena.nodes == old(arena.nodes)
      ensures out == Done && 0.0 <= line1 <= OutputHeight(old(rootHeight), cfg) ==>
                BrokeAt(line1, tree, line2, line3, delta)
    {
      tree, line2, line3, delta := {}, line1, line1, 0.0;
      out := Done;
      if line1 > OutputHeight(rootHeight, cfg) || line1 < 0.0 {
        return;
      }
      if rootTree == -1 {
        out := NullPointer;
        return;
      }
      tree, line2, line3, delta := BreakInRange(line1);
    }
  
    /** `pageEnd += pageHeight`: the paging cursor moves one page down. */
    method AdvancePage()
      requires Paged()
      modifies this`pageEnd, this`pagesWalked
      ensures Paged() && pagesWalked == old(pagesWalked) + 1 && pageEnd == old(pageEnd) + cfg.pageHeight
    {
      pageEnd, pagesWalked := pageEnd + cfg.pageHeight, pagesWalked + 1;
      assert PageBoundary(pagesWalked, cfg) == PageBoundary(old(pagesWalked), cfg) + cfg.pageHeight;
    }

    /** `breakTable.remove(0)`. */
    method DropFirstBreak()
      requires Valid() && breakTable != []
      modifies this`breakTable
      ensures Valid() && breakTable == old(breakTable[1..])
    {
      breakTable := breakTable[1..];
    }

    /** A break at `line` followed by `pageEnd += pageHeight`. */
    method BreakAndAdvance(line: real) returns (out: Outcome, ghost delta: real)
      requires Valid() && Paged()
      modifies this, arena
      ensures Valid() && Paged() && rootHeight >= old(rootHeight)
      ensures out == Done ==> pagesWalked == old(pagesWalked) + 1
      ensures out == NullPointer ==> unchanged(this) && arena.nodes == old(arena.nodes)
      ensures delta >= 0.0 && |breakTable| == |old(breakTable)| && |avoidTable| == |old(avoidTable)|
      ensures ShiftedBy(breakTable, old(breakTable), delta)
      ensures ShiftedBy(avoidTable, old(avoidTable), delta)
    {
      ghost var tree, line2, line3;
      out, tree, line2, line3, delta := MakeBreakAt(line);
      if out == Done {
        AdvancePage();
      }
    }

    /**
     * The first case of a `makePaging` iteration, the search of the avoid
     * table: each record, checked in table order against the current table
     * and page end, that encloses the page end gets a break at its break
     * point, and the page end moves one page down.  `found` tells whether any
     * record did; that is decided by the first enclosing record in the
     * table as it was.  All breaks together move every record down by `shift`.
     */
    method BreakAtAvoids() returns (out: Outcome, found: bool, ghost shift: real)
      requires Valid() && Paged()
      modifies this, arena
      ensures Valid() && Paged() && pagesWalked >= old(pagesWalked) && rootHeight >= old(rootHeight)
      ensures shift >= 0.0 && |breakTable| == |old(breakTable)| && |avoidTable| == |old(avoidTable)|
      ensures ShiftedBy(breakTable, old(breakTable), shift)
      ensures ShiftedBy(avoidTable, old(avoidTable), shift)
      ensures out == Done ==> (found <==> pagesWalked > old(pagesWalked))
      ensures out == Done ==>
                (found <==> exists i :: 0 <= i < |old(avoidTable)| && Encloses(old(avoidTable[i]), old(pageEnd)))
      ensures !found ==> unchanged(this) && arena.nodes == old(arena.nodes)
    {
      out, found, shift := Done, false, 0.0;
      var i := 0;
      while i < |avoidTable|
        invariant Valid() && Paged() && pagesWalked >= old(pagesWalked) && rootHeight >= old(rootHeight)
        invariant i <= |avoidTable|
        invariant shift >= 0.0 && |breakTable| == |old(breakTable)| && |avoidTable| == |old(avoidTable)|
        invariant ShiftedBy(breakTable, old(breakTable), shift)
        invariant ShiftedBy(avoidTable, old(avoidTable), shift)
        invariant found <==> pagesWalked > old(pagesWalked)
        invariant !found ==>
                    unchanged(this) && arena.nodes == old(arena.nodes)
                    && forall j :: 0 <= j < i ==> !Encloses(avoidTable[j], pageEnd)
        invariant found ==> exists j :: 0 <= j < |old(avoidTable)| && Encloses(old(avoidTable[j]), old(pageEnd))
      {
        if Encloses(avoidTable[i], pageEnd) {
          if !found {
            assert Encloses(old(avoidTable[i]), old(pageEnd));
          }
          var o;
          ghost var delta;
          ghost var breaks, avoids := breakTable, avoidTable;
          o, delta := BreakAndAdvance(avoidTable[i].breakPoint);
          ShiftedTwice(old(breakTable), breaks, breakTable, shift, delta);
          ShiftedTwice(old(avoidTable), avoids, avoidTable, shift, delta);
          if o == NullPointer {
            out := NullPointer;
            return;
          }
          shift := shift + delta;
          found := true;
        }
        i := i + 1;
      }
    }

    /**
     * The first case of a `makePaging` iteration, when no break record
     * starts at or above the page end: breaks go where `BreakAtAvoids` puts
     * them or, when no avoid record encloses the page end, at the page end
     * itself, which then moves one page down.
     */
    method BreakBetweenRecords() returns (out: Outcome, ghost shift: real)
      requires Valid() && Paged()
      modifies this, arena
      ensures Valid() && Paged() && pagesWalked >= old(pagesWalked) && rootHeight >= old(rootHeight)
      ensures out == Done ==> pagesWalked > old(pagesWalked)
      ensures shift >= 0.0 && |breakTable| == |old(breakTable)| && |avoidTable| == |old(avoidTable)|
      ensures ShiftedBy(breakTable, old(breakTable), shift)
      ensures ShiftedBy(avoidTable, old(avoidTable), shift)
    {
      var found;
      out, found, shift := BreakAtAvoids();
      if out == Done && !found {
        out, shift := BreakAndAdvance(pageEnd);
      }
    }

    /**
     * The other two cases of a `makePaging` iteration.  With the page end
     * strictly inside the first break record, the break goes at the page
     * end (which moves one page down) when the record's break point lies
     * below it and at the break point otherwise; otherwise the break goes at
     * the first record's break point.  The record is then removed.
     */
    method BreakAtFirstRecord() returns (out: Outcome, ghost shift: real)
      requires Valid() && Paged() && breakTable != []
      modifies this, arena
      ensures Valid() && Paged() && pagesWalked >= old(pagesWalked) && rootHeight >= old(rootHeight)
      ensures shift >= 0.0 && |avoidTable| == |old(avoidTable)|
      ensures ShiftedBy(avoidTable, old(avoidTable), shift)
      ensures out == Done ==>
                |breakTable| == |old(breakTable)| - 1
                && ShiftedBy(breakTable, old(breakTable[1..]), shift)
    {
      if pageEnd > breakTable[0].start && pageEnd < breakTable[0].end && breakTable[0].breakPoint > pageEnd {
        out, shift := BreakAndAdvance(pageEnd);
      } else {
        ghost var tree, line2, line3;
        out, tree, line2, line3, shift := MakeBreakAt(breakTable[0].breakPoint);
      }
      if out == Done {
        DropFirstBreak();
      }
    }

    /**
     * One iteration of the `makePaging` loop: it either moves the page end
     * at least one page down, keeping every break record, or removes the
     * first break record.  Every record left has moved down by `shift`.
     */
    method PagingStep() returns (out: Outcome, ghost shift: real)
      requires Valid() && Paged()
      modifies this, arena
      ensures Valid() && Paged() && pagesWalked >= old(pagesWalked) && rootHeight >= old(rootHeight)
      ensures shift >= 0.0 && |avoidTable| == |old(avoidTable)|
      ensures ShiftedBy(avoidTable, old(avoidTable), shift)
      ensures out == Done && old(breakTable == [] || pageEnd < breakTable[0].start) ==>
                pagesWalked > old(pagesWalked)
                && |breakTable| == |old(breakTable)|
                && ShiftedBy(breakTable, old(breakTable), shift)
      ensures out == Done && !old(breakTable == [] || pageEnd < breakTable[0].start) ==>
                |breakTable| == |old(breakTable)| - 1
                && ShiftedBy(breakTable, old(breakTable[1..]), shift)
    {
      if breakTable == [] || pageEnd < breakTable[0].start {
        out, shift := BreakBetweenRecords();
      } else {
        out, shift := BreakAtFirstRecord();
      }
    }

    /**
     * `makePaging`, for at most `fuel` iterations: the page end starts one
     * page down, and iterations run while a break record is left or the page
     * end lies above the bottom of the document.  `finished` tells that the
     * loop ended within the budget; the pages walked then cover the
     * document.
     */
    method MakePaging(fuel: nat) returns (out: Outcome, finished: bool, steps: nat)
      requires Valid() && Counted()
      modifies this, arena
      ensures Valid() && Paged() && pagesWalked >= 1 && steps <= fuel
      ensures finished <==> out == Done && breakTable == [] && OutputHeight(rootHeight, cfg) <= pageEnd
      ensures finished ==> pageCount <= pagesWalked
      ensures out == Done && !finished ==> steps == fuel
    {
      pageEnd, pagesWalked := cfg.pageHeight, 1;
      out, steps := Done, 0;
      while (breakTable != [] || pageEnd < OutputHeight(rootHeight, cfg)) && steps < fuel
        invariant Valid() && Paged() && pagesWalked >= 1 && steps <= fuel && out == Done
        decreases fuel - steps
      {
        ghost var shift;
        out, shift := PagingStep();
        if out == NullPointer {
          finished := false;
          return;
        }
        steps := steps + 1;
      }
      finished := !(breakTable != [] || pageEnd < OutputHeight(rootHeight, cfg));
      if finished {
        PagesCover(rootHeight, pagesWalked, cfg);
      }
    }

    /**
     * `close` up to the PDF output: attaches the waiting nodes whose parent
     * is now in the TREE, builds and cleans the tables, and breaks the pages
     * (for at most `fuel` iterations).  A NullPointerException ends it.
     */
    method Close(fuel: nat) returns (out: Outcome, finished: bool)
      requires Valid() && Paged()
      modifies this, arena
      ensures Valid() && Paged()
      ensures finished ==> out == Done && breakTable == [] && OutputHeight(rootHeight, cfg) <= pageEnd
      ensures finished ==> pageCount <= pagesWalked
    {
      finished := false;
      out := TryToInsertNotInsertedNodes();
      if out == NullPointer {
        return;
      }
      ghost var order, probes, stop, created;
      out, order, probes, stop, created := CreateAndProcess();
      if out == NullPointer {
        return;
      }
      var steps;
      out, finished, steps := MakePaging(fuel);
    }
  }
}
