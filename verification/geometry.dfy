// Page geometry shared by both renderer packages: the configuration that
// tells them apart, the extents of a node on the output page, the answers
// of the neighbour and extent queries, and what one page break does to a
// single node.
module Geometry {
  import opened Common
  import opened Nodes
  import opened BreakTables

  /**
   * How `makeBreakAt` decides that an element is crossed by the break line:
   * the pdf package multiplies position by offset and height by extra
   * height, the render package adds them up.
   */
  datatype Crossing = ProductTest | SumTest

  /**
   * `scale` is the factor from layout units to output units (1 in the pdf
   * package, `resCoef` in the render package); `pageHeight`, the paddings
   * and all table values are in output units.
   */
  datatype Config = Config(scale: real, pageHeight: real, topPadding: real, bottomPadding: real,
                           crossing: Crossing, drawsMarkers: bool)

  /**
   * Settings under which paging is meaningful: a positive scale and page,
   * and paddings that add up to more than one unit, so that every break
   * moves content down.
   */
  predicate ConfigOk(c: Config) {
    c.scale > 0.0 && c.pageHeight > 0.0 && c.topPadding >= 0.0 && c.bottomPadding >= 0.0
    && c.topPadding + c.bottomPadding > 1.0
  }

  /**
   * The pdf package: coordinates stay in layout units, a page is
   * `pageFormat.height / resCoef` high with `resCoef = pageFormat.width / rootWidth`,
   * both paddings are 50, the crossing test multiplies, markers are rendered.
   */
  function PdfConfig(formatWidth: real, formatHeight: real, rootWidth: real): (c: Config)
    requires formatWidth > 0.0 && formatHeight > 0.0 && rootWidth > 0.0
    ensures ConfigOk(c)
    ensures c.pageHeight * (formatWidth / rootWidth) == formatHeight
    ensures c.scale == 1.0 && c.crossing == ProductTest && c.drawsMarkers
  {
    Config(1.0, formatHeight / (formatWidth / rootWidth), 50.0, 50.0, ProductTest, true)
  }

  /**
   * The render package (`initSettings`): coordinates are scaled by
   * `resCoef = pageFormat.width / rootWidth`, a page is the format height,
   * each padding is one hundredth of it, the crossing test adds up, markers
   * are not rendered.
   */
  function RenderConfig(formatWidth: real, formatHeight: real, rootWidth: real): (c: Config)
    requires formatWidth > 0.0 && formatHeight > 50.0 && rootWidth > 0.0
    ensures ConfigOk(c)
    ensures c.scale * rootWidth == formatWidth && c.pageHeight == formatHeight
    ensures c.topPadding == c.bottomPadding && c.topPadding * 100.0 == formatHeight
    ensures c.crossing == SumTest && !c.drawsMarkers
  {
    Config(formatWidth / rootWidth, formatHeight, formatHeight / 100.0, formatHeight / 100.0, SumTest, false)
  }

  /** Whether a box of this kind reaches the TREE at all (the render package ignores markers). */
  predicate Handles(c: Config, b: Box) {
    b.kind != Marker || c.drawsMarkers
  }

  /** Top of a node in output units, including the offset pagination added. */
  function Top(n: NodeRec, c: Config): real {
    ElemY(n) * c.scale + n.plusOffset
  }

  /** Bottom of a node in output units, including offset and added height. */
  function Bottom(n: NodeRec, c: Config): real {
    Top(n, c) + ElemHeight(n) * c.scale + n.plusHeight
  }

  /** A non-element node (text, replaced content, marker) cut by the horizontal line `line`. */
  predicate Straddles(n: NodeRec, line: real, c: Config) {
    !IsElem(n) && Top(n, c) < line && Bottom(n, c) > line
  }

  /** The height of a document `rootHeight` layout units high, in output units. */
  function OutputHeight(rootHeight: real, c: Config): real {
    rootHeight * c.scale
  }

  /** The bottom of the `k`-th page, in output units. */
  function PageBoundary(k: nat, c: Config): real {
    k as real * c.pageHeight
  }

  /** The page count the renderer reports for a document `rootHeight` layout units high. */
  function PageCount(rootHeight: real, c: Config): int
    requires ConfigOk(c)
  {
    Ceil(OutputHeight(rootHeight, c) / c.pageHeight)
  }


  /** The widest avoid interval kept: 0.8 of a page (`deleteAvoidsBiggerThan(0.8f)`, `mergeAvoids(0.8f)`). */
  function AvoidLimit(c: Config): real {
    0.8 * c.pageHeight
  }

  // ---------------------------------------------------------------------
  // Neighbour queries (`getElementAbove`, `getElementBelow`)
  // ---------------------------------------------------------------------

  /** `t` may be reported above `k`: another id, and its bottom at or above the top of `k`. */
  predicate AboveCandidate(t: NodeRec, k: NodeRec, c: Config) {
    GetID(t) != GetID(k) && Bottom(t, c) <= Top(k, c)
  }

  /** `t` may be reported below `k`: another id, and its top at or below the bottom of `k`. */
  predicate BelowCandidate(t: NodeRec, k: NodeRec, c: Config) {
    GetID(t) != GetID(k) && Top(t, c) >= Bottom(k, c)
  }

  /**
   * Among the siblings `ch`, the one at position `i` is a candidate above
   * `k` whose bottom is the lowest on the page, the later one among equals:
   * no earlier candidate ends lower and every later one ends strictly higher.
   */
  predicate BestAbove(nodes: seq<NodeRec>, ch: seq<nat>, k: nat, i: nat, c: Config)
    requires k < |nodes| && i < |ch| && forall j :: 0 <= j < |ch| ==> ch[j] < |nodes|
  {
    AboveCandidate(nodes[ch[i]], nodes[k], c)
    && (forall j :: 0 <= j < i && AboveCandidate(nodes[ch[j]], nodes[k], c) ==>
          Bottom(nodes[ch[j]], c) <= Bottom(nodes[ch[i]], c))
    && (forall j :: i < j < |ch| && AboveCandidate(nodes[ch[j]], nodes[k], c) ==>
          Bottom(nodes[ch[j]], c) < Bottom(nodes[ch[i]], c))
  }

  /**
   * Among the siblings `ch`, the one at position `i` is a candidate below
   * `k` whose top is the highest on the page, the later one among equals.
   */
  predicate BestBelow(nodes: seq<NodeRec>, ch: seq<nat>, k: nat, i: nat, c: Config)
    requires k < |nodes| && i < |ch| && forall j :: 0 <= j < |ch| ==> ch[j] < |nodes|
  {
    BelowCandidate(nodes[ch[i]], nodes[k], c)
    && (forall j :: 0 <= j < i && BelowCandidate(nodes[ch[j]], nodes[k], c) ==>
          Top(nodes[ch[j]], c) >= Top(nodes[ch[i]], c))
    && (forall j :: i < j < |ch| && BelowCandidate(nodes[ch[j]], nodes[k], c) ==>
          Top(nodes[ch[j]], c) > Top(nodes[ch[i]], c))
  }

  /** At most one position is the best candidate above. */
  lemma BestAboveUnique(nodes: seq<NodeRec>, ch: seq<nat>, k: nat, i1: nat, i2: nat, c: Config)
    requires k < |nodes| && i1 < |ch| && i2 < |ch| && forall j :: 0 <= j < |ch| ==> ch[j] < |nodes|
    requires BestAbove(nodes, ch, k, i1, c) && BestAbove(nodes, ch, k, i2, c)
    ensures i1 == i2
  {
  }

  /** At most one position is the best candidate below. */
  lemma BestBelowUnique(nodes: seq<NodeRec>, ch: seq<nat>, k: nat, i1: nat, i2: nat, c: Config)
    requires k < |nodes| && i1 < |ch| && i2 < |ch| && forall j :: 0 <= j < |ch| ==> ch[j] < |nodes|
    requires BestBelow(nodes, ch, k, i1, c) && BestBelow(nodes, ch, k, i2, c)
    ensures i1 == i2
  {
  }

  /**
   * `r` is the answer of `getElementAbove` for node `k`: -1 when `k` has no
   * parent or no sibling is a candidate, and otherwise the best candidate
   * among the children of the parent.
   */
  ghost predicate IsAbove(nodes: seq<NodeRec>, k: nat, r: int, c: Config)
    requires AllLinked(nodes) && k < |nodes|
  {
    assert Linked(nodes[k], k, |nodes|);
    var p := nodes[k].parent;
    if p == -1 then r == -1
    else
      assert Linked(nodes[p], p, |nodes|);
      var ch := nodes[p].children;
      (r == -1 <==> forall i :: 0 <= i < |ch| ==> !AboveCandidate(nodes[ch[i]], nodes[k], c))
      && (r != -1 ==> exists i: nat :: i < |ch| && ch[i] == r && BestAbove(nodes, ch, k, i, c))
  }

  /**
   * `r` is the answer of `getElementBelow` for node `k`: -1 when `k` has no
   * parent or no sibling is a candidate, and otherwise the best candidate
   * among the children of the parent.
   */
  ghost predicate IsBelow(nodes: seq<NodeRec>, k: nat, r: int, c: Config)
    requires AllLinked(nodes) && k < |nodes|
  {
    assert Linked(nodes[k], k, |nodes|);
    var p := nodes[k].parent;
    if p == -1 then r == -1
    else
      assert Linked(nodes[p], p, |nodes|);
      var ch := nodes[p].children;
      (r == -1 <==> forall i :: 0 <= i < |ch| ==> !BelowCandidate(nodes[ch[i]], nodes[k], c))
      && (r != -1 ==> exists i: nat :: i < |ch| && ch[i] == r && BestBelow(nodes, ch, k, i, c))
  }

  /** `getElementAbove` has one answer. */
  lemma AboveUnique(nodes: seq<NodeRec>, k: nat, r1: int, r2: int, c: Config)
    requires AllLinked(nodes) && k < |nodes|
    requires IsAbove(nodes, k, r1, c) && IsAbove(nodes, k, r2, c)
    ensures r1 == r2
  {
    assert Linked(nodes[k], k, |nodes|);
    var p := nodes[k].parent;
    if p != -1 {
      assert Linked(nodes[p], p, |nodes|);
      var ch := nodes[p].children;
      if r1 != -1 && r2 != -1 {
        var i1: nat :| i1 < |ch| && ch[i1] == r1 && BestAbove(nodes, ch, k, i1, c);
        var i2: nat :| i2 < |ch| && ch[i2] == r2 && BestAbove(nodes, ch, k, i2, c);
        BestAboveUnique(nodes, ch, k, i1, i2, c);
      }
    }
  }

  /** `getElementBelow` has one answer. */
  lemma BelowUnique(nodes: seq<NodeRec>, k: nat, r1: int, r2: int, c: Config)
    requires AllLinked(nodes) && k < |nodes|
    requires IsBelow(nodes, k, r1, c) && IsBelow(nodes, k, r2, c)
    ensures r1 == r2
  {
    assert Linked(nodes[k], k, |nodes|);
    var p := nodes[k].parent;
    if p != -1 {
      assert Linked(nodes[p], p, |nodes|);
      var ch := nodes[p].children;
      if r1 != -1 && r2 != -1 {
        var i1: nat :| i1 < |ch| && ch[i1] == r1 && BestBelow(nodes, ch, k, i1, c);
        var i2: nat :| i2 < |ch| && ch[i2] == r2 && BestBelow(nodes, ch, k, i2, c);
        BestBelowUnique(nodes, ch, k, i1, i2, c);
      }
    }
  }

  /**
   * The scan of `getElementAbove` over the siblings `ch` of `k`: keeps the
   * candidate whose bottom is lowest, a later one replacing an equal one.
   * Answers -1 exactly when no sibling is a candidate.
   */
  method ScanAbove(nodes: seq<NodeRec>, ch: seq<nat>, k: nat, c: Config) returns (r: int, ghost best: nat)
    requires k < |nodes| && forall j :: 0 <= j < |ch| ==> ch[j] < |nodes|
    ensures -1 <= r < |nodes|
    ensures r == -1 <==> forall j :: 0 <= j < |ch| ==> !AboveCandidate(nodes[ch[j]], nodes[k], c)
    ensures r != -1 ==> best < |ch| && ch[best] == r && BestAbove(nodes, ch, k, best, c)
  {
    r, best := -1, 0;
    var i := 0;
    while i < |ch|
      invariant i <= |ch| && -1 <= r < |nodes|
      invariant r == -1 <==> forall j :: 0 <= j < i ==> !AboveCandidate(nodes[ch[j]], nodes[k], c)
      invariant r != -1 ==>
                  best < i && ch[best] == r && AboveCandidate(nodes[r], nodes[k], c)
                  && (forall j :: 0 <= j < best && AboveCandidate(nodes[ch[j]], nodes[k], c) ==>
                        Bottom(nodes[ch[j]], c) <= Bottom(nodes[r], c))
                  && (forall j :: best < j < i && AboveCandidate(nodes[ch[j]], nodes[k], c) ==>
                        Bottom(nodes[ch[j]], c) < Bottom(nodes[r], c))
    {
      var t := ch[i];
      if GetID(nodes[k]) != GetID(nodes[t]) && Bottom(nodes[t], c) <= Top(nodes[k], c) {
        if r == -1 || Bottom(nodes[r], c) <= Bottom(nodes[t], c) {
          r, best := t, i;
        }
      }
      i := i + 1;
    }
  }

  /**
   * The scan of `getElementBelow` over the siblings `ch` of `k`: keeps the
   * candidate whose top is highest, a later one replacing an equal one.
   * Answers -1 exactly when no sibling is a candidate.
   */
  method ScanBelow(nodes: seq<NodeRec>, ch: seq<nat>, k: nat, c: Config) returns (r: int, ghost best: nat)
    requires k < |nodes| && forall j :: 0 <= j < |ch| ==> ch[j] < |nodes|
    ensures -1 <= r < |nodes|
    ensures r == -1 <==> forall j :: 0 <= j < |ch| ==> !BelowCandidate(nodes[ch[j]], nodes[k], c)
    ensures r != -1 ==> best < |ch| && ch[best] == r && BestBelow(nodes, ch, k, best, c)
  {
    r, best := -1, 0;
    var i := 0;
    while i < |ch|
      invariant i <= |ch| && -1 <= r < |nodes|
      invariant r == -1 <==> forall j :: 0 <= j < i ==> !BelowCandidate(nodes[ch[j]], nodes[k], c)
      invariant r != -1 ==>
                  best < i && ch[best] == r && BelowCandidate(nodes[r], nodes[k], c)
                  && (forall j :: 0 <= j < best && BelowCandidate(nodes[ch[j]], nodes[k], c) ==>
                        Top(nodes[ch[j]], c) >= Top(nodes[r], c))
                  && (forall j :: best < j < i && BelowCandidate(nodes[ch[j]], nodes[k], c) ==>
                        Top(nodes[ch[j]], c) > Top(nodes[r], c))
    {
      var t := ch[i];
      if GetID(nodes[k]) != GetID(nodes[t]) && Top(nodes[t], c) >= Bottom(nodes[k], c) {
        if r == -1 || Top(nodes[r], c) >= Top(nodes[t], c) {
          r, best := t, i;
        }
      }
      i := i + 1;
    }
  }

  // ---------------------------------------------------------------------
  // Extent queries (`getFirstTop`, `getLastBottom`)
  // ---------------------------------------------------------------------

  /** The nodes of `D` the extent queries look at: the non-elements if there are any, otherwise all. */
  ghost predicate Considered(nodes: seq<NodeRec>, D: set<nat>, x: nat)
    requires forall y :: y in D ==> y < |nodes|
  {
    x in D && ((exists y :: y in D && !IsElem(nodes[y])) ==> !IsElem(nodes[x]))
  }

  /** `v` is the highest top among the considered nodes of `D`, and one of them has it. */
  ghost predicate FirstTopOf(nodes: seq<NodeRec>, D: set<nat>, v: real, c: Config)
    requires forall y :: y in D ==> y < |nodes|
  {
    (exists x: nat :: Considered(nodes, D, x) && Top(nodes[x], c) == v)
    && forall x: nat :: Considered(nodes, D, x) ==> v <= Top(nodes[x], c)
  }

  /** `v` is the lowest bottom among the considered nodes of `D`, and one of them has it. */
  ghost predicate LastBottomOf(nodes: seq<NodeRec>, D: set<nat>, v: real, c: Config)
    requires forall y :: y in D ==> y < |nodes|
  {
    (exists x: nat :: Considered(nodes, D, x) && Bottom(nodes[x], c) == v)
    && forall x: nat :: Considered(nodes, D, x) ==> Bottom(nodes[x], c) <= v
  }

  /**
   * `v` is the answer of `getFirstTop` for `k`: -1 for null, the node's own
   * top for a leaf, and otherwise the highest top among its non-element
   * descendants, or among all its descendants when all are elements.
   */
  ghost predicate FirstTopIs(nodes: seq<NodeRec>, ownerOf: seq<int>, k: int, v: real, c: Config)
    requires -1 <= k < |nodes| && |ownerOf| == |nodes|
  {
    if k == -1 then v == -1.0
    else if nodes[k].children == [] then v == Top(nodes[k], c)
    else exists D :: Subtree(nodes, ownerOf, k, D) && FirstTopOf(nodes, D, v, c)
  }

  /**
   * `v` is the answer of `getLastBottom` for `k`: -1 for null, the node's
   * own bottom for a leaf, and otherwise the lowest bottom among its
   * non-element descendants, or among all its descendants when all are
   * elements.
   */
  ghost predicate LastBottomIs(nodes: seq<NodeRec>, ownerOf: seq<int>, k: int, v: real, c: Config)
    requires -1 <= k < |nodes| && |ownerOf| == |nodes|
  {
    if k == -1 then v == -1.0
    else if nodes[k].children == [] then v == Bottom(nodes[k], c)
    else exists D :: Subtree(nodes, ownerOf, k, D) && LastBottomOf(nodes, D, v, c)
  }

  /**
   * A walk over `xs` that keeps in `m` the highest top among the nodes that
   * are elements (`elems`) or non-elements (`!elems`); None while there is
   * none.
   */
  ghost predicate TopScan(nodes: seq<NodeRec>, xs: seq<nat>, elems: bool, m: Option<real>, c: Config)
    requires forall j :: 0 <= j < |xs| ==> xs[j] < |nodes|
  {
    (m.None? <==> forall j :: 0 <= j < |xs| ==> IsElem(nodes[xs[j]]) != elems)
    && (m.Some? ==>
          (exists j :: 0 <= j < |xs| && IsElem(nodes[xs[j]]) == elems && Top(nodes[xs[j]], c) == m.value)
          && forall j :: 0 <= j < |xs| && IsElem(nodes[xs[j]]) == elems ==> m.value <= Top(nodes[xs[j]], c))
  }

  /** The mirror image of `TopScan`: the lowest bottom. */
  ghost predicate BottomScan(nodes: seq<NodeRec>, xs: seq<nat>, elems: bool, m: Option<real>, c: Config)
    requires forall j :: 0 <= j < |xs| ==> xs[j] < |nodes|
  {
    (m.None? <==> forall j :: 0 <= j < |xs| ==> IsElem(nodes[xs[j]]) != elems)
    && (m.Some? ==>
          (exists j :: 0 <= j < |xs| && IsElem(nodes[xs[j]]) == elems && Bottom(nodes[xs[j]], c) == m.value)
          && forall j :: 0 <= j < |xs| && IsElem(nodes[xs[j]]) == elems ==> Bottom(nodes[xs[j]], c) <= m.value)
  }

  /** The kept highest top after looking at node `n`: replaced when `n` is of the tracked kind and strictly higher. */
  function KeepHigherTop(m: Option<real>, n: NodeRec, elems: bool, c: Config): Option<real> {
    if IsElem(n) == elems && (m.None? || Top(n, c) < m.value) then Some(Top(n, c)) else m
  }

  /** The kept lowest bottom after looking at node `n`: replaced when `n` is of the tracked kind and strictly lower. */
  function KeepLowerBottom(m: Option<real>, n: NodeRec, elems: bool, c: Config): Option<real> {
    if IsElem(n) == elems && (m.None? || Bottom(n, c) > m.value) then Some(Bottom(n, c)) else m
  }

  /** One step of the `getFirstTop` walk: a strictly higher top replaces the kept one. */
  lemma TopScanStep(nodes: seq<NodeRec>, xs: seq<nat>, x: nat, elems: bool, m: Option<real>, c: Config)
    requires x < |nodes| && forall j :: 0 <= j < |xs| ==> xs[j] < |nodes|
    requires TopScan(nodes, xs, elems, m, c)
    ensures TopScan(nodes, xs + [x], elems, KeepHigherTop(m, nodes[x], elems, c), c)
  {
    var ys := xs + [x];
    assert forall j :: 0 <= j < |xs| ==> ys[j] == xs[j];
    assert ys[|xs|] == x;
  }

  /** One step of the `getLastBottom` walk: a strictly lower bottom replaces the kept one. */
  lemma BottomScanStep(nodes: seq<NodeRec>, xs: seq<nat>, x: nat, elems: bool, m: Option<real>, c: Config)
    requires x < |nodes| && forall j :: 0 <= j < |xs| ==> xs[j] < |nodes|
    requires BottomScan(nodes, xs, elems, m, c)
    ensures BottomScan(nodes, xs + [x], elems, KeepLowerBottom(m, nodes[x], elems, c), c)
  {
    var ys := xs + [x];
    assert forall j :: 0 <= j < |xs| ==> ys[j] == xs[j];
    assert ys[|xs|] == x;
  }

  /** A finished, non-empty `getFirstTop` walk: the non-element result if any, else the element one. */
  lemma TopScanResult(nodes: seq<NodeRec>, xs: seq<nat>, text: Option<real>, elem: Option<real>, c: Config)
    requires xs != [] && forall j :: 0 <= j < |xs| ==> xs[j] < |nodes|
    requires TopScan(nodes, xs, false, text, c) && TopScan(nodes, xs, true, elem, c)
    ensures text.Some? || elem.Some?
    ensures FirstTopOf(nodes, (set x | x in xs), if text.Some? then text.value else elem.value, c)
  {
    var D := set x | x in xs;
    if text.None? {
      assert IsElem(nodes[xs[0]]);
    }
    var v := if text.Some? then text.value else elem.value;
    if text.Some? {
      var j :| 0 <= j < |xs| && !IsElem(nodes[xs[j]]) && Top(nodes[xs[j]], c) == v;
      assert Considered(nodes, D, xs[j]);
    } else {
      var j :| 0 <= j < |xs| && IsElem(nodes[xs[j]]) && Top(nodes[xs[j]], c) == v;
      assert Considered(nodes, D, xs[j]);
    }
    forall x: nat | Considered(nodes, D, x) ensures v <= Top(nodes[x], c) {
      var j :| 0 <= j < |xs| && xs[j] == x;
    }
  }

  /** A finished, non-empty `getLastBottom` walk: the non-element result if any, else the element one. */
  lemma BottomScanResult(nodes: seq<NodeRec>, xs: seq<nat>, text: Option<real>, elem: Option<real>, c: Config)
    requires xs != [] && forall j :: 0 <= j < |xs| ==> xs[j] < |nodes|
    requires BottomScan(nodes, xs, false, text, c) && BottomScan(nodes, xs, true, elem, c)
    ensures text.Some? || elem.Some?
    ensures LastBottomOf(nodes, (set x | x in xs), if text.Some? then text.value else elem.value, c)
  {
    var D := set x | x in xs;
    if text.None? {
      assert IsElem(nodes[xs[0]]);
    }
    var v := if text.Some? then text.value else elem.value;
    if text.Some? {
      var j :| 0 <= j < |xs| && !IsElem(nodes[xs[j]]) && Bottom(nodes[xs[j]], c) == v;
      assert Considered(nodes, D, xs[j]);
    } else {
      var j :| 0 <= j < |xs| && IsElem(nodes[xs[j]]) && Bottom(nodes[xs[j]], c) == v;
      assert Considered(nodes, D, xs[j]);
    }
    forall x: nat | Considered(nodes, D, x) ensures Bottom(nodes[x], c) <= v {
      var j :| 0 <= j < |xs| && xs[j] == x;
    }
  }

  /**
   * The walk of `getFirstTop` over the descendants `order`: the highest
   * top of a non-element if there is one, otherwise of an element.
   */
  method HighestTop(nodes: seq<NodeRec>, order: seq<nat>, c: Config) returns (r: real)
    requires order != [] && forall j :: 0 <= j < |order| ==> order[j] < |nodes|
    ensures FirstTopOf(nodes, (set x | x in order), r, c)
  {
    var textMin: Option<real> := None;
    var elemMin: Option<real> := None;
    var i := 0;
    while i < |order|
      invariant i <= |order|
      invariant TopScan(nodes, order[..i], false, textMin, c) && TopScan(nodes, order[..i], true, elemMin, c)
    {
      var x := order[i];
      TopScanStep(nodes, order[..i], x, false, textMin, c);
      TopScanStep(nodes, order[..i], x, true, elemMin, c);
      assert order[..i + 1] == order[..i] + [x];
      textMin, elemMin := KeepHigherTop(textMin, nodes[x], false, c), KeepHigherTop(elemMin, nodes[x], true, c);
      i := i + 1;
    }
    assert order[..i] == order;
    TopScanResult(nodes, order, textMin, elemMin, c);
    if textMin.Some? {
      r := textMin.value;
    } else {
      r := elemMin.value;
    }
  }

  /**
   * The walk of `getLastBottom` over the descendants `order`: the lowest
   * bottom of a non-element if there is one, otherwise of an element.
   */
  method LowestBottom(nodes: seq<NodeRec>, order: seq<nat>, c: Config) returns (r: real)
    requires order != [] && forall j :: 0 <= j < |order| ==> order[j] < |nodes|
    ensures LastBottomOf(nodes, (set x | x in order), r, c)
  {
    var textMax: Option<real> := None;
    var elemMax: Option<real> := None;
    var i := 0;
    while i < |order|
      invariant i <= |order|
      invariant BottomScan(nodes, order[..i], false, textMax, c) && BottomScan(nodes, order[..i], true, elemMax, c)
    {
      var x := order[i];
      BottomScanStep(nodes, order[..i], x, false, textMax, c);
      BottomScanStep(nodes, order[..i], x, true, elemMax, c);
      assert order[..i + 1] == order[..i] + [x];
      textMax, elemMax := KeepLowerBottom(textMax, nodes[x], false, c), KeepLowerBottom(elemMax, nodes[x], true, c);
      i := i + 1;
    }
    assert order[..i] == order;
    BottomScanResult(nodes, order, textMax, elemMax, c);
    if textMax.Some? {
      r := textMax.value;
    } else {
      r := elemMax.value;
    }
  }

  /** `getFirstTop` has one answer. */
  lemma FirstTopUnique(nodes: seq<NodeRec>, ownerOf: seq<int>, rank: seq<nat>, k: int, v1: real, v2: real, c: Config)
    requires ArenaOk(nodes, ownerOf, rank) && -1 <= k < |nodes|
    requires FirstTopIs(nodes, ownerOf, k, v1, c) && FirstTopIs(nodes, ownerOf, k, v2, c)
    ensures v1 == v2
  {
    if k != -1 && nodes[k].children != [] {
      var D1 :| Subtree(nodes, ownerOf, k, D1) && FirstTopOf(nodes, D1, v1, c);
      var D2 :| Subtree(nodes, ownerOf, k, D2) && FirstTopOf(nodes, D2, v2, c);
      SubtreeUnique(nodes, ownerOf, rank, k, D1, D2);
      var x1: nat :| Considered(nodes, D1, x1) && Top(nodes[x1], c) == v1;
      var x2: nat :| Considered(nodes, D1, x2) && Top(nodes[x2], c) == v2;
    }
  }

  /** `getLastBottom` has one answer. */
  lemma LastBottomUnique(nodes: seq<NodeRec>, ownerOf: seq<int>, rank: seq<nat>, k: int, v1: real, v2: real, c: Config)
    requires ArenaOk(nodes, ownerOf, rank) && -1 <= k < |nodes|
    requires LastBottomIs(nodes, ownerOf, k, v1, c) && LastBottomIs(nodes, ownerOf, k, v2, c)
    ensures v1 == v2
  {
    if k != -1 && nodes[k].children != [] {
      var D1 :| Subtree(nodes, ownerOf, k, D1) && LastBottomOf(nodes, D1, v1, c);
      var D2 :| Subtree(nodes, ownerOf, k, D2) && LastBottomOf(nodes, D2, v2, c);
      SubtreeUnique(nodes, ownerOf, rank, k, D1, D2);
      var x1: nat :| Considered(nodes, D1, x1) && Bottom(nodes[x1], c) == v1;
      var x2: nat :| Considered(nodes, D1, x2) && Bottom(nodes[x2], c) == v2;
    }
  }

  // ---------------------------------------------------------------------
  // The records of `createBreakAvoidTables`
  // ---------------------------------------------------------------------

  /**
   * The values the record builder reads for one element: the neighbour
   * above and below (-1: none), the element's first top and last bottom,
   * the last bottom of the neighbour above, the first top of the neighbour
   * below, and the top of the parent; all extents in output units.
   */
  datatype Probe = Probe(above: int, below: int, firstTop: real, lastBottom: real,
                         aboveBottom: real, belowTop: real, parentTop: real)

  /**
   * End of an interval after the element: the first top of the neighbour
   * below, or the element's own content bottom without pagination offsets.
   */
  function AfterEnd(n: NodeRec, p: Probe, c: Config): real {
    if p.below != -1 then p.belowTop * c.scale else ElemY(n) * c.scale + ElemHeight(n) * c.scale
  }

  /**
   * The breakTable records of an element: for `page-break-before: always`
   * the gap from the neighbour above (or the parent's top) to the first
   * content, breaking at the element's content top; for
   * `page-break-after: always` the gap from the last content to the
   * neighbour below, breaking at the element's content bottom.  The extent
   * queries already answer in output units and are scaled once more, as
   * the render package does.
   */
  function BreakRecords(n: NodeRec, p: Probe, c: Config): seq<Record> {
    (if n.box.before == BreakAlways then
       [Record(if p.above == -1 then p.parentTop else p.aboveBottom * c.scale,
               p.firstTop * c.scale, n.box.y * c.scale)]
     else [])
    + (if n.box.after == BreakAlways then
         [Record(p.lastBottom * c.scale, AfterEnd(n, p, c), n.box.y * c.scale + n.box.height * c.scale)]
       else [])
  }

  /**
   * The avoidTable records of an element: for `page-break-before: avoid`
   * the gap from the neighbour above (or the element's own top) to the
   * first content; for `page-break-after: avoid` the gap from the last
   * content to what follows; for `page-break-inside: avoid` the element's
   * content box widened by one unit at each end.  Each breaks one unit
   * above its start.
   */
  function AvoidRecords(n: NodeRec, p: Probe, c: Config): seq<Record> {
    var beforeStart := if p.above != -1 then p.aboveBottom * c.scale else ElemY(n) * c.scale;
    var insideStart := n.box.y * c.scale - 1.0;
    (if n.box.before == BreakAvoid then [Record(beforeStart, p.firstTop * c.scale, beforeStart - 1.0)] else [])
    + (if n.box.after == BreakAvoid then
         [Record(p.lastBottom * c.scale, AfterEnd(n, p, c), p.lastBottom * c.scale - 1.0)]
       else [])
    + (if n.box.inside == InsideAvoid then
         [Record(insideStart, insideStart + n.box.height * c.scale + 1.0, insideStart - 1.0)]
       else [])
  }

  /**
   * Every avoid record breaks one unit above its start; the
   * `page-break-inside: avoid` record is the last one, reaching from one
   * unit above the content top to one unit below the content bottom.
   */
  lemma AvoidRecordsShape(n: NodeRec, p: Probe, c: Config)
    ensures forall r :: r in AvoidRecords(n, p, c) ==> r.breakPoint == r.start - 1.0
    ensures |AvoidRecords(n, p, c)| ==
              (if n.box.before == BreakAvoid then 1 else 0) + (if n.box.after == BreakAvoid then 1 else 0)
              + (if n.box.inside == InsideAvoid then 1 else 0)
    ensures n.box.inside == InsideAvoid ==>
              var r := AvoidRecords(n, p, c)[|AvoidRecords(n, p, c)| - 1];
              r.start == n.box.y * c.scale - 1.0
              && r.end == n.box.y * c.scale + n.box.height * c.scale
              && r.breakPoint == n.box.y * c.scale - 2.0
  {
  }

  /**
   * A `before: always` record breaks at the element's content top and an
   * `after: always` record at its content bottom, in that order.
   */
  lemma BreakRecordsShape(n: NodeRec, p: Probe, c: Config)
    ensures |BreakRecords(n, p, c)| ==
              (if n.box.before == BreakAlways then 1 else 0) + (if n.box.after == BreakAlways then 1 else 0)
    ensures n.box.before == BreakAlways ==> BreakRecords(n, p, c)[0].breakPoint == n.box.y * c.scale
    ensures n.box.after == BreakAlways ==>
              BreakRecords(n, p, c)[|BreakRecords(n, p, c)| - 1].breakPoint
                == (n.box.y + n.box.height) * c.scale
  {
  }

  /**
   * `p` holds the answers of the queries `createBreakAvoidTables` makes for
   * element `x`: its neighbours above and below, its first top and last
   * bottom, the last bottom of the neighbour above, the first top of the
   * neighbour below, and the top of its parent.
   */
  ghost predicate ProbeOf(nodes: seq<NodeRec>, ownerOf: seq<int>, x: nat, p: Probe, c: Config)
    requires AllLinked(nodes) && |ownerOf| == |nodes| && x < |nodes|
  {
    -1 <= p.above < |nodes| && -1 <= p.below < |nodes|
    && IsAbove(nodes, x, p.above, c) && IsBelow(nodes, x, p.below, c)
    && FirstTopIs(nodes, ownerOf, x, p.firstTop, c) && LastBottomIs(nodes, ownerOf, x, p.lastBottom, c)
    && (p.above != -1 ==> LastBottomIs(nodes, ownerOf, p.above, p.aboveBottom, c))
    && (p.below != -1 ==> FirstTopIs(nodes, ownerOf, p.below, p.belowTop, c))
    && (0 <= nodes[x].parent < |nodes| ==> p.parentTop == Top(nodes[nodes[x].parent], c))
  }

  /**
   * An element with `page-break-before: always` and no parent: with no
   * neighbour above, the source reads its parent's position through null.
   */
  predicate ThrowsOnBreakBefore(n: NodeRec) {
    IsElem(n) && n.box.before == BreakAlways && n.parent == -1
  }

  /** The breakTable records a node contributes: none unless it is an element. */
  function NodeBreaks(n: NodeRec, p: Probe, c: Config): seq<Record> {
    if IsElem(n) then BreakRecords(n, p, c) else []
  }

  /** The avoidTable records a node contributes: none unless it is an element. */
  function NodeAvoids(n: NodeRec, p: Probe, c: Config): seq<Record> {
    if IsElem(n) then AvoidRecords(n, p, c) else []
  }

  /** The breakTable records of the walk `order`, node by node, with `probes[j]` the answers for `order[j]`. */
  function AllBreaks(nodes: seq<NodeRec>, order: seq<nat>, probes: seq<Probe>, c: Config): seq<Record>
    requires |probes| == |order| && forall j :: 0 <= j < |order| ==> order[j] < |nodes|
    decreases |order|
  {
    if order == [] then []
    else AllBreaks(nodes, order[..|order| - 1], probes[..|order| - 1], c)
         + NodeBreaks(nodes[order[|order| - 1]], probes[|order| - 1], c)
  }

  /** The avoidTable records of the walk `order`, node by node. */
  function AllAvoids(nodes: seq<NodeRec>, order: seq<nat>, probes: seq<Probe>, c: Config): seq<Record>
    requires |probes| == |order| && forall j :: 0 <= j < |order| ==> order[j] < |nodes|
    decreases |order|
  {
    if order == [] then []
    else AllAvoids(nodes, order[..|order| - 1], probes[..|order| - 1], c)
         + NodeAvoids(nodes[order[|order| - 1]], probes[|order| - 1], c)
  }

  /**
   * The position in the walk `order` of the first element that throws on
   * `page-break-before: always`, or the length of the walk when none does.
   */
  method FirstThrowing(nodes: seq<NodeRec>, order: seq<nat>) returns (n: nat)
    requires forall j :: 0 <= j < |order| ==> order[j] < |nodes|
    ensures n <= |order|
    ensures n < |order| ==> ThrowsOnBreakBefore(nodes[order[n]])
    ensures forall j :: 0 <= j < n ==> !ThrowsOnBreakBefore(nodes[order[j]])
  {
    n := 0;
    while n < |order| && !ThrowsOnBreakBefore(nodes[order[n]])
      invariant n <= |order|
      invariant forall j :: 0 <= j < n ==> !ThrowsOnBreakBefore(nodes[order[j]])
    {
      n := n + 1;
    }
  }

  /** The tables after one more node of a walk: its records inserted after those of the nodes before it. */
  lemma RecordsOfNextNode(nodes: seq<NodeRec>, order: seq<nat>, probes: seq<Probe>, i: nat, c: Config,
                          breaks: seq<Record>, avoids: seq<Record>)
    requires i < |order| && |probes| == |order| && forall j :: 0 <= j < |order| ==> order[j] < |nodes|
    ensures InsertEach(breaks, AllBreaks(nodes, order[..i + 1], probes[..i + 1], c))
            == InsertEach(InsertEach(breaks, AllBreaks(nodes, order[..i], probes[..i], c)),
                          NodeBreaks(nodes[order[i]], probes[i], c))
    ensures InsertEach(avoids, AllAvoids(nodes, order[..i + 1], probes[..i + 1], c))
            == InsertEach(InsertEach(avoids, AllAvoids(nodes, order[..i], probes[..i], c)),
                          NodeAvoids(nodes[order[i]], probes[i], c))
  {
    assert order[..i + 1][..i] == order[..i];
    assert probes[..i + 1][..i] == probes[..i];
    InsertEachAppend(breaks, AllBreaks(nodes, order[..i], probes[..i], c), NodeBreaks(nodes[order[i]], probes[i], c));
    InsertEachAppend(avoids, AllAvoids(nodes, order[..i], probes[..i], c), NodeAvoids(nodes[order[i]], probes[i], c));
  }

  /** Inserts the records of the `i`-th node of the walk into the tables built from the nodes before it. */
  method AddNodeRecords(breaks: seq<Record>, avoids: seq<Record>, nodes: seq<NodeRec>, order: seq<nat>,
                        probes: seq<Probe>, i: nat, c: Config, b: seq<Record>, a: seq<Record>)
    returns (b': seq<Record>, a': seq<Record>)
    requires i < |order| && |probes| == |order| && forall j :: 0 <= j < |order| ==> order[j] < |nodes|
    requires b == InsertEach(breaks, AllBreaks(nodes, order[..i], probes[..i], c))
    requires a == InsertEach(avoids, AllAvoids(nodes, order[..i], probes[..i], c))
    ensures b' == InsertEach(breaks, AllBreaks(nodes, order[..i + 1], probes[..i + 1], c))
    ensures a' == InsertEach(avoids, AllAvoids(nodes, order[..i + 1], probes[..i + 1], c))
  {
    RecordsOfNextNode(nodes, order, probes, i, c, breaks, avoids);
    b' := InsertAll(b, NodeBreaks(nodes[order[i]], probes[i], c));
    a' := InsertAll(a, NodeAvoids(nodes[order[i]], probes[i], c));
  }

  /**
   * Inserts the records of the walk `order` node by node, the break records
   * into `breaks` and the avoid records into `avoids`, each by start.
   */
  method AddAllRecords(breaks: seq<Record>, avoids: seq<Record>, nodes: seq<NodeRec>, order: seq<nat>,
                       probes: seq<Probe>, c: Config) returns (breaks': seq<Record>, avoids': seq<Record>)
    requires |probes| == |order| && forall j :: 0 <= j < |order| ==> order[j] < |nodes|
    ensures breaks' == InsertEach(breaks, AllBreaks(nodes, order, probes, c))
    ensures avoids' == InsertEach(avoids, AllAvoids(nodes, order, probes, c))
    ensures SortedByStart(breaks) ==> SortedByStart(breaks')
    ensures SortedByStart(avoids) ==> SortedByStart(avoids')
  {
    breaks', avoids' := breaks, avoids;
    var i := 0;
    while i < |order|
      invariant i <= |order|
      invariant breaks' == InsertEach(breaks, AllBreaks(nodes, order[..i], probes[..i], c))
      invariant avoids' == InsertEach(avoids, AllAvoids(nodes, order[..i], probes[..i], c))
    {
      breaks', avoids' := AddNodeRecords(breaks, avoids, nodes, order, probes, i, c, breaks', avoids');
      i := i + 1;
    }
    assert order[..i] == order && probes[..i] == probes;
    InsertEachProperties(breaks, AllBreaks(nodes, order, probes, c));
    InsertEachProperties(avoids, AllAvoids(nodes, order, probes, c));
  }

  /** Every avoid record of a walk breaks one unit above the start of its interval. */
  lemma {:induction false} AllAvoidsBreakAbove(nodes: seq<NodeRec>, order: seq<nat>, probes: seq<Probe>, c: Config)
    requires |probes| == |order| && forall j :: 0 <= j < |order| ==> order[j] < |nodes|
    ensures forall r :: r in AllAvoids(nodes, order, probes, c) ==> r.breakPoint == r.start - 1.0
  {
    if order != [] {
      var k := |order| - 1;
      AllAvoidsBreakAbove(nodes, order[..k], probes[..k], c);
      AvoidRecordsShape(nodes[order[k]], probes[k], c);
    }
  }

  /** `bp` is the content top or the content bottom of `n`, in output units. */
  predicate AtContentEdge(n: NodeRec, bp: real, c: Config) {
    bp == n.box.y * c.scale || bp == n.box.y * c.scale + n.box.height * c.scale
  }

  /** Each break record of an element breaks at its content top or bottom. */
  lemma BreakRecordsAtEdges(n: NodeRec, p: Probe, c: Config)
    ensures forall r :: r in BreakRecords(n, p, c) ==> AtContentEdge(n, r.breakPoint, c)
  {
  }

  /**
   * Every break record of a walk breaks at the content top or the content
   * bottom of an element of the walk.
   */
  lemma {:induction false} AllBreaksAtContentEdges(nodes: seq<NodeRec>, order: seq<nat>, probes: seq<Probe>, c: Config)
    requires |probes| == |order| && forall j :: 0 <= j < |order| ==> order[j] < |nodes|
    ensures forall r :: r in AllBreaks(nodes, order, probes, c) ==>
              exists j :: 0 <= j < |order| && IsElem(nodes[order[j]]) && AtContentEdge(nodes[order[j]], r.breakPoint, c)
  {
    if order != [] {
      var k := |order| - 1;
      var front := order[..k];
      AllBreaksAtContentEdges(nodes, front, probes[..k], c);
      BreakRecordsAtEdges(nodes[order[k]], probes[k], c);
      forall r | r in AllBreaks(nodes, order, probes, c)
        ensures exists j :: 0 <= j < |order| && IsElem(nodes[order[j]]) && AtContentEdge(nodes[order[j]], r.breakPoint, c)
      {
        if r in AllBreaks(nodes, front, probes[..k], c) {
          var j :| 0 <= j < |front| && IsElem(nodes[front[j]]) && AtContentEdge(nodes[front[j]], r.breakPoint, c);
          assert order[j] == front[j];
        } else {
          assert IsElem(nodes[order[k]]) && AtContentEdge(nodes[order[k]], r.breakPoint, c);
        }
      }
    }
  }

  // ---------------------------------------------------------------------
  // One page break (`makeBreakAt`)
  // ---------------------------------------------------------------------

  /**
   * `r` is the highest top among the non-element nodes of `T` cut by
   * `line`, or `line` itself when none is cut.
   */
  ghost predicate LowestCut(nodes: seq<NodeRec>, T: set<nat>, line: real, r: real, c: Config)
    requires forall x :: x in T ==> x < |nodes|
  {
    r <= line
    && (forall x :: x in T && Straddles(nodes[x], line, c) ==> r <= Top(nodes[x], c))
    && (r == line || exists x :: x in T && Straddles(nodes[x], line, c) && r == Top(nodes[x], c))
  }

  /** The cut line is determined by the nodes, and it moves up exactly when something is cut. */
  lemma LowestCutUnique(nodes: seq<NodeRec>, T: set<nat>, line: real, r1: real, r2: real, c: Config)
    requires forall x :: x in T ==> x < |nodes|
    requires LowestCut(nodes, T, line, r1, c) && LowestCut(nodes, T, line, r2, c)
    ensures r1 == r2
    ensures r1 < line <==> exists x :: x in T && Straddles(nodes[x], line, c)
  {
    if r1 != line {
      var x1 :| x1 in T && Straddles(nodes[x1], line, c) && r1 == Top(nodes[x1], c);
    }
    if r2 != line {
      var x2 :| x2 in T && Straddles(nodes[x2], line, c) && r2 == Top(nodes[x2], c);
    }
  }

  /** What one break does to a node. */
  datatype BreakAction = Keep | Grow | Move

  /**
   * The test that an element reaches down to `line`: the pdf package
   * multiplies position by offset and height by extra height, the render
   * package compares the bottom.
   */
  predicate Crosses(n: NodeRec, line: real, c: Config) {
    match c.crossing
    case ProductTest => ElemY(n) * n.plusOffset + ElemHeight(n) * n.plusHeight >= line
    case SumTest => Bottom(n, c) >= line
  }

  /**
   * A node whose bottom, less ten layout units, is at or above `line2`
   * stays; an element with children that starts above `line2` and passes
   * the crossing test grows; anything else moves down.
   */
  function Action(n: NodeRec, line2: real, c: Config): BreakAction {
    if Bottom(n, c) - 10.0 * c.scale <= line2 then Keep
    else if IsElem(n) && Top(n, c) < line2 && Crosses(n, line2, c) && n.children != [] then Grow
    else Move
  }

  /** The node after a break at `line2` that inserts `delta` output units. */
  function ApplyBreak(n: NodeRec, line2: real, delta: real, c: Config): NodeRec {
    match Action(n, line2, c)
    case Keep => n
    case Grow => n.(plusHeight := n.plusHeight + delta)
    case Move => n.(plusOffset := n.plusOffset + delta)
  }

  /** One node of the third walk of `makeBreakAt`: kept, stretched or moved as `Action` decides. */
  method BreakNode(arena: NodeArena, x: nat, line2: real, delta: real, c: Config)
    requires arena.Valid() && x < |arena.nodes|
    modifies arena
    ensures arena.Valid() && arena.ownerOf == old(arena.ownerOf) && arena.rank == old(arena.rank)
    ensures arena.nodes == old(arena.nodes)[x := ApplyBreak(old(arena.nodes[x]), line2, delta, c)]
  {
    match Action(arena.nodes[x], line2, c) {
      case Keep =>
      case Grow => arena.AddPlusHeight(x, delta);
      case Move => arena.AddPlusOffset(x, delta);
    }
  }

  /**
   * The third walk of `makeBreakAt` over the nodes `order`: each one is left
   * alone, stretched by `delta` (`addPlusHeight`) or moved down by `delta`
   * (`addPlusOffset`), as `Action` decides from its own fields.
   */
  method BreakNodes(arena: NodeArena, order: seq<nat>, line2: real, delta: real, c: Config)
    requires arena.Valid() && NoDups(order) && forall j :: 0 <= j < |order| ==> order[j] < |arena.nodes|
    modifies arena
    ensures arena.Valid() && arena.ownerOf == old(arena.ownerOf) && arena.rank == old(arena.rank)
    ensures |arena.nodes| == old(|arena.nodes|)
    ensures forall x :: 0 <= x < |arena.nodes| ==>
              arena.nodes[x] == if x in order then ApplyBreak(old(arena.nodes[x]), line2, delta, c)
                                else old(arena.nodes[x])
  {
    var i := 0;
    while i < |order|
      invariant i <= |order|
      invariant arena.Valid() && arena.ownerOf == old(arena.ownerOf) && arena.rank == old(arena.rank)
      invariant |arena.nodes| == old(|arena.nodes|)
      invariant forall x :: 0 <= x < |arena.nodes| ==>
                  arena.nodes[x] == if x in order[..i] then ApplyBreak(old(arena.nodes[x]), line2, delta, c)
                                    else old(arena.nodes[x])
      decreases |order| - i
    {
      var x := order[i];
      assert x !in order[..i];
      BreakNode(arena, x, line2, delta, c);
      assert order[..i + 1] == order[..i] + [x];
      i := i + 1;
    }
    assert order[..i] == order;
  }

  /**
   * The space a break inserts: the two paddings plus the distance from
   * `line3` down to the first page boundary at or below `line1 - 1`.
   */
  function Delta(line1: real, line3: real, c: Config): real
    requires ConfigOk(c)
  {
    c.topPadding + (c.pageHeight * Ceil((line1 - 1.0) / c.pageHeight) as real - line3) + c.bottomPadding
  }

  /** The page boundary a break at `line1` moves content to. */
  function Boundary(line1: real, c: Config): real
    requires ConfigOk(c)
  {
    c.pageHeight * Ceil((line1 - 1.0) / c.pageHeight) as real
  }

  /** A product of two positive reals is positive. */
  lemma PositiveProduct(x: real, y: real)
    requires x > 0.0 && y > 0.0
    ensures x * y > 0.0
  {
  }

  /** A multiple of `p` by a factor at least `a / p` is at least `a`. */
  lemma AtLeastQuotient(a: real, p: real, k: real)
    requires p > 0.0 && a / p <= k
    ensures a <= p * k
  {
    assert p * (a / p) == a;
    assert p * k - p * (a / p) == p * (k - a / p);
  }

  /** A multiple of `p` by a factor below `a / p + 1` is below `a + p`. */
  lemma BelowQuotientPlusOne(a: real, p: real, k: real)
    requires p > 0.0 && k < a / p + 1.0
    ensures p * k < a + p
  {
    var d := a / p + 1.0 - k;
    PositiveProduct(p, d);
    assert p * d == p * (a / p) + p - p * k;
    assert p * (a / p) == a;
  }

  /** The boundary lies less than one page below `line1 - 1`, and not above it. */
  lemma BoundaryBounds(line1: real, c: Config)
    requires ConfigOk(c)
    ensures line1 - 1.0 <= Boundary(line1, c)
    ensures Boundary(line1, c) < line1 - 1.0 + c.pageHeight
  {
    var k := Ceil((line1 - 1.0) / c.pageHeight) as real;
    AtLeastQuotient(line1 - 1.0, c.pageHeight, k);
    BelowQuotientPlusOne(line1 - 1.0, c.pageHeight, k);
  }

  /** A number at most `p * k` is at most `k` times `p` after dividing by `p`. */
  lemma QuotientAtMost(a: real, p: real, k: real)
    requires p > 0.0 && a <= k * p
    ensures a / p <= k
  {
  }

  /** A document no taller than `w` pages is reported as at most `w` pages. */
  lemma PagesCover(h: real, w: nat, c: Config)
    requires ConfigOk(c) && OutputHeight(h, c) <= PageBoundary(w, c)
    ensures PageCount(h, c) <= w
  {
    QuotientAtMost(OutputHeight(h, c), c.pageHeight, w as real);
  }

  /**
   * A break whose cut line is at or above the requested line inserts at
   * least the two paddings less one unit, hence a positive amount.
   */
  lemma DeltaPositive(line1: real, line3: real, c: Config)
    requires ConfigOk(c) && line3 <= line1
    ensures Delta(line1, line3, c) >= c.topPadding + c.bottomPadding - 1.0 + (line1 - line3)
    ensures Delta(line1, line3, c) > 0.0
  {
    BoundaryBounds(line1, c);
  }

  /**
   * A break changes a node only below `line2`: a kept node is unchanged;
   * any other node gets exactly `delta` added to exactly one of its two
   * accumulators; and no accumulator ever shrinks when `delta` is positive.
   */
  lemma ApplyBreakChanges(n: NodeRec, line2: real, delta: real, c: Config)
    requires delta > 0.0
    ensures var m := ApplyBreak(n, line2, delta, c);
            m.parent == n.parent && m.children == n.children && m.box == n.box
            && m.pendingParentId == n.pendingParentId && m.treeEq == n.treeEq
            && m.plusOffset >= n.plusOffset && m.plusHeight >= n.plusHeight
            && (m == n <==> Bottom(n, c) - 10.0 * c.scale <= line2)
            && (m.plusOffset == n.plusOffset + delta <==> m != n && m.plusHeight == n.plusHeight)
  {
  }

  /**
   * A node at or below the cut line `line3` that the break moves starts at
   * least both paddings below the page boundary the break aimed at.
   */
  lemma MovedStartsBelowBoundary(n: NodeRec, line1: real, line2: real, line3: real, c: Config)
    requires ConfigOk(c) && Top(n, c) >= line3 && Action(n, line2, c) == Move
    ensures Top(ApplyBreak(n, line2, Delta(line1, line3, c), c), c)
              >= Boundary(line1, c) + c.topPadding + c.bottomPadding
  {
    var delta := Delta(line1, line3, c);
    assert delta == c.topPadding + (Boundary(line1, c) - line3) + c.bottomPadding;
    assert Top(ApplyBreak(n, line2, delta, c), c) == Top(n, c) + delta;
  }

  /**
   * A non-element node cut by `line2` that reaches more than ten layout
   * units below it is moved, never kept in place or stretched.
   */
  lemma CutTextMoves(n: NodeRec, line2: real, c: Config)
    requires Straddles(n, line2, c) && Bottom(n, c) - 10.0 * c.scale > line2
    ensures Action(n, line2, c) == Move
  {
  }

  /**
   * An illustration on one concrete text: a line shorter than ten layout
   * units stays where it is even when `line2` cuts through it.
   */
  lemma ShortCutTextStays()
    ensures var n := NodeRec(0, [], Box(Text, 1, 0.0, 95.0, 40.0, 8.0, BreakUnset, BreakUnset, InsideUnset),
                             0.0, 0.0, -1, -1);
            var c := Config(1.0, 1000.0, 50.0, 50.0, SumTest, true);
            Straddles(n, 100.0, c) && Action(n, 100.0, c) == Keep
  {
  }

  /**
   * The two crossing tests disagree on every element with children that
   * starts above `line2`, ends more than the tolerance below it, and whose
   * position times its offset plus its height times its stretch stays
   * below `line2` (an element no break has touched yet, for one): the pdf
   * package's multiplying test moves it, the render package's adding test
   * stretches it.
   */
  lemma CrossingTestsDisagree(n: NodeRec, line2: real, c: Config)
    requires c.crossing == ProductTest && c.scale > 0.0
    requires IsElem(n) && n.children != [] && Top(n, c) < line2 && Bottom(n, c) - 10.0 * c.scale > line2
    requires ElemY(n) * n.plusOffset + ElemHeight(n) * n.plusHeight < line2
    ensures Action(n, line2, c) == Move && Action(n, line2, c.(crossing := SumTest)) == Grow
  {
  }
}
