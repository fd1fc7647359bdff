// The two decisions the render package's output pass makes about a text
// node before it writes anything: whether the text overhangs its
// grandparent too far to the right to be drawn, and on which pages it
// appears at all.  The drawing itself is not part of this model.
module Emission {
  import opened Common
  import opened Nodes
  import opened Geometry

  /** What the output pass does with a text node of the LIST. */
  datatype TextVerdict = Drawn | Suppressed | Throws

  /**
   * The TREE node the overhang test measures against: the parent of the
   * parent of the text's TREE counterpart.  `None` when any of the three
   * references is null, where the source throws.
   */
  function GrandparentOf(nodes: seq<NodeRec>, x: nat): (r: Option<nat>)
    requires AllLinked(nodes) && x < |nodes|
    ensures r.None? <==> nodes[x].treeEq == -1 || nodes[nodes[x].treeEq].parent == -1
                         || nodes[nodes[nodes[x].treeEq].parent].parent == -1
    ensures r.Some? ==> r.value < nodes[x].treeEq
  {
    var t := nodes[x].treeEq;
    if t == -1 then None
    else
      var p := nodes[t].parent;
      if p == -1 then None
      else
        var g := nodes[p].parent;
        if g == -1 then None else Some(g)
  }

  /** How far the right end of `n` sticks out past the right end of `p`, in layout units. */
  function Overhang(n: NodeRec, p: NodeRec): real {
    (ElemX(n) + ElemWidth(n)) - (ElemX(p) + ElemWidth(p))
  }

  /**
   * The test of the output pass for a text node `x` of the LIST: compare
   * the right ends of the grandparent and of the text, both scaled to
   * output units, and draw only when the text overhangs by less than 0.6 of
   * its scaled width and `drawable` holds (`drawable` stands for the text
   * being non-empty, visible, declared visible and displayed).
   */
  function TextVerdictOf(nodes: seq<NodeRec>, x: nat, drawable: bool, c: Config): (v: TextVerdict)
    requires AllLinked(nodes) && x < |nodes| && nodes[x].box.kind == Text
    ensures v == Throws <==> GrandparentOf(nodes, x).None?
    ensures v == Drawn ==> drawable
  {
    match GrandparentOf(nodes, x)
    case None => Throws
    case Some(g) =>
      var parentRight := (ElemX(nodes[g]) + ElemWidth(nodes[g])) * c.scale;
      var recentRight := (ElemX(nodes[x]) + ElemWidth(nodes[x])) * c.scale;
      var width := ElemWidth(nodes[x]) * c.scale;
      if parentRight - recentRight > -width * 0.6 && drawable then Drawn else Suppressed
  }

  /** Comparing two quantities scaled by the same positive factor is comparing the quantities. */
  lemma ScaledGreater(a: real, b: real, s: real)
    requires s > 0.0
    ensures a * s > b * s <==> a > b
  {
    assert a * s - b * s == (a - b) * s;
    if a > b {
      PositiveProduct(a - b, s);
    } else if a < b {
      PositiveProduct(b - a, s);
      assert b * s - a * s == (b - a) * s;
    }
  }

  /**
   * With a positive scale the verdict does not depend on it: a text with a
   * grandparent is drawn exactly when it is drawable and overhangs the
   * grandparent's right end by less than 0.6 of its own width.
   */
  lemma DrawnIffSmallOverhang(nodes: seq<NodeRec>, x: nat, drawable: bool, c: Config)
    requires AllLinked(nodes) && x < |nodes| && nodes[x].box.kind == Text
    requires c.scale > 0.0 && GrandparentOf(nodes, x).Some?
    ensures var g := GrandparentOf(nodes, x).value;
      TextVerdictOf(nodes, x, drawable, c) == Drawn
      <==> drawable && Overhang(nodes[x], nodes[g]) < 0.6 * ElemWidth(nodes[x])
  {
    var g := GrandparentOf(nodes, x).value;
    var pr, rr, w := ElemX(nodes[g]) + ElemWidth(nodes[g]), ElemX(nodes[x]) + ElemWidth(nodes[x]), ElemWidth(nodes[x]);
    assert pr * c.scale - rr * c.scale == (pr - rr) * c.scale;
    assert -(w * c.scale) * 0.6 == (-0.6 * w) * c.scale;
    ScaledGreater(pr - rr, -0.6 * w, c.scale);
  }

  /** A drawable text of positive width that ends inside its grandparent is drawn. */
  lemma InsideIsDrawn(nodes: seq<NodeRec>, x: nat, c: Config)
    requires AllLinked(nodes) && x < |nodes| && nodes[x].box.kind == Text
    requires c.scale > 0.0 && GrandparentOf(nodes, x).Some?
    requires ElemWidth(nodes[x]) > 0.0
    requires Overhang(nodes[x], nodes[GrandparentOf(nodes, x).value]) <= 0.0
    ensures TextVerdictOf(nodes, x, true, c) == Drawn
  {
    DrawnIffSmallOverhang(nodes, x, true, c);
  }

  /** A text that starts at or past its grandparent's right end is never drawn. */
  lemma BeyondIsSuppressed(nodes: seq<NodeRec>, x: nat, drawable: bool, c: Config)
    requires AllLinked(nodes) && x < |nodes| && nodes[x].box.kind == Text
    requires c.scale > 0.0 && GrandparentOf(nodes, x).Some?
    requires ElemWidth(nodes[x]) >= 0.0
    requires ElemX(nodes[x]) >= ElemX(nodes[GrandparentOf(nodes, x).value]) + ElemWidth(nodes[GrandparentOf(nodes, x).value])
    ensures TextVerdictOf(nodes, x, drawable, c) == Suppressed
  {
    DrawnIffSmallOverhang(nodes, x, drawable, c);
  }

  /**
   * `insertText`'s test on page `i`: the text (content top `top`, height
   * `height`, moved down by `plusOffset`) starts below the end of page `i`
   * or ends above its start.
   */
  predicate OutOfPage(top: real, height: real, plusOffset: real, i: nat, c: Config) {
    top * c.scale + plusOffset > PageBoundary(i + 1, c)
    || (top + height) * c.scale + plusOffset < PageBoundary(i, c)
  }

  /** Page boundaries grow with the page number. */
  lemma BoundaryMonotone(i: nat, k: nat, c: Config)
    requires ConfigOk(c) && i <= k
    ensures PageBoundary(i, c) <= PageBoundary(k, c)
  {
    assert PageBoundary(k, c) - PageBoundary(i, c) == (k - i) as real * c.pageHeight;
    if i < k {
      PositiveProduct((k - i) as real, c.pageHeight);
    }
  }

  /**
   * A text of non-negative height that starts at or below the top of the
   * document is in the window of the page its top falls on.
   */
  lemma OnSomePage(top: real, height: real, plusOffset: real, c: Config)
    requires ConfigOk(c) && height >= 0.0 && top * c.scale + plusOffset >= 0.0
    ensures var i := ((top * c.scale + plusOffset) / c.pageHeight).Floor;
      i >= 0 && !OutOfPage(top, height, plusOffset, i as nat, c)
  {
    var t := top * c.scale + plusOffset;
    var q := t / c.pageHeight;
    var i := q.Floor;
    assert i as real <= q < i as real + 1.0;
    assert c.pageHeight * q == t;
    var n: nat := i;
    // the page's top is not below the text's top, and its bottom is not above it
    assert PageBoundary(n, c) <= t by {
      assert t - PageBoundary(n, c) == (q - n as real) * c.pageHeight;
      if q - n as real > 0.0 { PositiveProduct(q - n as real, c.pageHeight); }
    }
    assert t <= PageBoundary(n + 1, c) by {
      var e := n as real + 1.0 - q;
      assert e > 0.0;
      PositiveProduct(e, c.pageHeight);
      assert PageBoundary(n + 1, c) == (n + 1) as real * c.pageHeight;
      assert (n + 1) as real == n as real + 1.0;
      assert PageBoundary(n + 1, c) - t == e * c.pageHeight;
    }
    assert (top + height) * c.scale + plusOffset == t + height * c.scale;
    assert height * c.scale >= 0.0 by {
      if height > 0.0 { PositiveProduct(height, c.scale); }
    }
  }

  /** The pages a text appears on have no gaps: between two such pages every page shows it. */
  lemma PagesConsecutive(top: real, height: real, plusOffset: real, i: nat, k: nat, j: nat, c: Config)
    requires ConfigOk(c) && i <= k <= j
    requires !OutOfPage(top, height, plusOffset, i, c) && !OutOfPage(top, height, plusOffset, j, c)
    ensures !OutOfPage(top, height, plusOffset, k, c)
  {
    BoundaryMonotone(i + 1, k + 1, c);
    BoundaryMonotone(k, j, c);
  }

  /** Strictly increasing page numbers. */
  predicate Increasing(pages: seq<nat>) {
    forall a, b :: 0 <= a < b < |pages| ==> pages[a] < pages[b]
  }

  /**
   * The page loop of the output pass, for one text: for each page `i`
   * below `pageCount`, keep the page when `insertText` does not reject the
   * text as out of page.
   */
  method PagesShowing(top: real, height: real, plusOffset: real, pageCount: int, c: Config)
    returns (pages: seq<nat>)
    ensures forall p: nat :: p in pages <==> p < pageCount && !OutOfPage(top, height, plusOffset, p, c)
    ensures Increasing(pages)
  {
    pages := [];
    var i := 0;
    while i < pageCount
      invariant 0 <= i && (i <= pageCount || i == 0)
      invariant forall p: nat :: p in pages <==> p < i && !OutOfPage(top, height, plusOffset, p, c)
      invariant Increasing(pages)
      invariant forall a :: 0 <= a < |pages| ==> pages[a] < i
      decreases pageCount - i
    {
      if !OutOfPage(top, height, plusOffset, i, c) {
        pages := pages + [i];
      }
      i := i + 1;
    }
  }

  /** So the pages a text is drawn on form one run of consecutive page numbers. */
  lemma {:induction false} PagesRun(top: real, height: real, plusOffset: real, pageCount: int, c: Config, pages: seq<nat>)
    requires ConfigOk(c)
    requires forall p: nat :: p in pages <==> p < pageCount && !OutOfPage(top, height, plusOffset, p, c)
    requires Increasing(pages)
    ensures forall a :: 0 <= a < |pages| - 1 ==> pages[a + 1] == pages[a] + 1
  {
    forall a | 0 <= a < |pages| - 1
      ensures pages[a + 1] == pages[a] + 1
    {
      var k := pages[a] + 1;
      assert pages[a] in pages && pages[a + 1] in pages;
      PagesConsecutive(top, height, plusOffset, pages[a], k, pages[a + 1], c);
      assert k in pages;
      var m :| 0 <= m < |pages| && pages[m] == k;
    }
  }
}
