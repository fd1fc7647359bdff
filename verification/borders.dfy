// `BorderRadius` of the render package: the horizontal and vertical radii
// of the four rounded corners of an element's border, in output units.
module Borders {
  import opened Common

  /** A corner's two radii, horizontal then vertical. */
  datatype Lengths = Lengths(x: real, y: real)

  /** A radius cut down to `half` when it is larger. */
  function Clamp(v: real, half: real): (r: real)
    ensures r <= half && r <= v && (r == v || r == half)
  {
    if v > half then half else v
  }

  /** Half a side of the border bounds, with Java's truncating int division. */
  function Half(side: int): (r: real)
    ensures side >= 0 ==> 0.0 <= r && 2.0 * r <= side as real && side as real < 2.0 * r + 2.0
  {
    JavaDiv(side, 2) as real
  }

  /** Both radii cut to half the box side. */
  function Cut(d: Lengths, halfW: real, halfH: real): (r: Lengths)
    ensures r.x <= halfW && r.x <= d.x && r.y <= halfH && r.y <= d.y
  {
    Lengths(Clamp(d.x, halfW), Clamp(d.y, halfH))
  }

  /** A circular corner takes the smaller radius for both; any other corner keeps its radii. */
  function Even(l: Lengths, circular: bool): (r: Lengths)
    ensures circular ==> r.x == r.y && r.x <= l.x && r.x <= l.y && (r.x == l.x || r.x == l.y)
    ensures !circular ==> r == l
  {
    if !circular then l else if l.x < l.y then Lengths(l.x, l.x) else Lengths(l.y, l.y)
  }

  /** Both radii multiplied by the output scale. */
  function Scale(l: Lengths, k: real): Lengths {
    Lengths(l.x * k, l.y * k)
  }

  /**
   * A corner as the top-right, top-left and bottom-right blocks of
   * `setCornerRadius` leave it: each radius is cut to half the box side;
   * a circular corner (both radii equal as decoded) takes the smaller of
   * the two cut radii for both; then both are scaled by `k`.
   */
  function Corner(d: Lengths, halfW: real, halfH: real, k: real): (r: Lengths)
    ensures d.x <= halfW && d.y <= halfH ==> r == Lengths(d.x * k, d.y * k)
    ensures d.x == d.y ==> r.x == r.y
    ensures d.x != d.y && d.x > halfW ==> r.x == halfW * k
    ensures d.x != d.y && d.y > halfH ==> r.y == halfH * k
  {
    Scale(Even(Cut(d, halfW, halfH), d.x == d.y), k)
  }

  /**
   * The bottom-left block of `setCornerRadius`, which scales by `k` before
   * it equalises a circular corner.
   */
  function BotLeftCorner(d: Lengths, halfW: real, halfH: real, k: real): (r: Lengths)
    ensures d.x == d.y ==> r.x == r.y
    ensures d.x != d.y ==> r == Corner(d, halfW, halfH, k)
  {
    Even(Scale(Cut(d, halfW, halfH), k), d.x == d.y)
  }

  /** Multiplying by a non-negative factor keeps order. */
  lemma ScaleMonotone(a: real, b: real, k: real)
    requires a <= b && k >= 0.0
    ensures a * k <= b * k
  {
    assert b * k - a * k == (b - a) * k;
  }

  /**
   * With a non-negative scale, a corner never reaches past half the box
   * side, and never grows beyond the radius it was asked for.
   */
  lemma CornerWithinBox(d: Lengths, halfW: real, halfH: real, k: real)
    requires k >= 0.0
    ensures var r := Corner(d, halfW, halfH, k);
      r.x <= halfW * k && r.y <= halfH * k && r.x <= d.x * k && r.y <= d.y * k
  {
    var e := Even(Cut(d, halfW, halfH), d.x == d.y);
    assert e.x <= halfW && e.x <= d.x && e.y <= halfH && e.y <= d.y;
    ScaleMonotone(e.x, halfW, k);
    ScaleMonotone(e.y, halfH, k);
    ScaleMonotone(e.x, d.x, k);
    ScaleMonotone(e.y, d.y, k);
  }

  /**
   * Scaling before or after equalising gives the same corner whenever the
   * scale is not negative, so the bottom-left corner is rounded like the
   * other three.
   */
  lemma BotLeftAgrees(d: Lengths, halfW: real, halfH: real, k: real)
    requires k >= 0.0
    ensures BotLeftCorner(d, halfW, halfH, k) == Corner(d, halfW, halfH, k)
  {
    var l := Cut(d, halfW, halfH);
    if d.x == d.y {
      if l.x < l.y {
        ScaleMonotone(l.x, l.y, k);
      } else {
        ScaleMonotone(l.y, l.x, k);
      }
    }
  }

  /**
   * One corner worked out step by step in the order of `setCornerRadius`:
   * note whether the corner is circular, cut each radius, then equalise and
   * scale (or, for the bottom-left corner, scale and then equalise).
   */
  method RoundCorner(d: Lengths, halfW: real, halfH: real, k: real, scaleFirst: bool)
    returns (x: real, y: real)
    ensures scaleFirst ==> Lengths(x, y) == BotLeftCorner(d, halfW, halfH, k)
    ensures !scaleFirst ==> Lengths(x, y) == Corner(d, halfW, halfH, k)
  {
    var isCycle := false;
    if d.x == d.y {
      isCycle := true;
    }
    x, y := CutRadii(d.x, d.y, halfW, halfH);
    if scaleFirst {
      x, y := ScaleRadii(x, y, k);
      x, y := Equalise(x, y, isCycle);
    } else {
      x, y := Equalise(x, y, isCycle);
      x, y := ScaleRadii(x, y, k);
    }
  }

  /** The cutting step of `setCornerRadius` on two local radii. */
  method CutRadii(x0: real, y0: real, halfW: real, halfH: real) returns (x: real, y: real)
    ensures Lengths(x, y) == Cut(Lengths(x0, y0), halfW, halfH)
  {
    x, y := x0, y0;
    if x > halfW {
      x := halfW;
    }
    if y > halfH {
      y := halfH;
    }
  }

  /** The scaling step of `setCornerRadius` on two local radii. */
  method ScaleRadii(x0: real, y0: real, k: real) returns (x: real, y: real)
    ensures Lengths(x, y) == Scale(Lengths(x0, y0), k)
  {
    x := x0 * k;
    y := y0 * k;
  }

  /** The equalising step of `setCornerRadius` on two local radii. */
  method Equalise(x0: real, y0: real, isCycle: bool) returns (x: real, y: real)
    ensures Lengths(x, y) == Even(Lengths(x0, y0), isCycle)
  {
    x, y := x0, y0;
    if isCycle {
      if x < y {
        y := x;
      } else {
        x := y;
      }
    }
  }

  /** The radii of the four corners of one element's border. */
  class BorderRadius {
    var topRightX: real
    var topRightY: real
    var topLeftX: real
    var topLeftY: real
    var botRightX: real
    var botRightY: real
    var botLeftX: real
    var botLeftY: real

    function TopRight(): Lengths reads this { Lengths(topRightX, topRightY) }
    function TopLeft(): Lengths reads this { Lengths(topLeftX, topLeftY) }
    function BotRight(): Lengths reads this { Lengths(botRightX, botRightY) }
    function BotLeft(): Lengths reads this { Lengths(botLeftX, botLeftY) }

    /** Every corner starts square. */
    constructor()
      ensures TopRight() == TopLeft() == BotRight() == BotLeft() == Lengths(0.0, 0.0)
    {
      topRightX, topRightY := 0.0, 0.0;
      topLeftX, topLeftY := 0.0, 0.0;
      botRightX, botRightY := 0.0, 0.0;
      botLeftX, botLeftY := 0.0, 0.0;
    }

    /**
     * Sets each corner whose radii are given (`None` is a corner without a
     * radius value, which keeps what it had), for border bounds of
     * `width` by `height` and output scale `resCoef`.
     */
    method SetCornerRadius(topLeft: Option<Lengths>, topRight: Option<Lengths>,
                           botLeft: Option<Lengths>, botRight: Option<Lengths>,
                           width: int, height: int, resCoef: real)
      modifies this
      ensures topRight.Some? ==> TopRight() == Corner(topRight.value, Half(width), Half(height), resCoef)
      ensures topLeft.Some? ==> TopLeft() == Corner(topLeft.value, Half(width), Half(height), resCoef)
      ensures botRight.Some? ==> BotRight() == Corner(botRight.value, Half(width), Half(height), resCoef)
      ensures botLeft.Some? ==> BotLeft() == BotLeftCorner(botLeft.value, Half(width), Half(height), resCoef)
      ensures topRight.None? ==> TopRight() == old(TopRight())
      ensures topLeft.None? ==> TopLeft() == old(TopLeft())
      ensures botRight.None? ==> BotRight() == old(BotRight())
      ensures botLeft.None? ==> BotLeft() == old(BotLeft())
    {
      var halfW, halfH := Half(width), Half(height);
      if topRight.Some? {
        topRightX, topRightY := RoundCorner(topRight.value, halfW, halfH, resCoef, false);
      }
      if topLeft.Some? {
        topLeftX, topLeftY := RoundCorner(topLeft.value, halfW, halfH, resCoef, false);
      }
      if botRight.Some? {
        botRightX, botRightY := RoundCorner(botRight.value, halfW, halfH, resCoef, false);
      }
      if botLeft.Some? {
        botLeftX, botLeftY := RoundCorner(botLeft.value, halfW, halfH, resCoef, true);
      }
    }
  }
}
