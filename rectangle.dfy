/**
 * `Rectangle`: four signed 16-bit edges with wrapping edge arithmetic.
 *
 * Casts and wrapping operations of the source are written out on bounded integers:
 * a cast to a narrower type keeps the low bits, read as two's complement where signed.
 */
module Rectangles {
  import opened MachineInts

  /** `x as i16`: the integer congruent to `x` modulo 2^16 in the `i16` range. */
  function WrapI16(x: int): (r: i16)
    ensures -0x8000 <= x < 0x8000 ==> r == x
  {
    (x + 0x8000) % U16_LIMIT - 0x8000
  }

  /** `x as i32`: the integer congruent to `x` modulo 2^32 in the `i32` range. */
  function WrapI32(x: int): (r: i32)
    ensures -0x8000_0000 <= x < 0x8000_0000 ==> r == x
  {
    (x + 0x8000_0000) % U32_LIMIT - 0x8000_0000
  }

  /** `x as u16`: the low 16 bits of `x`. */
  function AsU16(x: int): (r: u16)
    ensures 0 <= x < U16_LIMIT ==> r == x
  {
    x % U16_LIMIT
  }

  /** Wrapping to `i16` keeps the value modulo 2^16. */
  lemma WrapI16Congruent(x: int)
    ensures (WrapI16(x) - x) % U16_LIMIT == 0
  {
    var k := (x + 0x8000) / U16_LIMIT;
    assert WrapI16(x) - x == -U16_LIMIT * k;
  }

  datatype Rectangle = Rectangle(top: i16, left: i16, bottom: i16, right: i16)
  {
    /** `Rectangle::width`: the horizontal extent, modulo 2^16. */
    function Width(): (r: u16)
      ensures left <= right ==> r == right - left
    {
      Extent(left, right)
    }

    /** `Rectangle::height`: the vertical extent, modulo 2^16. */
    function Height(): (r: u16)
      ensures top <= bottom ==> r == bottom - top
    {
      Extent(top, bottom)
    }

    /**
     * `Rectangle::centered_inside`: moves the rectangle by half the difference of the
     * two widths and of the two heights, each edge with wrapping addition.
     */
    function CenteredInside(what: Rectangle): (r: Rectangle)
      ensures (r.left - left) % U16_LIMIT == (r.right - right) % U16_LIMIT == Offset(what.Width(), Width()) % U16_LIMIT
      ensures (r.top - top) % U16_LIMIT == (r.bottom - bottom) % U16_LIMIT == Offset(what.Height(), Height()) % U16_LIMIT
    {
      var leftOffset := Offset(what.Width(), Width());
      var topOffset := Offset(what.Height(), Height());
      ShiftMovesBy(top, topOffset);
      ShiftMovesBy(left, leftOffset);
      ShiftMovesBy(bottom, topOffset);
      ShiftMovesBy(right, leftOffset);
      Rectangle(Shift(top, topOffset), Shift(left, leftOffset), Shift(bottom, topOffset), Shift(right, leftOffset))
    }
  }

  /** `(hi as i32).wrapping_sub(lo as i32) as u16`. */
  function Extent(lo: i16, hi: i16): u16
  {
    AsU16(WrapI32(hi - lo))
  }

  /** The `i32` offset that centers an extent `inner` inside an extent `outer`. */
  function Offset(outer: u16, inner: u16): int
  {
    outer / 2 - inner / 2
  }

  /** `edge.wrapping_add(offset as i16)`. */
  function Shift(edge: i16, offset: int): i16
  {
    WrapI16(edge + WrapI16(offset))
  }

  /** A wrapping shift moves the edge by the offset, modulo 2^16. */
  lemma ShiftMovesBy(edge: i16, offset: int)
    ensures (Shift(edge, offset) - edge) % U16_LIMIT == offset % U16_LIMIT
  {
    var o := WrapI16(offset);
    WrapI16Congruent(offset);
    WrapI16Congruent(edge + o);
    var k := (o - offset) / U16_LIMIT;
    var j := (Shift(edge, offset) - (edge + o)) / U16_LIMIT;
    assert Shift(edge, offset) - edge == offset + U16_LIMIT * (k + j);
  }

  /** `Rectangle::from_width_and_height`: the rectangle with its top left corner at the origin. */
  function FromWidthAndHeight(width: i16, height: i16): (r: Rectangle)
    ensures r.top == 0 && r.left == 0
    ensures r.Width() == AsU16(width) && r.Height() == AsU16(height)
  {
    Rectangle(0, 0, height, width)
  }

  // ---------------------------------------------------------------------------------
  // Properties.

  /** The extent of two edges depends only on their difference modulo 2^16. */
  lemma ExtentModulo(a: int, b: int, c: int, d: int)
    requires (a - c) % U16_LIMIT == 0 && (b - d) % U16_LIMIT == 0
    ensures AsU16(a - b) == AsU16(c - d)
  {
    var k := (a - c) / U16_LIMIT;
    var j := (b - d) / U16_LIMIT;
    assert a - b == (c - d) + U16_LIMIT * (k - j);
  }

  /** A width or height is the edge difference modulo 2^16: the `i32` subtraction never wraps. */
  lemma ExtentOfEdges(r: Rectangle)
    ensures r.Width() == (r.right - r.left) % U16_LIMIT
    ensures r.Height() == (r.bottom - r.top) % U16_LIMIT
  {
  }

  /** The rectangle of a given width and height has that width and height, as `u16`. */
  lemma FromWidthAndHeightSize(width: i16, height: i16)
    ensures FromWidthAndHeight(width, height).Width() == AsU16(width)
    ensures FromWidthAndHeight(width, height).Height() == AsU16(height)
    ensures width >= 0 ==> FromWidthAndHeight(width, height).Width() == width
    ensures height >= 0 ==> FromWidthAndHeight(width, height).Height() == height
  {
  }

  /** Moving both edges of an axis by the same offset keeps their extent. */
  lemma ShiftKeepsExtent(lo: i16, hi: i16, offset: int)
    ensures Extent(Shift(lo, offset), Shift(hi, offset)) == Extent(lo, hi)
  {
    var o := WrapI16(offset);
    WrapI16Congruent(hi + o);
    WrapI16Congruent(lo + o);
    ExtentModulo(Shift(hi, offset), Shift(lo, offset), hi + o, lo + o);
  }

  /** Centering moves a rectangle without resizing it. */
  lemma CenteredInsideKeepsSize(r: Rectangle, what: Rectangle)
    ensures r.CenteredInside(what).Width() == r.Width()
    ensures r.CenteredInside(what).Height() == r.Height()
  {
    ShiftKeepsExtent(r.left, r.right, Offset(what.Width(), r.Width()));
    ShiftKeepsExtent(r.top, r.bottom, Offset(what.Height(), r.Height()));
  }

  /** Centering inside itself moves by nothing. */
  lemma CenteredInsideSelf(r: Rectangle)
    ensures r.CenteredInside(r) == r
  {
  }

  /**
   * On one axis: an extent `[lo, hi]` that fits inside `[lo, whi]` and is moved by half the
   * difference of the extents lands inside it, with margins differing by at most one.
   */
  lemma CenterAxis(lo: i16, hi: i16, whi: i16, outer: u16, inner: u16)
    requires lo <= hi <= whi && outer == whi - lo && inner == hi - lo
    ensures lo <= Shift(lo, Offset(outer, inner)) <= Shift(hi, Offset(outer, inner)) <= whi
    ensures -1 <= (whi - Shift(hi, Offset(outer, inner))) - (Shift(lo, Offset(outer, inner)) - lo) <= 1
  {
    var o := Offset(outer, inner);
    assert 0 <= o < 0x8000;
    assert Shift(lo, o) == lo + o;
    assert Shift(hi, o) == hi + o;
  }

  /**
   * Centering reads only the size of `what`, never its position: two targets of the same
   * width and height give the same result.
   */
  lemma CenteredInsideIgnoresPosition(r: Rectangle, what: Rectangle, other: Rectangle)
    requires what.Width() == other.Width() && what.Height() == other.Height()
    ensures r.CenteredInside(what) == r.CenteredInside(other)
  {
  }

  /**
   * So the result is placed relative to the rectangle's own top left corner, not to the
   * target's: a 4 by 4 square at the origin, "centered" inside the 10 by 10 square at
   * (10, 10), lands at (3, 3), outside it.
   */
  lemma CenteredInsideAwayFromOrigin()
    ensures Rectangle(0, 0, 4, 4).CenteredInside(Rectangle(10, 10, 20, 20)) == Rectangle(3, 3, 7, 7)
    ensures Rectangle(0, 0, 4, 4).CenteredInside(Rectangle(10, 10, 20, 20)).right < 10
  {
  }

  /** The extent of edges in order is their difference. */
  lemma ExtentOfOrderedEdges(r: Rectangle)
    requires r.left <= r.right && r.top <= r.bottom
    ensures r.Width() == r.right - r.left && r.Height() == r.bottom - r.top
  {
  }

  /**
   * A rectangle that fits inside `what` and shares its top left corner is moved inside
   * `what`, with the margins on opposite sides differing by at most one.
   */
  lemma CenteredInsideMargins(r: Rectangle, what: Rectangle)
    requires r.top == what.top && r.left == what.left
    requires r.left <= r.right <= what.right && r.top <= r.bottom <= what.bottom
    ensures what.left <= r.CenteredInside(what).left <= r.CenteredInside(what).right <= what.right
    ensures what.top <= r.CenteredInside(what).top <= r.CenteredInside(what).bottom <= what.bottom
    ensures -1 <= (what.right - r.CenteredInside(what).right) - (r.CenteredInside(what).left - what.left) <= 1
    ensures -1 <= (what.bottom - r.CenteredInside(what).bottom) - (r.CenteredInside(what).top - what.top) <= 1
  {
    ExtentOfOrderedEdges(r);
    ExtentOfOrderedEdges(what);
    CenterAxis(r.left, r.right, what.right, what.Width(), r.Width());
    CenterAxis(r.top, r.bottom, what.bottom, what.Height(), r.Height());
  }
}
