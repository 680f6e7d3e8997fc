/** Integer axis-aligned rectangles with the semantics of the rectangle type
    the game is built on: an anchor at the top-left corner, a width and a
    height, y growing downwards, and a collision test in which rectangles that
    merely touch along an edge do not collide. */
module Geometry {

  /** A rectangle anchored at (x, y), w pixels wide and h pixels high. */
  datatype Rect = Rect(x: int, y: int, w: nat, h: nat) {
    const left: int := x
    const right: int := x + w
    const top: int := y
    const bottom: int := y + h

    /** True if the pixel (px, py) lies inside the rectangle. */
    predicate Contains(px: int, py: int) {
      left <= px < right && top <= py < bottom
    }

    /** Assigning `top`: the rectangle moves vertically, its size is kept. */
    function WithTop(v: int): (r: Rect)
      ensures r.top == v && r.left == left
      ensures r.w == w && r.h == h
    {
      this.(y := v)
    }

    /** Assigning `bottom`: the rectangle moves so that its lower edge is at v. */
    function WithBottom(v: int): (r: Rect)
      ensures r.bottom == v && r.left == left
      ensures r.w == w && r.h == h
    {
      this.(y := v - h)
    }

    /** Assigning `left`: the rectangle moves so that its left edge is at v. */
    function WithLeft(v: int): (r: Rect)
      ensures r.left == v && r.top == top
      ensures r.w == w && r.h == h
    {
      this.(x := v)
    }

    /** Assigning `right`: the rectangle moves so that its right edge is at v. */
    function WithRight(v: int): (r: Rect)
      ensures r.right == v && r.top == top
      ensures r.w == w && r.h == h
    {
      this.(x := v - w)
    }

    /** Assigning `center`: the anchor becomes the centre minus half the size,
        the half rounded down, so an odd-sized rectangle extends one pixel
        further right of (below) the centre than left of (above) it. */
    function WithCenter(cx: int, cy: int): (r: Rect)
      ensures r.w == w && r.h == h
      ensures 0 <= (r.right - cx) - (cx - r.left) <= 1
      ensures 0 <= (r.bottom - cy) - (cy - r.top) <= 1
    {
      this.(x := cx - w / 2, y := cy - h / 2)
    }

    /** Adding (dx, dy) to the anchor. */
    function Translate(dx: int, dy: int): (r: Rect)
      ensures r.w == w && r.h == h
      ensures r.left - left == dx && r.top - top == dy
    {
      this.(x := x + dx, y := y + dy)
    }
  }

  /** The collision test: an empty rectangle collides with nothing, and two
      non-empty ones collide when their open interiors intersect, so shared
      edges do not count. */
  predicate Overlaps(a: Rect, b: Rect) {
    && a.w > 0 && a.h > 0 && b.w > 0 && b.h > 0
    && a.left < b.right && b.left < a.right
    && a.top < b.bottom && b.top < a.bottom
  }

  /** The collision test agrees with the pixel view: two rectangles collide
      exactly when some pixel lies in both of them. */
  lemma OverlapsIffSharedPixel(a: Rect, b: Rect)
    ensures Overlaps(a, b) <==> exists px, py :: a.Contains(px, py) && b.Contains(px, py)
  {
    if Overlaps(a, b) {
      var px := if a.left < b.left then b.left else a.left;
      var py := if a.top < b.top then b.top else a.top;
      assert a.Contains(px, py) && b.Contains(px, py);
    }
  }

  /** Rectangles whose edges only touch, side by side or one above the other,
      do not collide. */
  lemma TouchingDoesNotOverlap(a: Rect, b: Rect)
    requires a.right == b.left || b.right == a.left || a.bottom == b.top || b.bottom == a.top
    ensures !Overlaps(a, b)
  {
  }
}
