/**
 The axis-aligned rectangle overlap test of game1.js. Rectangles are the
 bounding boxes the browser reports, with `top`/`bottom` on a y axis that
 grows downwards and `left`/`right` on an x axis that grows rightwards.
 */
module Collision {

  datatype Rect = Rect(top: int, bottom: int, left: int, right: int)

  /** `isColliding`: the rectangles collide unless one lies strictly above,
      below, to the left of or to the right of the other. */
  predicate IsColliding(r1: Rect, r2: Rect) {
    !(r1.top > r2.bottom || r1.bottom < r2.top || r1.right < r2.left || r1.left > r2.right)
  }

  /** A box whose edges are in order, as every bounding box is. */
  predicate WellFormed(r: Rect) {
    r.top <= r.bottom && r.left <= r.right
  }

  /** The closed box `r` holds the point (x, y); its edges belong to it. */
  predicate Contains(r: Rect, x: int, y: int) {
    r.left <= x <= r.right && r.top <= y <= r.bottom
  }

  /** Two well-formed boxes collide exactly when some point lies in both, so
      boxes that only touch along an edge or at a corner collide. */
  lemma CollidingIffCommonPoint(a: Rect, b: Rect)
    requires WellFormed(a) && WellFormed(b)
    ensures IsColliding(a, b) <==> exists x, y :: Contains(a, x, y) && Contains(b, x, y)
  {
    if IsColliding(a, b) {
      var x := if a.left < b.left then b.left else a.left;
      var y := if a.top < b.top then b.top else a.top;
      assert Contains(a, x, y) && Contains(b, x, y);
    }
  }

  /** The test does not depend on which box comes first. */
  lemma CollidingIsSymmetric(a: Rect, b: Rect)
    ensures IsColliding(a, b) == IsColliding(b, a)
  {
  }

  /** Boxes stacked one above the other that share only their border collide;
      a one-pixel gap between them does not. */
  lemma TouchingBoxesCollideVertically(a: Rect, b: Rect)
    requires WellFormed(a) && WellFormed(b)
    requires a.left <= b.right && b.left <= a.right
    ensures a.bottom == b.top ==> IsColliding(a, b)
    ensures a.bottom + 1 == b.top ==> !IsColliding(a, b)
  {
  }

  /** Boxes side by side that share only their border collide; a one-pixel
      gap between them does not. */
  lemma TouchingBoxesCollideHorizontally(a: Rect, b: Rect)
    requires WellFormed(a) && WellFormed(b)
    requires a.top <= b.bottom && b.top <= a.bottom
    ensures a.right == b.left ==> IsColliding(a, b)
    ensures a.right + 1 == b.left ==> !IsColliding(a, b)
  {
  }
}
