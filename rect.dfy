/** `Rect`: an axis-aligned rectangle given by its origin and its width and
    height, with translation, intersection for clipping, and the non-empty
    test. A rectangle covers the points `x` with `pos.x <= x < pos.x + w` and
    `y` with `pos.y <= y < pos.y + h`. */
module Rects {
  import opened Vector2i

  datatype Rect = Rect(pos: Pos, w: int32, h: int32)
  {
    // The edges, in exact arithmetic.
    function Left(): int { pos.x as int }
    function Right(): int { pos.x as int + w as int }
    function Top(): int { pos.y as int }
    function Bottom(): int { pos.y as int + h as int }

    /** Whether `pos.x + w` and `pos.y + h` are representable as `int`. */
    predicate EdgesFit()
    {
      Fits(Right()) && Fits(Bottom())
    }

    /** `operator bool`. */
    predicate NonEmpty()
    {
      w > 0 && h > 0
    }

    /** `operator+(Pos)`: the rectangle moved by `p`. */
    function Plus(p: Pos): Rect
      requires Fits(pos.x as int + p.x as int) && Fits(pos.y as int + p.y as int)
    {
      Rect(pos.Plus(p), w, h)
    }

    /** `operator-(Pos)`: the rectangle moved by `-p`. */
    function Minus(p: Pos): Rect
      requires Fits(pos.x as int - p.x as int) && Fits(pos.y as int - p.y as int)
    {
      Rect(pos.Minus(p), w, h)
    }
  }

  /** The default-constructed rectangle, which every empty intersection is
      normalised to. */
  const Empty := Rect(Origin, 0, 0)

  /** Whether `r` covers the point `(x, y)`. */
  predicate Contains(r: Rect, x: int, y: int)
  {
    r.Left() <= x < r.Right() && r.Top() <= y < r.Bottom()
  }

  /** Whether `inner` lies within `outer`. */
  predicate Inside(inner: Rect, outer: Rect)
  {
    outer.Left() <= inner.Left() && inner.Right() <= outer.Right() &&
    outer.Top() <= inner.Top() && inner.Bottom() <= outer.Bottom()
  }

  /** Whether the two rectangles share an area: their spans overlap on both
      axes (sharing only an edge is not overlapping). */
  predicate Overlap(a: Rect, b: Rect)
  {
    a.Left() < b.Right() && b.Left() < a.Right() && a.Top() < b.Bottom() && b.Top() < a.Bottom()
  }

  function Min(u: int, v: int): int { if v < u then v else u }
  function Max(u: int, v: int): int { if u < v then v else u }

  /** What `operator&` needs to be free of signed overflow: both far edges of
      both rectangles, and the width and height it computes, are
      representable. */
  predicate CanIntersect(a: Rect, b: Rect)
  {
    && a.EdgesFit() && b.EdgesFit()
    && Fits(Min(a.Right(), b.Right()) - Max(a.Left(), b.Left()))
    && Fits(Min(a.Bottom(), b.Bottom()) - Max(a.Top(), b.Top()))
  }

  /** `operator&`: the overlap of the two rectangles, or `Empty` when they
      have no area in common. */
  function Intersect(a: Rect, b: Rect): (r: Rect)
    requires CanIntersect(a, b)
    ensures r == Empty || (r.NonEmpty() && Inside(r, a) && Inside(r, b))
  {
    var xLeft := if a.pos.x < b.pos.x then b.pos.x else a.pos.x;
    var aRight, bRight := a.pos.x + a.w, b.pos.x + b.w;
    var xRight := if bRight < aRight then bRight else aRight;
    var width := xRight - xLeft;

    var yTop := if a.pos.y < b.pos.y then b.pos.y else a.pos.y;
    var aBottom, bBottom := a.pos.y + a.h, b.pos.y + b.h;
    var yBottom := if bBottom < aBottom then bBottom else aBottom;
    var height := yBottom - yTop;

    if width <= 0 || height <= 0 then Empty else Rect(Pos(xLeft, yTop), width, height)
  }

  /** A rectangle is non-empty exactly when it covers some point. */
  lemma NonEmptyIffCoversPoint(r: Rect)
    ensures r.NonEmpty() <==> exists x, y :: Contains(r, x, y)
  {
    if r.NonEmpty() {
      assert Contains(r, r.Left(), r.Top());
    }
  }

  /** The intersection covers exactly the points both operands cover. */
  lemma IntersectCoversCommonPoints(a: Rect, b: Rect)
    requires CanIntersect(a, b)
    ensures forall x, y :: Contains(Intersect(a, b), x, y) <==> Contains(a, x, y) && Contains(b, x, y)
  {
  }

  lemma IntersectCommutes(a: Rect, b: Rect)
    requires CanIntersect(a, b)
    ensures CanIntersect(b, a)
    ensures Intersect(a, b) == Intersect(b, a)
  {
    assert Min(a.Right(), b.Right()) == Min(b.Right(), a.Right());
    assert Max(a.Left(), b.Left()) == Max(b.Left(), a.Left());
    assert Min(a.Bottom(), b.Bottom()) == Min(b.Bottom(), a.Bottom());
    assert Max(a.Top(), b.Top()) == Max(b.Top(), a.Top());
  }

  /** The intersection is non-empty exactly when both operands are non-empty
      and overlap; otherwise (disjoint, or touching only along an edge) it is
      `Empty`. */
  lemma IntersectNonEmptyIff(a: Rect, b: Rect)
    requires CanIntersect(a, b)
    ensures Intersect(a, b).NonEmpty() <==> a.NonEmpty() && b.NonEmpty() && Overlap(a, b)
    ensures !Overlap(a, b) ==> Intersect(a, b) == Empty
  {
  }

  /** Every non-empty rectangle inside both operands is inside their
      intersection: it is the largest common sub-rectangle. */
  lemma IntersectIsLargest(a: Rect, b: Rect, t: Rect)
    requires CanIntersect(a, b)
    requires t.NonEmpty() && Inside(t, a) && Inside(t, b)
    ensures Inside(t, Intersect(a, b))
  {
    IntersectNonEmptyIff(a, b);
    assert Overlap(a, b);
  }

  lemma IntersectIdempotent(r: Rect)
    requires r.NonEmpty() && r.EdgesFit()
    ensures CanIntersect(r, r) && Intersect(r, r) == r
  {
  }

  /** Clipping a non-empty rectangle to one that contains it leaves it as it is. */
  lemma IntersectWithContained(r: Rect, s: Rect)
    requires r.EdgesFit() && s.EdgesFit()
    requires s.NonEmpty() && Inside(s, r)
    ensures CanIntersect(r, s) && Intersect(r, s) == s
  {
  }

  lemma IntersectWithEmpty(r: Rect)
    requires CanIntersect(Empty, r)
    ensures Intersect(Empty, r) == Empty
  {
  }

  /** A rectangle that is either `Empty` or non-empty is determined by the
      points it covers. */
  lemma {:induction false} SameCoverSameRect(r: Rect, s: Rect)
    requires r == Empty || r.NonEmpty()
    requires s == Empty || s.NonEmpty()
    requires forall x, y :: Contains(r, x, y) <==> Contains(s, x, y)
    ensures r == s
  {
    if r.NonEmpty() {
      assert Contains(r, r.Left(), r.Top()) && Contains(r, r.Right() - 1, r.Bottom() - 1);
      assert s.NonEmpty();
      assert Contains(s, s.Left(), s.Top()) && Contains(s, s.Right() - 1, s.Bottom() - 1);
    } else {
      assert !Contains(s, s.Left(), s.Top());
    }
  }

  /** Two rectangles, each `Empty` or non-empty, that cover the points common
      to `a`, `b` and `c` (grouped either way) are equal. */
  lemma CommonCoverUnique(a: Rect, b: Rect, c: Rect, ab: Rect, bc: Rect, l: Rect, r: Rect)
    requires forall x, y :: Contains(ab, x, y) <==> Contains(a, x, y) && Contains(b, x, y)
    requires forall x, y :: Contains(bc, x, y) <==> Contains(b, x, y) && Contains(c, x, y)
    requires forall x, y :: Contains(l, x, y) <==> Contains(ab, x, y) && Contains(c, x, y)
    requires forall x, y :: Contains(r, x, y) <==> Contains(a, x, y) && Contains(bc, x, y)
    requires l == Empty || l.NonEmpty()
    requires r == Empty || r.NonEmpty()
    ensures l == r
  {
    SameCoverSameRect(l, r);
  }

  /** Intersection is associative wherever both groupings are defined. */
  lemma IntersectAssociative(a: Rect, b: Rect, c: Rect)
    requires CanIntersect(a, b) && CanIntersect(Intersect(a, b), c)
    requires CanIntersect(b, c) && CanIntersect(a, Intersect(b, c))
    ensures Intersect(Intersect(a, b), c) == Intersect(a, Intersect(b, c))
  {
    var ab, bc := Intersect(a, b), Intersect(b, c);
    IntersectCoversCommonPoints(a, b);
    IntersectCoversCommonPoints(b, c);
    IntersectCoversCommonPoints(ab, c);
    IntersectCoversCommonPoints(a, bc);
    CommonCoverUnique(a, b, c, ab, bc, Intersect(ab, c), Intersect(a, bc));
  }

  lemma IntersectExample()
    ensures CanIntersect(Rect(Pos(0, 0), 10, 10), Rect(Pos(5, 5), 10, 10))
    ensures Intersect(Rect(Pos(0, 0), 10, 10), Rect(Pos(5, 5), 10, 10)) == Rect(Pos(5, 5), 5, 5)
  {
    var r := Intersect(Rect(Pos(0, 0), 10, 10), Rect(Pos(5, 5), 10, 10));
    assert r.NonEmpty() by {
      IntersectNonEmptyIff(Rect(Pos(0, 0), 10, 10), Rect(Pos(5, 5), 10, 10));
    }
  }

  lemma TouchingExample()
    ensures CanIntersect(Rect(Pos(0, 0), 10, 10), Rect(Pos(10, 0), 10, 10))
    ensures Intersect(Rect(Pos(0, 0), 10, 10), Rect(Pos(10, 0), 10, 10)) == Empty
  {
    assert !Overlap(Rect(Pos(0, 0), 10, 10), Rect(Pos(10, 0), 10, 10));
    IntersectNonEmptyIff(Rect(Pos(0, 0), 10, 10), Rect(Pos(10, 0), 10, 10));
  }

  /** Translation moves the origin only, covers the moved points, and moving
      back restores the rectangle. */
  lemma TranslateProperties(r: Rect, p: Pos, x: int, y: int)
    requires Fits(r.pos.x as int + p.x as int) && Fits(r.pos.y as int + p.y as int)
    ensures r.Plus(p).w == r.w && r.Plus(p).h == r.h
    ensures r.Plus(p).Minus(p) == r
    ensures Contains(r.Plus(p), x, y) <==> Contains(r, x - p.x as int, y - p.y as int)
  {
  }

  /** A `Rect` variable, for the compound assignments that update it in place. */
  class RectCell {
    var pos: Pos
    var w: int32
    var h: int32

    function Value(): Rect
      reads this
    {
      Rect(pos, w, h)
    }

    constructor (r: Rect)
      ensures Value() == r
    {
      pos, w, h := r.pos, r.w, r.h;
    }

    /** `operator+=(Pos)` */
    method PlusAssign(p: Pos)
      requires Fits(pos.x as int + p.x as int) && Fits(pos.y as int + p.y as int)
      modifies this
      ensures Value() == old(Value()).Plus(p)
    {
      pos := pos.Plus(p);
    }

    /** `operator-=(Pos)` */
    method MinusAssign(p: Pos)
      requires Fits(pos.x as int - p.x as int) && Fits(pos.y as int - p.y as int)
      modifies this
      ensures Value() == old(Value()).Minus(p)
    {
      pos := pos.Minus(p);
    }

    /** `operator&=`: the rectangle becomes its intersection with `r`. */
    method IntersectAssign(r: Rect)
      requires CanIntersect(Value(), r)
      modifies this
      ensures Value() == Intersect(old(Value()), r)
    {
      var clipped := Intersect(Rect(pos, w, h), r);
      pos, w, h := clipped.pos, clipped.w, clipped.h;
    }
  }
}
