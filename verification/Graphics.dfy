/** Points, rectangles and pixels (Kernel/graphics.hpp). */
module Graphics {

  datatype Vector2D = Vector2D(x: int, y: int) {
    function Plus(v: Vector2D): Vector2D {
      Vector2D(x + v.x, y + v.y)
    }

    function Minus(v: Vector2D): Vector2D {
      Vector2D(x - v.x, y - v.y)
    }

    predicate NonNegative() {
      x >= 0 && y >= 0
    }
  }

  const ORIGIN := Vector2D(0, 0)

  function ElementMax(a: Vector2D, b: Vector2D): Vector2D {
    Vector2D(if a.x < b.x then b.x else a.x, if a.y < b.y then b.y else a.y)
  }

  function ElementMin(a: Vector2D, b: Vector2D): Vector2D {
    Vector2D(if b.x < a.x then b.x else a.x, if b.y < a.y then b.y else a.y)
  }

  datatype Rectangle = Rectangle(pos: Vector2D, size: Vector2D) {
    predicate Holds(p: Vector2D) {
      pos.x <= p.x < pos.x + size.x && pos.y <= p.y < pos.y + size.y
    }

    function End(): Vector2D {
      pos.Plus(size)
    }

    /** The `&` of the source: an empty rectangle at the origin when the two do not even touch. */
    function And(r: Rectangle): Rectangle {
      if End().x < r.pos.x || End().y < r.pos.y || r.End().x < pos.x || r.End().y < pos.y then Rectangle(ORIGIN, ORIGIN)
      else
        var newPos := ElementMax(pos, r.pos);
        Rectangle(newPos, ElementMin(End(), r.End()).Minus(newPos))
    }
  }

  /** `&` is the intersection of point sets, for any sizes, and keeps sizes non-negative. */
  lemma AndIsIntersection(a: Rectangle, b: Rectangle)
    ensures forall p :: a.And(b).Holds(p) <==> a.Holds(p) && b.Holds(p)
    ensures a.size.NonNegative() && b.size.NonNegative() ==> a.And(b).size.NonNegative()
  {
  }

  datatype Color = Color(r: nat, g: nat, b: nat)

  const BLACK := Color(0, 0, 0)

  /** The pixels of a buffer by position. */
  type Image = imap<Vector2D, Color>
}
