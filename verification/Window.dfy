/** Windows and how they are drawn (Kernel/window.cpp). */
module Window {
  import opened Common
  import opened Graphics
  import opened Compositor
  import FB = FrameBuffer

  class Window {
    const size: Vector2D
    const shadow: FB.FrameBuffer
    const data: array2<Color>  // by row, then column
    var transparentColor: Option<Color>

    ghost predicate Valid() {
      size.NonNegative() && shadow.Valid() && shadow.size == size && data.Length0 == size.y && data.Length1 == size.x
    }

    constructor (width: nat, height: nat, shadowFormat: FB.PixelFormat)
      ensures Valid() && size == Vector2D(width, height) && shadow.format == shadowFormat && transparentColor == None
      ensures fresh(shadow) && fresh(shadow.data) && fresh(data)
    {
      size := Vector2D(width, height);
      shadow := new FB.FrameBuffer.Initialize(Vector2D(width, height), shadowFormat);
      data := new Color[height, width]((y, x) => BLACK);
      transparentColor := None;
    }

    ghost function Content(): Image
      requires Valid()
      reads data
    {
      imap p: Vector2D | FB.InBounds(p, size) :: data[p.y, p.x]
    }

    /**
     * How the window contributes at a position. A solid window shows its shadow buffer, if that has
     * the target's format; a clear one its data.
     */
    ghost function ViewAt(pos: Vector2D, format: FB.PixelFormat): View
      requires Valid()
      reads this, data, shadow.data
    {
      match transparentColor
      case None => SolidView(pos, size, if shadow.format == format then shadow.Image() else imap[])
      case Some(c) => ClearView(pos, size, Content(), c)
    }

    /** Sets a pixel of the data and of the shadow buffer. */
    method Write(pos: Vector2D, c: Color)
      requires Valid() && FB.InBounds(pos, size)
      modifies data, shadow.data
      ensures Content() == old(Content())[pos := c] && shadow.Image() == old(shadow.Image())[pos := c]
    {
      data[pos.y, pos.x] := c;
      shadow.Write(pos, c);
    }

    /** A series of writes, as when the title bar is drawn anew. */
    method WriteAll(writes: seq<(Vector2D, Color)>)
      requires Valid() && forall i :: 0 <= i < |writes| ==> FB.InBounds(writes[i].0, size)
      modifies data, shadow.data
      ensures Content() == Written(old(Content()), writes) && shadow.Image() == Written(old(shadow.Image()), writes)
    {
      hide FB.FrameBuffer.Image, FB.FrameBuffer.Valid, FB.InBounds, Content;
      ghost var content, image := Content(), shadow.Image();
      for i := 0 to |writes|
        invariant Content() == Written(content, writes[..i]) && shadow.Image() == Written(image, writes[..i])
      {
        Write(writes[i].0, writes[i].1);
        assert writes[..i + 1][..i] == writes[..i];
      }
      assert writes[..|writes|] == writes;
    }

    /**
     * Moves pixels of the shadow buffer only. The window then shows the move exactly if it is
     * solid, or nothing would change.
     */
    method Move(dstPos: Vector2D, src: Rectangle)
      requires Valid() && src.size.NonNegative() && FB.Within(src, size) && FB.Within(Rectangle(dstPos, src.size), size)
      requires FB.Movable(dstPos.Minus(src.pos), src.size)
      modifies shadow.data
      ensures shadow.Image() == FB.Moved(old(shadow.Image()), dstPos, src) && Content() == old(Content())
      ensures forall pos, format :: ShowsMove(old(ViewAt(pos, format)), ViewAt(pos, format), pos, dstPos, src)
                <==> transparentColor.None? || NothingMoves(Content(), dstPos, src)
    {
      hide FB.Moved, FB.FrameBuffer.Image, SolidView, ClearView, ShowsMove, NothingMoves;
      ghost var image := shadow.Image();
      ShadowKeys();
      shadow.Move(dstPos, src);
      forall pos, format
        ensures ShowsMove(old(ViewAt(pos, format)), ViewAt(pos, format), pos, dstPos, src)
                <==> transparentColor.None? || NothingMoves(Content(), dstPos, src)
      {
        if transparentColor.None? {
          SolidShowsMove(pos, size, image, dstPos, src);
          EmptyShowsMove(pos, size, dstPos, src);
        } else {
          ClearMoveExact(pos, size, Content(), transparentColor.value, dstPos, src);
        }
      }
    }

    /** Paints the window: the damaged part of a solid one, all of a clear one. */
    method DrawTo(dst: FB.FrameBuffer, pos: Vector2D, damage: Rectangle)
      requires Valid() && dst.Valid() && dst.data != shadow.data && damage.size.NonNegative()
      modifies dst.data
      ensures dst.Image() == Painted(old(dst.Image()), ViewAt(pos, dst.format), damage)
    {
      if transparentColor.None? {
        DrawSolid(dst, pos, damage);
      } else {
        DrawClear(dst, pos, transparentColor.value);
        ClearIgnoresDamage(old(dst.Image()), pos, size, Content(), transparentColor.value, damage);
      }
    }

    method DrawSolid(dst: FB.FrameBuffer, pos: Vector2D, damage: Rectangle)
      requires Valid() && dst.Valid() && dst.data != shadow.data && damage.size.NonNegative() && transparentColor.None?
      modifies dst.data
      ensures dst.Image() == Painted(old(dst.Image()), ViewAt(pos, dst.format), damage)
    {
      hide FB.Copied, FB.FrameBuffer.Image, FB.CopyArea, Painted, SolidView, Rectangle.And;
      var windowArea := Rectangle(pos, size);
      var intersection := damage.And(windowArea);
      AndIsIntersection(damage, windowArea);
      ghost var before := dst.Image();
      FB.CopyAreaFacts(dst.size, size, intersection.pos, Rectangle(intersection.pos.Minus(pos), intersection.size));
      var _ := dst.Copy(intersection.pos, shadow, Rectangle(intersection.pos.Minus(pos), intersection.size));
      ShadowKeys();
      CopyPaints(before, pos, size, shadow.Image(), damage);
      NothingPaints(before, pos, size, damage);
    }

    lemma ShadowKeys()
      requires Valid()
      ensures forall p :: p in shadow.Image().Keys <==> FB.InBounds(p, size)
    {
    }

    method DrawClear(dst: FB.FrameBuffer, pos: Vector2D, tc: Color)
      requires Valid() && dst.Valid() && dst.data != shadow.data
      modifies dst.data
      ensures dst.Image() == Painted(old(dst.Image()), ClearView(pos, size, Content(), tc), Rectangle(ORIGIN, ORIGIN))
    {
      hide FB.Pixels, Painted, ClearView, FB.FrameBuffer.Valid, ClearedSoFar;
      ghost var before, view := dst.Image(), ClearView(pos, size, Content(), tc);
      ImageKeys(dst);
      ClearViewShape(pos, size, Content(), tc);
      var heightInit := if pos.y < 0 then -pos.y else 0;
      var heightEnd := if pos.y + size.y > dst.size.y then dst.size.y - pos.y else size.y;
      var widthInit := if pos.x < 0 then -pos.x else 0;
      var widthEnd := if pos.x + size.x > dst.size.x then dst.size.x - pos.x else size.x;
      var y := heightInit;
      ClearedStart(before, view, pos, dst.size, size, heightInit, widthInit);
      while y < heightEnd
        invariant heightInit <= y && (y <= heightEnd || y == heightInit)
        invariant dst.Image() == ClearedSoFar(before, view, pos, y, widthInit)
      {
        var x := widthInit;
        while x < widthEnd
          invariant widthInit <= x && (x <= widthEnd || x == widthInit)
          invariant dst.Image() == ClearedSoFar(before, view, pos, y, x)
        {
          var c := data[y, x];
          ClearedStep(before, pos, size, Content(), tc, y, x);
          if tc != c {
            dst.Write(pos.Plus(Vector2D(x, y)), c);
          }
          x := x + 1;
        }
        ClearedRow(before, view, pos, dst.size, size, y, x, widthInit);
        y := y + 1;
      }
      ClearedEnd(before, view, pos, dst.size, size, y, widthInit);
    }

    lemma ImageKeys(dst: FB.FrameBuffer)
      ensures forall p :: p in dst.Image().Keys <==> FB.InBounds(p, dst.size)
    {
    }
  }

  ghost function Written(img: Image, writes: seq<(Vector2D, Color)>): Image {
    if writes == [] then img
    else Written(img, writes[..|writes| - 1])[writes[|writes| - 1].0 := writes[|writes| - 1].1]
  }

  /** After a series of writes a pixel has the colour of the last one there, or its old one. */
  lemma {:induction false} WrittenExact(img: Image, writes: seq<(Vector2D, Color)>, p: Vector2D, last: nat)
    requires last <= |writes| && (last > 0 ==> writes[last - 1].0 == p) && (last == 0 ==> p in img)
    requires forall i :: last <= i < |writes| ==> writes[i].0 != p
    ensures p in Written(img, writes) && Written(img, writes)[p] == if last > 0 then writes[last - 1].1 else img[p]
    decreases |writes|
  {
    if last < |writes| {
      WrittenExact(img, writes[..|writes| - 1], p, last);
    }
  }

  lemma {:induction false} WrittenKeys(img: Image, writes: seq<(Vector2D, Color)>)
    requires forall i :: 0 <= i < |writes| ==> writes[i].0 in img.Keys
    ensures Written(img, writes).Keys == img.Keys
  {
    if writes != [] {
      WrittenKeys(img, writes[..|writes| - 1]);
    }
  }

  ghost function SolidView(pos: Vector2D, size: Vector2D, content: Image): View {
    View(Rectangle(pos, size), true, imap p: Vector2D | Rectangle(pos, size).Holds(p) && p.Minus(pos) in content ::
      content[p.Minus(pos)])
  }

  ghost function ClearView(pos: Vector2D, size: Vector2D, content: Image, transparent: Color): View {
    View(Rectangle(pos, size), false,
      imap p: Vector2D | Rectangle(pos, size).Holds(p) && p.Minus(pos) in content &&
        content[p.Minus(pos)] != transparent :: content[p.Minus(pos)])
  }

  /** Where the pixel that a move brings to a point of the screen comes from. */
  function MoveSource(p: Vector2D, pos: Vector2D, dstPos: Vector2D, src: Rectangle): Vector2D {
    if Rectangle(pos.Plus(dstPos), src.size).Holds(p) then p.Minus(dstPos.Minus(src.pos)) else p
  }

  /** A point shows after a move what was shown, or not shown, at its source. */
  ghost predicate ShowsMoveAt(before: View, after: View, p: Vector2D, source: Vector2D) {
    (p in after.shade <==> source in before.shade) && (p in after.shade ==> after.shade[p] == before.shade[source])
  }

  ghost predicate ShowsMove(before: View, after: View, pos: Vector2D, dstPos: Vector2D, src: Rectangle) {
    && after.area == before.area && after.solid == before.solid
    && forall p: Vector2D :: ShowsMoveAt(before, after, p, MoveSource(p, pos, dstPos, src))
  }

  /** Every pixel of the target already has the colour that is moved there. */
  ghost predicate NothingMoves(content: Image, dstPos: Vector2D, src: Rectangle) {
    forall p: Vector2D {:trigger Rectangle(dstPos, src.size).Holds(p)} :: Rectangle(dstPos, src.size).Holds(p) ==>
      KeepsColor(content, p, p.Minus(dstPos.Minus(src.pos)))
  }

  ghost predicate KeepsColor(content: Image, p: Vector2D, source: Vector2D) {
    p in content && source in content && content[p] == content[source]
  }

  /** A pixel of the target and its source both lie in the window. */
  lemma MoveInside(p: Vector2D, size: Vector2D, dstPos: Vector2D, src: Rectangle)
    requires FB.Within(src, size) && FB.Within(Rectangle(dstPos, src.size), size) &&
      Rectangle(dstPos, src.size).Holds(p)
    ensures FB.InBounds(p, size) && FB.InBounds(p.Minus(dstPos.Minus(src.pos)), size)
  {
  }

  lemma ViewPoint(pos: Vector2D, size: Vector2D, content: Image, tc: Color, p: Vector2D)
    requires forall q :: q in content.Keys <==> FB.InBounds(q, size)
    ensures var v := SolidView(pos, size, content);
            (p in v.shade <==> FB.InBounds(p.Minus(pos), size)) &&
              (p in v.shade ==> v.shade[p] == content[p.Minus(pos)])
    ensures var v := ClearView(pos, size, content, tc);
            && (p in v.shade <==> FB.InBounds(p.Minus(pos), size) && content[p.Minus(pos)] != tc)
            && (p in v.shade ==> v.shade[p] == content[p.Minus(pos)])
  {
  }

  lemma MovedPixel(image: Image, size: Vector2D, dstPos: Vector2D, src: Rectangle)
    requires forall q :: q in image.Keys <==> FB.InBounds(q, size)
    ensures forall q :: q in FB.Moved(image, dstPos, src).Keys <==> FB.InBounds(q, size)
    ensures forall q :: FB.InBounds(q, size) && !Rectangle(dstPos, src.size).Holds(q) ==>
      FB.Moved(image, dstPos, src)[q] == image[q]
    ensures forall q | Rectangle(dstPos, src.size).Holds(q) && FB.InBounds(q, size) &&
      FB.InBounds(q.Minus(dstPos.Minus(src.pos)), size) ::
              FB.Moved(image, dstPos, src)[q] == image[q.Minus(dstPos.Minus(src.pos))]
  {
  }

  lemma SolidShowsMove(pos: Vector2D, size: Vector2D, image: Image, dstPos: Vector2D, src: Rectangle)
    requires FB.Within(src, size) && FB.Within(Rectangle(dstPos, src.size), size)
    requires forall p :: p in image.Keys <==> FB.InBounds(p, size)
    ensures ShowsMove(SolidView(pos, size, image), SolidView(pos, size, FB.Moved(image, dstPos, src)), pos, dstPos, src)
  {
    var moved := FB.Moved(image, dstPos, src);
    MovedPixel(image, size, dstPos, src);
    hide FB.Moved, FB.Within, FB.InBounds;
    forall p: Vector2D
      ensures ShowsMoveAt(SolidView(pos, size, image), SolidView(pos, size, moved), p, MoveSource(p, pos, dstPos, src))
    {
      hide SolidView, Rectangle.Holds;
      var q := MoveSource(p, pos, dstPos, src);
      ViewPoint(pos, size, moved, BLACK, p);
      ViewPoint(pos, size, image, BLACK, q);
      SourceInside(p, pos, dstPos, src);
      if Rectangle(dstPos, src.size).Holds(p.Minus(pos)) {
        MoveInside(p.Minus(pos), size, dstPos, src);
      }
    }
  }

  /** The move of a screen point is the move of the window's pixel under it. */
  lemma SourceInside(p: Vector2D, pos: Vector2D, dstPos: Vector2D, src: Rectangle)
    ensures MoveSource(p, pos, dstPos, src).Minus(pos) ==
      if Rectangle(dstPos, src.size).Holds(p.Minus(pos)) then p.Minus(pos).Minus(dstPos.Minus(src.pos))
        else p.Minus(pos)
  {
  }

  lemma EmptyShowsMove(pos: Vector2D, size: Vector2D, dstPos: Vector2D, src: Rectangle)
    ensures ShowsMove(SolidView(pos, size, imap[]), SolidView(pos, size, imap[]), pos, dstPos, src)
  {
  }

  /** A clear window, which is drawn from its data, shows a move exactly if the move changes no pixel of the data. */
  lemma ClearMoveExact(pos: Vector2D, size: Vector2D, content: Image, tc: Color, dstPos: Vector2D, src: Rectangle)
    requires FB.Within(src, size) && FB.Within(Rectangle(dstPos, src.size), size)
    requires forall p :: p in content.Keys <==> FB.InBounds(p, size)
    ensures var v := ClearView(pos, size, content, tc);
            ShowsMove(v, v, pos, dstPos, src) <==> NothingMoves(content, dstPos, src)
  {
    hide FB.Within, FB.InBounds, ClearView, Rectangle.Holds, MoveSource;
    var v := ClearView(pos, size, content, tc);
    forall p: Vector2D
      ensures ShowsMoveAt(v, v, p, MoveSource(p, pos, dstPos, src)) <==>
        (Rectangle(dstPos, src.size).Holds(p.Minus(pos)) ==>
           KeepsColor(content, p.Minus(pos), p.Minus(pos).Minus(dstPos.Minus(src.pos))))
    {
      ViewPoint(pos, size, content, tc, p);
      ViewPoint(pos, size, content, tc, MoveSource(p, pos, dstPos, src));
      SourceInside(p, pos, dstPos, src);
      if Rectangle(dstPos, src.size).Holds(p.Minus(pos)) {
        MoveInside(p.Minus(pos), size, dstPos, src);
      } else {
        assert MoveSource(p, pos, dstPos, src).Minus(pos) == p.Minus(pos);
      }
    }
    forall p: Vector2D ensures p.Plus(pos).Minus(pos) == p {}
    if ShowsMove(v, v, pos, dstPos, src) {
      forall p: Vector2D | Rectangle(dstPos, src.size).Holds(p)
        ensures KeepsColor(content, p, p.Minus(dstPos.Minus(src.pos)))
      {
        assert ShowsMoveAt(v, v, p.Plus(pos), MoveSource(p.Plus(pos), pos, dstPos, src));
      }
    }
  }

  lemma ColorMoves(content: Image, dstPos: Vector2D, src: Rectangle, p: Vector2D)
    requires Rectangle(dstPos, src.size).Holds(p) && !KeepsColor(content, p, p.Minus(dstPos.Minus(src.pos)))
    ensures !NothingMoves(content, dstPos, src)
  {
  }

  lemma MinusMinus(a: Vector2D, b: Vector2D)
    ensures a.Minus(a.Minus(b)) == b
  {
  }

  /** One row up: the target of the move and where its pixel comes from. */
  lemma OneUp(o: Vector2D, size: Vector2D, src: Rectangle)
    requires o == ORIGIN && size == Vector2D(1, 2) && src == Rectangle(Vector2D(0, 1), Vector2D(1, 1))
    ensures Rectangle(o, src.size).Holds(o)
    ensures FB.Within(src, size) && FB.Within(Rectangle(o, src.size), size)
    ensures FB.InBounds(o, size) && FB.InBounds(src.pos, size)
  {
  }

  /** A clear window of two pixels of different colours, one above the other: moving the lower one up is not seen. */
  lemma ClearMoveExample(content: Image, tc: Color, o: Vector2D, size: Vector2D, src: Rectangle)
    requires o == ORIGIN && size == Vector2D(1, 2) && src == Rectangle(Vector2D(0, 1), Vector2D(1, 1))
    requires (forall p :: p in content.Keys <==> FB.InBounds(p, size)) && !KeepsColor(content, o, src.pos)
    ensures var v := ClearView(o, size, content, tc); !ShowsMove(v, v, o, o, src)
  {
    hide *;
    OneUp(o, size, src);
    MinusMinus(o, src.pos);
    ColorMoves(content, o, src, o);
    ClearMoveExact(o, size, content, tc, o, src);
  }

  /** Copying the intersection of damage and window paints the solid view. */
  lemma CopyPaints(img: Image, pos: Vector2D, size: Vector2D, content: Image, damage: Rectangle)
    requires forall p :: p in content.Keys ==> FB.InBounds(p, size)
    ensures var both := damage.And(Rectangle(pos, size));
            FB.Copied(img, both.pos, content, Rectangle(both.pos.Minus(pos), both.size)) ==
              Painted(img, SolidView(pos, size, content), damage)
  {
    AndIsIntersection(damage, Rectangle(pos, size));
    hide Rectangle.And;
  }

  lemma NothingPaints(img: Image, pos: Vector2D, size: Vector2D, damage: Rectangle)
    ensures Painted(img, SolidView(pos, size, imap[]), damage) == img
  {
  }

  lemma ClearIgnoresDamage(img: Image, pos: Vector2D, size: Vector2D, content: Image, tc: Color, damage: Rectangle)
    ensures var v := ClearView(pos, size, content, tc); forall d :: Painted(img, v, d) == Painted(img, v, damage)
  {
  }

  lemma ClearViewShape(pos: Vector2D, size: Vector2D, content: Image, tc: Color)
    ensures !ClearView(pos, size, content, tc).solid
    ensures forall p :: p in ClearView(pos, size, content, tc).shade.Keys ==> Rectangle(pos, size).Holds(p)
  {
  }

  /** A clear view drawn up to column x of row y of the window. */
  ghost function ClearedSoFar(img: Image, v: View, pos: Vector2D, y: int, x: int): Image {
    imap p: Vector2D | p in img ::
      if p in v.shade && (p.y - pos.y < y || (p.y - pos.y == y && p.x - pos.x < x)) then v.shade[p] else img[p]
  }

  lemma ClearedStart(img: Image, v: View, pos: Vector2D, dstSize: Vector2D, size: Vector2D, y: int, x: int)
    requires forall p :: p in img.Keys ==> FB.InBounds(p, dstSize)
    requires forall p :: p in v.shade.Keys ==> Rectangle(pos, size).Holds(p)
    requires y == (if pos.y < 0 then -pos.y else 0) && x == (if pos.x < 0 then -pos.x else 0)
    ensures ClearedSoFar(img, v, pos, y, x) == img
  {
  }

  lemma ClearedStep(img: Image, pos: Vector2D, size: Vector2D, content: Image, tc: Color, y: int, x: int)
    requires pos.Plus(Vector2D(x, y)) in img && FB.InBounds(Vector2D(x, y), size) && Vector2D(x, y) in content
    ensures var v, q := ClearView(pos, size, content, tc), pos.Plus(Vector2D(x, y));
            ClearedSoFar(img, v, pos, y, x + 1) == if content[Vector2D(x, y)] == tc then ClearedSoFar(img, v, pos, y, x)
                                                   else ClearedSoFar(img, v, pos, y, x)[q := content[Vector2D(x, y)]]
  {
  }

  lemma ClearedRow(img: Image, v: View, pos: Vector2D, dstSize: Vector2D, size: Vector2D, y: int, x: int,
      widthInit: int)
    requires forall p :: p in img.Keys ==> FB.InBounds(p, dstSize)
    requires forall p :: p in v.shade.Keys ==> Rectangle(pos, size).Holds(p)
    requires widthInit == if pos.x < 0 then -pos.x else 0
    requires x >= if pos.x + size.x > dstSize.x then dstSize.x - pos.x else size.x
    ensures ClearedSoFar(img, v, pos, y, x) == ClearedSoFar(img, v, pos, y + 1, widthInit)
  {
  }

  lemma ClearedEnd(img: Image, v: View, pos: Vector2D, dstSize: Vector2D, size: Vector2D, y: int, x: int)
    requires forall p :: p in img.Keys ==> FB.InBounds(p, dstSize)
    requires !v.solid && forall p :: p in v.shade.Keys ==> Rectangle(pos, size).Holds(p)
    requires y >= if pos.y + size.y > dstSize.y then dstSize.y - pos.y else size.y
    ensures ClearedSoFar(img, v, pos, y, x) == Painted(img, v, Rectangle(ORIGIN, ORIGIN))
  {
  }
}
