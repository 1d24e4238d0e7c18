/**
 * What a stack of windows looks like, and what redrawing a part of it does to the back buffer
 * and the screen (Kernel/layer.cpp, Kernel/window.cpp). A stack is listed from bottom to top.
 */
module Compositor {
  import opened Common
  import opened Graphics

  /**
   * What a layer contributes: its rectangle, and the colour of each point it shows. A clear view
   * has a transparent colour.
   */
  datatype View = View(area: Rectangle, solid: bool, shade: imap<Vector2D, Color>) {
    ghost predicate Valid() {
      area.size.NonNegative() && forall p :: p in shade ==> area.Holds(p)
    }

    /** Drawing a solid view is confined to the damaged area; drawing a clear one is not. */
    ghost predicate Paints(damage: Rectangle, p: Vector2D) {
      p in shade && (solid ==> damage.Holds(p))
    }
  }

  ghost function Painted(img: Image, v: View, damage: Rectangle): Image {
    imap p: Vector2D | p in img :: if v.Paints(damage, p) then v.shade[p] else img[p]
  }

  /** Draws some views in order, bottom first. */
  ghost function PaintedAll(img: Image, views: seq<View>, damage: Rectangle): Image {
    if views == [] then img
    else Painted(PaintedAll(img, views[..|views| - 1], damage), views[|views| - 1], damage)
  }

  /** The painter's composite: the colour of the topmost view that shows something at the point. */
  ghost function Seen(views: seq<View>, p: Vector2D): Option<Color> {
    if views == [] then None
    else if p in views[|views| - 1].shade then Some(views[|views| - 1].shade[p])
    else Seen(views[..|views| - 1], p)
  }

  /** What is seen at a point is what the view with the highest number among those that show something there shows. */
  lemma {:induction false} SeenTopmost(views: seq<View>, p: Vector2D, top: nat)
    requires top <= |views| && (top > 0 ==> p in views[top - 1].shade)
    requires forall i :: top <= i < |views| ==> p !in views[i].shade
    ensures Seen(views, p) == if top > 0 then Some(views[top - 1].shade[p]) else None
    decreases |views|
  {
    if top < |views| {
      SeenTopmost(views[..|views| - 1], p, top);
    }
  }

  /** The colour of the topmost clear view at the point. */
  ghost function SeenClear(views: seq<View>, p: Vector2D): Option<Color> {
    if views == [] then None
    else if p in views[|views| - 1].shade && !views[|views| - 1].solid then Some(views[|views| - 1].shade[p])
    else SeenClear(views[..|views| - 1], p)
  }

  /** Inside the damaged area drawing all views gives the composite, whatever was there before. */
  lemma {:induction false} PaintedInside(img: Image, views: seq<View>, damage: Rectangle, p: Vector2D)
    requires p in img && damage.Holds(p)
    ensures p in PaintedAll(img, views, damage)
    ensures PaintedAll(img, views, damage)[p] == match Seen(views, p) case Some(c) => c case None => img[p]
  {
    if views != [] {
      PaintedInside(img, views[..|views| - 1], damage, p);
    }
  }

  /** Outside it the point ends as the topmost clear view's colour, seen or not; without one it stays. */
  lemma {:induction false} PaintedOutside(img: Image, views: seq<View>, damage: Rectangle, p: Vector2D)
    requires p in img && !damage.Holds(p)
    ensures p in PaintedAll(img, views, damage)
    ensures PaintedAll(img, views, damage)[p] == match SeenClear(views, p) case Some(c) => c case None => img[p]
  {
    if views != [] {
      PaintedOutside(img, views[..|views| - 1], damage, p);
    }
  }

  lemma {:induction false} PaintedKeys(img: Image, views: seq<View>, damage: Rectangle)
    ensures PaintedAll(img, views, damage).Keys == img.Keys
  {
    if views != [] {
      PaintedKeys(img, views[..|views| - 1], damage);
    }
  }

  /** Only the topmost view may be clear. */
  ghost predicate OnlyTopClear(views: seq<View>) {
    forall i :: 0 <= i < |views| - 1 ==> views[i].solid
  }

  lemma {:induction false} SolidSeenClear(views: seq<View>, p: Vector2D)
    requires forall i :: 0 <= i < |views| ==> views[i].solid
    ensures SeenClear(views, p) == None
  {
    if views != [] {
      SolidSeenClear(views[..|views| - 1], p);
    }
  }

  lemma TopClearSeen(views: seq<View>, p: Vector2D)
    requires OnlyTopClear(views)
    ensures SeenClear(views, p).Some? ==> SeenClear(views, p) == Seen(views, p)
  {
    if views != [] {
      SolidSeenClear(views[..|views| - 1], p);
    }
  }

  /** The upper part of a stack hides the lower part where it shows anything. */
  lemma {:induction false} SeenSplit(views: seq<View>, i: nat, p: Vector2D)
    requires i <= |views|
    ensures Seen(views, p) == if Seen(views[i..], p).Some? then Seen(views[i..], p) else Seen(views[..i], p)
  {
    if i < |views| {
      SeenSplit(views[..|views| - 1], i, p);
      assert views[..|views| - 1][i..] == views[i..][..|views[i..]| - 1] && views[..|views| - 1][..i] == views[..i];
    } else {
      assert views[..i] == views;
    }
  }

  lemma {:induction false} SeenBottom(views: seq<View>, p: Vector2D)
    requires views != [] && p in views[0].shade
    ensures Seen(views, p).Some?
  {
    if |views| > 1 {
      SeenBottom(views[..|views| - 1], p);
    }
  }

  /** The back buffer and the screen. */
  datatype Buffers = Buffers(back: Image, screen: Image)

  /** Draws views into the back buffer and copies the damaged area to the screen. */
  ghost function Drawn(b: Buffers, views: seq<View>, damage: Rectangle): Buffers
    requires b.back.Keys == b.screen.Keys
  {
    PaintedKeys(b.back, views, damage);
    var back := PaintedAll(b.back, views, damage);
    Buffers(back, imap p: Vector2D | p in b.screen :: if damage.Holds(p) then back[p] else b.screen[p])
  }

  /** Both buffers show the composite at a point. */
  ghost predicate Clean(b: Buffers, views: seq<View>, p: Vector2D)
    requires p in b.back && p in b.screen
  {
    Seen(views, p) == Some(b.back[p]) && b.back[p] == b.screen[p]
  }

  ghost predicate AllClean(b: Buffers, views: seq<View>)
    requires b.back.Keys == b.screen.Keys
  {
    forall p :: p in b.screen.Keys ==> Clean(b, views, p)
  }

  lemma DrawnKeys(b: Buffers, views: seq<View>, damage: Rectangle)
    requires b.back.Keys == b.screen.Keys
    ensures Drawn(b, views, damage).back.Keys == Drawn(b, views, damage).screen.Keys == b.screen.Keys
  {
    PaintedKeys(b.back, views, damage);
  }

  /**
   * Redrawing from the i-th view up makes a point clean if that view shows it inside the damaged
   * area, and keeps it clean if it was.
   */
  lemma DrawnClean(b: Buffers, views: seq<View>, i: nat, damage: Rectangle, p: Vector2D)
    requires b.back.Keys == b.screen.Keys && p in b.screen && i <= |views| && OnlyTopClear(views)
    requires Clean(b, views, p) || (damage.Holds(p) && Seen(views[i..], p).Some?)
    ensures p in Drawn(b, views[i..], damage).back && p in Drawn(b, views[i..], damage).screen
    ensures Clean(Drawn(b, views[i..], damage), views, p)
  {
    DrawnKeys(b, views[i..], damage);
    SeenSplit(views, i, p);
    if damage.Holds(p) {
      PaintedInside(b.back, views[i..], damage, p);
    } else {
      PaintedOutside(b.back, views[i..], damage, p);
      assert OnlyTopClear(views[i..]);
      TopClearSeen(views[i..], p);
    }
  }

  /**
   * Without the condition on clear views: a clean point outside the damage stays clean exactly if
   * no clear view, or one of the same colour, is drawn there.
   */
  lemma OutsideCleanExact(b: Buffers, views: seq<View>, damage: Rectangle, p: Vector2D)
    requires b.back.Keys == b.screen.Keys && p in b.screen && Clean(b, views, p) && !damage.Holds(p)
    ensures p in Drawn(b, views, damage).back && p in Drawn(b, views, damage).screen
    ensures Clean(Drawn(b, views, damage), views, p) <==>
      (SeenClear(views, p) == None || SeenClear(views, p) == Seen(views, p))
  {
    DrawnKeys(b, views, damage);
    PaintedOutside(b.back, views, damage, p);
  }

  /** A view that shows nothing at a point can change or move in the stack without being noticed there. */
  lemma {:induction false} SeenReplaced(views: seq<View>, i: nat, v: View, p: Vector2D)
    requires i < |views| && p !in views[i].shade && p !in v.shade
    ensures Seen(views[i := v], p) == Seen(views, p)
  {
    var n := |views| - 1;
    if i < n {
      assert views[i := v][..n] == views[..n][i := v];
      SeenReplaced(views[..n], i, v, p);
    } else {
      assert views[i := v][..n] == views[..n];
    }
  }

  lemma SeenInserted(views: seq<View>, k: nat, v: View, p: Vector2D)
    requires k <= |views| && p !in v.shade
    ensures Seen(views[..k] + [v] + views[k..], p) == Seen(views, p)
  {
    var all := views[..k] + [v] + views[k..];
    SeenSplit(views, k, p);
    SeenSplit(all, k + 1, p);
    assert all[k + 1..] == views[k..] && all[..k + 1][..k] == views[..k] && all[..k + 1][k] == v;
  }

  /** Every point of the screen is covered. */
  ghost predicate Covered(views: seq<View>, img: Image) {
    forall p :: p in img.Keys ==> Seen(views, p).Some?
  }

  /** A stack whose redraws can restore the composite: it covers the screen, and no view below its top is clear. */
  ghost predicate CanCompose(views: seq<View>, img: Image) {
    OnlyTopClear(views) && Covered(views, img)
  }

  /** The order of redraws that follows a change of the i-th view: first the rectangle it left, then itself. */
  ghost function AfterChange(b: Buffers, views: seq<View>, i: nat, left: Rectangle): Buffers
    requires i < |views| && b.back.Keys == b.screen.Keys
  {
    DrawnKeys(b, views, left);
    Drawn(Drawn(b, views, left), views[i..], views[i].area)
  }

  /**
   * Both buffers after a layer moved away from a rectangle: that is redrawn, then the layer, or
   * `stale` if it is not on the stack.
   */
  ghost function AfterMove(b: Buffers, views: seq<View>, o: nat, left: Rectangle, stale: Rectangle): Buffers
    requires b.back.Keys == b.screen.Keys
  {
    DrawnKeys(b, views, left);
    if o < |views| then AfterChange(b, views, o, left) else Drawn(Drawn(b, views, left), [], stale)
  }

  lemma MoveComposes(b: Buffers, b1: Buffers, b2: Buffers, views: seq<View>, o: nat, left: Rectangle, stale: Rectangle)
    requires b.back.Keys == b.screen.Keys && b1 == Drawn(b, views, left) && b1.back.Keys == b1.screen.Keys
    requires b2 == if o < |views| then Drawn(b1, views[o..], views[o].area) else Drawn(b1, [], stale)
    ensures b2 == AfterMove(b, views, o, left, stale)
  {
  }

  lemma DrawnSelf(views: seq<View>, i: nat, p: Vector2D)
    requires i < |views| && p in views[i].shade
    ensures Seen(views[i..], p).Some?
  {
    SeenBottom(views[i..], p);
  }

  /** Moving (or resizing, or repainting) one view: two partial redraws restore the composite everywhere. */
  lemma ChangeRestoresComposite(b: Buffers, views: seq<View>, i: nat, v: View)
    requires b.back.Keys == b.screen.Keys && i < |views| && views[i].Valid() && v.Valid()
    requires AllClean(b, views) && OnlyTopClear(views[i := v]) && Covered(views[i := v], b.screen)
    ensures var b' := AfterChange(b, views[i := v], i, views[i].area);
            b'.back.Keys == b'.screen.Keys == b.screen.Keys && AllClean(b', views[i := v])
  {
    var after, left := views[i := v], views[i].area;
    DrawnKeys(b, after, left);
    var b1 := Drawn(b, after, left);
    DrawnKeys(b1, after[i..], v.area);
    forall p | p in b.screen.Keys ensures Clean(Drawn(b1, after[i..], v.area), after, p) {
      assert Clean(b, views, p);
      if p in v.shade {
        DrawnSelf(after, i, p);
      } else {
        if !left.Holds(p) {
          SeenReplaced(views, i, v, p);
        }
        assert after[0..] == after;
        DrawnClean(b, after, 0, left, p);
      }
      DrawnClean(b1, after, i, v.area, p);
    }
  }

  /** Everything is clean except perhaps where a view shows something. */
  ghost predicate CleanBut(b: Buffers, views: seq<View>, v: View)
    requires b.back.Keys == b.screen.Keys
  {
    forall p :: p in b.screen.Keys ==> p in v.shade || Clean(b, views, p)
  }

  /** Everything is clean except perhaps where a view shows something inside an area. */
  ghost predicate CleanButIn(b: Buffers, views: seq<View>, v: View, area: Rectangle)
    requires b.back.Keys == b.screen.Keys
  {
    forall p :: p in b.screen.Keys ==> (p in v.shade && area.Holds(p)) || Clean(b, views, p)
  }

  /** A partial redraw of a view restores the composite if only the view's own points inside the area were wrong. */
  lemma PartRestoresComposite(b: Buffers, views: seq<View>, i: nat, area: Rectangle)
    requires b.back.Keys == b.screen.Keys && i < |views| && CleanButIn(b, views, views[i], area) && OnlyTopClear(views)
    ensures var b' := Drawn(b, views[i..], area);
            b'.back.Keys == b'.screen.Keys == b.screen.Keys && AllClean(b', views)
  {
    DrawnKeys(b, views[i..], area);
    forall p | p in b.screen.Keys ensures Clean(Drawn(b, views[i..], area), views, p) {
      if p in views[i].shade {
        DrawnSelf(views, i, p);
      }
      DrawnClean(b, views, i, area, p);
    }
  }

  /** Drawing a whole view, wherever it stands, restores the composite if only its own points were wrong. */
  lemma DrawRestoresComposite(b: Buffers, views: seq<View>, i: nat)
    requires b.back.Keys == b.screen.Keys && i < |views| && views[i].Valid()
    requires CleanBut(b, views, views[i]) && OnlyTopClear(views)
    ensures var b' := Drawn(b, views[i..], views[i].area);
            b'.back.Keys == b'.screen.Keys == b.screen.Keys && AllClean(b', views)
  {
    PartRestoresComposite(b, views, i, views[i].area);
  }

  lemma AreaKeepsComposite(b: Buffers, views: seq<View>, area: Rectangle)
    requires b.back.Keys == b.screen.Keys && AllClean(b, views) && OnlyTopClear(views)
    ensures var b' := Drawn(b, views, area); b'.back.Keys == b'.screen.Keys == b.screen.Keys && AllClean(b', views)
  {
    DrawnKeys(b, views, area);
    assert views[0..] == views;
    forall p | p in b.screen.Keys ensures Clean(Drawn(b, views, area), views, p) {
      assert Clean(b, views, p);
      DrawnClean(b, views, 0, area, p);
    }
  }

  /** Copying any area of a clean back buffer to the screen does no harm. */
  lemma CopyKeepsComposite(b: Buffers, views: seq<View>, area: Rectangle)
    requires b.back.Keys == b.screen.Keys && AllClean(b, views)
    ensures Drawn(b, [], area) == b
  {
    assert forall p :: p in b.screen.Keys ==> Clean(b, views, p);
  }

  /** New colours for the points that a view shows leave the rest of the composite alone. */
  lemma RepaintedClean(b: Buffers, views: seq<View>, i: nat, v: View)
    requires b.back.Keys == b.screen.Keys && i < |views| && AllClean(b, views) && v.shade.Keys == views[i].shade.Keys
    ensures CleanBut(b, views[i := v], v)
  {
    forall p | p in b.screen.Keys && p !in v.shade ensures Clean(b, views[i := v], p) {
      assert p !in views[i].shade.Keys && Clean(b, views, p);
      SeenReplaced(views, i, v, p);
    }
  }

  /** Drawing the whole screen makes it clean from any state. */
  lemma FullDrawCleans(b: Buffers, views: seq<View>, damage: Rectangle)
    requires b.back.Keys == b.screen.Keys && OnlyTopClear(views) && Covered(views, b.screen)
    requires forall p :: p in b.screen.Keys ==> damage.Holds(p)
    ensures Drawn(b, views, damage).back.Keys == Drawn(b, views, damage).screen.Keys &&
      AllClean(Drawn(b, views, damage), views)
  {
    DrawnKeys(b, views, damage);
    assert views[0..] == views;
    forall p | p in b.screen.Keys ensures Clean(Drawn(b, views, damage), views, p) {
      DrawnClean(b, views, 0, damage, p);
    }
  }

  const WHITE := Color(255, 255, 255)
  const RED := Color(255, 0, 0)

  ghost function OnePixel(solid: bool, c: Color): View {
    View(Rectangle(ORIGIN, Vector2D(1, 1)), solid, imap[ORIGIN := c])
  }

  /** A clear layer under a solid one: a redraw elsewhere spoils the back buffer of a clean point. */
  lemma ClearBelowFails()
    ensures var views := [OnePixel(true, BLACK), OnePixel(false, RED), OnePixel(true, WHITE)];
            var b := Buffers(imap[ORIGIN := WHITE], imap[ORIGIN := WHITE]);
            var b' := Drawn(b, views, Rectangle(Vector2D(5, 5), Vector2D(1, 1)));
            AllClean(b, views) && ORIGIN in b'.back && ORIGIN in b'.screen && !Clean(b', views, ORIGIN)
  {
    var bottom, middle, top := OnePixel(true, BLACK), OnePixel(false, RED), OnePixel(true, WHITE);
    var views, damage := [bottom, middle, top], Rectangle(Vector2D(5, 5), Vector2D(1, 1));
    var b := Buffers(imap[ORIGIN := WHITE], imap[ORIGIN := WHITE]);
    assert views[..2] == [bottom, middle];
    assert Seen(views, ORIGIN) == Some(WHITE) && SeenClear([bottom, middle], ORIGIN) == Some(RED);
    OutsideCleanExact(b, views, damage, ORIGIN);
  }
}
