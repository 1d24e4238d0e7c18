/** The layer stack and its redraws (Kernel/layer.cpp). */
module LayerManager {
  import opened Graphics
  import opened Compositor
  import FB = FrameBuffer
  import W = Window

  class Layer {
    const id: nat
    var pos: Vector2D
    var window: W.Window?

    constructor (id: nat)
      ensures this.id == id && pos == ORIGIN && window == null
    {
      this.id := id;
      pos, window := ORIGIN, null;
    }

    ghost predicate Valid()
      reads this
    {
      window != null ==> window.Valid()
    }

    ghost function Parts(): set<object>
      reads this
    {
      if window == null then {this} else {this, window, window.data, window.shadow.data}
    }

    ghost function View(format: FB.PixelFormat): View
      requires Valid()
      reads this, Parts()
    {
      if window == null then Compositor.View(Rectangle(pos, ORIGIN), true, imap[]) else window.ViewAt(pos, format)
    }

    /** The rectangle that the layer's window takes. */
    function Area(): Rectangle
      reads this
    {
      Rectangle(pos, if window == null then ORIGIN else window.size)
    }

    method DrawTo(dst: FB.FrameBuffer, damage: Rectangle)
      requires Valid() && dst.Valid() && dst.data !in Parts() && damage.size.NonNegative()
      modifies dst.data
      ensures dst.Image() == Painted(old(dst.Image()), View(dst.format), damage)
    {
      if window != null {
        window.DrawTo(dst, pos, damage);
      } else {
        PaintsNothing(dst.Image(), View(dst.format), damage);
      }
    }
  }

  lemma PaintsNothing(img: Image, v: View, damage: Rectangle)
    requires v.shade == imap[]
    ensures Painted(img, v, damage) == img
  {
  }

  ghost predicate AllValid(stack: seq<Layer>)
    reads stack
  {
    forall i :: 0 <= i < |stack| ==> stack[i].Valid()
  }

  ghost function Parts(stack: seq<Layer>): (r: set<object>)
    reads stack
    ensures forall i :: 0 <= i < |stack| ==> stack[i].Parts() <= r
  {
    if stack == [] then {} else Parts(stack[..|stack| - 1]) + stack[|stack| - 1].Parts()
  }

  ghost function Views(stack: seq<Layer>, format: FB.PixelFormat): (r: seq<View>)
    requires AllValid(stack)
    reads stack, Parts(stack)
    ensures |r| == |stack| && forall i :: 0 <= i < |stack| ==> r[i] == stack[i].View(format)
  {
    hide Layer.View, Layer.Valid, Layer.Parts;
    if stack == [] then []
    else
      var rest := stack[..|stack| - 1];
      assert forall i :: 0 <= i < |rest| ==> rest[i] == stack[i];
      Views(rest, format) + [stack[|stack| - 1].View(format)]
  }

  /** The layers do not use the buffer's pixels themselves. */
  ghost predicate Apart(stack: seq<Layer>, data: array<Color>)
    reads stack
  {
    forall i :: 0 <= i < |stack| ==> data !in stack[i].Parts()
  }

  predicate Distinct(stack: seq<Layer>) {
    forall i, j :: 0 <= i < j < |stack| ==> stack[i] != stack[j]
  }

  /** Two negative sizes stand for the whole window. */
  predicate InPart(area: Rectangle, q: Vector2D) {
    (area.size.x < 0 && area.size.y < 0) ||
    (area.pos.x <= q.x < area.pos.x + area.size.x && area.pos.y <= q.y < area.pos.y + area.size.y)
  }

  class LayerManager {
    const screen: FB.FrameBuffer
    const backBuffer: FB.FrameBuffer
    var layers: seq<Layer>      // all layers; the i-th one made has id i
    var layerStack: seq<Layer>  // the visible ones, from bottom to top

    ghost predicate Valid()
      reads this, layers, layerStack
    {
      && screen.Valid() && backBuffer.Valid() && screen.data != backBuffer.data
      && screen.size == backBuffer.size && screen.format == backBuffer.format
      && AllValid(layers) && Apart(layers, screen.data) && Apart(layers, backBuffer.data)
      && (forall i :: 0 <= i < |layers| ==> layers[i].id == i + 1)
      && AllValid(layerStack) && Apart(layerStack, screen.data) && Apart(layerStack, backBuffer.data)
      && (forall i :: 0 <= i < |layerStack| ==>
        1 <= layerStack[i].id <= |layers| && layerStack[i] == layers[layerStack[i].id - 1])
      && Distinct(layerStack)
    }

    ghost function StackViews(): (r: seq<View>)
      requires Valid()
      reads this, layers, layerStack, Parts(layerStack)
      ensures |r| == |layerStack|
    {
      Views(layerStack, backBuffer.format)
    }

    ghost function Buffers(): (r: Buffers)
      requires Valid()
      reads this, layers, layerStack, backBuffer.data, screen.data
      ensures r.back.Keys == r.screen.Keys
    {
      FB.PixelKeys(backBuffer.data[..], backBuffer.stride, backBuffer.size);
      FB.PixelKeys(screen.data[..], screen.stride, screen.size);
      Compositor.Buffers(backBuffer.Image(), screen.Image())
    }

    /** The new screen: the same size and format, nothing on it yet. */
    constructor SetWriter(screen: FB.FrameBuffer)
      requires screen.Valid()
      ensures Valid() && this.screen == screen && fresh(backBuffer) && fresh(backBuffer.data) && layers == [] &&
        layerStack == []
    {
      this.screen := screen;
      backBuffer := new FB.FrameBuffer.Initialize(screen.size, screen.format);
      layers, layerStack := [], [];
    }

    /** A new layer, not yet on the stack and without a window. Ids count from 1. */
    method NewLayer() returns (layer: Layer)
      requires Valid()
      modifies `layers
      ensures Valid() && fresh(layer) && layer.id == |layers| && layer.pos == ORIGIN && layer.window == null
      ensures layers == old(layers) + [layer]
    {
      layer := new Layer(|layers| + 1);
      layers := layers + [layer];
    }

    /** Copying this area of the back buffer to the screen copies no row of a negative length. */
    predicate Harmless(area: Rectangle) {
      FB.Copyable(FB.CopyArea(area.pos, area, screen.size, backBuffer.size))
    }

    lemma NonNegativeHarmless(area: Rectangle)
      requires Valid() && area.size.NonNegative()
      ensures Harmless(area)
    {
      FB.CopyAreaFacts(screen.size, backBuffer.size, area.pos, area);
    }

    /** Copies the damaged part of the back buffer to the screen. */
    method CopyToScreen(damage: Rectangle)
      requires Valid() && Harmless(damage)
      modifies screen.data
      ensures screen.Image() == imap p: Vector2D | p in old(screen.Image()) ::
                if damage.Holds(p) then backBuffer.Image()[p] else old(screen.Image())[p]
    {
      FB.PixelKeys(backBuffer.data[..], backBuffer.stride, backBuffer.size);
      FB.PixelKeys(screen.data[..], screen.stride, screen.size);
      hide AllValid, Apart, Distinct, FB.Pixels, Rectangle.And;
      var _ := screen.Copy(damage.pos, backBuffer, damage);
    }

    function FindLayer(id: nat): (r: Layer?)
      requires Valid()
      reads this, layers, layerStack
      ensures r != null <==> exists i :: 0 <= i < |layers| && layers[i].id == id
      ensures r != null ==> r in layers && r.id == id && r.Valid()
    {
      if 1 <= id <= |layers| then
        assert layers[id - 1].id == id;
        layers[id - 1]
      else null
    }

    /** Draws the layers from the k-th up and brings the damaged area to the screen. */
    method Redraw(k: nat, damage: Rectangle)
      requires Valid() && k <= |layerStack|
      requires if k < |layerStack| then damage.size.NonNegative() else Harmless(damage)
      modifies backBuffer.data, screen.data
      ensures Valid() && StackViews() == old(StackViews())
      ensures Buffers() == Drawn(old(Buffers()), StackViews()[k..], damage)
    {
      hide FB.FrameBuffer.Image, FB.FrameBuffer.Valid, Painted, PaintedAll, Views, Layer.View, Layer.Valid, Parts,
           AllValid, Apart, Distinct;
      if k < |layerStack| {
        NonNegativeHarmless(damage);
      }
      PartsApart(layerStack, backBuffer.data);
      PartsApart(layerStack, screen.data);
      ghost var before := Buffers();
      DrawFrom(layerStack, k, backBuffer, damage);
      ghost var views := StackViews();
      label painted:
      CopyToScreen(damage);
      PaintedKeys(before.back, views[k..], damage);
      assert StackViews() == views;
    }

    /** Draws every layer in an area of the screen. */
    method Draw(area: Rectangle)
      requires Valid() && area.size.NonNegative()
      modifies backBuffer.data, screen.data
      ensures Valid() && StackViews() == old(StackViews())
      ensures Buffers() == Drawn(old(Buffers()), StackViews(), area)
    {
      NonNegativeHarmless(area);
      hide Valid, StackViews, Buffers, Drawn;
      Redraw(0, area);
      assert StackViews()[0..] == StackViews();
    }

    /** The place of a layer in the stack. */
    ghost predicate At(id: nat, k: nat)
      reads this
    {
      k < |layerStack| && layerStack[k].id == id
    }

    /** The height of a layer in the stack, or -1. */
    method GetHeight(id: nat) returns (h: int)
      ensures if h < 0 then h == -1 && forall k :: !At(id, k) else At(id, h) && forall k :: 0 <= k < h ==> !At(id, k)
    {
      for i := 0 to |layerStack|
        invariant forall k :: 0 <= k < i ==> !At(id, k)
      {
        if layerStack[i].id == id {
          return i;
        }
      }
      return -1;
    }

    lemma OneHeight(id: nat, j: nat, k: nat)
      requires Valid() && At(id, j) && At(id, k)
      ensures j == k
    {
    }

    /** A point of the screen lies in the k-th layer's window and, in window coordinates, in the given part of it. */
    predicate DrawnAt(k: nat, area: Rectangle, p: Vector2D)
      requires k < |layerStack| && layerStack[k].window != null
      reads this, layerStack
    {
      var q, size := p.Minus(layerStack[k].pos), layerStack[k].window.size;
      0 <= q.x < size.x && 0 <= q.y < size.y && InPart(area, q)
    }

    /**
     * What is drawn for the k-th layer: its whole rectangle, or the part of it that is given
     * relative to its position.
     */
    function Damage(k: nat, area: Rectangle): (damage: Rectangle)
      requires k < |layerStack| && layerStack[k].window != null
      reads this, layerStack
      ensures forall p :: damage.Holds(p) <==> DrawnAt(k, area, p)
    {
      AndIsIntersection(Rectangle(layerStack[k].pos, layerStack[k].window.size),
                        Rectangle(area.pos.Plus(layerStack[k].pos), area.size));
      var windowArea := Rectangle(layerStack[k].pos, layerStack[k].window.size);
      if area.size.x >= 0 || area.size.y >= 0 then windowArea.And(Rectangle(area.pos.Plus(windowArea.pos), area.size))
        else windowArea
    }

    lemma DamageSize(k: nat, area: Rectangle)
      requires Valid() && k < |layerStack| && layerStack[k].window != null
      requires area.size.NonNegative() || (area.size.x < 0 && area.size.y < 0)
      ensures Damage(k, area).size.NonNegative()
      ensures area.size.x < 0 ==> Damage(k, area) == StackViews()[k].area
      ensures StackViews()[k].Valid()
    {
    }

    /** Every layer of the stack with the id has a window; without one, copying the never-set area does no harm. */
    ghost predicate CanDraw(id: nat, stale: Rectangle)
      reads this, layerStack
    {
      && (forall k: nat :: At(id, k) ==> layerStack[k].window != null)
      && (Harmless(stale) || exists k: nat :: At(id, k))
    }

    /**
     * A point of the screen changes only in that part of the window, and there to the topmost of the
     * layer and those above it, or the back buffer where they show nothing.
     */
    ghost predicate Redrawn(b: Buffers, b': Buffers, k: nat, area: Rectangle)
      requires Valid() && k < |layerStack| && layerStack[k].window != null && b.back.Keys == b.screen.Keys
      reads this, layers, layerStack, Parts(layerStack)
    {
      b'.screen.Keys == b.screen.Keys && forall p :: p in b.screen.Keys ==>
        b'.screen[p] == if DrawnAt(k, area, p)
                        then (match Seen(StackViews()[k..], p) case Some(c) => c case None => b.back[p])
                        else b.screen[p]
    }

    lemma DrawnRedrawn(b: Buffers, k: nat, area: Rectangle)
      requires Valid() && k < |layerStack| && layerStack[k].window != null && b.back.Keys == b.screen.Keys
      ensures Redrawn(b, Drawn(b, StackViews()[k..], Damage(k, area)), k, area)
    {
      var views, damage := StackViews()[k..], Damage(k, area);
      hide Valid, StackViews, Damage, PaintedAll;
      forall p | p in b.screen.Keys && damage.Holds(p) {
        PaintedInside(b.back, views, damage, p);
      }
    }

    /**
     * Draws a layer, or a part of it, and what lies above. A layer that is not on the stack is not
     * drawn, but some area is copied to the screen all the same: `stale`, which the code never sets.
     */
    method DrawLayerArea(id: nat, area: Rectangle, stale: Rectangle)
      requires Valid() && CanDraw(id, stale)
      requires area.size.NonNegative() || (area.size.x < 0 && area.size.y < 0)
      modifies backBuffer.data, screen.data
      ensures Valid() && StackViews() == old(StackViews())
      ensures forall k: nat :: At(id, k) ==> Buffers() == Drawn(old(Buffers()), StackViews()[k..], Damage(k, area))
      ensures forall k: nat :: At(id, k) ==> Redrawn(old(Buffers()), Buffers(), k, area)
      ensures (forall k: nat :: !At(id, k)) ==> Buffers() == Drawn(old(Buffers()), [], stale)
    {
      hide Valid, StackViews, Buffers, Drawn, Damage;
      var i := 0;
      while i < |layerStack| && layerStack[i].id != id
        invariant 0 <= i <= |layerStack| && forall j: nat :: j < i ==> !At(id, j)
      {
        i := i + 1;
      }
      if i == |layerStack| {
        Redraw(i, stale);
        assert StackViews()[i..] == [];
        return;
      }
      assert At(id, i);
      forall j: nat | At(id, j) ensures j == i {
        OneHeight(id, i, j);
      }
      DamageSize(i, area);
      DrawnRedrawn(Buffers(), i, area);
      hide At;
      Redraw(i, Damage(i, area));
    }

    /**
     * At most the points of the k-th layer inside the part to be drawn are wrong, and no layer
     * below the top is clear.
     */
    ghost predicate OnlyPartWrong(b: Buffers, k: nat, area: Rectangle)
      requires Valid() && k < |layerStack| && layerStack[k].window != null && b.back.Keys == b.screen.Keys
      reads this, layers, layerStack, Parts(layerStack)
    {
      OnlyTopClear(StackViews()) && forall p :: p in b.screen.Keys ==>
        Clean(b, StackViews(), p) || (p in StackViews()[k].shade && InPart(area, p.Minus(layerStack[k].pos)))
    }

    lemma PartIsDamage(b: Buffers, k: nat, area: Rectangle)
      requires Valid() && k < |layerStack| && layerStack[k].window != null && b.back.Keys == b.screen.Keys
      requires OnlyPartWrong(b, k, area)
      ensures OnlyTopClear(StackViews()) && CleanButIn(b, StackViews(), StackViews()[k], Damage(k, area))
    {
      KthArea(k);
      var v := StackViews()[k];
      hide Valid, StackViews, Damage, Clean, OnlyTopClear;
      forall p | p in b.screen.Keys && p in v.shade && InPart(area, p.Minus(layerStack[k].pos))
        ensures DrawnAt(k, area, p)
      {
        assert v.area.Holds(p);
      }
    }

    /** Redrawing part of a layer restores the composite if only its points there were wrong. */
    method DrawPart(id: nat, area: Rectangle, stale: Rectangle)
      requires Valid() && CanDraw(id, stale)
      requires area.size.NonNegative() || (area.size.x < 0 && area.size.y < 0)
      modifies backBuffer.data, screen.data
      ensures Valid() && StackViews() == old(StackViews())
      ensures forall k: nat :: At(id, k) && OnlyPartWrong(old(Buffers()), k, area) ==> AllClean(Buffers(), StackViews())
      ensures (forall k: nat :: !At(id, k)) && old(AllClean(Buffers(), StackViews())) ==> Buffers() == old(Buffers())
    {
      hide Valid, StackViews, Buffers, Drawn, Damage, CleanButIn, AllClean, OnlyTopClear, OnlyPartWrong, Redrawn;
      ghost var b, views := Buffers(), StackViews();
      DrawLayerArea(id, area, stale);
      forall k: nat | At(id, k) && OnlyPartWrong(b, k, area) ensures AllClean(Buffers(), views) {
        PartIsDamage(b, k, area);
        PartRestoresComposite(b, views, k, Damage(k, area));
      }
      if AllClean(b, views) {
        CopyKeepsComposite(b, views, stale);
      }
    }

    method DrawLayer(id: nat, stale: Rectangle)
      requires Valid() && CanDraw(id, stale)
      modifies backBuffer.data, screen.data
      ensures Valid() && StackViews() == old(StackViews())
      ensures forall k: nat :: At(id, k) ==> Buffers() == Drawn(old(Buffers()), StackViews()[k..], StackViews()[k].area)
      ensures (forall k: nat :: !At(id, k)) ==> Buffers() == Drawn(old(Buffers()), [], stale)
    {
      hide StackViews, Buffers, Drawn;
      var whole := Rectangle(ORIGIN, Vector2D(-1, -1));
      forall k: nat | At(id, k) ensures Damage(k, whole) == StackViews()[k].area {
        DamageSize(k, whole);
      }
      hide Valid, Damage;
      DrawLayerArea(id, whole, stale);
    }

    /** `o` is the place of a layer in the stack, or the stack's length if it is not there. */
    ghost predicate Stands(layer: Layer, o: nat)
      reads this
    {
      layer in layers && o <= |layerStack| && (if o < |layerStack| then layerStack[o] == layer
        else layer !in layerStack)
    }

    lemma StandsAt(layer: Layer, o: nat)
      requires Valid() && Stands(layer, o)
      ensures layer.Valid() && FindLayer(layer.id) == layer
      ensures forall k: nat :: At(layer.id, k) <==> k == o < |layerStack|
    {
    }

    lemma CanDrawStanding(layer: Layer, o: nat, stale: Rectangle)
      requires Valid() && Stands(layer, o) && layer.window != null && (o == |layerStack| ==> Harmless(stale))
      ensures CanDraw(layer.id, stale) && layer.Valid() && layer.window.size.NonNegative()
      ensures backBuffer.data !in layer.Parts() && screen.data !in layer.Parts()
      ensures forall k: nat :: At(layer.id, k) <==> k == o < |layerStack|
    {
      StandsAt(layer, o);
      assert o < |layerStack| ==> At(layer.id, o);
      assert exists i :: 0 <= i < |layers| && layers[i] == layer;
    }

    /** The views of the stack after one layer may have changed. */
    ghost function ViewsWith(views: seq<View>, layer: Layer, o: nat): seq<View>
      requires layer.Valid()
      reads layer, layer.Parts()
    {
      if o < |views| then views[o := layer.View(backBuffer.format)] else views
    }

    /** A layer's new position changes its own view only. */
    method Reposition(layer: Layer, ghost o: nat, pos: Vector2D)
      requires Valid() && Stands(layer, o)
      modifies layer`pos
      ensures Valid() && layer.Valid() && layer.pos == pos && Buffers() == old(Buffers())
      ensures StackViews() == ViewsWith(old(StackViews()), layer, o)
    {
      hide FB.FrameBuffer.Image, FB.FrameBuffer.Valid, Parts, W.Window.ViewAt, Layer.View, W.Window.Valid, Views;
      ghost var views := StackViews();
      StandsAt(layer, o);
      layer.pos := pos;
    }

    /** Moves a layer: the place it left is redrawn, then the layer at its new place, if it is on the stack. */
    method MoveLayer(layer: Layer, ghost o: nat, newPosition: Vector2D, stale: Rectangle)
      requires Valid() && Stands(layer, o) && layer.window != null && (o == |layerStack| ==> Harmless(stale))
      modifies layer`pos, backBuffer.data, screen.data
      ensures Valid() && layer.Valid() && layer.pos == newPosition
      ensures StackViews() == ViewsWith(old(StackViews()), layer, o)
      ensures Buffers() == AfterMove(old(Buffers()), StackViews(), o, old(Rectangle(layer.pos, layer.window.size)),
        stale)
    {
      hide StackViews, Buffers, Drawn, AfterMove, Layer.View, ViewsWith, Valid, CanDraw;
      var oldPos, windowSize := layer.pos, layer.window.size;
      CanDrawStanding(layer, o, stale);
      Reposition(layer, o, newPosition);
      ghost var b, views := Buffers(), StackViews();
      CanDrawStanding(layer, o, stale);
      Draw(Rectangle(oldPos, windowSize));
      ghost var b1 := Buffers();
      assert b1 == Drawn(b, views, Rectangle(oldPos, windowSize));
      CanDrawStanding(layer, o, stale);
      DrawLayer(layer.id, stale);
      assert o < |layerStack| ==> At(layer.id, o);
      MoveComposes(b, b1, Buffers(), views, o, Rectangle(oldPos, windowSize), stale);
    }

    lemma KthView(k: nat)
      requires Valid() && k < |layerStack|
      ensures StackViews()[k] == layerStack[k].View(backBuffer.format)
    {
    }

    lemma KthArea(k: nat)
      requires Valid() && k < |layerStack| && layerStack[k].window != null
      ensures StackViews()[k] == layerStack[k].View(backBuffer.format) && StackViews()[k].Valid()
      ensures StackViews()[k].area == Rectangle(layerStack[k].pos, layerStack[k].window.size)
      ensures layerStack[k].window.size.NonNegative()
    {
    }

    /**
     * Moving a layer restores the composite everywhere, if the new stack covers the screen and has
     * no clear layer below its top.
     */
    method MoveClean(layer: Layer, ghost o: nat, newPosition: Vector2D, stale: Rectangle)
      requires Valid() && Stands(layer, o) && layer.window != null && (o == |layerStack| ==> Harmless(stale))
      modifies layer`pos, backBuffer.data, screen.data
      ensures Valid() && layer.Valid() && layer.pos == newPosition
      ensures StackViews() == ViewsWith(old(StackViews()), layer, o)
      ensures Buffers() == AfterMove(old(Buffers()), StackViews(), o, old(Rectangle(layer.pos, layer.window.size)),
        stale)
      ensures old(AllClean(Buffers(), StackViews())) && CanCompose(StackViews(), old(Buffers()).screen) ==>
                AllClean(Buffers(), StackViews())
    {
      hide StackViews, Buffers, AfterChange, Drawn, AllClean, OnlyTopClear, Covered, Layer.View, Valid;
      ghost var buffers, views, left := Buffers(), StackViews(), Rectangle(layer.pos, layer.window.size);
      if o < |layerStack| {
        KthArea(o);
      }
      MoveLayer(layer, o, newPosition, stale);
      if AllClean(buffers, views) && CanCompose(StackViews(), buffers.screen) {
        if o < |layerStack| {
          KthArea(o);
          ChangeRestoresComposite(buffers, views, o, StackViews()[o]);
        } else {
          AreaKeepsComposite(buffers, views, left);
          CopyKeepsComposite(Drawn(buffers, views, left), views, stale);
        }
      }
    }

    /** What moving a layer needs: it has a window and, off the stack, copying the never-set area does no harm. */
    ghost predicate CanMove(id: nat, stale: Rectangle)
      requires Valid()
      reads this, layers, layerStack
    {
      FindLayer(id) != null ==> FindLayer(id).window != null && CanDraw(id, stale)
    }

    /** Moves the layer with an id, if there is one, whether it is on the stack or not. */
    method Move(id: nat, newPosition: Vector2D, stale: Rectangle)
      requires Valid() && CanMove(id, stale)
      modifies (set l | l in layers && l.id == id), backBuffer.data, screen.data
      ensures Valid() && (FindLayer(id) == null ==> StackViews() == old(StackViews()) && Buffers() == old(Buffers()))
      ensures FindLayer(id) != null ==>
                FindLayer(id).pos == newPosition && FindLayer(id).window == old(FindLayer(id).window)
      ensures forall o: nat :: FindLayer(id) != null && Stands(FindLayer(id), o) ==>
                && StackViews() == ViewsWith(old(StackViews()), FindLayer(id), o)
                && Buffers() == AfterMove(old(Buffers()), StackViews(), o, old(FindLayer(id).Area()), stale)
      ensures old(AllClean(Buffers(), StackViews())) && CanCompose(StackViews(), old(Buffers()).screen) ==>
                AllClean(Buffers(), StackViews())
    {
      hide StackViews, Buffers, AfterMove, ViewsWith, AllClean, OnlyTopClear, Covered, Layer.View;
      var layer := FindLayer(id);
      if layer != null {
        ghost var o := IndexOf(layerStack, layer);
        StandsAt(layer, o);
        forall j: nat | Stands(layer, j) ensures j == o {
          StandsAt(layer, j);
        }
        hide Valid;
        MoveClean(layer, o, newPosition, stale);
      }
    }

    method MoveRelative(id: nat, posDiff: Vector2D, stale: Rectangle)
      requires Valid() && CanMove(id, stale)
      modifies (set l | l in layers && l.id == id), backBuffer.data, screen.data
      ensures Valid() && (FindLayer(id) != null ==> FindLayer(id).pos == old(FindLayer(id).pos).Plus(posDiff))
      ensures old(AllClean(Buffers(), StackViews())) && CanCompose(StackViews(), old(Buffers()).screen) ==>
                AllClean(Buffers(), StackViews())
    {
      hide StackViews, Buffers, AfterChange, AllClean, OnlyTopClear, Covered, Layer.View;
      var layer := FindLayer(id);
      if layer != null {
        Move(id, layer.pos.Plus(posDiff), stale);
      }
    }

    /** The index of a layer in the stack, or the stack's length. */
    method StackIndex(layer: Layer?) returns (o: nat)
      ensures o <= |layerStack| && (o < |layerStack| ==> layerStack[o] == layer) && forall i :: 0 <= i < o ==>
        layerStack[i] != layer
    {
      o := 0;
      while o < |layerStack| && layerStack[o] != layer
        invariant 0 <= o <= |layerStack| && forall i :: 0 <= i < o ==> layerStack[i] != layer
      {
        o := o + 1;
      }
    }

    /** Any stack of different layers will do. */
    lemma StackValid(stack: seq<Layer>)
      requires Valid() && Distinct(stack) && forall i :: 0 <= i < |stack| ==> stack[i] in layers
      ensures AllValid(stack) && Apart(stack, screen.data) && Apart(stack, backBuffer.data)
      ensures forall i :: 0 <= i < |stack| ==> 1 <= stack[i].id <= |layers| && stack[i] == layers[stack[i].id - 1]
    {
    }

    lemma StackInLayers()
      requires Valid()
      ensures Distinct(layerStack) && forall i :: 0 <= i < |layerStack| ==> layerStack[i] in layers
    {
    }

    method Restack(stack: seq<Layer>)
      requires Valid() && Distinct(stack) && forall i :: 0 <= i < |stack| ==> stack[i] in layers
      modifies `layerStack
      ensures Valid() && layerStack == stack
    {
      StackValid(stack);
      hide Layer.Valid, Layer.Parts, FB.FrameBuffer.Valid, AllValid, Apart, Distinct;
      layerStack := stack;
    }

    method Hide(id: nat)
      requires Valid()
      modifies `layerStack
      ensures Valid() && layerStack == Removed(old(layerStack), old(FindLayer(id)))
    {
      hide Valid, Distinct;
      var layer := FindLayer(id);
      var o := StackIndex(layer);
      StackInLayers();
      RemovedAt(layerStack, layer, o);
      RemovedDistinct(layerStack, layer);
      if o < |layerStack| {
        Restack(layerStack[..o] + layerStack[o + 1..]);
      }
    }

    /** Puts a layer at a height; a negative height hides it. */
    method UpDown(id: nat, newHeight: int)
      requires Valid() && (newHeight >= 0 ==> FindLayer(id) != null)
      modifies `layerStack
      ensures Valid()
      ensures newHeight < 0 ==> layerStack == Removed(old(layerStack), old(FindLayer(id)))
      ensures newHeight >= 0 ==> layerStack == Placed(old(layerStack), old(FindLayer(id)), newHeight)
    {
      hide Valid, Distinct;
      if newHeight < 0 {
        Hide(id);
        return;
      }
      var newPos := if newHeight > |layerStack| then |layerStack| else newHeight;
      var layer := FindLayer(id);
      var o := StackIndex(layer);
      StackInLayers();
      RemovedAt(layerStack, layer, o);
      RemovedDistinct(layerStack, layer);
      PlacedDistinct(Removed(layerStack, layer), layer, newHeight);
      if o == |layerStack| {
        Restack(layerStack[..newPos] + [layer] + layerStack[newPos..]);
        return;
      }
      if newPos == |layerStack| {
        newPos := newPos - 1;
      }
      Restack(layerStack[..o] + layerStack[o + 1..]);
      Restack(layerStack[..newPos] + [layer] + layerStack[newPos..]);
    }
  }

  /** Nothing that the views depend on lies in the buffer. */
  lemma PartsApart(stack: seq<Layer>, data: array<Color>)
    requires Apart(stack, data)
    ensures data !in Parts(stack)
  {
  }

  lemma {:induction false} IndexOf(stack: seq<Layer>, layer: Layer) returns (o: nat)
    ensures o <= |stack| && (o < |stack| ==> stack[o] == layer) && forall i :: 0 <= i < o ==> stack[i] != layer
  {
    if stack == [] || stack[0] == layer {
      o := 0;
    } else {
      o := IndexOf(stack[1..], layer);
      o := o + 1;
    }
  }

  /** Draws the layers from the k-th up. */
  method DrawFrom(stack: seq<Layer>, k: nat, dst: FB.FrameBuffer, damage: Rectangle)
    requires AllValid(stack) && Apart(stack, dst.data) && dst.Valid() && k <= |stack|
    requires k < |stack| ==> damage.size.NonNegative()
    modifies dst.data
    ensures Views(stack, dst.format) == old(Views(stack, dst.format))
    ensures dst.Image() == PaintedAll(old(dst.Image()), Views(stack, dst.format)[k..], damage)
  {
    hide FB.FrameBuffer.Image, FB.FrameBuffer.Valid, Painted, PaintedAll, Views, Layer.View, Layer.Valid, Parts;
    PartsApart(stack, dst.data);
    ghost var before, views := dst.Image(), Views(stack, dst.format);
    NonePainted(before, views, k, damage);
    for i := k to |stack|
      invariant Views(stack, dst.format) == views && dst.data !in Parts(stack)
      invariant dst.Image() == PaintedAll(before, views[k..i], damage)
    {
      stack[i].DrawTo(dst, damage);
      OnePainted(before, views, k, i, damage);
    }
    assert views[k..|stack|] == views[k..];
  }

  lemma NonePainted(img: Image, views: seq<View>, k: nat, damage: Rectangle)
    requires k <= |views|
    ensures PaintedAll(img, views[k..k], damage) == img
  {
  }

  lemma OnePainted(img: Image, views: seq<View>, k: nat, i: nat, damage: Rectangle)
    requires k <= i < |views|
    ensures PaintedAll(img, views[k..i + 1], damage) == Painted(PaintedAll(img, views[k..i], damage), views[i], damage)
  {
    assert views[k..i + 1][..i - k] == views[k..i] && views[k..i + 1][i - k] == views[i];
  }

  /** A stack without a layer. */
  function Removed(stack: seq<Layer>, layer: Layer?): seq<Layer> {
    if stack == [] then [] else if stack[0] == layer then stack[1..] else [stack[0]] + Removed(stack[1..], layer)
  }

  /** A layer taken out of a stack, if it is there, and put in at a height, as far as there are layers below it. */
  function Placed(stack: seq<Layer>, layer: Layer, height: nat): seq<Layer> {
    var rest := Removed(stack, layer);
    var h := if height > |rest| then |rest| else height;
    rest[..h] + [layer] + rest[h..]
  }

  /** A layer that is placed stands at the height given, or on top; all others keep their order. */
  lemma PlacedExact(stack: seq<Layer>, layer: Layer, height: nat)
    requires Distinct(stack)
    ensures var after, others := Placed(stack, layer, height), Removed(stack, layer);
            var h: nat := if height < |after| then height else |after| - 1;
            && |after| == |others| + 1 && after[h] == layer && layer !in others
            && after[..h] == others[..h] && after[h + 1..] == others[h..]
  {
    RemovedDistinct(stack, layer);
  }

  lemma {:induction false} RemovedAt(stack: seq<Layer>, layer: Layer?, o: nat)
    requires o <= |stack| && (o < |stack| ==> stack[o] == layer) && forall i :: 0 <= i < o ==> stack[i] != layer
    ensures Removed(stack, layer) == if o < |stack| then stack[..o] + stack[o + 1..] else stack
  {
    if o > 0 {
      RemovedAt(stack[1..], layer, o - 1);
      assert stack == [stack[0]] + stack[1..];
      assert o < |stack| ==> stack[1..][..o - 1] == stack[1..o] && stack[1..][o..] == stack[o + 1..];
    }
  }

  lemma {:induction false} RemovedDistinct(stack: seq<Layer>, layer: Layer?)
    requires Distinct(stack)
    ensures Distinct(Removed(stack, layer)) && layer !in Removed(stack, layer)
    ensures forall i :: 0 <= i < |Removed(stack, layer)| ==> Removed(stack, layer)[i] in stack
  {
    if stack != [] {
      RemovedDistinct(stack[1..], layer);
    }
  }

  lemma PlacedDistinct(rest: seq<Layer>, layer: Layer, h: nat)
    requires Distinct(rest) && layer !in rest
    ensures var at := if h > |rest| then |rest| else h;
            && Distinct(rest[..at] + [layer] + rest[at..])
            && forall i :: 0 <= i < |rest| + 1 ==>
              (rest[..at] + [layer] + rest[at..])[i] == layer || (rest[..at] + [layer] + rest[at..])[i] in rest
  {
  }
}
