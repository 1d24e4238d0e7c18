/** Which window is active (Kernel/layer.cpp): activating one puts it at the height below the mouse's. */
module ActiveLayer {
  import opened Common
  import opened Graphics
  import opened Compositor
  import opened LayerManager
  import FB = FrameBuffer
  import W = Window

  function PlacedAt(stack: seq<Layer>, layer: Layer, height: nat): nat {
    var n := |Removed(stack, layer)|;
    if height > n then n else height
  }

  /** Two stacks that differ only in where one view stands, or whether it does, look alike where it shows nothing. */
  lemma SameElsewhere(rest: seq<View>, v: View, from: Option<nat>, to: nat, p: Vector2D)
    requires to <= |rest| && (from.Some? ==> from.value <= |rest|) && p !in v.shade
    ensures Seen(rest[..to] + [v] + rest[to..], p)
            == Seen(if from.Some? then rest[..from.value] + [v] + rest[from.value..] else rest, p)
  {
    SeenInserted(rest, to, v, p);
    if from.Some? {
      SeenInserted(rest, from.value, v, p);
    }
  }

  lemma InsertedViews(rest: seq<Layer>, k: nat, layer: Layer, format: FB.PixelFormat)
    requires AllValid(rest) && layer.Valid() && k <= |rest|
    ensures AllValid(rest[..k] + [layer] + rest[k..])
    ensures Views(rest[..k] + [layer] + rest[k..], format) ==
      Views(rest, format)[..k] + [layer.View(format)] + Views(rest, format)[k..]
  {
    hide Layer.View, Layer.Valid, Views;
  }

  /** The same for stacks of layers. */
  lemma SameElsewhereViews(rest: seq<Layer>, layer: Layer, from: Option<nat>, to: nat, format: FB.PixelFormat,
      p: Vector2D)
    requires AllValid(rest) && layer.Valid() && to <= |rest| && (from.Some? ==> from.value <= |rest|)
    ensures var after := rest[..to] + [layer] + rest[to..];
            var before := if from.Some? then rest[..from.value] + [layer] + rest[from.value..] else rest;
            && AllValid(after) && AllValid(before)
            && (p !in layer.View(format).shade ==> Seen(Views(after, format), p) == Seen(Views(before, format), p))
  {
    hide Layer.View, Layer.Valid, Views, AllValid;
    InsertedViews(rest, to, layer, format);
    if from.Some? {
      InsertedViews(rest, from.value, layer, format);
    }
    if p !in layer.View(format).shade {
      SameElsewhere(Views(rest, format), layer.View(format), from, to, p);
    }
  }

  lemma PlacedViews(stack: seq<Layer>, layer: Layer, height: nat, format: FB.PixelFormat, o: nat, p: Vector2D)
    requires AllValid(stack) && layer.Valid()
    requires o <= |stack| && (o < |stack| ==> stack[o] == layer) && forall i :: 0 <= i < o ==> stack[i] != layer
    ensures var k, after := PlacedAt(stack, layer, height), Placed(stack, layer, height);
            && k < |after| && after[k] == layer && AllValid(after)
            && (p !in layer.View(format).shade ==> Seen(Views(after, format), p) == Seen(Views(stack, format), p))
  {
    hide Layer.View, Layer.Valid, Views, Seen, Removed;
    RemovedAt(stack, layer, o);
    var rest, from := Removed(stack, layer), if o < |stack| then Some(o) else None;
    SameElsewhereViews(rest, layer, from, PlacedAt(stack, layer, height), format, p);
    assert from.Some? ==> stack == rest[..o] + [layer] + rest[o..];
  }

  /** A layer from below the m-th one, placed at height m - 1, ends directly below it. */
  lemma RaisedBelow(stack: seq<Layer>, layer: Layer, o: nat, m: nat)
    requires Distinct(stack) && o < m < |stack| && stack[o] == layer
    ensures var after := Placed(stack, layer, m - 1);
            |after| == |stack| && after[m - 1] == layer && after[m..] == stack[m..]
  {
    RemovedAt(stack, layer, o);
    var rest := stack[..o] + stack[o + 1..];
    hide Removed, Distinct;
    assert rest[m - 1..] == stack[m..];
    assert |rest[..m - 1] + [layer]| == m;
  }

  predicate DirectlyBelow(stack: seq<Layer>, layer: Layer, above: Layer) {
    exists k :: 0 <= k < |stack| - 1 && stack[k] == layer && stack[k + 1] == above
  }

  /** A layer that was not below the m-th one: one other layer ends between the two. */
  lemma PlacedUnderOne(stack: seq<Layer>, layer: Layer, o: nat, m: nat)
    requires Distinct(stack) && 0 < m < |stack| && stack[m] != layer && m < o <= |stack| &&
      (o < |stack| ==> stack[o] == layer)
    requires layer !in stack[..o]
    ensures var after := Placed(stack, layer, m - 1);
            m + 1 < |after| && after[m - 1] == layer && after[m] == stack[m - 1] && after[m + 1] == stack[m] &&
              Distinct(after)
  {
    RemovedAt(stack, layer, o);
    RemovedDistinct(stack, layer);
    PlacedDistinct(Removed(stack, layer), layer, m - 1);
  }

  /**
   * Activating a layer puts it directly below the mouse, the m-th layer, exactly if it was on the
   * stack below the mouse.
   */
  lemma JustBelowExact(stack: seq<Layer>, layer: Layer, m: nat)
    requires Distinct(stack) && 0 < m < |stack| && stack[m] != layer
    ensures DirectlyBelow(Placed(stack, layer, m - 1), layer, stack[m]) <==> layer in stack[..m]
  {
    var after := Placed(stack, layer, m - 1);
    var o := IndexOf(stack, layer);
    if o < m {
      RaisedBelow(stack, layer, o, m);
      assert stack[..m][o] == layer && after[m] == after[m..][0] == stack[m..][0];
    } else {
      PlacedUnderOne(stack, layer, o, m);
      hide Placed;
    }
  }

  /** A new window: with one window open it ends below that window, not below the mouse. */
  lemma NewWindowExample(desktop: Layer, window: Layer, mouse: Layer, terminal: Layer)
    requires terminal !in [desktop, window, mouse]
    ensures Placed([desktop, window, mouse], terminal, 1) == [desktop, terminal, window, mouse]
  {
    var stack := [desktop, window, mouse];
    RemovedAt(stack, terminal, 3);
  }

  /** What a stack shows depends on layers, windows and their pixels only. */
  lemma {:induction false} NotAPart(stack: seq<Layer>, o: object)
    requires !(o is Layer) && !(o is W.Window) && !(o is array<Color>) && !(o is array2<Color>)
    ensures o !in Parts(stack)
  {
    if stack != [] {
      NotAPart(stack[..|stack| - 1], o);
    }
  }

  /** The screen and the back buffer show the composite of a stack whose only clear layer, if any, is its top. */
  ghost predicate Composed(m: LayerManager)
    requires m.Valid()
    reads m, m.layers, m.layerStack, Parts(m.layerStack), m.backBuffer.data, m.screen.data
  {
    AllClean(m.Buffers(), m.StackViews()) && OnlyTopClear(m.StackViews())
  }

  /** The same, except perhaps for the points where one layer shows something. */
  ghost predicate ComposedBut(m: LayerManager, layer: Layer)
    requires m.Valid() && layer.Valid()
    reads m, m.layers, m.layerStack, Parts(m.layerStack), m.backBuffer.data, m.screen.data, layer, layer.Parts()
  {
    CleanBut(m.Buffers(), m.StackViews(), layer.View(m.backBuffer.format)) && OnlyTopClear(m.StackViews())
  }

  /** No other layer shows the layer's pixels. */
  ghost predicate Alone(m: LayerManager, layer: Layer)
    reads m, m.layers, m.layerStack, layer
  {
    layer.window != null && layer in m.layers
    && (forall l :: l in m.layers && l != layer ==>
      layer.window.data !in l.Parts() && layer.window.shadow.data !in l.Parts())
    && (forall l :: l in m.layerStack && l != layer ==>
      layer.window.data !in l.Parts() && layer.window.shadow.data !in l.Parts())
  }

  /** What a window writes when it is activated or deactivated; a clear one writes nothing. */
  predicate Decoration(layer: Layer, writes: seq<(Vector2D, Color)>)
    reads layer, layer.window
  {
    && layer.window != null && (writes == [] || layer.window.transparentColor.None?)
    && forall i :: 0 <= i < |writes| ==> FB.InBounds(writes[i].0, layer.window.size)
  }

  /** A window writes only inside the points that it shows. */
  lemma SolidKeys(pos: Vector2D, size: Vector2D, content: Image, writes: seq<(Vector2D, Color)>)
    requires forall p :: p in content.Keys <==> FB.InBounds(p, size)
    requires forall i :: 0 <= i < |writes| ==> FB.InBounds(writes[i].0, size)
    ensures var v, v' := W.SolidView(pos, size, content), W.SolidView(pos, size, W.Written(content, writes));
            v'.shade.Keys == v.shade.Keys && v'.solid == v.solid
  {
    W.WrittenKeys(content, writes);
  }

  /** New contents change one layer's colours, not the points it shows. */
  method WriteWindow(layer: Layer, format: FB.PixelFormat, writes: seq<(Vector2D, Color)>)
    requires layer.Valid() && Decoration(layer, writes)
    modifies layer.window.data, layer.window.shadow.data
    ensures layer.window.shadow.Image() == W.Written(old(layer.window.shadow.Image()), writes)
    ensures layer.View(format).shade.Keys == old(layer.View(format)).shade.Keys &&
      layer.View(format).solid == old(layer.View(format)).solid
  {
    hide FB.FrameBuffer.Valid, FB.Pixels, W.SolidView, W.ClearView;
    FB.PixelKeys(layer.window.shadow.data[..], layer.window.shadow.stride, layer.window.shadow.size);
    SolidKeys(layer.pos, layer.window.size, layer.window.shadow.Image(), writes);
    ghost var content := layer.window.Content();
    layer.window.WriteAll(writes);
    if layer.window.transparentColor.Some? {
      assert layer.window.Content() == content;
    }
  }

  /** Writing to a window changes the view of its layer only. */
  method WriteLayer(manager: LayerManager, layer: Layer, writes: seq<(Vector2D, Color)>, ghost o: nat)
    requires manager.Valid() && Alone(manager, layer) && layer.Valid() && Decoration(layer, writes)
    requires o <= |manager.layerStack| && (o < |manager.layerStack| ==> manager.layerStack[o] == layer)
    requires forall i :: 0 <= i < |manager.layerStack| && i != o ==> manager.layerStack[i] != layer
    modifies layer.window.data, layer.window.shadow.data
    ensures manager.Valid() && layer.window.shadow.Image() == W.Written(old(layer.window.shadow.Image()), writes)
    ensures manager.Buffers() == old(manager.Buffers())
    ensures var v := layer.View(manager.backBuffer.format);
            && v.shade.Keys == old(layer.View(manager.backBuffer.format)).shade.Keys &&
              v.solid == old(layer.View(manager.backBuffer.format)).solid
            && manager.StackViews() == if o < |manager.layerStack| then old(manager.StackViews())[o := v]
              else old(manager.StackViews())
  {
    hide FB.FrameBuffer.Valid, FB.Pixels, W.Window.ViewAt, Views, Parts;
    ghost var b, views := manager.Buffers(), manager.StackViews();
    WriteWindow(layer, manager.backBuffer.format, writes);
    ghost var v := layer.View(manager.backBuffer.format);
    if o < |manager.layerStack| {
      assert manager.StackViews() == views[o := v];
    } else {
      assert manager.StackViews() == views;
    }
  }

  /** New contents of one window are all that may be wrong with the screen. */
  method Decorate(manager: LayerManager, layer: Layer, writes: seq<(Vector2D, Color)>)
    requires manager.Valid() && Alone(manager, layer) && layer.Valid() && Decoration(layer, writes)
    modifies layer.window.data, layer.window.shadow.data
    ensures manager.Valid() && layer.window.shadow.Image() == W.Written(old(layer.window.shadow.Image()), writes)
    ensures old(Composed(manager)) ==> ComposedBut(manager, layer)
  {
    hide LayerManager.StackViews, LayerManager.Buffers, AllClean, CleanBut, LayerManager.Valid, Layer.View, Parts,
         W.Written;
    ghost var b, views, v0 := manager.Buffers(), manager.StackViews(), layer.View(manager.backBuffer.format);
    ghost var o := IndexOf(manager.layerStack, layer);
    manager.StackInLayers();
    if o < |manager.layerStack| {
      manager.KthView(o);
    }
    WriteLayer(manager, layer, writes, o);
    ghost var v := layer.View(manager.backBuffer.format);
    assert v.solid == v0.solid && v.shade.Keys == v0.shade.Keys;
    if AllClean(b, views) {
      if o < |manager.layerStack| {
        RepaintedClean(b, views, o, v);
      } else {
        CleanIsCleanBut(b, views, v);
      }
    }
  }

  lemma CleanIsCleanBut(b: Buffers, views: seq<View>, v: View)
    requires b.back.Keys == b.screen.Keys && AllClean(b, views)
    ensures CleanBut(b, views, v)
  {
  }

  /** A changed place in the stack does not matter where the layer shows nothing. */
  lemma PlacedClean(b: Buffers, views: seq<View>, after: seq<View>, v: View)
    requires b.back.Keys == b.screen.Keys && CleanBut(b, views, v)
    requires forall p :: p !in v.shade ==> Seen(after, p) == Seen(views, p)
    ensures CleanBut(b, after, v)
  {
  }

  class ActiveLayer {
    const manager: LayerManager
    var activeLayer: nat
    var mouseLayer: nat

    constructor (manager: LayerManager)
      ensures this.manager == manager && activeLayer == 0 && mouseLayer == 0
    {
      this.manager := manager;
      activeLayer, mouseLayer := 0, 0;
    }

    /** Draws a layer of the stack after its contents have changed. */
    method Refresh(layer: Layer, ghost k: nat)
      requires manager.Valid() && k < |manager.layerStack| && manager.layerStack[k] == layer && layer.window != null
      modifies manager.backBuffer.data, manager.screen.data
      ensures manager.Valid() && manager.StackViews() == old(manager.StackViews())
      ensures old(ComposedBut(manager, layer)) ==> Composed(manager)
    {
      hide LayerManager.Valid, LayerManager.StackViews, LayerManager.Buffers, AllClean, OnlyTopClear, Drawn, CleanBut,
           Layer.View;
      ghost var b, views := manager.Buffers(), manager.StackViews();
      manager.KthArea(k);
      assert manager.At(layer.id, k);
      forall j: nat | manager.At(layer.id, j) ensures j == k {
        manager.OneHeight(layer.id, j, k);
      }
      manager.DrawLayer(layer.id, Rectangle(ORIGIN, ORIGIN));
      if CleanBut(b, views, views[k]) && OnlyTopClear(views) {
        DrawRestoresComposite(b, views, k);
      }
    }

    /** Where a layer will stand, and that the new stack looks like the old one where the layer shows nothing. */
    lemma PlacedLooks(layer: Layer, height: nat) returns (k: nat)
      requires manager.Valid() && layer.Valid()
      ensures var after := Placed(manager.layerStack, layer, height);
              && k < |after| && after[k] == layer && AllValid(after)
              && forall p :: p !in layer.View(manager.backBuffer.format).shade ==>
                   Seen(Views(after, manager.backBuffer.format), p) == Seen(manager.StackViews(), p)
    {
      hide Layer.View, Layer.Valid, Placed, Seen, Views;
      var o := IndexOf(manager.layerStack, layer);
      k := PlacedAt(manager.layerStack, layer, height);
      PlacedViews(manager.layerStack, layer, height, manager.backBuffer.format, o, ORIGIN);
      forall p | p !in layer.View(manager.backBuffer.format).shade
        ensures Seen(Views(Placed(manager.layerStack, layer, height), manager.backBuffer.format), p) ==
          Seen(manager.StackViews(), p)
      {
        PlacedViews(manager.layerStack, layer, height, manager.backBuffer.format, o, p);
      }
    }

    /** Puts a layer at a height: only where it shows something can the stack look different. */
    method Place(id: nat, height: nat) returns (ghost k: nat)
      requires manager.Valid() && manager.FindLayer(id) != null && manager.FindLayer(id).window != null
      modifies manager`layerStack
      ensures manager.Valid() && manager.layerStack ==
        Placed(old(manager.layerStack), old(manager.FindLayer(id)), height)
      ensures k < |manager.layerStack| && manager.layerStack[k] == old(manager.FindLayer(id))
      ensures manager.Buffers() == old(manager.Buffers())
      ensures manager.layerStack[k].View(manager.backBuffer.format) ==
        old(manager.FindLayer(id).View(manager.backBuffer.format))
      ensures forall p :: p !in manager.layerStack[k].View(manager.backBuffer.format).shade ==>
                Seen(manager.StackViews(), p) == Seen(old(manager.StackViews()), p)
    {
      hide Placed, LayerManager.Valid, Views, Parts, Seen, Layer.View, FB.Pixels;
      ghost var layer := manager.FindLayer(id);
      k := PlacedLooks(layer, height);
      ghost var after := Views(Placed(manager.layerStack, layer, height), manager.backBuffer.format);
      NotAPart(Placed(manager.layerStack, layer, height), manager);
      manager.UpDown(id, height);
      assert after == manager.StackViews();
    }

    /** Puts a layer at a height and draws it. */
    method PlaceAndDraw(layer: Layer, height: nat)
      requires manager.Valid() && manager.FindLayer(layer.id) == layer && layer.window != null
      modifies manager`layerStack, manager.backBuffer.data, manager.screen.data
      ensures manager.Valid() && manager.layerStack == Placed(old(manager.layerStack), layer, height)
      ensures old(ComposedBut(manager, layer)) && OnlyTopClear(manager.StackViews()) ==> Composed(manager)
    {
      hide LayerManager.StackViews, LayerManager.Buffers, AllClean, CleanBut, OnlyTopClear, Drawn, Placed,
           LayerManager.Valid, Seen, Layer.View, Parts;
      ghost var b, views, v := manager.Buffers(), manager.StackViews(), layer.View(manager.backBuffer.format);
      ghost var k := Place(layer.id, height);
      manager.KthArea(k);
      if CleanBut(b, views, v) {
        PlacedClean(b, views, manager.StackViews(), v);
      }
      Refresh(layer, k);
    }

    /** Puts a layer at the height below the mouse's and draws it. */
    method Raise(layer: Layer)
      requires manager.Valid() && manager.FindLayer(layer.id) == layer && layer.window != null
      requires exists m: nat :: m > 0 && manager.At(mouseLayer, m)
      modifies manager`layerStack, manager.backBuffer.data, manager.screen.data
      ensures manager.Valid()
      ensures forall m: nat :: old(manager.At(mouseLayer, m)) ==>
                m > 0 && manager.layerStack == Placed(old(manager.layerStack), layer, m - 1)
      ensures old(ComposedBut(manager, layer)) && OnlyTopClear(manager.StackViews()) ==> Composed(manager)
    {
      hide LayerManager.Buffers, AllClean, CleanBut, OnlyTopClear, Placed, LayerManager.Valid, W.Window.ViewAt;
      ghost var m: nat :| m > 0 && manager.At(mouseLayer, m);
      forall j: nat | manager.At(mouseLayer, j) ensures j == m {
        manager.OneHeight(mouseLayer, j, m);
      }
      var height := manager.GetHeight(mouseLayer);
      assert manager.At(mouseLayer, m) && manager.Buffers() == old(manager.Buffers()) &&
        manager.StackViews() == old(manager.StackViews());
      assert layer.View(manager.backBuffer.format) == old(layer.View(manager.backBuffer.format));
      assert manager.FindLayer(layer.id) == layer;
      manager.OneHeight(mouseLayer, height, m);
      PlaceAndDraw(layer, height - 1);
    }

    /** The active window looks inactive from now on. */
    method SwitchOff(layer: Layer, ghost k: nat, writes: seq<(Vector2D, Color)>)
      requires manager.Valid() && layer.Valid() && Alone(manager, layer) && Decoration(layer, writes)
      requires k < |manager.layerStack| && manager.layerStack[k] == layer
      modifies manager.backBuffer.data, manager.screen.data, layer.window.data, layer.window.shadow.data
      ensures manager.Valid() && layer.window.shadow.Image() == W.Written(old(layer.window.shadow.Image()), writes)
      ensures old(Composed(manager)) ==> Composed(manager)
    {
      hide LayerManager.Valid, Composed, ComposedBut, Layer.Valid, Layer.View, FB.FrameBuffer.Image, W.Written;
      NotItsPixels(layer);
      Decorate(manager, layer, writes);
      Refresh(layer, k);
    }

    lemma NotItsPixels(layer: Layer)
      requires manager.Valid() && layer in manager.layers && layer.window != null
      ensures layer.window.shadow.data != manager.backBuffer.data && layer.window.shadow.data != manager.screen.data
      ensures layer.Valid() && manager.FindLayer(layer.id) == layer
    {
    }

    /** The active window is put at the height below the mouse's and looks active. */
    method SwitchOn(layer: Layer, writes: seq<(Vector2D, Color)>)
      requires manager.Valid() && layer.Valid() && Alone(manager, layer) && Decoration(layer, writes)
      requires exists m: nat :: m > 0 && manager.At(mouseLayer, m)
      modifies manager`layerStack, manager.backBuffer.data, manager.screen.data, layer.window.data,
        layer.window.shadow.data
      ensures manager.Valid() && layer.window.shadow.Image() == W.Written(old(layer.window.shadow.Image()), writes)
      ensures forall m: nat :: old(manager.At(mouseLayer, m)) ==>
        m > 0 && manager.layerStack == Placed(old(manager.layerStack), layer, m - 1)
      ensures old(Composed(manager)) && OnlyTopClear(manager.StackViews()) ==> Composed(manager)
    {
      hide LayerManager.Valid, Composed, ComposedBut, Layer.Valid, Layer.View, FB.FrameBuffer.Image, W.Written,
           Placed, OnlyTopClear, LayerManager.StackViews;
      ghost var m: nat :| m > 0 && manager.At(mouseLayer, m);
      forall j: nat | manager.At(mouseLayer, j) ensures j == m {
        manager.OneHeight(mouseLayer, j, m);
      }
      NotItsPixels(layer);
      Decorate(manager, layer, writes);
      assert manager.At(mouseLayer, m);
      NotItsPixels(layer);
      Raise(layer);
    }

    lemma PixelsApart(from: Layer, to: Layer)
      requires manager.Valid() && Alone(manager, from) && to in manager.layers && from != to && to.window != null
      ensures from.window.shadow.data != to.window.shadow.data
    {
    }

    /** The first half of Activate: the layer that was active loses its decoration. */
    method Leave(layerId: nat, off: seq<(Vector2D, Color)>, ghost from: Layer?, ghost to: Layer?)
      requires manager.Valid() && activeLayer != layerId && from == manager.FindLayer(activeLayer) &&
        to == manager.FindLayer(layerId)
      requires activeLayer > 0 ==> Decorable(manager, from, off) && from in manager.layerStack
      modifies `activeLayer, manager.backBuffer.data, manager.screen.data, Pixels(from)
      ensures manager.Valid() && activeLayer == layerId
      ensures Shadow(to) == old(Shadow(to)) &&
        (old(activeLayer) > 0 ==> Shadow(from) == W.Written(old(Shadow(from)), off))
      ensures old(Composed(manager)) ==> Composed(manager)
    {
      hide LayerManager.Valid, Composed, ComposedBut, Layer.Valid, Layer.View, FB.FrameBuffer.Image, W.Written,
           Placed, OnlyTopClear, LayerManager.StackViews, Decoration;
      if to != null && to.window != null {
        NotItsPixels(to);
      }
      if activeLayer > 0 {
        var layer := manager.FindLayer(activeLayer);
        ghost var k :| 0 <= k < |manager.layerStack| && manager.layerStack[k] == layer;
        if to != null && to.window != null {
          PixelsApart(from, to);
        }
        SwitchOff(layer, k, off);
      }
      NotAPart(manager.layerStack, this);
      label before:
      activeLayer := layerId;
      assert old@before(Composed(manager)) == Composed(manager);
    }

    /**
     * Makes another layer active; id 0 means none. `from` and `to` are the layers concerned, `off`
     * and `on` what their windows write when they lose and gain that state. The composite is kept,
     * if no clear layer ends below the top.
     */
    method Activate(layerId: nat, off: seq<(Vector2D, Color)>, on: seq<(Vector2D, Color)>, ghost from: Layer?,
        ghost to: Layer?)
      requires manager.Valid() && from == manager.FindLayer(activeLayer) && to == manager.FindLayer(layerId)
      requires activeLayer > 0 ==> Decorable(manager, from, off) && from in manager.layerStack
      requires layerId > 0 ==> Decorable(manager, to, on) && exists m: nat :: m > 0 && manager.At(mouseLayer, m)
      modifies `activeLayer, manager`layerStack, manager.backBuffer.data, manager.screen.data, Pixels(from), Pixels(to)
      ensures manager.Valid() && activeLayer == layerId
      ensures layerId == 0 || old(activeLayer) == layerId ==> manager.layerStack == old(manager.layerStack)
      ensures forall m: nat :: layerId > 0 && old(activeLayer) != layerId && old(manager.At(mouseLayer, m)) ==>
                m > 0 && manager.layerStack == Placed(old(manager.layerStack), to, m - 1)
      ensures old(activeLayer) != layerId && layerId > 0 ==> Shadow(to) == W.Written(old(Shadow(to)), on)
      ensures old(activeLayer) != layerId && old(activeLayer) > 0 ==> Shadow(from) == W.Written(old(Shadow(from)), off)
      ensures old(Composed(manager)) && OnlyTopClear(manager.StackViews()) ==> Composed(manager)
    {
      hide LayerManager.Valid, Composed, ComposedBut, Layer.Valid, Layer.View, FB.FrameBuffer.Image, W.Written,
           Placed, OnlyTopClear, LayerManager.StackViews, Decoration;
      if activeLayer == layerId {
        return;
      }
      ghost var m: nat := 0;
      if layerId > 0 {
        m :| m > 0 && manager.At(mouseLayer, m);
        forall j: nat | manager.At(mouseLayer, j) ensures j == m {
          manager.OneHeight(mouseLayer, j, m);
        }
      }
      Leave(layerId, off, from, to);
      if activeLayer > 0 {
        var layer := manager.FindLayer(activeLayer);
        assert layer == to && manager.At(mouseLayer, m) && Decorable(manager, to, on);
        if from != null && from.window != null {
          PixelsApart(to, from);
          NotItsPixels(from);
        }
        SwitchOn(layer, on);
      }
    }
  }

  /** A window that can be decorated without changing what other layers show. */
  ghost predicate Decorable(m: LayerManager, layer: Layer?, writes: seq<(Vector2D, Color)>)
    reads m, m.layers, m.layerStack, layer, if layer == null then null else layer.window
  {
    layer != null && layer.Valid() && Alone(m, layer) && Decoration(layer, writes)
  }

  ghost function Pixels(layer: Layer?): set<object>
    reads layer
  {
    if layer != null && layer.window != null then {layer.window.data, layer.window.shadow.data} else {}
  }

  ghost function Shadow(layer: Layer?): Image
    reads layer, Pixels(layer)
  {
    if layer != null && layer.window != null then layer.window.shadow.Image() else imap[]
  }
}