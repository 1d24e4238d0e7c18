/** Pixel buffers and block transfers (Kernel/frame_buffer.cpp). A cell is one 32-bit pixel. */
module FrameBuffer {
  import opened Common
  import opened Graphics

  datatype PixelFormat = RGBResv8BitPerColor | BGRResv8BitPerColor

  function Index(p: Vector2D, stride: nat): int {
    stride * p.y + p.x
  }

  function Cell(s: seq<Color>, i: int): Color {
    if 0 <= i < |s| then s[i] else BLACK
  }

  predicate Shaped(s: seq<Color>, stride: nat, size: Vector2D) {
    size.NonNegative() && size.x <= stride && |s| == stride * size.y
  }

  predicate InBounds(p: Vector2D, size: Vector2D) {
    0 <= p.x < size.x && 0 <= p.y < size.y
  }

  ghost function Pixels(s: seq<Color>, stride: nat, size: Vector2D): Image {
    imap p: Vector2D | InBounds(p, size) :: Cell(s, Index(p, stride))
  }

  lemma PixelKeys(s: seq<Color>, stride: nat, size: Vector2D)
    ensures forall p :: p in Pixels(s, stride, size).Keys <==> InBounds(p, size)
  {
  }

  lemma SameImage(a: Image, b: Image)
    requires a.Keys == b.Keys && forall p :: p in a.Keys ==> a[p] == b[p]
    ensures a == b
  {
  }

  /** What copying n cells does to the target. */
  function Blit(s: seq<Color>, at: nat, t: seq<Color>, from: nat, n: nat): seq<Color>
    requires at + n <= |s| && from + n <= |t|
  {
    s[..at] + t[from..from + n] + s[at + n..]
  }

  lemma {:induction false} RowsApart(stride: nat, y: int, y': int)
    requires y < y'
    ensures stride * y + stride <= stride * y'
    decreases y' - y
  {
    assert stride * (y' - 1) + stride == stride * y';
    if y + 1 < y' {
      RowsApart(stride, y, y' - 1);
    }
  }

  lemma IndexInside(p: Vector2D, stride: nat, size: Vector2D, n: nat)
    requires size.NonNegative() && 0 <= p.x && p.x + n <= size.x <= stride && 0 <= p.y < size.y
    ensures 0 <= Index(p, stride) && Index(p, stride) + n <= stride * size.y
  {
    RowsApart(stride, p.y, size.y);
    if p.y > 0 {
      RowsApart(stride, 0, p.y);
    }
  }

  /** A cell lies in the part of a row that starts at q exactly when its point does. */
  lemma RowCells(p: Vector2D, q: Vector2D, stride: nat, n: nat)
    requires 0 <= p.x < stride && 0 <= q.x && q.x + n <= stride
    ensures Index(q, stride) <= Index(p, stride) < Index(q, stride) + n <==> p.y == q.y && q.x <= p.x < q.x + n
  {
    if p.y < q.y {
      RowsApart(stride, p.y, q.y);
    } else if q.y < p.y {
      RowsApart(stride, q.y, p.y);
    }
  }

  /** Copying n cells to a place in one row changes those n pixels of that row. */
  lemma BlitPixels(s: seq<Color>, stride: nat, size: Vector2D, q: Vector2D, t: seq<Color>, from: nat, n: nat,
      p: Vector2D)
    requires Shaped(s, stride, size) && InBounds(p, size) && from + n <= |t|
    requires 0 <= q.x && q.x + n <= size.x && 0 <= q.y < size.y
    ensures 0 <= Index(q, stride) && Index(q, stride) + n <= |s|
    ensures Pixels(Blit(s, Index(q, stride), t, from, n), stride, size)[p] ==
            if p.y == q.y && q.x <= p.x < q.x + n then t[from + (p.x - q.x)] else Pixels(s, stride, size)[p]
  {
    IndexInside(q, stride, size, n);
    IndexInside(p, stride, size, 1);
    RowCells(p, q, stride, n);
  }

  /** The cells at the ends of the scan lines, which belong to no pixel, are as they were. */
  ghost predicate PaddingKept(before: seq<Color>, after: seq<Color>, stride: nat, size: Vector2D) {
    forall p: Vector2D :: size.x <= p.x < stride && 0 <= p.y < size.y ==>
      Cell(after, Index(p, stride)) == Cell(before, Index(p, stride))
  }

  lemma SamePadding(s: seq<Color>, stride: nat, size: Vector2D)
    ensures PaddingKept(s, s, stride, size)
  {
  }

  lemma PaddingThrough(a: seq<Color>, b: seq<Color>, c: seq<Color>, stride: nat, size: Vector2D)
    requires PaddingKept(a, b, stride, size) && PaddingKept(b, c, stride, size)
    ensures PaddingKept(a, c, stride, size)
  {
  }

  lemma BlitPadding(s: seq<Color>, stride: nat, size: Vector2D, q: Vector2D, t: seq<Color>, from: nat, n: nat)
    requires Shaped(s, stride, size) && from + n <= |t| && 0 <= q.x && q.x + n <= size.x && 0 <= q.y < size.y
    requires 0 <= Index(q, stride) && Index(q, stride) + n <= |s|
    ensures PaddingKept(s, Blit(s, Index(q, stride), t, from, n), stride, size)
  {
    forall p: Vector2D | size.x <= p.x < stride && 0 <= p.y < size.y
      ensures Cell(Blit(s, Index(q, stride), t, from, n), Index(p, stride)) == Cell(s, Index(p, stride))
    {
      IndexInside(p, stride, Vector2D(stride, size.y), 1);
      RowCells(p, q, stride, n);
    }
  }

  lemma PixelSet(s: seq<Color>, stride: nat, size: Vector2D, q: Vector2D, c: Color)
    requires Shaped(s, stride, size) && InBounds(q, size) && 0 <= Index(q, stride) < |s|
    ensures Pixels(s[Index(q, stride) := c], stride, size) == Pixels(s, stride, size)[q := c]
    ensures PaddingKept(s, s[Index(q, stride) := c], stride, size)
  {
    var s' := s[Index(q, stride) := c];
    assert s' == Blit(s, Index(q, stride), [c], 0, 1);
    BlitPadding(s, stride, size, q, [c], 0, 1);
    forall p | InBounds(p, size) ensures Pixels(s', stride, size)[p] == Pixels(s, stride, size)[q := c][p] {
      BlitPixels(s, stride, size, q, [c], 0, 1, p);
    }
  }

  /**
   * The defining property of a block transfer: a pixel comes from the source exactly where the
   * shifted area and both buffers hold it.
   */
  ghost function Copied(dst: Image, dstPos: Vector2D, src: Image, srcArea: Rectangle): Image {
    var shift := dstPos.Minus(srcArea.pos);
    imap p: Vector2D | p in dst ::
      if Rectangle(dstPos, srcArea.size).Holds(p) && p.Minus(shift) in src then src[p.Minus(shift)] else dst[p]
  }

  /** A block transfer in progress: the rows of `area` above `bottom` are done. */
  ghost function RowsCopied(dst: Image, src: Image, shift: Vector2D, area: Rectangle, bottom: int): Image {
    imap p: Vector2D | p in dst ::
      if area.Holds(p) && p.y < bottom && p.Minus(shift) in src then src[p.Minus(shift)] else dst[p]
  }

  class FrameBuffer {
    const size: Vector2D  // horizontal and vertical resolution
    const stride: nat     // pixels per scan line
    const format: PixelFormat
    const data: array<Color>

    ghost predicate Valid() {
      size.NonNegative() && size.x <= stride && data.Length == stride * size.y
    }

    ghost function Image(): Image
      reads data
    {
      Pixels(data[..], stride, size)
    }

    /** A buffer of its own, without padding. */
    constructor Initialize(size: Vector2D, format: PixelFormat)
      requires size.NonNegative()
      ensures Valid() && this.size == size && this.format == format && stride == size.x && fresh(data)
    {
      this.size := size;
      this.format := format;
      stride := size.x;
      data := new Color[size.x * size.y](_ => BLACK);
    }

    /** The memory of a device, whose scan lines may be padded. */
    constructor InitializeGiven(size: Vector2D, pixelsPerScanLine: nat, format: PixelFormat, memory: array<Color>)
      requires size.NonNegative() && size.x <= pixelsPerScanLine && memory.Length == pixelsPerScanLine * size.y
      ensures Valid() && this.size == size && this.format == format && stride == pixelsPerScanLine && data == memory
    {
      this.size := size;
      this.format := format;
      stride := pixelsPerScanLine;
      data := memory;
    }

    /** The pixel writer's Write. */
    method Write(p: Vector2D, c: Color)
      requires Valid() && InBounds(p, size)
      modifies data
      ensures Image() == old(Image())[p := c] && PaddingKept(old(data[..]), data[..], stride, size)
      ensures 0 <= stride * p.y + p.x < data.Length && data[..] == old(data[..])[stride * p.y + p.x := c]
    {
      IndexInside(p, stride, size, 1);
      ghost var before := data[..];
      data[Index(p, stride)] := c;
      PixelSet(before, stride, size, p, c);
    }

    /** memcpy of n pixels from another place. */
    method CopyRow(at: nat, src: array<Color>, from: nat, n: nat)
      requires at + n <= data.Length && from + n <= src.Length
      requires src != data || at + n <= from || from + n <= at
      modifies data
      ensures data[..] == Blit(old(data[..]), at, old(src[..]), from, n)
    {
      for i := 0 to n
        invariant forall k :: 0 <= k < data.Length ==>
          data[k] == if at <= k < at + i then old(src[from + (k - at)]) else old(data[k])
        invariant src != data ==> src[..] == old(src[..])
      {
        data[at + i] := src[from + i];
      }
    }

    /** One row of a block transfer that has done the rows above it. */
    method CopyNextRow(dstBuf: int, srcBuf: int, src: FrameBuffer, area: Rectangle, from: Vector2D, ghost dy: nat,
        ghost before: Image)
      requires Valid() && src.Valid() && src.data != data && dy < area.size.y && area.size.x > 0
      requires Within(area, size) && Within(Rectangle(from, area.size), src.size)
      requires dstBuf == Index(area.pos.Plus(Vector2D(0, dy)), stride) &&
        srcBuf == Index(from.Plus(Vector2D(0, dy)), src.stride)
      requires before.Keys == Image().Keys
      requires Image() == RowsCopied(before, src.Image(), area.pos.Minus(from), area, area.pos.y + dy)
      modifies data
      ensures Image() == RowsCopied(before, src.Image(), area.pos.Minus(from), area, area.pos.y + dy + 1)
      ensures PaddingKept(old(data[..]), data[..], stride, size)
    {
      hide Index, Blit, Pixels, RowsCopied, Within, PaddingKept;
      RowStep(data[..], stride, size, before, src.data[..], src.stride, src.size, area, from, dy);
      CopyRow(dstBuf, src.data, srcBuf, area.size.x);
    }

    method CopyRows(src: FrameBuffer, area: Rectangle, from: Vector2D)
      requires Valid() && src.Valid() && src.data != data && Copyable(area)
      requires Within(area, size) && Within(Rectangle(from, area.size), src.size)
      modifies data
      ensures Image() == RowsCopied(old(Image()), src.Image(), area.pos.Minus(from), area, area.pos.y + area.size.y)
      ensures PaddingKept(old(data[..]), data[..], stride, size)
    {
      hide Index, Pixels, RowsCopied, Within, Valid, PaddingKept;
      ghost var cells := data[..];
      SamePadding(cells, stride, size);
      ghost var before, shift := Image(), area.pos.Minus(from);
      NoRows(before, src.Image(), shift, area);
      var dstBuf, srcBuf := Index(area.pos, stride), Index(from, src.stride);
      var dy := 0;
      while dy < area.size.y
        invariant 0 <= dy && (dy <= area.size.y || dy == 0)
        invariant dstBuf == Index(area.pos.Plus(Vector2D(0, dy)), stride) &&
          srcBuf == Index(from.Plus(Vector2D(0, dy)), src.stride)
        invariant before.Keys == Image().Keys
        invariant Image() == RowsCopied(before, src.Image(), shift, area, area.pos.y + dy)
        invariant PaddingKept(cells, data[..], stride, size)
      {
        ghost var now := data[..];
        NextRow(area.pos.Plus(Vector2D(0, dy)), stride);
        NextRow(from.Plus(Vector2D(0, dy)), src.stride);
        if area.size.x > 0 {
          CopyNextRow(dstBuf, srcBuf, src, area, from, dy, before);
          PaddingThrough(cells, now, data[..], stride, size);
        }
        SameKeys(before, src.Image(), shift, area, area.pos.y + dy + 1);
        EmptyRows(before, src.Image(), shift, area, area.pos.y + dy, area.pos.y + dy + 1);
        dstBuf, srcBuf, dy := dstBuf + stride, srcBuf + src.stride, dy + 1;
      }
      NoRowsBelow(before, src.Image(), shift, area);
    }

    /** The block transfer: the rows of the intersection one by one, none of a negative length. */
    method Copy(dstPos: Vector2D, src: FrameBuffer, srcArea: Rectangle) returns (err: Error)
      requires Valid() && src.Valid() && src.data != data
      requires format == src.format ==> Copyable(CopyArea(dstPos, srcArea, size, src.size))
      modifies data
      ensures err == if format == src.format then Success else UnknownPixelFormat
      ensures err == UnknownPixelFormat ==> data[..] == old(data[..]) && Image() == old(Image())
      ensures err == Success ==> Image() == Copied(old(Image()), dstPos, src.Image(), srcArea)
      ensures PaddingKept(old(data[..]), data[..], stride, size)
    {
      hide Index, Blit, RowsCopied, Copied, Within, Rectangle.And;
      if format != src.format {
        return UnknownPixelFormat;
      }
      var shift := dstPos.Minus(srcArea.pos);
      var copyArea := CopyArea(dstPos, srcArea, size, src.size);
      CopyAreaFacts(size, src.size, dstPos, srcArea);
      ghost var before := Image();
      CopyRows(src, copyArea, copyArea.pos.Minus(shift));
      CopiedIsRowsCopied(before, src.Image(), dstPos, srcArea, size, src.size);
      return Success;
    }

    /** One row of a move within the buffer, next to the rows [lo, hi) that are done. */
    method MoveNextRow(dstBuf: int, srcBuf: int, shift: Vector2D, area: Rectangle, ghost r: int, ghost lo: int,
        ghost hi: int, ghost before: Image)
      requires Valid() && area.pos.y <= r < area.End().y && area.size.x > 0 && Movable(shift, area.size)
      requires Within(area, size) && Within(Rectangle(area.pos.Minus(shift), area.size), size)
      requires dstBuf == Index(Vector2D(area.pos.x, r), stride) &&
        srcBuf == Index(Vector2D(area.pos.x, r).Minus(shift), stride)
      requires (r == hi || r == lo - 1) && lo <= hi && !(lo <= r - shift.y < hi)
      requires before.Keys == Image().Keys && Image() == RowsMoved(before, shift, area, lo, hi)
      modifies data
      ensures Image() == if r == hi then RowsMoved(before, shift, area, lo, hi + 1)
        else RowsMoved(before, shift, area, lo - 1, hi)
      ensures PaddingKept(old(data[..]), data[..], stride, size)
    {
      hide Blit, Pixels, RowsMoved, Within, Movable, PaddingKept;
      MoveStep(data[..], stride, size, before, shift, area, r, lo, hi);
      CopyRow(dstBuf, data, srcBuf, area.size.x);
    }

    /** Moves a rectangle of pixels, from the top row down when it goes up, else from the bottom row up. */
    method Move(dstPos: Vector2D, src: Rectangle)
      requires Valid() && src.size.NonNegative()
      requires Within(src, size) && Within(Rectangle(dstPos, src.size), size) &&
        Movable(dstPos.Minus(src.pos), src.size)
      modifies data
      ensures Image() == Moved(old(Image()), dstPos, src) && PaddingKept(old(data[..]), data[..], stride, size)
    {
      hide Index, Pixels, RowsMoved, Moved, Within, Valid, Movable, PaddingKept;
      ghost var before, shift, area := Image(), dstPos.Minus(src.pos), Rectangle(dstPos, src.size);
      NoRowsMoved(before, shift, area);
      if dstPos.y < src.pos.y {
        MoveUp(dstPos, src);
      } else {
        MoveDown(dstPos, src);
      }
      MovedIsRowsMoved(before, dstPos, src, size);
    }

    method MoveUp(dstPos: Vector2D, src: Rectangle)
      requires Valid() && src.size.NonNegative() && dstPos.y < src.pos.y
      requires Within(src, size) && Within(Rectangle(dstPos, src.size), size) &&
        Movable(dstPos.Minus(src.pos), src.size)
      modifies data
      ensures Image() == RowsMoved(old(Image()), dstPos.Minus(src.pos), Rectangle(dstPos, src.size), dstPos.y,
        dstPos.y + src.size.y)
      ensures PaddingKept(old(data[..]), data[..], stride, size)
    {
      hide Index, Pixels, RowsMoved, Within, Valid, Movable, PaddingKept;
      ghost var cells := data[..];
      SamePadding(cells, stride, size);
      ghost var before := Image();
      var shift, area := dstPos.Minus(src.pos), Rectangle(dstPos, src.size);
      NoRowsMoved(before, shift, area);
      var dstBuf, srcBuf := Index(dstPos, stride), Index(src.pos, stride);
      var y := 0;
      while y < src.size.y
        invariant 0 <= y <= src.size.y
        invariant dstBuf == Index(Vector2D(dstPos.x, dstPos.y + y), stride) &&
          srcBuf == Index(Vector2D(src.pos.x, src.pos.y + y), stride)
        invariant before.Keys == Image().Keys && Image() == RowsMoved(before, shift, area, dstPos.y, dstPos.y + y)
        invariant PaddingKept(cells, data[..], stride, size)
      {
        ghost var now := data[..];
        if src.size.x > 0 {
          MoveNextRow(dstBuf, srcBuf, shift, area, dstPos.y + y, dstPos.y, dstPos.y + y, before);
          PaddingThrough(cells, now, data[..], stride, size);
        }
        MovedKeys(before, shift, area, dstPos.y, dstPos.y + y, dstPos.y, dstPos.y + y + 1);
        NextRow(Vector2D(dstPos.x, dstPos.y + y), stride);
        NextRow(Vector2D(src.pos.x, src.pos.y + y), stride);
        dstBuf, srcBuf, y := dstBuf + stride, srcBuf + stride, y + 1;
      }
    }

    method MoveDown(dstPos: Vector2D, src: Rectangle)
      requires Valid() && src.size.NonNegative() && dstPos.y >= src.pos.y
      requires Within(src, size) && Within(Rectangle(dstPos, src.size), size) &&
        Movable(dstPos.Minus(src.pos), src.size)
      modifies data
      ensures Image() == RowsMoved(old(Image()), dstPos.Minus(src.pos), Rectangle(dstPos, src.size), dstPos.y,
        dstPos.y + src.size.y)
      ensures PaddingKept(old(data[..]), data[..], stride, size)
    {
      hide Index, Pixels, RowsMoved, Within, Valid, Movable, PaddingKept;
      ghost var cells := data[..];
      SamePadding(cells, stride, size);
      ghost var before, end := Image(), dstPos.y + src.size.y;
      var shift, area := dstPos.Minus(src.pos), Rectangle(dstPos, src.size);
      NoRowsMoved(before, shift, area);
      var dstBuf, srcBuf := Index(Vector2D(dstPos.x, dstPos.y + src.size.y - 1), stride),
        Index(Vector2D(src.pos.x, src.pos.y + src.size.y - 1), stride);
      var y := 0;
      while y < src.size.y
        invariant 0 <= y <= src.size.y
        invariant dstBuf == Index(Vector2D(dstPos.x, end - y - 1), stride)
        invariant srcBuf == Index(Vector2D(src.pos.x, src.pos.y + src.size.y - y - 1), stride)
        invariant before.Keys == Image().Keys && Image() == RowsMoved(before, shift, area, end - y, end)
        invariant PaddingKept(cells, data[..], stride, size)
      {
        ghost var now := data[..];
        if src.size.x > 0 {
          MoveNextRow(dstBuf, srcBuf, shift, area, end - y - 1, end - y, end, before);
          PaddingThrough(cells, now, data[..], stride, size);
        }
        MovedKeys(before, shift, area, end - y, end, end - y - 1, end);
        NextRow(Vector2D(dstPos.x, end - y - 2), stride);
        NextRow(Vector2D(src.pos.x, src.pos.y + src.size.y - y - 2), stride);
        dstBuf, srcBuf, y := dstBuf - stride, srcBuf - stride, y + 1;
      }
    }
  }

  /** Every point of the rectangle is a pixel; an empty rectangle may lie anywhere. */
  predicate Within(area: Rectangle, size: Vector2D) {
    area.size.x > 0 && area.size.y > 0 ==> area.pos.NonNegative() && area.End().x <= size.x && area.End().y <= size.y
  }

  lemma NextRow(q: Vector2D, stride: nat)
    ensures Index(q, stride) + stride == Index(q.Plus(Vector2D(0, 1)), stride)
  {
  }

  lemma NoRows(dst: Image, src: Image, shift: Vector2D, area: Rectangle)
    ensures RowsCopied(dst, src, shift, area, area.pos.y) == dst
  {
  }

  lemma SameKeys(dst: Image, src: Image, shift: Vector2D, area: Rectangle, bottom: int)
    ensures RowsCopied(dst, src, shift, area, bottom).Keys == dst.Keys
  {
  }

  lemma EmptyRows(dst: Image, src: Image, shift: Vector2D, area: Rectangle, bottom: int, bottom': int)
    ensures area.size.x <= 0 ==> RowsCopied(dst, src, shift, area, bottom) == RowsCopied(dst, src, shift, area, bottom')
  {
  }

  lemma NoRowsBelow(dst: Image, src: Image, shift: Vector2D, area: Rectangle)
    ensures area.size.y <= 0 ==>
              RowsCopied(dst, src, shift, area, area.pos.y + area.size.y) ==
                RowsCopied(dst, src, shift, area, area.pos.y)
  {
  }

  /** One more row of a block transfer. */
  lemma RowStep(s: seq<Color>, stride: nat, size: Vector2D, before: Image,
                t: seq<Color>, tStride: nat, tSize: Vector2D, area: Rectangle, from: Vector2D, dy: nat)
    requires Shaped(s, stride, size) && Shaped(t, tStride, tSize) && dy < area.size.y && area.size.x > 0
    requires before.Keys == Pixels(s, stride, size).Keys
    requires Within(area, size) && Within(Rectangle(from, area.size), tSize)
    requires Pixels(s, stride, size) == RowsCopied(before, Pixels(t, tStride, tSize), area.pos.Minus(from), area,
      area.pos.y + dy)
    ensures var q, f := Index(area.pos.Plus(Vector2D(0, dy)), stride), Index(from.Plus(Vector2D(0, dy)), tStride);
            && 0 <= q && q + area.size.x <= |s| && 0 <= f && f + area.size.x <= |t|
            && Pixels(Blit(s, q, t, f, area.size.x), stride, size)
               == RowsCopied(before, Pixels(t, tStride, tSize), area.pos.Minus(from), area, area.pos.y + dy + 1)
            && PaddingKept(s, Blit(s, q, t, f, area.size.x), stride, size)
  {
    var q, f := area.pos.Plus(Vector2D(0, dy)), from.Plus(Vector2D(0, dy));
    IndexInside(q, stride, size, area.size.x);
    IndexInside(f, tStride, tSize, area.size.x);
    BlitPadding(s, stride, size, q, t, Index(f, tStride), area.size.x);
    hide PaddingKept;
    hide Index, Blit, Shaped, Pixels, RowsCopied;
    var s' := Blit(s, Index(q, stride), t, Index(f, tStride), area.size.x);
    PixelKeys(s, stride, size);
    PixelKeys(s', stride, size);
    SameKeys(before, Pixels(t, tStride, tSize), area.pos.Minus(from), area, area.pos.y + dy + 1);
    var after := RowsCopied(before, Pixels(t, tStride, tSize), area.pos.Minus(from), area, area.pos.y + dy + 1);
    forall p | InBounds(p, size) ensures Pixels(s', stride, size)[p] == after[p] {
      RowStepAt(s, stride, size, before, t, tStride, tSize, area, from, dy, p);
    }
    SameImage(Pixels(s', stride, size), after);
  }

  lemma RowStepAt(s: seq<Color>, stride: nat, size: Vector2D, before: Image,
                  t: seq<Color>, tStride: nat, tSize: Vector2D, area: Rectangle, from: Vector2D, dy: nat, p: Vector2D)
    requires Shaped(s, stride, size) && Shaped(t, tStride, tSize) && dy < area.size.y && area.size.x > 0
    requires InBounds(p, size) && p in before
    requires Within(area, size) && Within(Rectangle(from, area.size), tSize)
    requires Pixels(s, stride, size)[p] == RowsCopied(before, Pixels(t, tStride, tSize), area.pos.Minus(from), area,
      area.pos.y + dy)[p]
    ensures var q, f := Index(area.pos.Plus(Vector2D(0, dy)), stride), Index(from.Plus(Vector2D(0, dy)), tStride);
            && 0 <= q && q + area.size.x <= |s| && 0 <= f && f + area.size.x <= |t|
            && Pixels(Blit(s, q, t, f, area.size.x), stride, size)[p]
               == RowsCopied(before, Pixels(t, tStride, tSize), area.pos.Minus(from), area, area.pos.y + dy + 1)[p]
  {
    var q, f, n := area.pos.Plus(Vector2D(0, dy)), from.Plus(Vector2D(0, dy)), area.size.x;
    IndexInside(q, stride, size, n);
    IndexInside(f, tStride, tSize, n);
    BlitPixels(s, stride, size, q, t, Index(f, tStride), n, p);
    hide Index, Blit, Shaped;
    if p.y == q.y && q.x <= p.x < q.x + n {
      RowPixel(t, tStride, tSize, f, p.x - q.x);
      assert p.Minus(area.pos.Minus(from)) == f.Plus(Vector2D(p.x - q.x, 0));
    }
  }

  lemma RowPixel(t: seq<Color>, stride: nat, size: Vector2D, f: Vector2D, k: nat)
    requires Shaped(t, stride, size) && InBounds(f.Plus(Vector2D(k, 0)), size) && f.x >= 0
    ensures 0 <= Index(f, stride) + k < |t| &&
      Pixels(t, stride, size)[f.Plus(Vector2D(k, 0))] == t[Index(f, stride) + k]
  {
    IndexInside(f.Plus(Vector2D(k, 0)), stride, size, 1);
  }

  /** The rectangle of the target that a block transfer sets. */
  function CopyArea(dstPos: Vector2D, srcArea: Rectangle, size: Vector2D, srcSize: Vector2D): Rectangle {
    Rectangle(ORIGIN, size).And(Rectangle(dstPos.Minus(srcArea.pos), srcSize)).And(Rectangle(dstPos, srcArea.size))
  }

  /** The numbers of bytes of the rows that are copied, four for each pixel. */
  function RowBytes(area: Rectangle): seq<int> {
    seq(if area.size.y > 0 then area.size.y else 0, _ => 4 * area.size.x)
  }

  /** No row of a negative number of bytes is copied. */
  predicate Copyable(area: Rectangle) {
    area.size.x >= 0 || area.size.y <= 0
  }

  lemma CopyableExact(area: Rectangle)
    ensures Copyable(area) <==> forall i :: 0 <= i < |RowBytes(area)| ==> RowBytes(area)[i] >= 0
  {
    if !Copyable(area) {
      assert RowBytes(area)[0] < 0;
    }
  }

  /** A rectangle between two corners on the screen is copied as it is, of negative size or not. */
  lemma OnScreenCopyArea(screen: Vector2D, area: Rectangle)
    requires 0 <= area.pos.x <= screen.x && 0 <= area.pos.y <= screen.y
    requires 0 <= area.End().x <= screen.x && 0 <= area.End().y <= screen.y
    ensures CopyArea(area.pos, area, screen, screen) == area
  {
    assert area.pos.Minus(area.pos) == ORIGIN;
    assert Rectangle(ORIGIN, screen).And(Rectangle(ORIGIN, screen)) == Rectangle(ORIGIN, screen);
    assert Rectangle(ORIGIN, screen).And(area) == area;
  }

  /** On a screen of 800 by 600 pixels, a rectangle of width -5 and height 10: ten rows of -20 bytes. */
  lemma NegativeRowsExample(screen: Vector2D, area: Rectangle)
    requires screen == Vector2D(800, 600) && area == Rectangle(Vector2D(100, 100), Vector2D(-5, 10))
    ensures RowBytes(CopyArea(area.pos, area, screen, screen)) == seq(10, _ => -20)
  {
    OnScreenCopyArea(screen, area);
    hide CopyArea;
  }

  lemma CopyAreaFacts(size: Vector2D, srcSize: Vector2D, dstPos: Vector2D, srcArea: Rectangle)
    requires size.NonNegative() && srcSize.NonNegative()
    ensures var shift, area := dstPos.Minus(srcArea.pos), CopyArea(dstPos, srcArea, size, srcSize);
            Within(area, size) && Within(Rectangle(area.pos.Minus(shift), area.size), srcSize)
    ensures srcArea.size.NonNegative() ==> Copyable(CopyArea(dstPos, srcArea, size, srcSize))
  {
    var shift := dstPos.Minus(srcArea.pos);
    var both := Rectangle(ORIGIN, size).And(Rectangle(shift, srcSize));
    AndIsIntersection(Rectangle(ORIGIN, size), Rectangle(shift, srcSize));
    AndIsIntersection(both, Rectangle(dstPos, srcArea.size));
    hide Rectangle.And;
    var area := both.And(Rectangle(dstPos, srcArea.size));
    if area.size.x > 0 && area.size.y > 0 {
      assert area.Holds(area.pos) && area.Holds(area.End().Minus(Vector2D(1, 1)));
    }
  }

  /** Copying the rows of the intersection copies exactly the pixels that all three rectangles hold. */
  lemma CopiedIsRowsCopied(dst: Image, src: Image, dstPos: Vector2D, srcArea: Rectangle, size: Vector2D,
      srcSize: Vector2D)
    requires (forall p :: p in dst <==> InBounds(p, size)) && forall p :: p in src <==> InBounds(p, srcSize)
    ensures var shift, area := dstPos.Minus(srcArea.pos), CopyArea(dstPos, srcArea, size, srcSize);
            RowsCopied(dst, src, shift, area, area.pos.y + area.size.y) == Copied(dst, dstPos, src, srcArea)
  {
    var shift := dstPos.Minus(srcArea.pos);
    AndIsIntersection(Rectangle(ORIGIN, size), Rectangle(shift, srcSize));
    AndIsIntersection(Rectangle(ORIGIN, size).And(Rectangle(shift, srcSize)), Rectangle(dstPos, srcArea.size));
    hide Rectangle.And;
  }

  /** All pixels of a rectangle at once, each from its old place. */
  ghost function Moved(before: Image, dstPos: Vector2D, src: Rectangle): Image {
    imap p: Vector2D | p in before ::
      if Rectangle(dstPos, src.size).Holds(p) && p.Minus(dstPos.Minus(src.pos)) in before
      then before[p.Minus(dstPos.Minus(src.pos))]
      else before[p]
  }

  /** A move brings the pixel at each offset in the source to the same offset in the target, and nothing else. */
  lemma MovedExact(before: Image, dstPos: Vector2D, src: Rectangle, p: Vector2D)
    requires p in before
    ensures p in Moved(before, dstPos, src)
    ensures var x, y := p.x - dstPos.x, p.y - dstPos.y;
            var from := Vector2D(src.pos.x + x, src.pos.y + y);
            Moved(before, dstPos, src)[p] ==
            if 0 <= x < src.size.x && 0 <= y < src.size.y && from in before then before[from] else before[p]
  {
  }

  /** And so does a block transfer between two buffers. */
  lemma CopiedExact(dst: Image, dstPos: Vector2D, src: Image, srcArea: Rectangle, p: Vector2D)
    requires p in dst
    ensures p in Copied(dst, dstPos, src, srcArea)
    ensures var x, y := p.x - dstPos.x, p.y - dstPos.y;
            var from := Vector2D(srcArea.pos.x + x, srcArea.pos.y + y);
            Copied(dst, dstPos, src, srcArea)[p] ==
            if 0 <= x < srcArea.size.x && 0 <= y < srcArea.size.y && from in src then src[from] else dst[p]
  {
  }

  /** No row is copied onto a part of itself. */
  predicate Movable(shift: Vector2D, size: Vector2D) {
    shift.y != 0 || shift.x >= size.x || shift.x <= -size.x
  }

  /** A move in progress: the rows [lo, hi) of the target are done. */
  ghost function RowsMoved(before: Image, shift: Vector2D, area: Rectangle, lo: int, hi: int): Image {
    imap p: Vector2D | p in before ::
      if area.Holds(p) && lo <= p.y < hi && p.Minus(shift) in before then before[p.Minus(shift)] else before[p]
  }

  lemma NoRowsMoved(before: Image, shift: Vector2D, area: Rectangle)
    ensures forall y :: RowsMoved(before, shift, area, y, y) == before
  {
  }

  lemma MovedKeys(before: Image, shift: Vector2D, area: Rectangle, lo: int, hi: int, lo': int, hi': int)
    ensures RowsMoved(before, shift, area, lo', hi').Keys == before.Keys
    ensures area.size.x <= 0 ==> RowsMoved(before, shift, area, lo, hi) == RowsMoved(before, shift, area, lo', hi')
  {
  }

  lemma MovedIsRowsMoved(before: Image, dstPos: Vector2D, src: Rectangle, size: Vector2D)
    ensures RowsMoved(before, dstPos.Minus(src.pos), Rectangle(dstPos, src.size), dstPos.y, dstPos.y + src.size.y) ==
      Moved(before, dstPos, src)
  {
  }

  /** One more row of a move: its source row is still as it was, and the two rows do not overlap. */
  lemma MoveStep(s: seq<Color>, stride: nat, size: Vector2D, before: Image, shift: Vector2D, area: Rectangle, r: int,
      lo: int, hi: int)
    requires Shaped(s, stride, size) && area.pos.y <= r < area.End().y && area.size.x > 0 && Movable(shift, area.size)
    requires Within(area, size) && Within(Rectangle(area.pos.Minus(shift), area.size), size)
    requires (r == hi || r == lo - 1) && lo <= hi && !(lo <= r - shift.y < hi)
    requires before.Keys == Pixels(s, stride, size).Keys &&
      Pixels(s, stride, size) == RowsMoved(before, shift, area, lo, hi)
    ensures var q, f, n := Index(Vector2D(area.pos.x, r), stride), Index(Vector2D(area.pos.x, r).Minus(shift), stride),
      area.size.x;
            && 0 <= q && q + n <= |s| && 0 <= f && f + n <= |s| && (q + n <= f || f + n <= q)
            && Pixels(Blit(s, q, s, f, n), stride, size)
               == (if r == hi then RowsMoved(before, shift, area, lo, hi + 1)
                 else RowsMoved(before, shift, area, lo - 1, hi))
            && PaddingKept(s, Blit(s, q, s, f, n), stride, size)
  {
    var q, f, n := Vector2D(area.pos.x, r), Vector2D(area.pos.x, r).Minus(shift), area.size.x;
    IndexInside(q, stride, size, n);
    IndexInside(f, stride, size, n);
    RowsDisjoint(q, f, stride, n);
    BlitPadding(s, stride, size, q, s, Index(f, stride), n);
    hide PaddingKept;
    hide Index, Blit, Shaped, Movable, Pixels, RowsMoved;
    var s' := Blit(s, Index(q, stride), s, Index(f, stride), n);
    var after := if r == hi then RowsMoved(before, shift, area, lo, hi + 1)
      else RowsMoved(before, shift, area, lo - 1, hi);
    PixelKeys(s, stride, size);
    PixelKeys(s', stride, size);
    MovedKeys(before, shift, area, lo, hi, lo, hi + 1);
    MovedKeys(before, shift, area, lo, hi, lo - 1, hi);
    forall p | InBounds(p, size) ensures Pixels(s', stride, size)[p] == after[p] {
      MoveStepAt(s, stride, size, before, shift, area, r, lo, hi, q, f, p);
    }
    SameImage(Pixels(s', stride, size), after);
  }

  lemma RowsDisjoint(q: Vector2D, f: Vector2D, stride: nat, n: nat)
    requires 0 <= q.x && q.x + n <= stride && 0 <= f.x && f.x + n <= stride && Movable(q.Minus(f), Vector2D(n, 0))
    ensures Index(q, stride) + n <= Index(f, stride) || Index(f, stride) + n <= Index(q, stride)
  {
    if q.y < f.y {
      RowsApart(stride, q.y, f.y);
    } else if f.y < q.y {
      RowsApart(stride, f.y, q.y);
    }
  }

  lemma MoveStepAt(s: seq<Color>, stride: nat, size: Vector2D, before: Image, shift: Vector2D, area: Rectangle, r: int,
      lo: int, hi: int,
                   q: Vector2D, f: Vector2D, p: Vector2D)
    requires Shaped(s, stride, size) && area.pos.y <= r < area.End().y && area.size.x > 0 && InBounds(p, size) &&
      p in before
    requires q == Vector2D(area.pos.x, r) && f == q.Minus(shift) && 0 <= q.x && q.x + area.size.x <= size.x &&
      0 <= q.y < size.y
    requires 0 <= f.x && f.x + area.size.x <= size.x && 0 <= f.y < size.y
    requires 0 <= Index(q, stride) && Index(q, stride) + area.size.x <= |s| && 0 <= Index(f, stride) &&
      Index(f, stride) + area.size.x <= |s|
    requires (r == hi || r == lo - 1) && lo <= hi && !(lo <= r - shift.y < hi)
    requires before.Keys == Pixels(s, stride, size).Keys &&
      Pixels(s, stride, size) == RowsMoved(before, shift, area, lo, hi)
    ensures Pixels(Blit(s, Index(q, stride), s, Index(f, stride), area.size.x), stride, size)[p]
            == if r == hi then RowsMoved(before, shift, area, lo, hi + 1)[p]
              else RowsMoved(before, shift, area, lo - 1, hi)[p]
  {
    hide Index, Blit, Shaped, RowsMoved, Pixels;
    RowsMovedNext(before, shift, area, lo, hi, r, p);
    BlitPixels(s, stride, size, q, s, Index(f, stride), area.size.x, p);
    if p.y == q.y && q.x <= p.x < q.x + area.size.x {
      RowPixel(s, stride, size, f, p.x - q.x);
      var from := f.Plus(Vector2D(p.x - q.x, 0));
      assert p.Minus(shift) == from;
      PixelKeys(s, stride, size);
      NotYetMoved(before, shift, area, lo, hi, from);
    }
  }

  lemma NotYetMoved(before: Image, shift: Vector2D, area: Rectangle, lo: int, hi: int, p: Vector2D)
    requires p in before && !(lo <= p.y < hi)
    ensures RowsMoved(before, shift, area, lo, hi)[p] == before[p]
  {
  }

  lemma RowsMovedNext(before: Image, shift: Vector2D, area: Rectangle, lo: int, hi: int, r: int, p: Vector2D)
    requires p in before && (r == hi || r == lo - 1) && lo <= hi && area.pos.y <= r < area.End().y
    ensures (if r == hi then RowsMoved(before, shift, area, lo, hi + 1)[p]
      else RowsMoved(before, shift, area, lo - 1, hi)[p])
            == if p.y == r && area.pos.x <= p.x < area.End().x && p.Minus(shift) in before then before[p.Minus(shift)]
               else RowsMoved(before, shift, area, lo, hi)[p]
  {
  }
}
