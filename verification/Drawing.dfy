/** Pixels, clipping and lines of kernel/win32k/gdiobj.c on a surface's pixel array. */
module Drawing {
  import opened Bresenham

  newtype Int32 = v: int | -0x8000_0000 <= v < 0x8000_0000

  type Pixel = nat

  datatype Rect = Rect(x: int, y: int, w: int, h: int)

  predicate InRect(r: Rect, u: int, v: int)
  {
    r.x <= u < r.x + r.w && r.y <= v < r.y + r.h
  }

  /** A surface's shape; stride is pixels per scanline. */
  datatype Shape = Shape(width: nat, height: nat, stride: nat)

  predicate OnSurface(g: Shape, u: int, v: int)
  {
    0 <= u < g.width && 0 <= v < g.height
  }

  /** The array has room for the surface, and 32 bits for its places. */
  predicate Fits(g: Shape, size: nat)
  {
    g.width <= g.stride && g.height * g.stride <= size && g.height * g.stride < 0x1_0000_0000
    && g.width < 0x8000_0000 && g.height < 0x8000_0000
  }

  function Index(g: Shape, u: int, v: int): int
  {
    v * g.stride + u
  }

  /** Pixels have places of their own. */
  lemma PlaceOf(g: Shape, size: nat, u: int, v: int)
    requires Fits(g, size) && OnSurface(g, u, v)
    ensures 0 <= Index(g, u, v) < size && Index(g, u, v) < 0x1_0000_0000
  {
    assert v * g.stride + g.stride == (v + 1) * g.stride <= g.height * g.stride;
  }

  lemma PlacesDiffer(g: Shape, u: int, v: int, u': int, v': int)
    requires 0 <= u < g.stride && 0 <= u' < g.stride
    ensures Index(g, u, v) == Index(g, u', v') <==> u == u' && v == v'
  {
    assert Index(g, u, v) - Index(g, u', v') == (v - v') * g.stride + (u - u');
    Multiple(g.stride, v - v');
  }

  // ------------------------------------------------------------- meaning

  /** The array after writing one pixel, if it is on the surface. */
  function Put(bits: seq<Pixel>, g: Shape, u: int, v: int, pixel: Pixel): (r: seq<Pixel>)
    requires Fits(g, |bits|)
    ensures |r| == |bits|
  {
    if OnSurface(g, u, v) then (PlaceOf(g, |bits|, u, v); bits[Index(g, u, v) := pixel]) else bits
  }

  /** The array read as scanlines: the pixel is column u of line v, and no other changes. */
  lemma PutInLines(bits: seq<Pixel>, g: Shape, u: int, v: int, pixel: Pixel, line: nat, column: nat)
    requires Fits(g, |bits|) && line < g.height && column < g.stride
    ensures (line + 1) * g.stride <= |bits| && (line + 1) * g.stride == line * g.stride + g.stride
    ensures Put(bits, g, u, v, pixel)[line * g.stride..(line + 1) * g.stride][column]
         == if OnSurface(g, u, v) && column == u && line == v then pixel
            else bits[line * g.stride..(line + 1) * g.stride][column]
  {
    LineEnds(g, |bits|, line);
    var first := line * g.stride;
    InSlice(bits, first, first + g.stride, column);
    InSlice(Put(bits, g, u, v, pixel), first, first + g.stride, column);
    if OnSurface(g, u, v) {
      PlaceOf(g, |bits|, u, v);
      PlacesDiffer(g, u, v, column, line);
      assert Index(g, column, line) == first + column;
    }
  }

  lemma LineEnds(g: Shape, size: nat, line: nat)
    requires Fits(g, size) && line < g.height
    ensures (line + 1) * g.stride == line * g.stride + g.stride <= size
  {
    assert (line + 1) * g.stride <= g.height * g.stride;
  }

  lemma InSlice(bits: seq<Pixel>, first: nat, last: nat, k: nat)
    requires first + k < last <= |bits|
    ensures bits[first..last][k] == bits[first + k]
  {
  }

  /** The array after plotting points, each dropped unless inside the clip box. */
  function Plot(bits: seq<Pixel>, g: Shape, clip: Rect, points: seq<Point>, pixel: Pixel): (r: seq<Pixel>)
    requires Fits(g, |bits|)
    ensures |r| == |bits|
  {
    if points == [] then bits
    else
      var before := Plot(bits, g, clip, points[..|points| - 1], pixel);
      PlotOne(before, g, clip, points[|points| - 1], pixel)
  }

  function PlotOne(bits: seq<Pixel>, g: Shape, clip: Rect, p: Point, pixel: Pixel): (r: seq<Pixel>)
    requires Fits(g, |bits|)
    ensures |r| == |bits|
  {
    if InRect(clip, p.0, p.1) then Put(bits, g, p.0, p.1, pixel) else bits
  }

  /** The place k of the array belongs to a plotted point. */
  predicate Hit(g: Shape, clip: Rect, points: seq<Point>, k: int)
  {
    exists i :: 0 <= i < |points| && Lands(g, clip, points[i], k)
  }

  predicate Lands(g: Shape, clip: Rect, p: Point, k: int)
  {
    InRect(clip, p.0, p.1) && OnSurface(g, p.0, p.1) && Index(g, p.0, p.1) == k
  }

  /** Exactly the visible points change, to the pen's color. */
  lemma {:induction false} PlotMeaning(bits: seq<Pixel>, g: Shape, clip: Rect, points: seq<Point>, pixel: Pixel, k: nat)
    requires Fits(g, |bits|) && k < |bits|
    ensures Plot(bits, g, clip, points, pixel)[k] == if Hit(g, clip, points, k) then pixel else bits[k]
  {
    if points != [] {
      var n := |points| - 1;
      var rest := points[..n];
      PlotMeaning(bits, g, clip, rest, pixel, k);
      HitLast(g, clip, points, k);
    }
  }

  lemma HitLast(g: Shape, clip: Rect, points: seq<Point>, k: int)
    requires points != []
    ensures Hit(g, clip, points, k)
       <==> Hit(g, clip, points[..|points| - 1], k) || Lands(g, clip, points[|points| - 1], k)
  {
    var rest := points[..|points| - 1];
    if Hit(g, clip, rest, k) {
      var i :| 0 <= i < |rest| && Lands(g, clip, rest[i], k);
      assert Lands(g, clip, points[i], k);
    }
    if Hit(g, clip, points, k) {
      var i :| 0 <= i < |points| && Lands(g, clip, points[i], k);
      if i < |rest| {
        assert Lands(g, clip, rest[i], k);
      }
    }
  }

  /** The surface pixel (u, v) is in a rectangle of places. */
  ghost predicate Covered(g: Shape, r: Rect, k: int)
  {
    exists u, v :: Covers(g, r, u, v, k)
  }

  predicate Covers(g: Shape, r: Rect, u: int, v: int, k: int)
  {
    InRect(r, u, v) && OnSurface(g, u, v) && Index(g, u, v) == k
  }

  // -------------------------------------------------------------- surface

  class Surface {
    const shape: Shape
    const bits: array<Pixel>

    constructor (width: nat, height: nat, stride: nat)
      requires width <= stride && width < 0x8000_0000 && height < 0x8000_0000 && height * stride < 0x1_0000_0000
      ensures Fits(shape, bits.Length) && fresh(bits) && shape == Shape(width, height, stride)
    {
      shape := Shape(width, height, stride);
      bits := new Pixel[height * stride](_ => 0);
    }

    /** surface_pixel */
    method SetPixel(x: int, y: int, pixel: Pixel)
      requires Fits(shape, bits.Length)
      modifies bits
      ensures bits[..] == Put(old(bits[..]), shape, x, y, pixel)
    {
      if x < 0 || y < 0 || x >= shape.width || y >= shape.height {
        return;
      }
      PlaceOf(shape, bits.Length, x, y);
      bits[y * shape.stride + x] := pixel;
      assert bits[..] == old(bits[..])[Index(shape, x, y) := pixel];
    }

    /** surface_fill: exactly the rectangle's pixels on the surface change. Its corners are
        32-bit numbers, as dc_clip leaves them. */
    method Fill(x: int, y: int, w: int, h: int, pixel: Pixel)
      requires Fits(shape, bits.Length) && Fits32(x) && Fits32(y) && Fits32(x + w) && Fits32(y + h)
      modifies bits
      ensures forall k :: 0 <= k < bits.Length ==>
        bits[k] == if Covered(shape, Rect(x, y, w, h), k) then pixel else old(bits[k])
    {
      var x', y', w', h' := x, y, w, h;
      if w <= 0 || h <= 0 {
        return;
      }
      if x' < 0 {
        w' := w' + x';
        x' := 0;
      }
      if y' < 0 {
        h' := h' + y';
        y' := 0;
      }
      if x' >= shape.width || y' >= shape.height {
        return;
      }
      if x' + w' > shape.width {
        w' := shape.width - x';
      }
      if y' + h' > shape.height {
        h' := shape.height - y';
      }
      if w' <= 0 || h' <= 0 {
        return;
      }
      FillRows(x', y', w', h', pixel);
      forall k | 0 <= k < bits.Length
        ensures Covered(shape, Rect(x, y, w, h), k) <==> Covered(shape, Rect(x', y', w', h'), k)
      {
        if Covered(shape, Rect(x, y, w, h), k) {
          var u, v :| Covers(shape, Rect(x, y, w, h), u, v, k);
          assert Covers(shape, Rect(x', y', w', h'), u, v, k);
        }
        if Covered(shape, Rect(x', y', w', h'), k) {
          var u, v :| Covers(shape, Rect(x', y', w', h'), u, v, k);
          assert Covers(shape, Rect(x, y, w, h), u, v, k);
        }
      }
    }

    /** The rows of a rectangle that lies on the surface. */
    method FillRows(x: int, y: int, w: int, h: int, pixel: Pixel)
      requires Fits(shape, bits.Length)
      requires 0 <= x && 0 <= y && 0 <= w && 0 <= h && x + w <= shape.width && y + h <= shape.height
      modifies bits
      ensures forall k :: 0 <= k < bits.Length ==>
        bits[k] == if Covered(shape, Rect(x, y, w, h), k) then pixel else old(bits[k])
    {
      var row := 0;
      while row < h
        invariant 0 <= row <= h
        invariant forall k :: 0 <= k < bits.Length ==>
          bits[k] == if Covered(shape, Rect(x, y, w, row), k) then pixel else old(bits[k])
      {
        ghost var before := bits[..];
        FillRow(x, y + row, w, pixel);
        forall k | 0 <= k < bits.Length
          ensures Covered(shape, Rect(x, y, w, row + 1), k)
             <==> Covered(shape, Rect(x, y, w, row), k) || Covered(shape, Rect(x, y + row, w, 1), k)
        {
          OneMoreRow(shape, x, y, w, row, k);
        }
        row := row + 1;
      }
    }

    method FillRow(x: int, y: int, w: int, pixel: Pixel)
      requires Fits(shape, bits.Length)
      requires 0 <= x && 0 <= y < shape.height && 0 <= w && x + w <= shape.width
      modifies bits
      ensures forall k :: 0 <= k < bits.Length ==>
        bits[k] == if Covered(shape, Rect(x, y, w, 1), k) then pixel else old(bits[k])
    {
      var col := 0;
      ghost var start := Index(shape, x, y);
      while col < w
        invariant 0 <= col <= w
        invariant forall k :: 0 <= k < bits.Length ==>
          bits[k] == if start <= k < start + col then pixel else old(bits[k])
      {
        PlaceOf(shape, bits.Length, x + col, y);
        bits[y * shape.stride + x + col] := pixel;
        col := col + 1;
      }
      forall k | 0 <= k < bits.Length
        ensures Covered(shape, Rect(x, y, w, 1), k) <==> start <= k < start + w
      {
        if start <= k < start + w {
          assert Covers(shape, Rect(x, y, w, 1), x + k - start, y, k);
        }
      }
    }
  }

  lemma OneMoreRow(g: Shape, x: int, y: int, w: int, row: nat, k: int)
    ensures Covered(g, Rect(x, y, w, row + 1), k)
       <==> Covered(g, Rect(x, y, w, row), k) || Covered(g, Rect(x, y + row, w, 1), k)
  {
    if Covered(g, Rect(x, y, w, row + 1), k) {
      var u, v :| Covers(g, Rect(x, y, w, row + 1), u, v, k);
      assert Covers(g, Rect(x, y, w, row), u, v, k) || Covers(g, Rect(x, y + row, w, 1), u, v, k);
    }
    if Covered(g, Rect(x, y, w, row), k) {
      var u, v :| Covers(g, Rect(x, y, w, row), u, v, k);
      assert Covers(g, Rect(x, y, w, row + 1), u, v, k);
    }
    if Covered(g, Rect(x, y + row, w, 1), k) {
      var u, v :| Covers(g, Rect(x, y + row, w, 1), u, v, k);
      assert Covers(g, Rect(x, y, w, row + 1), u, v, k);
    }
  }

  // ------------------------------------------------------- device context

  class DeviceContext {
    var surface: Surface?
    var orgX: Int32
    var orgY: Int32
    var clipX: Int32
    var clipY: Int32
    var clipW: Int32
    var clipH: Int32
    var curX: Int32
    var curY: Int32

    function ClipBox(): Rect
      reads this
    {
      Rect(clipX as int, clipY as int, clipW as int, clipH as int)
    }

    /** A point of the device context in surface coordinates. */
    function OnTarget(x: int, y: int): Point
      reads this
    {
      (orgX as int + x, orgY as int + y)
    }

    predicate ClipFits()
      reads this
    {
      Fits32(clipX as int + clipW as int) && Fits32(clipY as int + clipH as int)
    }

    /** dc_clip: the intersection with the clip box, in surface coordinates. */
    method Clip(x: Int32, y: Int32, w: Int32, h: Int32) returns (some: bool, r: Rect)
      requires ClipFits() && Fits32(orgX as int + x as int) && Fits32(orgY as int + y as int)
      requires Fits32(orgX as int + x as int + w as int) && Fits32(orgY as int + y as int + h as int)
      ensures some ==> r.w > 0 && r.h > 0
      ensures Fits32(r.x) && Fits32(r.y) && Fits32(r.x + r.w) && Fits32(r.y + r.h)
      ensures forall u, v :: (some && InRect(r, u, v)) <==>
        (InRect(Rect(orgX as int + x as int, orgY as int + y as int, w as int, h as int), u, v)
         && InRect(ClipBox(), u, v))
    {
      var left, top := orgX + x, orgY + y;
      var right, bottom := left + w, top + h;
      var clipRight, clipBottom := clipX + clipW, clipY + clipH;
      if left < clipX {
        left := clipX;
      }
      if top < clipY {
        top := clipY;
      }
      if right > clipRight {
        right := clipRight;
      }
      if bottom > clipBottom {
        bottom := clipBottom;
      }
      r := Rect(left as int, top as int, right as int - left as int, bottom as int - top as int);
      some := !(right <= left || bottom <= top);
    }

    /** dc_fill: exactly the rectangle's pixels inside clip box and surface change. */
    method FillRect(x: Int32, y: Int32, w: Int32, h: Int32, pixel: Pixel)
      requires surface != null ==> Fits(surface.shape, surface.bits.Length)
      requires ClipFits() && Fits32(orgX as int + x as int) && Fits32(orgY as int + y as int)
      requires Fits32(orgX as int + x as int + w as int) && Fits32(orgY as int + y as int + h as int)
      modifies if surface != null then {surface.bits} else {}
      ensures var r := Rect(orgX as int + x as int, orgY as int + y as int, w as int, h as int);
        surface != null ==> forall k :: 0 <= k < surface.bits.Length ==>
          surface.bits[k] == if CoveredBoth(surface.shape, r, ClipBox(), k) then pixel else old(surface.bits[k])
    {
      var some, r := Clip(x, y, w, h);
      ghost var q := Rect(orgX as int + x as int, orgY as int + y as int, w as int, h as int);
      if surface == null {
        return;
      }
      if some {
        surface.Fill(r.x, r.y, r.w, r.h, pixel);
      }
      forall k | 0 <= k < surface.bits.Length
        ensures CoveredBoth(surface.shape, q, ClipBox(), k) <==> some && Covered(surface.shape, r, k)
      {
        if CoveredBoth(surface.shape, q, ClipBox(), k) {
          var u, v :| Covers(surface.shape, q, u, v, k) && InRect(ClipBox(), u, v);
          assert some && Covers(surface.shape, r, u, v, k);
        }
        if some && Covered(surface.shape, r, k) {
          var u, v :| Covers(surface.shape, r, u, v, k);
          assert Covers(surface.shape, q, u, v, k) && InRect(ClipBox(), u, v);
        }
      }
    }

    /** NtGdiMoveTo */
    method MoveTo(x: Int32, y: Int32) returns (oldX: Int32, oldY: Int32)
      modifies this
      ensures oldX == old(curX) && oldY == old(curY) && curX == x && curY == y
      ensures surface == old(surface) && ClipBox() == old(ClipBox()) && orgX == old(orgX) && orgY == old(orgY)
    {
      oldX, oldY := curX, curY;
      curX, curY := x, y;
    }

    /** One point of a line: clipped on its own, then drawn. */
    method PlotPoint(x: Int32, y: Int32, pixel: Pixel)
      requires surface != null && Fits(surface.shape, surface.bits.Length) && ClipFits()
      requires PointFits(OnTarget(x as int, y as int))
      modifies surface.bits
      ensures surface.bits[..]
           == PlotOne(old(surface.bits[..]), surface.shape, ClipBox(), OnTarget(x as int, y as int), pixel)
    {
      var some, r := Clip(x, y, 1, 1);
      UnitClip(some, r, OnTarget(x as int, y as int), ClipBox());
      if some {
        surface.SetPixel(r.x, r.y, pixel);
      }
    }

    /** The next point of a line. */
    method PlotLinePoint(x: Int32, y: Int32, pixel: Pixel, ghost bits: seq<Pixel>, ghost line: seq<Point>, ghost k: nat)
      requires surface != null && Fits(surface.shape, surface.bits.Length) && ClipFits()
      requires PointFits(OnTarget(x as int, y as int)) && |bits| == surface.bits.Length
      requires k < |line| && line[k] == OnTarget(x as int, y as int)
      requires surface.bits[..] == PlotFirst(bits, surface.shape, ClipBox(), line, k, pixel)
      modifies surface.bits
      ensures surface.bits[..] == PlotFirst(bits, surface.shape, ClipBox(), line, k + 1, pixel)
      ensures k + 1 == |line| ==> surface.bits[..] == Plot(bits, surface.shape, ClipBox(), line, pixel)
    {
      PlotNext(bits, surface.shape, ClipBox(), line, k, pixel);
      PlotPoint(x, y, pixel);
    }

    /** The line's coordinates and the doubled error term stay within 32 bits. */
    predicate LineFits(x: Int32, y: Int32)
      reads this
    {
      && 3 * Length((curX as int, curY as int), (x as int, y as int)) < 0x8000_0000
      && PointFits(OnTarget(curX as int, curY as int)) && PointFits(OnTarget(x as int, y as int))
    }

    /** NtGdiLineTo: the current position moves, and the visible points of the line are
        drawn. */
    method LineTo(x1: Int32, y1: Int32, pixel: Pixel, hollow: bool) returns (ok: bool)
      requires surface != null ==> Fits(surface.shape, surface.bits.Length)
      requires ClipFits() && LineFits(x1, y1)
      modifies this, if surface != null then {surface.bits} else {}
      ensures surface == old(surface) && ClipBox() == old(ClipBox()) && orgX == old(orgX) && orgY == old(orgY)
      ensures ok <==> surface != null
      ensures if ok then curX == x1 && curY == y1 else curX == old(curX) && curY == old(curY)
      ensures surface != null ==> surface.bits[..] == if hollow then old(surface.bits[..]) else
        Plot(old(surface.bits[..]), surface.shape, ClipBox(),
             Line(old(OnTarget(curX as int, curY as int)), OnTarget(x1 as int, y1 as int)), pixel)
    {
      if surface == null {
        return false;
      }
      var x0, y0 := curX, curY;
      curX, curY := x1, y1;
      if hollow {
        return true;
      }
      DrawLine(x0, y0, x1, y1, pixel);
      ok := true;
    }

    /** The drawing of a line. */
    method DrawLine(fromX: Int32, fromY: Int32, x1: Int32, y1: Int32, pixel: Pixel)
      requires surface != null && Fits(surface.shape, surface.bits.Length) && ClipFits()
      requires 3 * Length((fromX as int, fromY as int), (x1 as int, y1 as int)) < 0x8000_0000
      requires PointFits(OnTarget(fromX as int, fromY as int)) && PointFits(OnTarget(x1 as int, y1 as int))
      modifies surface.bits
      ensures surface.bits[..] == Plot(old(surface.bits[..]), surface.shape, ClipBox(),
                Line(OnTarget(fromX as int, fromY as int), OnTarget(x1 as int, y1 as int)), pixel)
    {
      var dx := if x1 > fromX then x1 - fromX else fromX - x1;
      var dy := if y1 > fromY then y1 - fromY else fromY - y1;
      var sx: Int32 := if fromX < x1 then 1 else -1;
      var sy: Int32 := if fromY < y1 then 1 else -1;
      LineLoop(fromX, fromY, x1, y1, dx, dy, sx, sy, pixel);
    }

    /** The Bresenham loop, given the deltas and directions. */
    method LineLoop(fromX: Int32, fromY: Int32, x1: Int32, y1: Int32, dx: Int32, dy: Int32, sx: Int32, sy: Int32,
                    pixel: Pixel)
      requires surface != null && Fits(surface.shape, surface.bits.Length) && ClipFits()
      requires dx as int == Abs(x1 as int - fromX as int) && dy as int == Abs(y1 as int - fromY as int)
      requires sx as int == Step(fromX as int, x1 as int) && sy as int == Step(fromY as int, y1 as int)
      requires 3 * Length((fromX as int, fromY as int), (x1 as int, y1 as int)) < 0x8000_0000
      requires PointFits(OnTarget(fromX as int, fromY as int)) && PointFits(OnTarget(x1 as int, y1 as int))
      modifies surface.bits
      ensures surface.bits[..] == Plot(old(surface.bits[..]), surface.shape, ClipBox(),
                Line(OnTarget(fromX as int, fromY as int), OnTarget(x1 as int, y1 as int)), pixel)
    {
      ghost var from, to := (fromX as int, fromY as int), (x1 as int, y1 as int);
      ghost var line := Line(OnTarget(from.0, from.1), OnTarget(to.0, to.1));
      ghost var bits, k := surface.bits[..], 0;
      var x0, y0, err := fromX, fromY, dx - dy;
      while true
        invariant 0 <= k <= Length(from, to) && |line| == Length(from, to) + 1
        invariant Turn(x0 as int, y0 as int, err as int) == TurnAt(from, to, k)
        invariant surface.bits[..] == PlotFirst(bits, surface.shape, ClipBox(), line, k, pixel)
        decreases Length(from, to) - k
      {
        PointOfLine(from, to, (orgX as int, orgY as int), x0 as int, y0 as int, k);
        PlotLinePoint(x0, y0, pixel, bits, line, k);
        ReachedEnd(from, to, k);
        if x0 == x1 && y0 == y1 {
          break;
        }
        x0, y0, err := StepLine(x0, y0, err, dx, dy, sx, sy, from, to, k);
        k := k + 1;
      }
    }
  }

  /** A single point clips to itself or to nothing. */
  lemma UnitClip(some: bool, r: Rect, p: Point, clip: Rect)
    requires some ==> r.w > 0 && r.h > 0
    requires forall u, v :: (some && InRect(r, u, v)) <==> (InRect(Rect(p.0, p.1, 1, 1), u, v) && InRect(clip, u, v))
    ensures some <==> InRect(clip, p.0, p.1)
    ensures some ==> r.x == p.0 && r.y == p.1
  {
    assert InRect(Rect(p.0, p.1, 1, 1), p.0, p.1);
    assert some ==> InRect(r, r.x, r.y);
  }

  /** The loop's variables. */
  datatype Turn = Turn(x: int, y: int, err: int)

  function Step(from: int, to: int): int
  {
    if from < to then 1 else -1
  }

  function TurnAt(from: Point, to: Point, k: nat): Turn
  {
    var p := PointAt(from, to, k);
    Turn(p.0, p.1, Walk(Abs(to.0 - from.0), Abs(to.1 - from.1), k).err)
  }

  /** The two conditional steps of a turn; nothing leaves 32 bits. */
  method StepLine(x0: Int32, y0: Int32, err0: Int32, dx: Int32, dy: Int32, sx: Int32, sy: Int32,
                  ghost from: Point, ghost to: Point, ghost k: nat)
    returns (x: Int32, y: Int32, err: Int32)
    requires dx as int == Abs(to.0 - from.0) && dy as int == Abs(to.1 - from.1)
    requires sx as int == Step(from.0, to.0) && sy as int == Step(from.1, to.1)
    requires Fits32(from.0) && Fits32(from.1) && Fits32(to.0) && Fits32(to.1)
    requires k < Length(from, to) && 3 * Length(from, to) < 0x8000_0000
    requires Turn(x0 as int, y0 as int, err0 as int) == TurnAt(from, to, k)
    ensures Turn(x as int, y as int, err as int) == TurnAt(from, to, k + 1)
  {
    TurnFits(from, to, k);
    OneTurn(from, to, k);
    x, y, err := x0, y0, err0;
    var e2 := err * 2;
    if e2 > -dy {
      err := err - dy;
      x := x + sx;
    }
    if e2 < dx {
      err := err + dx;
      y := y + sy;
    }
  }

  /** The loop's position is the line's k-th point, and on 32-bit coordinates. */
  lemma PointOfLine(from: Point, to: Point, org: Point, x: int, y: int, k: nat)
    requires k <= Length(from, to) && x == TurnAt(from, to, k).x && y == TurnAt(from, to, k).y
    requires PointFits((org.0 + from.0, org.1 + from.1)) && PointFits((org.0 + to.0, org.1 + to.1))
    ensures PointFits((org.0 + x, org.1 + y))
    ensures var line := Line((org.0 + from.0, org.1 + from.1), (org.0 + to.0, org.1 + to.1));
      |line| == Length(from, to) + 1 && line[k] == (org.0 + x, org.1 + y)
  {
    PointInBox(from, to, k);
  }

  /** The array after the first k points of a line. */
  function PlotFirst(bits: seq<Pixel>, g: Shape, clip: Rect, line: seq<Point>, k: nat, pixel: Pixel): (r: seq<Pixel>)
    requires Fits(g, |bits|) && k <= |line|
    ensures |r| == |bits|
  {
    Plot(bits, g, clip, line[..k], pixel)
  }

  lemma PlotNext(bits: seq<Pixel>, g: Shape, clip: Rect, line: seq<Point>, k: nat, pixel: Pixel)
    requires Fits(g, |bits|) && k < |line|
    ensures PlotOne(PlotFirst(bits, g, clip, line, k, pixel), g, clip, line[k], pixel)
         == PlotFirst(bits, g, clip, line, k + 1, pixel)
    ensures k + 1 == |line| ==> PlotFirst(bits, g, clip, line, k + 1, pixel) == Plot(bits, g, clip, line, pixel)
  {
    assert line[..k + 1][..k] == line[..k];
    assert line[..|line|] == line;
  }

  predicate Fits32(v: int)
  {
    -0x8000_0000 <= v < 0x8000_0000
  }

  /** The unit square at p has 32-bit corners. */
  predicate PointFits(p: Point)
  {
    Fits32(p.0) && Fits32(p.0 + 1) && Fits32(p.1) && Fits32(p.1 + 1)
  }

  ghost predicate CoveredBoth(g: Shape, r: Rect, clip: Rect, k: int)
  {
    exists u, v :: Covers(g, r, u, v, k) && InRect(clip, u, v)
  }

  /** What a turn computes fits in 32 bits. */
  lemma TurnFits(from: Point, to: Point, k: nat)
    requires k < Length(from, to) && 3 * Length(from, to) < 0x8000_0000
    requires Fits32(from.0) && Fits32(from.1) && Fits32(to.0) && Fits32(to.1)
    ensures var err, dx, dy := TurnAt(from, to, k).err, Abs(to.0 - from.0), Abs(to.1 - from.1);
      && Fits32(2 * err) && Fits32(err - dy) && Fits32(err - dy + dx) && Fits32(err + dx)
      && Fits32(TurnAt(from, to, k + 1).x) && Fits32(TurnAt(from, to, k + 1).y)
  {
    ErrorBound(Abs(to.0 - from.0), Abs(to.1 - from.1), k);
    PointInBox(from, to, k + 1);
  }

  /** The x-step and the y-step of a turn of the loop. */
  lemma OneTurn(from: Point, to: Point, k: nat)
    ensures var t, dx, dy := TurnAt(from, to, k), Abs(to.0 - from.0) as int, Abs(to.1 - from.1) as int;
      var right, down := 2 * t.err > -dy, 2 * t.err < dx;
      TurnAt(from, to, k + 1)
      == Turn(if right then t.x + Step(from.0, to.0) else t.x, if down then t.y + Step(from.1, to.1) else t.y,
              t.err - (if right then dy else 0) + if down then dx else 0)
  {
    assert Walk(Abs(to.0 - from.0), Abs(to.1 - from.1), k + 1)
        == Advance(Abs(to.0 - from.0), Abs(to.1 - from.1), Walk(Abs(to.0 - from.0), Abs(to.1 - from.1), k));
  }

  /** The loop's exit test holds exactly at the last point. */
  lemma ReachedEnd(from: Point, to: Point, k: nat)
    requires k <= Length(from, to)
    ensures PointAt(from, to, k) == to <==> k == Length(from, to)
  {
    WalkEnds(Abs(to.0 - from.0), Abs(to.1 - from.1), k);
  }
}
