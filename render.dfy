/** `generate_mandelbrot` (src/main.rs:95-128): the coordinate map, the
    row-major layout of the RGBA buffer, the specification of the whole image
    and the column-by-column loop that fills the buffer in place. */
module Render {
  import opened ComplexNumbers
  import opened Escape
  import opened Colors
  import opened Arith

  // ---------------------------------------------------------------------
  // Coordinate map
  // ---------------------------------------------------------------------

  /** The sample point of pixel (x, y): a 3.5-wide, 2.0-tall window centred
      on -0.5 + 0i at zoom 1, scaled by 1/zoom. */
  function PixelToPoint(x: nat, y: nat, width: nat, height: nat, zoom: real): Complex
    requires width > 0 && height > 0 && zoom > 0.0
  {
    Complex((x as real / width as real - 0.5) * 3.5 / zoom - 0.5,
            (y as real / height as real - 0.5) * 2.0 / zoom)
  }

  /** For n < d, n/d lies in [0, 1). */
  lemma FractionBelowOne(n: nat, d: nat)
    requires n < d
    ensures 0.0 <= n as real / d as real < 1.0
  {
    DivideByZoom(0.0, n as real, d as real);
    DivideByZoom(n as real, d as real, d as real);
  }

  /** Dividing by a positive zoom keeps the order of two values. */
  lemma DivideByZoom(a: real, b: real, zoom: real)
    requires zoom > 0.0
    ensures a <= b ==> a / zoom <= b / zoom
    ensures a < b ==> a / zoom < b / zoom
  {
    var d := b / zoom - a / zoom;
    assert d * zoom == b - a;
  }

  /** Every pixel of a width x height grid samples the window
      [-0.5 - 1.75/zoom, -0.5 + 1.75/zoom) x [-1/zoom, 1/zoom). */
  lemma PointInWindow(x: nat, y: nat, width: nat, height: nat, zoom: real)
    requires x < width && y < height && zoom > 0.0
    ensures var c := PixelToPoint(x, y, width, height, zoom);
      && -0.5 - 1.75 / zoom <= c.re < -0.5 + 1.75 / zoom
      && -1.0 / zoom <= c.im < 1.0 / zoom
  {
    FractionBelowOne(x, width);
    FractionBelowOne(y, height);
    var u := (x as real / width as real - 0.5) * 3.5;
    var v := (y as real / height as real - 0.5) * 2.0;
    assert -1.75 <= u < 1.75;
    assert -1.0 <= v < 1.0;
    DivideByZoom(-1.75, u, zoom);
    DivideByZoom(u, 1.75, zoom);
    DivideByZoom(-1.0, v, zoom);
    DivideByZoom(v, 1.0, zoom);
  }

  /** Zooming scales the offset of every sample point from the centre
      -0.5 + 0i by 1/zoom: the window shrinks in proportion to the zoom. */
  lemma ZoomScalesWindow(x: nat, y: nat, width: nat, height: nat, zoom: real)
    requires width > 0 && height > 0 && zoom > 0.0
    ensures var c, c1 := PixelToPoint(x, y, width, height, zoom), PixelToPoint(x, y, width, height, 1.0);
      && (c.re + 0.5) * zoom == c1.re + 0.5
      && c.im * zoom == c1.im
  {
    var u := (x as real / width as real - 0.5) * 3.5;
    var v := (y as real / height as real - 0.5) * 2.0;
    assert u / zoom * zoom == u;
    assert v / zoom * zoom == v;
  }

  // ---------------------------------------------------------------------
  // Row-major layout of the RGBA buffer
  // ---------------------------------------------------------------------

  /** `pixel_index`: the first of the four bytes of pixel (x, y). */
  function Slot(x: nat, y: nat, width: nat): nat {
    (y * width + x) * 4
  }

  /** The column of the pixel that byte i belongs to. */
  function Column(i: nat, width: nat): nat
    requires width > 0
  {
    i / 4 % width
  }

  /** The row of the pixel that byte i belongs to. */
  function Row(i: nat, width: nat): nat
    requires width > 0
  {
    i / 4 / width
  }

  /** Each pixel's four bytes lie inside the width*height*4 buffer. */
  lemma SlotInBounds(x: nat, y: nat, width: nat, height: nat)
    requires x < width && y < height
    ensures Slot(x, y, width) + 4 <= width * height * 4
  {
    MulMonotone(y + 1, height, width);
    assert y * width + x < (y + 1) * width;
  }

  /** If p = q*w + r with r < w, then q and r are p's quotient and remainder. */
  lemma DivModUnique(p: nat, q: nat, r: nat, w: nat)
    requires r < w && p == q * w + r
    ensures p / w == q && p % w == r
  {
    var q', r' := p / w, p % w;
    assert p == q' * w + r';
    if q' < q {
      MulMonotone(q' + 1, q, w);
    } else if q < q' {
      MulMonotone(q + 1, q', w);
    }
  }

  /** Byte i belongs to pixel (x, y) exactly when it lies in that pixel's
      four-byte slot. */
  lemma SlotOwner(i: nat, width: nat, x: nat, y: nat)
    requires x < width
    ensures (Column(i, width) == x && Row(i, width) == y)
              <==> (Slot(x, y, width) <= i < Slot(x, y, width) + 4)
  {
    var p := i / 4;
    assert p == Row(i, width) * width + Column(i, width);
    if Slot(x, y, width) <= i < Slot(x, y, width) + 4 {
      assert p == y * width + x;
      DivModUnique(p, y, x, width);
    }
  }

  /** Every byte of the buffer belongs to exactly one pixel of the grid, at
      offset i % 4 of that pixel's slot: the slots tile the buffer. */
  lemma ByteOwner(i: nat, width: nat, height: nat)
    requires i < width * height * 4
    ensures width > 0 && height > 0
    ensures Column(i, width) < width && Row(i, width) < height
    ensures Slot(Column(i, width), Row(i, width), width) + i % 4 == i
  {
    var p := i / 4;
    assert p < width * height;
    var r := Row(i, width);
    assert p == r * width + Column(i, width);
    if r >= height {
      MulMonotone(height, r, width);
    }
  }

  /** Slots of two different pixels do not overlap. */
  lemma SlotsDisjoint(x: nat, y: nat, x': nat, y': nat, width: nat)
    requires x < width && x' < width && (x, y) != (x', y')
    ensures Slot(x, y, width) + 4 <= Slot(x', y', width)
         || Slot(x', y', width) + 4 <= Slot(x, y, width)
  {
    var s, s' := Slot(x, y, width), Slot(x', y', width);
    if s < s' + 4 && s' < s + 4 {
      var i := if s <= s' then s' else s;
      SlotOwner(i, width, x, y);
      SlotOwner(i, width, x', y');
    }
  }

  // ---------------------------------------------------------------------
  // The image as a function of its parameters
  // ---------------------------------------------------------------------

  /** The RGBA colour of pixel (x, y). */
  function PixelRgba(x: nat, y: nat, width: nat, height: nat, maxIter: nat, zoom: real, g: Gradient): Rgba
    requires x < width && y < height && zoom > 0.0
  {
    PixelColor(EscapeCount(PixelToPoint(x, y, width, height, zoom), maxIter), maxIter, g)
  }

  /** Byte i of the image: channel i % 4 of the pixel whose slot holds it. */
  function ImageByte(i: nat, width: nat, height: nat, maxIter: nat, zoom: real, g: Gradient): Byte
    requires i < width * height * 4 && zoom > 0.0
  {
    ByteOwner(i, width, height);
    PixelRgba(Column(i, width), Row(i, width), width, height, maxIter, zoom, g)[i % 4]
  }

  /** The whole row-major RGBA buffer that `generate_mandelbrot` returns. */
  function Image(width: nat, height: nat, maxIter: nat, zoom: real, g: Gradient): (pixels: seq<Byte>)
    requires zoom > 0.0
    ensures |pixels| == width * height * 4
  {
    seq(width * height * 4, i requires 0 <= i < width * height * 4 => ImageByte(i, width, height, maxIter, zoom, g))
  }

  /** Byte j of pixel (x, y)'s slot is channel j of its colour. */
  lemma ImageSlotByte(x: nat, y: nat, width: nat, height: nat, maxIter: nat, zoom: real, g: Gradient, j: nat)
    requires x < width && y < height && zoom > 0.0 && j < 4
    ensures Slot(x, y, width) + j < |Image(width, height, maxIter, zoom, g)|
    ensures Image(width, height, maxIter, zoom, g)[Slot(x, y, width) + j]
              == PixelRgba(x, y, width, height, maxIter, zoom, g)[j]
  {
    SlotInBounds(x, y, width, height);
    SlotOwner(Slot(x, y, width) + j, width, x, y);
  }

  /** The four bytes at `(y*width + x)*4` are the colour of pixel (x, y). */
  lemma ImagePixel(x: nat, y: nat, width: nat, height: nat, maxIter: nat, zoom: real, g: Gradient)
    requires x < width && y < height && zoom > 0.0
    ensures Slot(x, y, width) + 4 <= |Image(width, height, maxIter, zoom, g)|
    ensures Image(width, height, maxIter, zoom, g)[Slot(x, y, width)..Slot(x, y, width) + 4]
              == PixelRgba(x, y, width, height, maxIter, zoom, g)
  {
    var img, s := Image(width, height, maxIter, zoom, g), Slot(x, y, width);
    var rgba := PixelRgba(x, y, width, height, maxIter, zoom, g);
    SlotInBounds(x, y, width, height);
    forall j | 0 <= j < 4
      ensures img[s..s + 4][j] == rgba[j]
    {
      ImageSlotByte(x, y, width, height, maxIter, zoom, g, j);
    }
  }

  /** Every alpha byte, at index 4k + 3, is 255. */
  lemma ImageOpaque(width: nat, height: nat, maxIter: nat, zoom: real, g: Gradient, k: nat)
    requires k < width * height && zoom > 0.0
    ensures 4 * k + 3 < |Image(width, height, maxIter, zoom, g)|
    ensures Image(width, height, maxIter, zoom, g)[4 * k + 3] == 255
  {
    ByteOwner(4 * k + 3, width, height);
  }

  /** A pixel whose escape loop ran the full budget is opaque black. */
  lemma ImageBoundedBlack(x: nat, y: nat, width: nat, height: nat, maxIter: nat, zoom: real, g: Gradient)
    requires x < width && y < height && zoom > 0.0
    requires EscapeCount(PixelToPoint(x, y, width, height, zoom), maxIter) == maxIter
    ensures Slot(x, y, width) + 4 <= |Image(width, height, maxIter, zoom, g)|
    ensures Image(width, height, maxIter, zoom, g)[Slot(x, y, width)..Slot(x, y, width) + 4] == Black
  {
    ImagePixel(x, y, width, height, maxIter, zoom, g);
  }

  /** With a zero budget every pixel of the image is opaque black. */
  lemma ZeroBudgetImage(width: nat, height: nat, zoom: real, g: Gradient)
    requires zoom > 0.0
    ensures forall i :: 0 <= i < width * height * 4 ==>
              Image(width, height, 0, zoom, g)[i] == Black[i % 4]
  {
    forall i | 0 <= i < width * height * 4
      ensures Image(width, height, 0, zoom, g)[i] == Black[i % 4]
    {
      ByteOwner(i, width, height);
    }
  }

  /** An escaped pixel's count n lies in [1, maxIter), t = n/maxIter lies in
      (0, 1), and channel k of its colour is `interpolate` of the gradient's
      channel k at t, between the gradient's two values for that channel. */
  lemma ImageEscapedChannel(x: nat, y: nat, width: nat, height: nat, maxIter: nat, zoom: real, g: Gradient, k: nat)
    requires x < width && y < height && zoom > 0.0 && k < 3
    requires EscapeCount(PixelToPoint(x, y, width, height, zoom), maxIter) < maxIter
    ensures var n := EscapeCount(PixelToPoint(x, y, width, height, zoom), maxIter);
      && 1 <= n
      && 0.0 < Normalized(n, maxIter) < 1.0
      && Slot(x, y, width) + k < |Image(width, height, maxIter, zoom, g)|
      && Image(width, height, maxIter, zoom, g)[Slot(x, y, width) + k]
           == Interpolate(g.startColor[k], g.endColor[k], Normalized(n, maxIter))
      && Min(g.startColor[k], g.endColor[k]) <= Image(width, height, maxIter, zoom, g)[Slot(x, y, width) + k]
           <= Max(g.startColor[k], g.endColor[k])
  {
    var c := PixelToPoint(x, y, width, height, zoom);
    var n := EscapeCount(c, maxIter);
    EscapeCountPositive(c, maxIter);
    assert Normalized(n, maxIter) * maxIter as real == n as real;
    ImagePixel(x, y, width, height, maxIter, zoom, g);
    var img := Image(width, height, maxIter, zoom, g);
    assert img[Slot(x, y, width) + k] == img[Slot(x, y, width)..Slot(x, y, width) + 4][k];
    EscapedColor(n, maxIter, g, k);
  }

  /** A 4 x 4 image with budget 10 at zoom 1: 64 bytes, and the pixel
      (2, 2), which samples -0.5 + 0i, is opaque black. */
  lemma SmallImageCentre(g: Gradient)
    ensures |Image(4, 4, 10, 1.0, g)| == 64
    ensures PixelToPoint(2, 2, 4, 4, 1.0) == Complex(-0.5, 0.0)
    ensures Slot(2, 2, 4) == 40
    ensures Image(4, 4, 10, 1.0, g)[40..44] == Black
  {
    MinusHalfNeverEscapes(PixelToPoint(2, 2, 4, 4, 1.0), 10);
    ImageBoundedBlack(2, 2, 4, 4, 10, 1.0, g);
  }

  // ---------------------------------------------------------------------
  // The buffer fill
  // ---------------------------------------------------------------------

  /** Pixel (Column(i), Row(i)) of byte i comes before pixel (x, y) in the
      loop's column-by-column order. */
  ghost predicate Visited(i: nat, width: nat, x: nat, y: nat) {
    width > 0 && (Column(i, width) < x || (Column(i, width) == x && Row(i, width) < y))
  }

  /** The buffer after the loop has reached pixel (x, y): the slot of every
      pixel already visited holds its colour, and every other byte still holds
      its initial 0. */
  ghost predicate FilledUpTo(buf: seq<Byte>, width: nat, height: nat, maxIter: nat, zoom: real, g: Gradient, x: nat, y: nat)
    requires |buf| == width * height * 4 && zoom > 0.0
  {
    forall i :: 0 <= i < |buf| ==>
      buf[i] == if Visited(i, width, x, y) then ImageByte(i, width, height, maxIter, zoom, g) else 0
  }

  /** Writing pixel (x, y)'s colour into its slot, and nothing else, moves
      the loop from pixel (x, y) to pixel (x, y + 1). */
  lemma FillPixel(before: seq<Byte>, after: seq<Byte>, width: nat, height: nat, maxIter: nat, zoom: real, g: Gradient, x: nat, y: nat)
    requires x < width && y < height && zoom > 0.0
    requires |before| == width * height * 4 && |after| == |before|
    requires FilledUpTo(before, width, height, maxIter, zoom, g, x, y)
    requires forall i :: 0 <= i < |after| ==>
               after[i] == if Slot(x, y, width) <= i < Slot(x, y, width) + 4
                           then PixelRgba(x, y, width, height, maxIter, zoom, g)[i - Slot(x, y, width)]
                           else before[i]
    ensures FilledUpTo(after, width, height, maxIter, zoom, g, x, y + 1)
  {
    var s := Slot(x, y, width);
    forall i | 0 <= i < |after|
      ensures after[i] == if Visited(i, width, x, y + 1) then ImageByte(i, width, height, maxIter, zoom, g) else 0
    {
      SlotOwner(i, width, x, y);
      if s <= i < s + 4 {
        ByteOwner(i, width, height);
      }
    }
  }

  /** Finishing column x is starting column x + 1. */
  lemma FillColumn(buf: seq<Byte>, width: nat, height: nat, maxIter: nat, zoom: real, g: Gradient, x: nat)
    requires |buf| == width * height * 4 && zoom > 0.0
    requires FilledUpTo(buf, width, height, maxIter, zoom, g, x, height)
    ensures FilledUpTo(buf, width, height, maxIter, zoom, g, x + 1, 0)
  {
    forall i | 0 <= i < |buf|
      ensures Visited(i, width, x, height) == Visited(i, width, x + 1, 0)
    {
      ByteOwner(i, width, height);
    }
  }

  /** Once every column is done, the buffer is the image. */
  lemma FillComplete(buf: seq<Byte>, width: nat, height: nat, maxIter: nat, zoom: real, g: Gradient)
    requires |buf| == width * height * 4 && zoom > 0.0
    requires FilledUpTo(buf, width, height, maxIter, zoom, g, width, 0)
    ensures buf == Image(width, height, maxIter, zoom, g)
  {
    forall i | 0 <= i < |buf|
      ensures buf[i] == ImageByte(i, width, height, maxIter, zoom, g)
    {
      ByteOwner(i, width, height);
    }
  }

  /** `pixels[start..start + 4].copy_from_slice(&color)` */
  method CopyPixel(buf: array<Byte>, start: nat, color: Rgba)
    requires start + 4 <= buf.Length
    modifies buf
    ensures forall i :: 0 <= i < buf.Length ==>
              buf[i] == if start <= i < start + 4 then color[i - start] else old(buf[i])
  {
    buf[start] := color[0];
    buf[start + 1] := color[1];
    buf[start + 2] := color[2];
    buf[start + 3] := color[3];
  }

  /** `generate_mandelbrot`: a zeroed buffer of width*height*4 bytes, filled
      with x in the outer loop and y in the inner one, each pixel's colour
      written to its row-major slot. The result is the image. */
  method GenerateMandelbrot(width: nat, height: nat, maxIter: nat, zoom: real, g: Gradient)
    returns (pixels: seq<Byte>)
    requires zoom > 0.0
    ensures pixels == Image(width, height, maxIter, zoom, g)
  {
    var buf := new Byte[width * height * 4](_ => 0);
    for x := 0 to width
      invariant FilledUpTo(buf[..], width, height, maxIter, zoom, g, x, 0)
    {
      for y := 0 to height
        invariant FilledUpTo(buf[..], width, height, maxIter, zoom, g, x, y)
      {
        var c := PixelToPoint(x, y, width, height, zoom);
        var iter, _ := EscapeIteration(c, maxIter);
        var pixelIndex := Slot(x, y, width);
        var color := PixelColor(iter, maxIter, g);
        SlotInBounds(x, y, width, height);
        ghost var before := buf[..];
        CopyPixel(buf, pixelIndex, color);
        FillPixel(before, buf[..], width, height, maxIter, zoom, g, x, y);
      }
      FillColumn(buf[..], width, height, maxIter, zoom, g, x);
    }
    FillComplete(buf[..], width, height, maxIter, zoom, g);
    pixels := buf[..];
  }
}
