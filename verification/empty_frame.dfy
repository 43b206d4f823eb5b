/**
  The picture shown when a frame cannot be decoded (render_empty_frame of
  libharvid/ffdecoder.c): a cross of two mirrored diagonals on an even background.
  */
module EmptyFrame {

  newtype byte = x: int | 0 <= x < 0x100

  datatype Layout = Yuv420p | Yuv440p | Yuyv422 | Uyvy422 | Rgb24 | Bgr24 | Rgba | Bgra | Argb | Unknown

  // ---------------------------------------------------------------------------------
  // The cross

  /** How the cross is drawn: bytes per pixel, first byte and number of bytes written, their value. */
  datatype Pen = Pen(step: nat, first: nat, count: nat, value: byte)

  function PenOf(f: Layout): Pen
  {
    match f
    case Yuv420p => Pen(1, 0, 2, 127)
    case Yuv440p => Pen(1, 0, 2, 127)
    case Yuyv422 => Pen(2, 0, 2, 127)
    case Uyvy422 => Pen(2, 0, 2, 127)
    case Rgb24 => Pen(3, 0, 3, 255)
    case Bgr24 => Pen(3, 0, 3, 255)
    case Rgba => Pen(4, 0, 3, 255)
    case Bgra => Pen(4, 0, 3, 255)
    case Argb => Pen(4, 1, 3, 255)
    case Unknown => Pen(0, 0, 0, 0)
  }

  /** The row of the falling diagonal in column x; the rising one is its mirror image. */
  function Row(w: int, h: int, x: int): int
    requires w > 0
  {
    h * x / w
  }

  predicate OnDiagonals(w: int, h: int, x: int, y: int)
    requires w > 0
  {
    y == Row(w, h, x) || y == h - Row(w, h, x) - 1
  }

  function Offset(p: Pen, w: int, x: int, y: int): int
  {
    p.step * (x + w * y) + p.first
  }

  /** Is byte k written in column x? */
  predicate Hit(p: Pen, w: int, h: int, x: int, k: int)
    requires w > 0
  {
    || Offset(p, w, x, Row(w, h, x)) <= k < Offset(p, w, x, Row(w, h, x)) + p.count
    || Offset(p, w, x, h - Row(w, h, x) - 1) <= k < Offset(p, w, x, h - Row(w, h, x) - 1) + p.count
  }

  /** Is byte k written in one of the first n columns? */
  predicate Lit(p: Pen, w: int, h: int, n: nat, k: int)
    requires w > 0
  {
    n > 0 && (Lit(p, w, h, n - 1, k) || Hit(p, w, h, n - 1, k))
  }

  // ---------------------------------------------------------------------------------
  // Where that is

  lemma RowInPicture(w: int, h: int, x: int)
    requires w > 0 && h > 0 && 0 <= x < w
    ensures 0 <= Row(w, h, x) < h
  {
    Product(h, x);
    Smaller(h, x, w);
    Divided(h * x, w, h);
  }

  lemma Smaller(h: int, x: int, w: int)
    requires h > 0 && x < w
    ensures h * x < h * w
  {
    ProductPositive(h, w - x);
    assert h * (w - x) == h * w - h * x;
  }

  lemma Divided(n: int, w: int, h: int)
    requires w > 0 && 0 <= n < h * w
    ensures 0 <= n / w < h
  {
    assert n == (n / w) * w + n % w;
    Quotient(n / w, h, w);
  }

  lemma Product(a: int, b: int)
    requires a >= 0 && b >= 0
    ensures a * b >= 0
  {
  }

  lemma ProductPositive(a: int, b: int)
    requires a > 0 && b > 0
    ensures a * b > 0
  {
  }

  lemma Quotient(q: int, h: int, w: int)
    requires w > 0 && q * w < h * w
    ensures q < h
  {
    assert (q - h) * w < 0;
  }

  /** The last byte of a hit is still inside a picture of w * h pixels. */
  lemma HitInside(p: Pen, w: int, h: int, x: int, y: int)
    requires w > 0 && h > 0 && 0 <= x < w - 1 && 0 <= y < h
    requires p.first + p.count <= p.step || (p.step == 1 && p.first == 0 && p.count == 2)
    ensures 0 <= Offset(p, w, x, y) && Offset(p, w, x, y) + p.count <= p.step * (w * h)
  {
    assert x + w * y + 1 < w * h by {
      Product(w, h - 1 - y);
      assert w * (h - 1 - y) == w * h - w - w * y;
    }
    Product(w, y);
    Product(p.step, x + w * y);
    Product(p.step, w * h - 1 - (x + w * y));
    assert p.step * (w * h - 1 - (x + w * y)) == p.step * (w * h) - p.step - p.step * (x + w * y);
  }

  /** Column and row of a pixel are determined by its number. */
  lemma PixelUnique(w: int, x: int, y: int, x': int, y': int)
    requires 0 <= x < w && 0 <= x' < w
    ensures x + w * y == x' + w * y' <==> x == x' && y == y'
  {
    var d := y' - y;
    assert w * d == w * y' - w * y;
    assert d >= 1 ==> w * d >= w;
    assert d <= -1 ==> w * d <= -w;
  }

  /** With a pen no wider than a pixel, exactly the pixels on the diagonals are hit. */
  lemma HitPixel(p: Pen, w: int, h: int, x: int, px: int, py: int, r: nat)
    requires w > 0 && h > 0 && 0 <= x < w && 0 <= px < w
    requires 2 <= p.step <= 4 && p.first + p.count <= p.step && r < p.step
    ensures Hit(p, w, h, x, p.step * (px + w * py) + r) <==>
      p.first <= r < p.first + p.count && px == x && OnDiagonals(w, h, x, py)
  {
    var y := Row(w, h, x);
    SameStep(p, px + w * py, x + w * y, r);
    SameStep(p, px + w * py, x + w * (h - y - 1), r);
    PixelUnique(w, px, py, x, y);
    PixelUnique(w, px, py, x, h - y - 1);
  }

  lemma SameStep(p: Pen, i: int, j: int, r: nat)
    requires 2 <= p.step <= 4 && p.first + p.count <= p.step && r < p.step
    ensures p.step * j + p.first <= p.step * i + r < p.step * j + p.first + p.count <==>
      i == j && p.first <= r < p.first + p.count
  {
    if p.step == 2 {
    } else if p.step == 3 {
    } else {
    }
  }

  lemma {:induction false} LitPixel(p: Pen, w: int, h: int, n: nat, px: int, py: int, r: nat)
    requires w > 0 && h > 0 && n < w && 0 <= px < w
    requires 2 <= p.step <= 4 && p.first + p.count <= p.step && r < p.step
    ensures Lit(p, w, h, n, p.step * (px + w * py) + r) <==>
      p.first <= r < p.first + p.count && px < n && OnDiagonals(w, h, px, py)
  {
    if n > 0 {
      LitPixel(p, w, h, n - 1, px, py, r);
      HitPixel(p, w, h, n - 1, px, py, r);
    }
  }

  /** In a plane, a hit colours the pixel on the diagonal and the one to its right. */
  lemma HitPlane(p: Pen, w: int, h: int, x: int, px: int, py: int)
    requires w > 0 && h > 0 && 0 <= x < w - 1 && 0 <= px < w && p.step == 1 && p.first == 0 && p.count == 2
    ensures Hit(p, w, h, x, px + w * py) <==> (px == x || px == x + 1) && OnDiagonals(w, h, x, py)
  {
    var y := Row(w, h, x);
    PixelUnique(w, px, py, x, y);
    PixelUnique(w, px, py, x + 1, y);
    PixelUnique(w, px, py, x, h - y - 1);
    PixelUnique(w, px, py, x + 1, h - y - 1);
  }

  lemma {:induction false} LitPlane(p: Pen, w: int, h: int, n: nat, px: int, py: int)
    requires w > 0 && h > 0 && n < w && 0 <= px < w && p.step == 1 && p.first == 0 && p.count == 2
    ensures Lit(p, w, h, n, px + w * py) <==>
      (px < n && OnDiagonals(w, h, px, py)) || (0 < px <= n && OnDiagonals(w, h, px - 1, py))
  {
    if n > 0 {
      LitPlane(p, w, h, n - 1, px, py);
      HitPlane(p, w, h, n - 1, px, py);
    }
  }

  // ---------------------------------------------------------------------------------
  // The picture

  /** The bytes of the picture itself, chroma planes included */
  function PictureSize(f: Layout, w: nat, h: nat): nat
  {
    match f
    case Yuv420p => w * h + w * h / 2
    case Yuv440p => 2 * (w * h)
    case Unknown => 0
    case _ => PenOf(f).step * (w * h)
  }

  function Background(f: Layout, w: nat, h: nat, k: nat): byte
  {
    match f
    case Yuv420p => if k < w * h then 0 else 0x80
    case Yuv440p => if k < w * h then 0 else 0x80
    case Uyvy422 => if k % 2 == 0 then 0 else 0x80
    case Yuyv422 => if k % 2 == 0 then 0x80 else 0
    case _ => 0
  }

  function Painted(f: Layout, w: nat, h: nat, k: nat): byte
    requires w > 0
  {
    if Lit(PenOf(f), w, h, w - 1, k) then PenOf(f).value else Background(f, w, h, k)
  }

  /** The cross in pixels, for the layouts with all of a pixel in one place. */
  lemma PackedPicture(f: Layout, w: nat, h: nat, px: nat, py: nat, r: nat, k: nat)
    requires w > 0 && h > 0 && px < w && py < h && r < PenOf(f).step && PenOf(f).step > 1
    requires k == PenOf(f).step * (px + w * py) + r
    ensures Painted(f, w, h, k) ==
        if PenOf(f).first <= r < PenOf(f).first + PenOf(f).count && px < w - 1 && OnDiagonals(w, h, px, py) then PenOf(f).value
        else Background(f, w, h, k)
  {
    LitPixel(PenOf(f), w, h, w - 1, px, py, r);
  }

  /** The cross in the luminance plane of the planar layouts. */
  lemma PlanarPicture(f: Layout, w: nat, h: nat, px: nat, py: nat)
    requires w > 0 && h > 0 && px < w && py < h && (f.Yuv420p? || f.Yuv440p?)
    ensures var k := px + w * py;
      k >= 0 && Painted(f, w, h, k) ==
        if OnCross(w, h, px, py) || (px > 0 && OnCross(w, h, px - 1, py)) then 127 else 0
  {
    Product(w, py);
    Product(w, h - 1 - py);
    assert w * (h - 1 - py) == w * h - w - w * py;
    LitPlane(PenOf(f), w, h, w - 1, px, py);
  }

  /** px, py is on the cross: a diagonal from the upper left, h rows over w columns, or its mirror image. */
  predicate OnCross(w: nat, h: nat, px: nat, py: nat)
    requires w > 0
  {
    px + 1 < w && (py == h * px / w || py == h - h * px / w - 1)
  }

  /** 24-bit colour: a white cross on black. */
  lemma RgbPicture(f: Layout, w: nat, h: nat, px: nat, py: nat, r: nat, k: nat)
    requires w > 0 && h > 0 && px < w && py < h && (f.Rgb24? || f.Bgr24?) && r < 3 && k == 3 * (px + w * py) + r
    ensures Painted(f, w, h, k) == if OnCross(w, h, px, py) then 255 else 0
  {
    PackedPicture(f, w, h, px, py, r, k);
  }

  /** 32-bit colour: the same, with the fourth byte of a pixel, or the first, 0 everywhere. */
  lemma RgbaPicture(f: Layout, w: nat, h: nat, px: nat, py: nat, r: nat, k: nat)
    requires w > 0 && h > 0 && px < w && py < h && (f.Rgba? || f.Bgra? || f.Argb?) && r < 4 && k == 4 * (px + w * py) + r
    ensures Painted(f, w, h, k) == if OnCross(w, h, px, py) && r != (if f.Argb? then 0 else 3) then 255 else 0
  {
    PackedPicture(f, w, h, px, py, r, k);
  }

  /** Packed luminance and chrominance: a grey cross on 80 00 or 00 80. */
  lemma YuvPicture(f: Layout, w: nat, h: nat, px: nat, py: nat, r: nat, k: nat)
    requires w > 0 && h > 0 && px < w && py < h && (f.Yuyv422? || f.Uyvy422?) && r < 2 && k == 2 * (px + w * py) + r
    ensures Painted(f, w, h, k) ==
      if OnCross(w, h, px, py) then 127 else if (r == 0) == f.Yuyv422? then 0x80 else 0
  {
    PackedPicture(f, w, h, px, py, r, k);
    assert k % 2 == r;
  }

  lemma {:induction false} LitInside(p: Pen, w: int, h: int, n: nat, k: int)
    requires w > 0 && h > 0 && n < w && (k < 0 || k >= p.step * (w * h))
    requires p.first + p.count <= p.step || (p.step == 1 && p.first == 0 && p.count == 2)
    ensures !Lit(p, w, h, n, k)
  {
    if n > 0 {
      LitInside(p, w, h, n - 1, k);
      RowInPicture(w, h, n - 1);
      HitInside(p, w, h, n - 1, Row(w, h, n - 1));
      HitInside(p, w, h, n - 1, h - Row(w, h, n - 1) - 1);
    }
  }

  /** The chroma planes of the planar layouts carry no cross. */
  lemma ChromaPicture(f: Layout, w: nat, h: nat, k: nat)
    requires w > 0 && h > 0 && (f.Yuv420p? || f.Yuv440p?) && w * h <= k < PictureSize(f, w, h)
    ensures Painted(f, w, h, k) == 0x80
  {
    LitInside(PenOf(f), w, h, w - 1, k);
  }

  // ---------------------------------------------------------------------------------
  // The methods

  /** Fill buf[from..to] with a byte. */
  method Memset(buf: array<byte>, from: nat, to: nat, b: byte)
    requires from <= to <= buf.Length
    modifies buf
    ensures forall k :: 0 <= k < buf.Length ==> buf[k] == if from <= k < to then b else old(buf[k])
  {
    var i := from;
    while i < to
      invariant from <= i <= to
      invariant forall k :: 0 <= k < buf.Length ==> buf[k] == if from <= k < i then b else old(buf[k])
    {
      buf[i] := b;
      i := i + 1;
    }
  }

  method PaintBackground(f: Layout, buf: array<byte>, w: nat, h: nat, bytesize: nat)
    requires PictureSize(f, w, h) <= bytesize <= buf.Length
    modifies buf
    ensures forall k :: 0 <= k < PictureSize(f, w, h) ==> buf[k] == Background(f, w, h, k)
    ensures forall k :: bytesize <= k < buf.Length ==> buf[k] == old(buf[k])
    ensures f == Unknown ==> buf[..] == old(buf[..])
  {
    match f
    case Uyvy422 => Alternate(buf, w * h, 0, 0x80);
    case Yuyv422 => Alternate(buf, w * h, 0x80, 0);
    case Yuv420p =>
      Memset(buf, 0, w * h, 0);
      Memset(buf, w * h, w * h + w * h / 2, 0x80);
    case Yuv440p =>
      Memset(buf, 0, w * h, 0);
      Memset(buf, w * h, w * h + w * h, 0x80);
    case Unknown =>
    case _ => Memset(buf, 0, bytesize, 0);
  }

  method Alternate(buf: array<byte>, n: nat, even: byte, odd: byte)
    requires 2 * n <= buf.Length
    modifies buf
    ensures forall k :: 0 <= k < 2 * n ==> buf[k] == if k % 2 == 0 then even else odd
    ensures forall k :: 2 * n <= k < buf.Length ==> buf[k] == old(buf[k])
  {
    var i := 0;
    while i < n * 2
      invariant 0 <= i <= 2 * n && i % 2 == 0
      invariant forall k :: 0 <= k < i ==> buf[k] == if k % 2 == 0 then even else odd
      invariant forall k :: i <= k < buf.Length ==> buf[k] == old(buf[k])
    {
      buf[i], buf[i + 1] := even, odd;
      i := i + 2;
    }
  }

  /** One pixel of the cross, or two in a plane. */
  method Dot(buf: array<byte>, p: Pen, w: int, x: int, y: int)
    requires p.count == 2 || p.count == 3
    requires 0 <= Offset(p, w, x, y) && Offset(p, w, x, y) + p.count <= buf.Length
    modifies buf
    ensures forall k :: 0 <= k < buf.Length ==>
      buf[k] == if Offset(p, w, x, y) <= k < Offset(p, w, x, y) + p.count then p.value else old(buf[k])
  {
    var off := p.step * (x + w * y) + p.first;
    buf[off], buf[off + 1] := p.value, p.value;
    if p.count == 3 {
      buf[off + 2] := p.value;
    }
  }

  /** The loop that draws the cross; it is the same for all layouts but for the pen. */
  method DrawCross(buf: array<byte>, p: Pen, w: nat, h: nat)
    requires w > 0 && h > 0 && p.step * (w * h) <= buf.Length && (p.count == 2 || p.count == 3)
    requires p.first + p.count <= p.step || (p.step == 1 && p.first == 0 && p.count == 2)
    modifies buf
    ensures forall k :: 0 <= k < buf.Length ==> buf[k] == if Lit(p, w, h, w - 1, k) then p.value else old(buf[k])
    ensures forall k :: p.step * (w * h) <= k < buf.Length ==> buf[k] == old(buf[k])
  {
    var x, y := 0, 0;
    while x < w - 1
      invariant 0 <= x <= w - 1 && y == Row(w, h, x)
      invariant forall k :: p.step * (w * h) <= k < buf.Length ==> buf[k] == old(buf[k])
      invariant forall k :: 0 <= k < buf.Length ==> buf[k] == if Lit(p, w, h, x, k) then p.value else old(buf[k])
    {
      RowInPicture(w, h, x);
      HitInside(p, w, h, x, y);
      HitInside(p, w, h, x, h - y - 1);
      Dot(buf, p, w, x, y);
      Dot(buf, p, w, x, h - y - 1);
      x := x + 1;
      y := h * x / w;
    }
  }

  /** render_empty_frame; `bytesize` is what ff_picture_bytesize says for the layout. */
  method RenderEmptyFrame(f: Layout, buf: array<byte>, w: nat, h: nat, bytesize: nat)
    requires w > 0 && h > 0 && PictureSize(f, w, h) <= bytesize <= buf.Length
    modifies buf
    ensures f != Unknown ==> forall k :: 0 <= k < PictureSize(f, w, h) ==> buf[k] == Painted(f, w, h, k)
    ensures f.Rgb24? || f.Bgr24? ==> PictureSize(f, w, h) == 3 * (w * h)
    ensures f.Rgba? || f.Bgra? || f.Argb? ==> PictureSize(f, w, h) == 4 * (w * h)
    ensures f.Yuyv422? || f.Uyvy422? || f.Yuv440p? ==> PictureSize(f, w, h) == 2 * (w * h)
    ensures f.Yuv420p? ==> PictureSize(f, w, h) == w * h + w * h / 2
    ensures f == Unknown ==> buf[..] == old(buf[..])
    ensures forall k :: bytesize <= k < buf.Length ==> buf[k] == old(buf[k])
  {
    PaintBackground(f, buf, w, h, bytesize);
    if f != Unknown {
      DrawCross(buf, PenOf(f), w, h);
    }
  }
}
