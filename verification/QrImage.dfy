/** The QR rasteriser (extensions/device-pair/qr-image.ts:29-50) over the pixel writer of
    src/media/png-encode.ts:40-61: four nested loops over one flat RGBA buffer. */
module QrImage {
  newtype Byte = b: int | 0 <= b < 256

  const WHITE: seq<Byte> := [255, 255, 255, 255]
  const BLACK: seq<Byte> := [0, 0, 0, 255]

  /** Where pixel (x, y) of an image `width` pixels wide starts in the buffer. */
  function Index(x: int, y: int, width: int): int {
    (y * width + x) * 4
  }

  lemma MulMonotone(a: int, b: int, k: nat)
    requires a <= b
    ensures a * k <= b * k
  {
  }

  lemma IndexInside(x: int, y: int, size: nat)
    requires 0 <= x < size && 0 <= y < size
    ensures 0 <= Index(x, y, size) && Index(x, y, size) + 4 <= size * size * 4
  {
    MulMonotone(0, y, size);
    MulMonotone(y + 1, size, size);
    assert (y + 1) * size == y * size + size;
  }

  lemma IndexApart(x: int, y: int, u: int, v: int, size: nat)
    requires 0 <= x < size && 0 <= u < size && (x, y) != (u, v)
    ensures Index(x, y, size) + 4 <= Index(u, v, size) || Index(u, v, size) + 4 <= Index(x, y, size)
  {
    if y < v {
      MulMonotone(y + 1, v, size);
    } else if v < y {
      MulMonotone(v + 1, y, size);
    }
  }

  /** fillPixel: writes that fall outside the row or the buffer are ignored. */
  method FillPixel(buf: array<Byte>, x: int, y: int, width: int, r: Byte, g: Byte, b: Byte, a: Byte)
    modifies buf
    ensures var i := Index(x, y, width);
            buf[..] == if x < 0 || y < 0 || x >= width || i < 0 || i + 3 >= buf.Length then old(buf[..])
                       else old(buf[..])[i := r][i + 1 := g][i + 2 := b][i + 3 := a]
  {
    if x < 0 || y < 0 || x >= width {
      return;
    }
    var idx := (y * width + x) * 4;
    if idx < 0 || idx + 3 >= buf.Length {
      return;
    }
    buf[idx] := r;
    buf[idx + 1] := g;
    buf[idx + 2] := b;
    buf[idx + 3] := a;
  }

  ghost predicate IsPixel(buf: seq<Byte>, size: nat, x: int, y: int, color: seq<Byte>) {
    var i := (y * size + x) * 4;
    0 <= i && i + 4 <= |buf| && buf[i..i + 4] == color
  }

  /** The buffer is a size by size image, opaque black where `black` says so, else white. */
  ghost predicate Shows(buf: seq<Byte>, size: nat, black: (int, int) -> bool) {
    |buf| == size * size * 4 &&
    forall x, y :: 0 <= x < size && 0 <= y < size ==> IsPixel(buf, size, x, y, if black(x, y) then BLACK else WHITE)
  }

  lemma ShowsSame(buf: seq<Byte>, size: nat, black: (int, int) -> bool, same: (int, int) -> bool)
    requires Shows(buf, size, black)
    requires forall x, y :: 0 <= x < size && 0 <= y < size ==> black(x, y) == same(x, y)
    ensures Shows(buf, size, same)
  {
  }

  function OrPixel(black: (int, int) -> bool, px: int, py: int): (int, int) -> bool {
    (x, y) => black(x, y) || (x == px && y == py)
  }

  function Blackened(buf: seq<Byte>, i: nat): seq<Byte>
    requires i + 4 <= |buf|
  {
    buf[i := 0][i + 1 := 0][i + 2 := 0][i + 3 := 255]
  }

  lemma BlackenOne(buf: seq<Byte>, size: nat, black: (int, int) -> bool, px: int, py: int)
    requires Shows(buf, size, black) && 0 <= px < size && 0 <= py < size
    ensures var i := Index(px, py, size);
            0 <= i && i + 4 <= |buf| && Shows(Blackened(buf, i), size, OrPixel(black, px, py))
  {
    IndexInside(px, py, size);
    var i := Index(px, py, size);
    var after, black' := Blackened(buf, i), OrPixel(black, px, py);
    forall x, y | 0 <= x < size && 0 <= y < size
      ensures IsPixel(after, size, x, y, if black'(x, y) then BLACK else WHITE)
    {
      IndexInside(x, y, size);
      var j := Index(x, y, size);
      assert IsPixel(buf, size, x, y, if black(x, y) then BLACK else WHITE);
      if x == px && y == py {
        assert after[i..i + 4] == BLACK;
      } else {
        IndexApart(x, y, px, py, size);
        assert after[j..j + 4] == buf[j..j + 4];
      }
    }
  }

  // ---------- modules ----------

  datatype Matrix = Matrix(modules: nat, isDark: (nat, nat) -> bool)

  /** Pixel (x, y) lies in the square of the module in row r and column c. */
  predicate InModule(x: int, y: int, r: nat, c: nat, scale: nat, margin: nat) {
    (c + margin) * scale <= x < (c + margin) * scale + scale && (r + margin) * scale <= y < (r + margin) * scale + scale
  }

  /** Pixel (x, y) lies in a dark module that comes before (row, col) in scan order. */
  ghost predicate PaintedBefore(m: Matrix, scale: nat, margin: nat, row: nat, col: nat, x: int, y: int) {
    exists r: nat, c: nat :: r < m.modules && c < m.modules && (r < row || (r == row && c < col))
                             && m.isDark(r, c) && InModule(x, y, r, c, scale, margin)
  }

  ghost function BlackBefore(m: Matrix, scale: nat, margin: nat, row: nat, col: nat): (int, int) -> bool {
    (x, y) => PaintedBefore(m, scale, margin, row, col, x, y)
  }

  /** The first `rows` full rows of the square at (startX, startY), and `cols` pixels more. */
  function OrSquare(black: (int, int) -> bool, startX: int, startY: int, scale: int, rows: int, cols: int)
    : (int, int) -> bool
  {
    (x, y) => black(x, y)
              || (startX <= x < startX + scale && startY <= y < startY + rows)
              || (startX <= x < startX + cols && y == startY + rows)
  }

  /** The two inner loops: one dark module. */
  method FillModule(buf: array<Byte>, size: nat, startX: nat, startY: nat, scale: nat, ghost black: (int, int) -> bool)
    requires Shows(buf[..], size, black)
    requires startX + scale <= size && startY + scale <= size
    modifies buf
    ensures Shows(buf[..], size, OrSquare(black, startX, startY, scale, scale, 0))
  {
    ShowsSame(buf[..], size, black, OrSquare(black, startX, startY, scale, 0, 0));
    for y := 0 to scale
      invariant Shows(buf[..], size, OrSquare(black, startX, startY, scale, y, 0))
    {
      var pixelY := startY + y;
      for x := 0 to scale
        invariant Shows(buf[..], size, OrSquare(black, startX, startY, scale, y, x))
      {
        var pixelX := startX + x;
        ghost var before, painted := buf[..], OrSquare(black, startX, startY, scale, y, x);
        BlackenOne(before, size, painted, pixelX, pixelY);
        FillPixel(buf, pixelX, pixelY, size, 0, 0, 0, 255);
        assert buf[..] == Blackened(before, Index(pixelX, pixelY, size));
        ShowsSame(buf[..], size, OrPixel(painted, pixelX, pixelY), OrSquare(black, startX, startY, scale, y, x + 1));
      }
      ShowsSame(buf[..], size, OrSquare(black, startX, startY, scale, y, scale),
        OrSquare(black, startX, startY, scale, y + 1, 0));
    }
  }

  function Size(m: Matrix, scale: nat, margin: nat): nat {
    (m.modules + margin * 2) * scale
  }

  lemma ModuleInside(m: Matrix, scale: nat, margin: nat, k: nat)
    requires k < m.modules
    ensures 0 <= (k + margin) * scale
    ensures (k + margin) * scale + scale <= Size(m, scale, margin)
  {
    MulMonotone(k + margin + 1, m.modules + margin * 2, scale);
    assert (k + margin + 1) * scale == (k + margin) * scale + scale;
  }

  lemma AllWhite(buf: seq<Byte>, size: nat)
    requires |buf| == size * size * 4 && forall i :: 0 <= i < |buf| ==> buf[i] == 255
    ensures Shows(buf, size, (x, y) => false)
  {
    forall x, y | 0 <= x < size && 0 <= y < size ensures IsPixel(buf, size, x, y, WHITE) {
      IndexInside(x, y, size);
    }
  }

  // ---------- the image, pixel by pixel ----------

  /** Pixel (x, y) is inside the margins and its module is dark. */
  predicate IsDarkPixel(m: Matrix, scale: nat, margin: nat, x: nat, y: nat)
    requires scale >= 1
  {
    var r, c := y / scale - margin, x / scale - margin;
    0 <= r < m.modules && 0 <= c < m.modules && m.isDark(r, c)
  }

  lemma QuotientIff(x: nat, scale: nat, k: nat)
    requires scale >= 1
    ensures x / scale == k <==> k * scale <= x < k * scale + scale
  {
    var q := x / scale;
    assert x == q * scale + x % scale;
    if q < k {
      MulMonotone(q + 1, k, scale);
    } else if k < q {
      MulMonotone(k + 1, q, scale);
    }
  }

  lemma PaintedIffDark(m: Matrix, scale: nat, margin: nat, x: nat, y: nat)
    requires scale >= 1
    ensures PaintedBefore(m, scale, margin, m.modules, 0, x, y) <==> IsDarkPixel(m, scale, margin, x, y)
  {
    forall r: nat, c: nat
      ensures InModule(x, y, r, c, scale, margin) <==> x / scale == c + margin && y / scale == r + margin
    {
      QuotientIff(x, scale, c + margin);
      QuotientIff(y, scale, r + margin);
    }
    var r, c := y / scale - margin, x / scale - margin;
    if IsDarkPixel(m, scale, margin, x, y) {
      var r': nat, c': nat := r, c;
      assert InModule(x, y, r', c', scale, margin);
    }
  }

  /** The final buffer is the scaled matrix: a pixel is opaque black exactly when it is inside
      the margins and its module is dark, and opaque white otherwise. */
  lemma ImageIsScaledMatrix(m: Matrix, scale: nat, margin: nat, buf: seq<Byte>, x: nat, y: nat)
    requires scale >= 1 && Shows(buf, Size(m, scale, margin), BlackBefore(m, scale, margin, m.modules, 0))
    requires x < Size(m, scale, margin) && y < Size(m, scale, margin)
    ensures IsPixel(buf, Size(m, scale, margin), x, y, if IsDarkPixel(m, scale, margin, x, y) then BLACK else WHITE)
  {
    PaintedIffDark(m, scale, margin, x, y);
    assert IsPixel(buf, Size(m, scale, margin), x, y,
                   if BlackBefore(m, scale, margin, m.modules, 0)(x, y) then BLACK else WHITE);
  }

  // ---------- the program ----------

  /** `Buffer.alloc(size * size * 4, 255)`. */
  method AllocWhite(size: nat) returns (buf: array<Byte>)
    ensures fresh(buf) && Shows(buf[..], size, (x, y) => false)
  {
    var length := size * size * 4;
    buf := new Byte[length](i => 255);
    AllWhite(buf[..], size);
  }

  lemma NextModule(m: Matrix, scale: nat, margin: nat, row: nat, col: nat, buf: seq<Byte>, black: (int, int) -> bool)
    requires row < m.modules && col < m.modules
    requires Shows(buf, Size(m, scale, margin), black)
    requires forall x, y :: black(x, y) <==>
               PaintedBefore(m, scale, margin, row, col, x, y)
                 || (m.isDark(row, col) && InModule(x, y, row, col, scale, margin))
    ensures Shows(buf, Size(m, scale, margin), BlackBefore(m, scale, margin, row, col + 1))
  {
    forall x, y ensures black(x, y) == PaintedBefore(m, scale, margin, row, col + 1, x, y) {
      if PaintedBefore(m, scale, margin, row, col, x, y) {
        var r: nat, c: nat :| r < m.modules && c < m.modules && (r < row || (r == row && c < col))
                              && m.isDark(r, c) && InModule(x, y, r, c, scale, margin);
      }
    }
    ShowsSame(buf, Size(m, scale, margin), black, BlackBefore(m, scale, margin, row, col + 1));
  }

  /** Blackening the square of a dark module is what the next module starts from. */
  lemma SquareIsModule(m: Matrix, scale: nat, margin: nat, row: nat, col: nat, x: int, y: int)
    requires row < m.modules && col < m.modules && m.isDark(row, col)
    ensures OrSquare(BlackBefore(m, scale, margin, row, col), (col + margin) * scale, (row + margin) * scale, scale,
            scale, 0)(x, y)
            <==> PaintedBefore(m, scale, margin, row, col, x, y) || InModule(x, y, row, col, scale, margin)
  {
  }

  lemma AfterDark(m: Matrix, scale: nat, margin: nat, row: nat, col: nat, buf: seq<Byte>, black: (int, int) -> bool)
    requires row < m.modules && col < m.modules && m.isDark(row, col)
    requires black == OrSquare(BlackBefore(m, scale, margin, row, col), (col + margin) * scale, (row + margin) * scale,
             scale, scale, 0)
    requires Shows(buf, Size(m, scale, margin), black)
    ensures Shows(buf, Size(m, scale, margin), BlackBefore(m, scale, margin, row, col + 1))
  {
    forall x, y
      ensures black(x, y) <==>
                PaintedBefore(m, scale, margin, row, col, x, y)
                  || (m.isDark(row, col) && InModule(x, y, row, col, scale, margin))
    {
      SquareIsModule(m, scale, margin, row, col, x, y);
    }
    NextModule(m, scale, margin, row, col, buf, black);
  }

  method FillDark(buf: array<Byte>, m: Matrix, scale: nat, margin: nat, row: nat, col: nat)
    requires row < m.modules && col < m.modules && m.isDark(row, col)
    requires Shows(buf[..], Size(m, scale, margin), BlackBefore(m, scale, margin, row, col))
    modifies buf
    ensures Shows(buf[..], Size(m, scale, margin), BlackBefore(m, scale, margin, row, col + 1))
  {
    ModuleInside(m, scale, margin, col);
    ModuleInside(m, scale, margin, row);
    var startX := (col + margin) * scale;
    var startY := (row + margin) * scale;
    ghost var black := BlackBefore(m, scale, margin, row, col);
    FillModule(buf, Size(m, scale, margin), startX, startY, scale, black);
    AfterDark(m, scale, margin, row, col, buf[..], OrSquare(black, startX, startY, scale, scale, 0));
  }

  /** The rendering loops of renderQrPngBase64. */
  method Render(m: Matrix, scale: nat, margin: nat) returns (buf: array<Byte>, size: nat)
    ensures size == (m.modules + 2 * margin) * scale
    ensures fresh(buf) && |buf[..]| == size * size * 4
    ensures scale >= 1 ==> forall x: nat, y: nat :: x < size && y < size ==>
              IsPixel(buf[..], size, x, y,
                      if IsDarkPixel(m, scale, margin, x, y) then [0, 0, 0, 255] else [255, 255, 255, 255])
  {
    size := Size(m, scale, margin);
    buf := AllocWhite(size);
    ShowsSame(buf[..], size, (x, y) => false, BlackBefore(m, scale, margin, 0, 0));
    for row := 0 to m.modules
      invariant fresh(buf) && Shows(buf[..], size, BlackBefore(m, scale, margin, row, 0))
    {
      for col := 0 to m.modules
        invariant fresh(buf) && Shows(buf[..], size, BlackBefore(m, scale, margin, row, col))
      {
        if !m.isDark(row, col) {
          NextModule(m, scale, margin, row, col, buf[..], BlackBefore(m, scale, margin, row, col));
          continue;
        }
        FillDark(buf, m, scale, margin, row, col);
      }
      ShowsSame(buf[..], size, BlackBefore(m, scale, margin, row, m.modules),
        BlackBefore(m, scale, margin, row + 1, 0));
    }
    if scale >= 1 {
      forall x: nat, y: nat | x < size && y < size
        ensures IsPixel(buf[..], size, x, y, if IsDarkPixel(m, scale, margin, x, y) then BLACK else WHITE)
      {
        ImageIsScaledMatrix(m, scale, margin, buf[..], x, y);
      }
    }
  }
}
