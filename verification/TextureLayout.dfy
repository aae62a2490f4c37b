/**
 The byte layout of texture updates: every size and offset is computed in the
 program's 32- and 64-bit unsigned arithmetic, and shown never to wrap.
 */
module TextureLayout {
  import opened Division

  type UInt8 = n: nat | n < 0x100
  type UInt32 = n: nat | n < 0x1_0000_0000
  type UInt64 = n: nat | n < 0x1_0000_0000_0000_0000
  type Int32 = n: int | -0x8000_0000 <= n < 0x8000_0000

  const MAX_INT: nat := 0x7fff_ffff

  // No object in memory is larger than this.
  const MAX_OBJECT: nat := 0x7fff_ffff_ffff_ffff

  function Mul64(a: UInt64, b: UInt64): UInt64 { a * b % 0x1_0000_0000_0000_0000 }

  function Add64(a: UInt64, b: UInt64): UInt64 { (a + b) % 0x1_0000_0000_0000_0000 }

  function Add32(a: UInt32, b: UInt32): UInt32 { (a + b) % 0x1_0000_0000 }

  datatype Format = R8 | RGBA8 | BGRA8

  datatype Info = Info(width: UInt32, height: UInt32, format: Format, nearest: bool)

  function BytesPerPixel(f: Format): (r: nat)
    ensures r == 1 || r == 4
  {
    if f == R8 then 1 else 4
  }

  // n pixels in bytes, and the pixel of a byte.
  function InBytes(f: Format, n: nat): nat {
    if f == R8 then n else 4 * n
  }

  lemma InBytesIs(f: Format, n: nat)
    ensures InBytes(f, n) == n * BytesPerPixel(f)
  {
  }

  function PixelOf(f: Format, k: nat): (p: nat)
    ensures InBytes(f, p) <= k < InBytes(f, p + 1)
  {
    if f == R8 then k else k / 4
  }

  predicate InfoOk(i: Info) {
    0 < i.width <= MAX_INT && 0 < i.height <= MAX_INT
  }

  function ByteCount(i: Info): nat {
    InBytes(i.format, i.width * i.height)
  }

  // Bytes in memory.
  type Span = s: seq<UInt8> | |s| <= MAX_OBJECT

  datatype Update = Update(x: Int32, y: Int32, width: UInt32, height: UInt32, bytesPerRow: UInt64, bytes: Span)

  // What an update must satisfy: a non-empty rectangle inside the texture, and
  // rows that fit the stride and the span.
  predicate Accepts(i: Info, u: Update) {
    && 0 < u.width && 0 < u.height && 0 <= u.x && 0 <= u.y
    && u.x + u.width <= i.width && u.y + u.height <= i.height
    && InBytes(i.format, u.width) <= u.bytesPerRow
    && u.bytesPerRow * (u.height - 1) + InBytes(i.format, u.width) <= |u.bytes|
  }

  lemma Product(a: nat, b: nat, m: nat, n: nat)
    requires a <= m && b <= n
    ensures a * b <= m * n
  {
    Larger(a, b, n);
    Larger(n, a, m);
  }

  // Sizes of textures and of update rows fit 64 bits.
  lemma SizesFit(i: Info)
    requires InfoOk(i)
    ensures i.width * i.height < 0x1_0000_0000_0000_0000
    ensures ByteCount(i) < 0x1_0000_0000_0000_0000
  {
    Product(i.width, i.height, MAX_INT, MAX_INT);
  }

  lemma Quotient(limit: nat, p: nat, stride: nat)
    requires p > 0
    ensures stride > limit / p <==> stride * p > limit
  {
    var q := limit / p;
    assert limit == p * q + limit % p;
    if stride > q {
      Larger(p, q + 1, stride);
    } else {
      Larger(p, stride, q);
    }
  }

  /** The guards, in wrapping arithmetic, accept exactly the well-formed updates. */
  method CheckUpdate(i: Info, u: Update) returns (ok: bool)
    requires InfoOk(i)
    ensures ok == Accepts(i, u)
  {
    if u.width == 0 || u.height == 0 || u.x < 0 || u.y < 0 {
      return false;
    }
    var x: UInt32, y: UInt32 := u.x, u.y;
    if x > i.width || u.width > i.width - x || y > i.height || u.height > i.height - y {
      return false;
    }
    InBytesIs(i.format, u.width);
    var sourceRowBytes := Mul64(u.width, BytesPerPixel(i.format));
    ok := CheckRows(u, u.height - 1, sourceRowBytes);
  }

  // The span holds the rows, computed without overflow.
  method CheckRows(u: Update, precedingRows: UInt64, sourceRowBytes: UInt64) returns (ok: bool)
    ensures ok == (sourceRowBytes <= u.bytesPerRow && u.bytesPerRow * precedingRows + sourceRowBytes <= |u.bytes|)
  {
    if precedingRows > 0 {
      Quotient(0xffff_ffff_ffff_ffff - sourceRowBytes, precedingRows, u.bytesPerRow);
    }
    if precedingRows > 0 && u.bytesPerRow > (0xffff_ffff_ffff_ffff - sourceRowBytes) / precedingRows {
      return false;
    }
    RowsFit(u.bytesPerRow, precedingRows, sourceRowBytes);
    var required := Add64(Mul64(u.bytesPerRow, precedingRows), sourceRowBytes);
    return !(u.bytesPerRow < sourceRowBytes || |u.bytes| < required);
  }

  lemma RowsFit(stride: UInt64, rows: UInt64, rowBytes: UInt64)
    requires stride * rows + rowBytes < 0x1_0000_0000_0000_0000
    ensures Add64(Mul64(stride, rows), rowBytes) == stride * rows + rowBytes
  {
    SmallMod(stride * rows);
    SmallMod(stride * rows + rowBytes);
  }

  lemma SmallMod(n: nat)
    requires n < 0x1_0000_0000_0000_0000
    ensures n % 0x1_0000_0000_0000_0000 == n
  {
  }

  /* ---------- which bytes an update writes ---------- */

  // The pixel row and column and the channel of byte k.
  function PixelRow(i: Info, k: nat): (r: nat)
    requires i.width > 0
  {
    PixelOf(i.format, k) / i.width
  }

  function PixelColumn(i: Info, k: nat): (c: nat)
    requires i.width > 0
    ensures c < i.width
  {
    PixelOf(i.format, k) % i.width
  }

  function Channel(i: Info, k: nat): (c: nat)
    ensures c < BytesPerPixel(i.format)
  {
    k - InBytes(i.format, PixelOf(i.format, k))
  }

  // Byte k lies in the first n rows of the target rectangle.
  predicate InRows(i: Info, u: Update, n: nat, k: nat)
    requires i.width > 0
  {
    u.y <= PixelRow(i, k) < u.y + n && u.x <= PixelColumn(i, k) < u.x + u.width
  }

  // Where the update's span holds channel c of a pixel of the rectangle.
  function SourceAt(f: Format, u: Update, row: nat, column: nat, c: nat): int {
    if row < u.y || column < u.x then -1
    else (row - u.y) * u.bytesPerRow + (InBytes(f, column - u.x) + c)
  }

  function SourceIndex(i: Info, u: Update, k: nat): int
    requires i.width > 0
  {
    SourceAt(i.format, u, PixelRow(i, k), PixelColumn(i, k), Channel(i, k))
  }

  lemma SourceInside(i: Info, u: Update, k: nat)
    requires i.width > 0 && Accepts(i, u) && InRows(i, u, u.height, k)
    ensures 0 <= SourceIndex(i, u, k) < |u.bytes|
  {
    SourceAtInside(i, u, PixelRow(i, k), PixelColumn(i, k), Channel(i, k));
  }

  lemma SourceAtInside(i: Info, u: Update, row: nat, column: nat, c: nat)
    requires Accepts(i, u) && u.y <= row < u.y + u.height && u.x <= column < u.x + u.width
    requires c < BytesPerPixel(i.format)
    ensures 0 <= SourceAt(i.format, u, row, column, c) < |u.bytes|
  {
    InsideRow(i.format, column - u.x, u.width, c);
    InsideSpan(u.bytesPerRow, row - u.y, u.height - 1, InBytes(i.format, column - u.x) + c,
               InBytes(i.format, u.width), |u.bytes|);
  }

  lemma InsideSpan(stride: nat, d: nat, last: nat, offset: nat, rowBytes: nat, size: nat)
    requires d <= last && offset < rowBytes && stride * last + rowBytes <= size
    ensures 0 <= d * stride + offset < size
  {
    Larger(stride, d, last);
  }

  lemma InsideRow(f: Format, t: nat, n: nat, c: nat)
    requires t < n && c < BytesPerPixel(f)
    ensures InBytes(f, t) + c < InBytes(f, n)
  {
  }

  // The bytes after the first n rows have been copied.
  function Copied(i: Info, u: Update, bytes: seq<UInt8>, n: nat): (r: seq<UInt8>)
    requires i.width > 0 && Accepts(i, u) && n <= u.height
    ensures |r| == |bytes|
  {
    seq(|bytes|, k requires 0 <= k < |bytes| =>
      if InRows(i, u, n, k) then SourceInside(i, u, k); u.bytes[SourceIndex(i, u, k)] else bytes[k])
  }

  // The texture after an accepted update: the rectangle, and nothing else, is replaced.
  function Updated(i: Info, u: Update, bytes: seq<UInt8>): (r: seq<UInt8>)
    requires i.width > 0 && Accepts(i, u)
    ensures |r| == |bytes|
  {
    Copied(i, u, bytes, u.height)
  }

  // The first pixel, and the first byte, of the row-th destination range.
  function RowPixel(i: Info, u: Update, row: nat): nat
    requires 0 <= u.x && 0 <= u.y
  {
    var r: nat := u.y + row;
    var x: nat := u.x;
    r * i.width + x
  }

  function RowStart(i: Info, u: Update, row: nat): nat
    requires 0 <= u.x && 0 <= u.y
  {
    InBytes(i.format, RowPixel(i, u, row))
  }

  // Pixel p is t columns into the row-th destination range.
  lemma PixelInRow(i: Info, u: Update, row: nat, p: nat)
    requires i.width > 0 && Accepts(i, u)
    ensures p / i.width == u.y + row && u.x <= p % i.width < u.x + u.width <==>
            RowPixel(i, u, row) <= p < RowPixel(i, u, row) + u.width
    ensures p / i.width == u.y + row ==> p == RowPixel(i, u, row) + (p % i.width - u.x)
  {
    assert p == i.width * (p / i.width) + p % i.width;
    var start := RowPixel(i, u, row);
    if start <= p < start + u.width {
      Divided(p, i.width, u.y + row, u.x + (p - start));
    }
  }

  lemma BytesOfPixels(f: Format, k: nat, start: nat, n: nat)
    ensures start <= PixelOf(f, k) < start + n <==> 0 <= k - InBytes(f, start) < InBytes(f, n)
    ensures start <= PixelOf(f, k) ==>
              k - InBytes(f, start) == InBytes(f, PixelOf(f, k) - start) + (k - InBytes(f, PixelOf(f, k)))
  {
  }

  // The row-th destination range holds exactly the bytes of pixel row y + row.
  lemma RowBytes(i: Info, u: Update, row: nat, k: nat)
    requires i.width > 0 && Accepts(i, u) && row < u.height
    ensures InRows(i, u, row + 1, k) && !InRows(i, u, row, k) <==>
            0 <= k - RowStart(i, u, row) < InBytes(i.format, u.width)
    ensures InRows(i, u, row + 1, k) && !InRows(i, u, row, k) ==>
            SourceIndex(i, u, k) == row * u.bytesPerRow + (k - RowStart(i, u, row))
  {
    PixelInRow(i, u, row, PixelOf(i.format, k));
    BytesOfPixels(i.format, k, RowPixel(i, u, row), u.width);
  }

  lemma RowInside(i: Info, u: Update, row: nat)
    requires InfoOk(i) && Accepts(i, u) && row < u.height
    ensures RowPixel(i, u, row) + u.width <= i.width * i.height
    ensures RowStart(i, u, row) + InBytes(i.format, u.width) <= ByteCount(i)
    ensures row * u.bytesPerRow + InBytes(i.format, u.width) <= |u.bytes|
  {
    Larger(i.width, u.y + row + 1, i.height);
    Larger(u.bytesPerRow, row, u.height - 1);
  }

  // The program's offsets are the exact ones.
  method RowOffsets(i: Info, u: Update, row: UInt32) returns (source: UInt64, destination: UInt64)
    requires InfoOk(i) && Accepts(i, u) && row < u.height && ByteCount(i) <= MAX_OBJECT
    ensures source == row * u.bytesPerRow && destination == RowStart(i, u, row)
  {
    RowInside(i, u, row);
    var x: UInt32, y: UInt32 := u.x, u.y;
    ExactProduct(row, u.bytesPerRow);
    source := Mul64(row, u.bytesPerRow);
    assert Add32(y, row) == u.y + row;
    ExactOffset(i, x, Add32(y, row));
    destination := Mul64(Add64(Mul64(Add32(y, row), i.width), x), BytesPerPixel(i.format));
  }

  lemma ExactProduct(a: UInt64, b: UInt64)
    requires a * b <= MAX_OBJECT
    ensures Mul64(a, b) == a * b
  {
    SmallMod(a * b);
  }

  lemma ExactOffset(i: Info, x: UInt32, r: UInt32)
    requires InBytes(i.format, r * i.width + x) <= MAX_OBJECT
    ensures Mul64(Add64(Mul64(r, i.width), x), BytesPerPixel(i.format)) == InBytes(i.format, r * i.width + x)
  {
    var p := r * i.width;
    InBytesIs(i.format, p + x);
    SmallMod(p);
    SmallMod(p + x);
    SmallMod(InBytes(i.format, p + x));
  }

  /** An accepted update rewrites exactly the target rectangle. */
  method CopyRegion(i: Info, u: Update, bytes: array<UInt8>)
    requires InfoOk(i) && Accepts(i, u) && bytes.Length == ByteCount(i) <= MAX_OBJECT
    modifies bytes
    ensures bytes[..] == Updated(i, u, old(bytes[..]))
  {
    ghost var before := bytes[..];
    assert Copied(i, u, before, 0) == before;
    for row := 0 to u.height
      invariant bytes[..] == Copied(i, u, before, row)
    {
      ghost var previous := bytes[..];
      var source, destination := RowOffsets(i, u, row);
      RowInside(i, u, row);
      var n := InBytes(i.format, u.width);
      CopyN(u.bytes, source, n, bytes, destination);
      CopiedRow(i, u, before, row, bytes[..], source, destination, n);
    }
  }

  // std::copy_n into the middle of a buffer.
  method CopyN(from: seq<UInt8>, source: nat, n: nat, bytes: array<UInt8>, destination: nat)
    requires source + n <= |from| && destination + n <= bytes.Length
    modifies bytes
    ensures forall k :: 0 <= k < bytes.Length ==>
              bytes[k] == if destination <= k < destination + n then from[source + (k - destination)] else old(bytes[k])
  {
    for j := 0 to n
      invariant forall k :: 0 <= k < bytes.Length ==>
                  bytes[k] == if destination <= k < destination + j then from[source + (k - destination)]
                              else old(bytes[k])
    {
      bytes[destination + j] := from[source + j];
    }
  }

  lemma CopiedRow(i: Info, u: Update, before: seq<UInt8>, row: nat, after: seq<UInt8>, source: nat, d: nat, n: nat)
    requires InfoOk(i) && Accepts(i, u) && |before| == |after| && row < u.height
    requires source == row * u.bytesPerRow && d == RowStart(i, u, row) && n == InBytes(i.format, u.width)
    requires source + n <= |u.bytes|
    requires forall k :: 0 <= k < |after| ==>
               after[k] == if d <= k < d + n then u.bytes[source + (k - d)] else Copied(i, u, before, row)[k]
    ensures after == Copied(i, u, before, row + 1)
  {
    forall k | 0 <= k < |after|
      ensures after[k] == Copied(i, u, before, row + 1)[k]
    {
      CopiedByte(i, u, before, row, k, source, d, n);
    }
  }

  lemma CopiedByte(i: Info, u: Update, before: seq<UInt8>, row: nat, k: nat, source: nat, d: nat, n: nat)
    requires i.width > 0 && Accepts(i, u) && row < u.height && k < |before|
    requires source == row * u.bytesPerRow && d == RowStart(i, u, row) && n == InBytes(i.format, u.width)
    requires source + n <= |u.bytes|
    ensures Copied(i, u, before, row + 1)[k] ==
            if d <= k < d + n then u.bytes[source + (k - d)] else Copied(i, u, before, row)[k]
  {
    RowBytes(i, u, row, k);
    if InRows(i, u, row + 1, k) {
      assert InRows(i, u, u.height, k);
      SourceInside(i, u, k);
    }
  }
}
