/** The colours of the rendered board. */
module LifePixels {
  import opened LifeRules

  // The four channels before they are cut down to bytes.
  function Channels(age: UInt16, trail: UInt8): (r: seq<nat>)
    ensures |r| == 4
  {
    if age != 0 then
      var warmth := if age < 48 then age else 48;
      [34 + warmth * 3, 220 - warmth, 190 - warmth * 2, 255]
    else if trail != 0 then [16 + trail * 4, 12 + trail, 34 + trail * 5, 255]
    else [5, 8, 18, 255]
  }

  function Pixel(c: Cell): (r: seq<UInt8>)
    ensures |r| == 4
  {
    var r := Channels(c.age, c.trail);
    [r[0] % 0x100, r[1] % 0x100, r[2] % 0x100, r[3] % 0x100]
  }

  /** Nothing is cut off exactly while a dead cell's trail is at most 44. */
  lemma PixelExact(c: Cell)
    ensures Pixel(c) == Channels(c.age, c.trail) <==> Alive(c) || c.trail <= 44
  {
    var r := Channels(c.age, c.trail);
    if !Alive(c) && c.trail > 44 {
      assert Pixel(c)[2] != r[2];
    }
  }

  // The four bytes at cell i show cell c.
  predicate Shows(pixels: seq<UInt8>, i: nat, c: Cell)
    requires 4 * i + 4 <= |pixels|
  {
    && pixels[4 * i] == Pixel(c)[0] && pixels[4 * i + 1] == Pixel(c)[1]
    && pixels[4 * i + 2] == Pixel(c)[2] && pixels[4 * i + 3] == Pixel(c)[3]
  }

  ghost predicate ShowAll(pixels: seq<UInt8>, cells: seq<Cell>) {
    |pixels| == 4 * |cells| && forall i :: 0 <= i < |cells| ==> Shows(pixels, i, cells[i])
  }

  // One pixel was written and the others were not.
  ghost predicate Painted(before: seq<UInt8>, after: seq<UInt8>, i: nat, c: Cell)
    requires 4 * i + 4 <= |before|
  {
    && |after| == |before| && Shows(after, i, c)
    && forall k :: 0 <= k < |before| && !(4 * i <= k < 4 * i + 4) ==> after[k] == before[k]
  }

  method WritePixel(pixels: array<UInt8>, index: nat, age: UInt16, trail: UInt8)
    requires 4 * index + 4 <= pixels.Length
    modifies pixels
    ensures Painted(old(pixels[..]), pixels[..], index, Cell(age, trail))
  {
    var offset := index * 4;
    if age != 0 {
      var warmth: UInt8 := if age < 48 then age else 48;
      pixels[offset] := (34 + warmth * 3) % 0x100;
      pixels[offset + 1] := (220 - warmth) % 0x100;
      pixels[offset + 2] := (190 - warmth * 2) % 0x100;
    } else if trail != 0 {
      pixels[offset] := (16 + trail * 4) % 0x100;
      pixels[offset + 1] := (12 + trail) % 0x100;
      pixels[offset + 2] := (34 + trail * 5) % 0x100;
    } else {
      pixels[offset] := 5;
      pixels[offset + 1] := 8;
      pixels[offset + 2] := 18;
    }
    pixels[offset + 3] := 255;
  }

  // Painting cell i leaves every other cell's pixel alone.
  lemma PaintedElsewhere(before: seq<UInt8>, after: seq<UInt8>, i: nat, c: Cell, j: nat, d: Cell)
    requires 4 * i + 4 <= |before| && Painted(before, after, i, c) && i != j && 4 * j + 4 <= |before|
    ensures Shows(after, j, d) <==> Shows(before, j, d)
  {
  }

  lemma PaintedAll(before: seq<UInt8>, after: seq<UInt8>, cells: seq<Cell>, i: nat, c: Cell)
    requires ShowAll(before, cells) && i < |cells| && Painted(before, after, i, c)
    ensures ShowAll(after, cells[i := c])
  {
    var all := cells[i := c];
    forall j | 0 <= j < |all|
      ensures Shows(after, j, all[j])
    {
      if j != i {
        PaintedElsewhere(before, after, i, c, j, cells[j]);
      }
    }
  }

  // The first n cells are shown.
  ghost predicate ShowFirst(pixels: seq<UInt8>, cells: seq<Cell>, n: nat) {
    |pixels| == 4 * |cells| && n <= |cells| && forall i :: 0 <= i < n ==> Shows(pixels, i, cells[i])
  }

  lemma ShowNext(before: seq<UInt8>, after: seq<UInt8>, cells: seq<Cell>, n: nat)
    requires n < |cells| && ShowFirst(before, cells, n) && Painted(before, after, n, cells[n])
    ensures ShowFirst(after, cells, n + 1)
  {
    forall j | 0 <= j < n
      ensures Shows(after, j, cells[j])
    {
      PaintedElsewhere(before, after, n, cells[n], j, cells[j]);
    }
  }
}
