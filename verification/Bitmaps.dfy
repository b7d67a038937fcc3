/** Palettes and indexed bitmaps of the subtitle renderer: lib/libdvbsub/osd.cpp. */
module Bitmaps {
  import opened Collections
  import opened Octets

  const MAXNUMCOLORS: nat := 256

  type Color = word

  function AlphaOf(c: Color): int { c / 0x100_0000 }
  function RedOf(c: Color): int { c / 0x1_0000 % 256 }
  function GreenOf(c: Color): int { c / 0x100 % 256 }
  function BlueOf(c: Color): int { c % 256 }

  function Abs(x: int): nat { if x < 0 then -x else x }

  /** The weighted difference of two colours, twice each component's. */
  function Difference(c: Color, d: Color): (r: nat)
    ensures c == d ==> r == 0
  {
    2 * Abs(AlphaOf(c) - AlphaOf(d)) + 2 * Abs(RedOf(c) - RedOf(d)) + 2 * Abs(GreenOf(c) - GreenOf(d)) + 2 * Abs(BlueOf(c) - BlueOf(d))
  }

  /** The sum of the differences of the four bytes of two colours. */
  function Distance(c: Color, d: Color): nat {
    ByteDistance(LittleEndian32(c)[0], LittleEndian32(d)[0]) + ByteDistance(LittleEndian32(c)[1], LittleEndian32(d)[1])
    + ByteDistance(LittleEndian32(c)[2], LittleEndian32(d)[2]) + ByteDistance(LittleEndian32(c)[3], LittleEndian32(d)[3])
  }

  function ByteDistance(a: byte, b: byte): nat { if a < b then (b - a) as nat else (a - b) as nat }

  /** The four bytes of a colour are its alpha, red, green and blue. */
  lemma DifferenceIsDistance(c: Color, d: Color)
    ensures Difference(c, d) == 2 * Distance(c, d)
  {
    ColorBytes(c);
    ColorBytes(d);
  }

  lemma ColorBytes(c: Color)
    ensures var b := LittleEndian32(c);
      && b[0] as int == BlueOf(c) && b[1] as int == GreenOf(c) && b[2] as int == RedOf(c) && b[3] as int == AlphaOf(c)
  {
  }

  /** Only equal colours do not differ. */
  lemma OnlyEqual(c: Color, d: Color)
    ensures Difference(c, d) == 0 <==> c == d
  {
    hide Difference, Distance;
    DifferenceIsDistance(c, d);
    SameBytes(c, d);
  }

  lemma SameBytes(c: Color, d: Color)
    ensures Distance(c, d) == 0 <==> c == d
  {
    hide AlphaOf, RedOf, GreenOf, BlueOf;
    ColorBytes(c);
    ColorBytes(d);
    ColorSum(c);
    ColorSum(d);
  }

  lemma ColorSum(c: Color)
    ensures c == BlueOf(c) + 0x100 * GreenOf(c) + 0x1_0000 * RedOf(c) + 0x100_0000 * AlphaOf(c)
  {
    var g, r := c / 0x100, c / 0x1_0000;
    assert g / 0x100 == r && r / 0x100 == c / 0x100_0000;
  }

  /** Colours of which each byte is nearly the same: the bytes differ by two in all. */
  predicate Close(c: Color, d: Color) { Distance(c, d) <= 2 }

  class Palette {
    var color: seq<Color>
    var numColors: nat
    var maxColors: nat
    var modified: bool

    ghost predicate Valid()
      reads this
    {
      |color| == MAXNUMCOLORS && numColors <= MAXNUMCOLORS && 0 < maxColors <= MAXNUMCOLORS
    }

    /** The colours in use. */
    ghost function Colors(): seq<Color>
      requires Valid()
      reads this
    {
      color[..numColors]
    }

    constructor (maxColors: nat)
      requires 0 < maxColors <= MAXNUMCOLORS
      ensures Valid() && Colors() == [] && this.maxColors == maxColors
    {
      color := seq(MAXNUMCOLORS, _ => 0);
      numColors, this.maxColors, modified := 0, maxColors, false;
    }

    method Reset()
      requires Valid()
      modifies this
      ensures Valid() && Colors() == [] && maxColors == old(maxColors) && color == old(color) && !modified
    {
      numColors, modified := 0, false;
    }

    /** ClosestColor: the first of the closest colours, if it is close enough; with no limit there always is one. */
    method ClosestColor(c: Color, limit: nat, unlimited: bool) returns (n: int)
      requires Valid()
      ensures n == -1 <==> !unlimited && forall i :: 0 <= i < numColors ==> 2 * Distance(c, color[i]) > limit
      ensures n != -1 && numColors > 0 ==>
        && 0 <= n < numColors && (unlimited || 2 * Distance(c, color[n]) <= limit)
        && (forall i :: 0 <= i < numColors ==> Distance(c, color[n]) <= Distance(c, color[i]))
        && (forall i :: 0 <= i < n ==> Distance(c, color[n]) < Distance(c, color[i]))
      ensures n != -1 && numColors == 0 ==> n == 0
    {
      hide Difference, Distance;
      forall i | 0 <= i < numColors
        ensures Difference(c, color[i]) == 2 * Distance(c, color[i])
      {
        DifferenceIsDistance(c, color[i]);
      }
      var best: int := -1;
      n := 0;
      var i := 0;
      while i < numColors
        invariant 0 <= i <= numColors
        invariant i == 0 ==> best == -1 && n == 0
        invariant i > 0 ==> 0 <= n < i && best == Difference(c, color[n])
        invariant forall k :: 0 <= k < i ==> best <= Difference(c, color[k])
        invariant forall k :: 0 <= k < n ==> best < Difference(c, color[k])
      {
        var diff := Difference(c, color[i]);
        if best == -1 || diff < best {
          best, n := diff, i;
        }
        i := i + 1;
      }
      if !unlimited && (best == -1 || best > limit) {
        n := -1;
      }
    }

    /** Index: an equal colour, or a close one, or a new entry, or when there is no room the closest. */
    method Index(c: Color) returns (n: nat)
      requires Valid()
      modifies this
      ensures Valid() && maxColors == old(maxColors)
      ensures Colors() == old(Colors()) || (Colors() == old(Colors()) + [c] && n == old(numColors))
      ensures modified <==> old(modified) || Colors() != old(Colors())
      ensures old(numColors) < maxColors ==> n < numColors && Close(color[n], c)
      ensures n < numColors
    {
      hide Distance, Difference;
      var i := 0;
      while i < numColors
        invariant 0 <= i <= numColors
      {
        if color[i] == c {
          SameClose(c);
          return i;
        }
        i := i + 1;
      }
      var k := ClosestColor(c, 4, false);
      if k >= 0 {
        DistanceSymmetric(color[k], c);
        return k;
      }
      if numColors < maxColors {
        color, numColors := color[numColors := c], numColors + 1;
        modified := true;
        SameClose(c);
        return numColors - 1;
      }
      var m := ClosestColor(c, 0, true);
      n := m;
    }

    method SetColor(index: nat, c: Color)
      requires Valid()
      modifies this
      ensures Valid() && maxColors == old(maxColors)
      ensures color == if index < maxColors then old(color)[index := c] else old(color)
      ensures index >= maxColors ==> Colors() == old(Colors())
      ensures index < old(numColors) && index < maxColors ==> Colors() == old(Colors())[index := c]
      ensures old(numColors) <= index < maxColors ==> numColors == index + 1
      ensures modified <==> old(modified) || Colors() != old(Colors())
    {
      if index < maxColors {
        if numColors <= index {
          numColors := index + 1;
          modified := true;
        } else {
          modified := modified || color[index] != c;
          assert color[index] != c ==> Colors()[index] != c;
        }
        color := color[index := c];
      }
    }

    /** The colour that is taken for entry i of another palette. */
    static ghost function Wanted(other: Palette, i: nat, fg: Color, bg: Color): Color
      requires other.Valid() && i < other.numColors
      reads other
    {
      if (fg != 0 || bg != 0) && i == 0 then bg
      else if (fg != 0 || bg != 0) && i == 1 then fg
      else other.color[i]
    }

    /** Take: the colours of another palette join this one; indexes says where each of them went. */
    method Take(other: Palette, fg: Color, bg: Color) returns (indexes: seq<byte>)
      requires Valid() && other.Valid() && other != this
      modifies this
      ensures Valid() && maxColors == old(maxColors)
      ensures |indexes| == other.numColors && forall i :: 0 <= i < |indexes| ==> indexes[i] as int < numColors
      ensures old(Colors()) <= Colors() && numColors <= old(numColors) + other.numColors
      ensures old(numColors) + other.numColors <= maxColors ==>
        forall i :: 0 <= i < |indexes| ==> Close(color[indexes[i]], Wanted(other, i, fg, bg))
    {
      hide Close, Distance, Difference;
      indexes := [];
      var i := 0;
      while i < other.numColors
        invariant 0 <= i <= other.numColors && |indexes| == i
        invariant Valid() && maxColors == old(maxColors)
        invariant old(Colors()) <= Colors() && numColors <= old(numColors) + i
        invariant forall k :: 0 <= k < i ==> indexes[k] as int < numColors
        invariant old(numColors) + other.numColors <= maxColors ==>
          forall k :: 0 <= k < i ==> Close(color[indexes[k]], Wanted(other, k, fg, bg))
      {
        var c := other.color[i];
        if fg != 0 || bg != 0 {
          if i == 0 {
            c := bg;
          } else if i == 1 {
            c := fg;
          }
        }
        ghost var before := Colors();
        var n := Index(c);
        assert forall k :: 0 <= k < |before| ==> color[k] == before[k] by {
          assert forall k :: 0 <= k < |before| ==> Colors()[k] == before[k];
        }
        indexes := indexes + [n as byte];
        i := i + 1;
      }
    }

    /** As many colours as the other has; those below maxColors are the other's, the rest are what was there before. */
    ghost predicate CopyOf(other: Palette, before: seq<Color>)
      requires Valid() && other.Valid() && |before| == MAXNUMCOLORS
      reads this, other
    {
      && numColors == other.numColors
      && forall k :: 0 <= k < MAXNUMCOLORS ==> color[k] == if k < other.numColors && k < maxColors then other.color[k] else before[k]
    }

    /** Replace: this palette becomes a copy of the other, as far as its entries reach. */
    method Replace(other: Palette)
      requires Valid() && other.Valid() && other != this
      modifies this
      ensures Valid() && maxColors == old(maxColors) && CopyOf(other, old(color))
    {
      var i := 0;
      while i < other.numColors
        invariant 0 <= i <= other.numColors
        invariant Valid() && maxColors == old(maxColors)
        invariant forall k :: 0 <= k < MAXNUMCOLORS ==> color[k] == if k < i && k < maxColors then other.color[k] else old(color[k])
      {
        SetColor(i, other.color[i]);
        i := i + 1;
      }
      numColors := other.numColors;
    }
  }

  /** A copy has the other's colours exactly when the other has no more than fit, or those that do not fit were there. */
  lemma CopyExactly(p: Palette, other: Palette, before: seq<Color>)
    requires p.Valid() && other.Valid() && |before| == MAXNUMCOLORS && p.CopyOf(other, before)
    ensures p.Colors() == other.Colors() <==> forall k :: p.maxColors <= k < other.numColors ==> before[k] == other.color[k]
  {
    if p.Colors() == other.Colors() {
      forall k | p.maxColors <= k < other.numColors
        ensures before[k] == other.color[k]
      {
        assert p.Colors()[k] == other.Colors()[k];
      }
    }
  }

  lemma SameClose(c: Color)
    ensures Close(c, c)
  {
  }

  lemma DistanceSymmetric(c: Color, d: Color)
    ensures Distance(c, d) == Distance(d, c)
  {
    hide LittleEndian32;
  }

  /** The cell of a pixel. */
  function Cell(width: nat, x: nat, y: nat): nat { width * y + x }

  lemma CellInside(width: nat, height: nat, x: nat, y: nat)
    requires x < width && y < height
    ensures Cell(width, x, y) < width * height
  {
    assert width * (y + 1) <= width * height;
  }

  lemma CellsOrdered(width: nat, x: nat, y: nat, x': nat, y': nat)
    requires x < width && y < y'
    ensures Cell(width, x, y) < Cell(width, x', y')
  {
    assert width * (y + 1) <= width * y';
  }

  lemma CellsDiffer(width: nat, x: nat, y: nat, x': nat, y': nat)
    requires x < width && x' < width && Cell(width, x, y) == Cell(width, x', y')
    ensures x == x' && y == y'
  {
    if y < y' {
      CellsOrdered(width, x, y, x', y');
    } else if y' < y {
      CellsOrdered(width, x', y', x, y);
    }
  }

  ghost predicate SomeX(pixels: set<(int, int)>, x: int) { exists p :: p in pixels && p.0 == x }
  ghost predicate SomeY(pixels: set<(int, int)>, y: int) { exists p :: p in pixels && p.1 == y }

  datatype Box = Box(x1: int, y1: int, x2: int, y2: int) {
    /** The smallest box around some pixels; around none, the one Clean leaves. */
    ghost predicate Bounds(pixels: set<(int, int)>, width: int, height: int) {
      && (pixels == {} ==> this == Box(width, height, -1, -1))
      && (forall p :: p in pixels ==> x1 <= p.0 <= x2 && y1 <= p.1 <= y2)
      && (pixels != {} ==> SomeX(pixels, x1) && SomeX(pixels, x2) && SomeY(pixels, y1) && SomeY(pixels, y2))
    }

    function Around(x: int, y: int): Box {
      Box(if x1 > x then x else x1, if y1 > y then y else y1, if x2 < x then x else x2, if y2 < y then y else y2)
    }
  }

  lemma SomeMore(pixels: set<(int, int)>, q: (int, int))
    ensures SomeX(pixels + {q}, q.0) && SomeY(pixels + {q}, q.1)
    ensures forall x :: SomeX(pixels, x) ==> SomeX(pixels + {q}, x)
    ensures forall y :: SomeY(pixels, y) ==> SomeY(pixels + {q}, y)
  {
    assert q in pixels + {q};
    assert forall p :: p in pixels ==> p in pixels + {q};
  }

  lemma BoundsGrow(b: Box, pixels: set<(int, int)>, width: int, height: int, x: int, y: int)
    requires b.Bounds(pixels, width, height) && 0 <= x < width && 0 <= y < height
    ensures b.Around(x, y).Bounds(pixels + {(x, y)}, width, height)
  {
    hide SomeX, SomeY;
    SomeMore(pixels, (x, y));
  }

  class Bitmap {
    const palette: Palette
    var bitmap: array?<byte>
    var x0: int
    var y0: int
    var width: int
    var height: int
    var dirty: Box
    /** The pixels changed since Clean was called, once it was. */
    ghost var changed: set<(int, int)>
    ghost var cleaned: bool

    ghost predicate Valid()
      reads this, bitmap
    {
      && (bitmap != null ==> width > 0 && height > 0 && bitmap.Length == width * height)
      && (cleaned ==> dirty.Bounds(changed, width, height))
      && (forall p :: p in changed ==> 0 <= p.0 < width && 0 <= p.1 < height)
    }

    predicate Inside(x: int, y: int)
      reads this
    {
      bitmap != null && 0 <= x < width && 0 <= y < height
    }

    /** The colour index of a pixel. */
    ghost function Pixel(x: int, y: int): byte
      requires Valid() && Inside(x, y)
      reads this, bitmap
    {
      CellInside(width, height, x, y);
      bitmap[Cell(width, x, y)]
    }

    /** A bitmap of the given size, all of it index zero. */
    constructor (width: int, height: int, bpp: nat, x0: int, y0: int)
      requires bpp <= 8
      ensures Valid() && !cleaned && fresh(palette) && palette.Valid() && palette.Colors() == [] && palette.maxColors == Pow2(bpp)
      ensures this.width == width && this.height == height && this.x0 == x0 && this.y0 == y0
      ensures bitmap != null <==> width > 0 && height > 0
      ensures bitmap != null ==> fresh(bitmap)
      ensures forall x, y :: Inside(x, y) ==> Pixel(x, y) == 0
    {
      hide Box.Bounds, Pow2, Cell;
      EightBits(bpp);
      palette := new Palette(Pow2(bpp));
      this.width, this.height, this.x0, this.y0 := width, height, x0, y0;
      dirty := Box(0, 0, width - 1, height - 1);
      changed, cleaned := {}, false;
      bitmap := null;
      new;
      if width > 0 && height > 0 {
        bitmap := new byte[width * height](_ => 0);
        forall x, y | Inside(x, y)
          ensures Pixel(x, y) == 0
        {
          CellInside(width, height, x, y);
        }
      }
    }

    /** From now on the dirty rectangle is that of the pixels changed. */
    method Clean()
      requires Valid()
      modifies `dirty, `changed, `cleaned
      ensures Valid() && cleaned && changed == {}
    {
      dirty := Box(width, height, -1, -1);
      changed, cleaned := {}, true;
    }

    /** SetIndex: one pixel, if it is inside; every other stays as it is. */
    method SetIndex(x: int, y: int, index: byte)
      requires Valid()
      modifies bitmap, `dirty, `changed
      ensures Valid()
      ensures forall u, v :: Inside(u, v) ==> Pixel(u, v) == if (u, v) == (x, y) then index else old(Pixel(u, v))
      ensures changed == old(changed) + if Inside(x, y) && old(Pixel(x, y)) != index then {(x, y)} else {}
    {
      if bitmap != null {
        if 0 <= x < width && 0 <= y < height {
          CellInside(width, height, x, y);
          if bitmap[Cell(width, x, y)] != index {
            forall u, v | Inside(u, v) && Cell(width, u, v) == Cell(width, x, y)
              ensures u == x && v == y
            {
              CellsDiffer(width, u, v, x, y);
            }
            bitmap[Cell(width, x, y)] := index;
            if cleaned {
              BoundsGrow(dirty, changed, width, height, x, y);
            }
            dirty := dirty.Around(x, y);
            changed := changed + {(x, y)};
          }
        }
      }
    }

    /** Whether the rectangle, in screen coordinates, contains the whole bitmap. */
    predicate Covers(x1: int, y1: int, x2: int, y2: int)
      reads this
    {
      x1 - x0 <= 0 && y1 - y0 <= 0 && x2 - x0 >= width - 1 && y2 - y0 >= height - 1
    }

    predicate Intersects(x1: int, y1: int, x2: int, y2: int)
      reads this
    {
      !(x2 - x0 < 0 || x1 - x0 >= width || y2 - y0 < 0 || y1 - y0 >= height)
    }

    /** Whether a place of this bitmap lies in a rectangle on the screen. */
    predicate In(u: int, v: int, x1: int, y1: int, x2: int, y2: int)
      reads this
    {
      x1 <= x0 + u <= x2 && y1 <= y0 + v <= y2
    }

    lemma CoversExactly(x1: int, y1: int, x2: int, y2: int)
      requires width > 0 && height > 0
      ensures Covers(x1, y1, x2, y2) <==> forall u, v :: 0 <= u < width && 0 <= v < height ==> In(u, v, x1, y1, x2, y2)
    {
      if !Covers(x1, y1, x2, y2) {
        assert !In(0, 0, x1, y1, x2, y2) || !In(width - 1, height - 1, x1, y1, x2, y2);
      }
    }

    lemma IntersectsExactly(x1: int, y1: int, x2: int, y2: int)
      requires width > 0 && height > 0 && x1 <= x2 && y1 <= y2
      ensures Intersects(x1, y1, x2, y2) <==> exists u, v :: 0 <= u < width && 0 <= v < height && In(u, v, x1, y1, x2, y2)
    {
      var u, v := if x1 < x0 then 0 else x1 - x0, if y1 < y0 then 0 else y1 - y0;
      assert Intersects(x1, y1, x2, y2) ==> 0 <= u < width && 0 <= v < height && In(u, v, x1, y1, x2, y2);
    }

    /** Whether a pixel gets the one of the other bitmap that lies on it. */
    ghost predicate Drawn(u: int, v: int, x: int, y: int, other: Bitmap, overlay: bool)
      requires other.Valid()
      reads other, other.bitmap
    {
      other.Inside(u - x, v - y) && (!overlay || other.Pixel(u - x, v - y) != 0)
    }

    /** All of the other bitmap is drawn, or as an overlay all but its pixels of index zero. */
    lemma DrawnExactly(u: int, v: int, x: int, y: int, other: Bitmap)
      requires other.Valid() && other.Inside(u - x, v - y)
      ensures Drawn(u, v, x, y, other, false) && (Drawn(u, v, x, y, other, true) <==> other.Pixel(u - x, v - y) as int > 0)
    {
    }

    /** Dirty: whether anything is, and where. */
    method Dirty() returns (any: bool, box: Box)
      requires Valid()
      ensures any ==> box == dirty
      ensures cleaned ==> (any <==> changed != {})
    {
      assert cleaned && changed != {} ==> dirty.x2 >= 0 by {
        if p :| p in changed {
          assert p.0 <= dirty.x2 || !cleaned;
        }
      }
      any, box := dirty.x2 >= 0, dirty;
    }

    /** The inner loop. */
    method CopyColumn(x: int, y: int, other: Bitmap, table: Option<seq<byte>>, overlay: bool, ix: int)
      requires Valid() && other.Valid() && other != this && other.bitmap != bitmap && other.bitmap != null && 0 <= ix < other.width
      modifies bitmap, `dirty, `changed
      ensures Valid()
      ensures forall u, v :: Inside(u, v) && !(u - x == ix && Drawn(u, v, x, y, other, overlay)) ==> Pixel(u, v) == old(Pixel(u, v))
      ensures forall u, v :: Inside(u, v) && u - x == ix && Drawn(u, v, x, y, other, overlay) ==>
        Mapped(table, other.Pixel(u - x, v - y), Pixel(u, v))
    {
      var iy := 0;
      while iy < other.height
        invariant 0 <= iy <= other.height && Valid() && other.Valid()
        invariant forall u, v :: Inside(u, v) && !(u - x == ix && v - y < iy && Drawn(u, v, x, y, other, overlay)) ==>
          Pixel(u, v) == old(Pixel(u, v))
        invariant forall u, v :: Inside(u, v) && u - x == ix && v - y < iy && Drawn(u, v, x, y, other, overlay) ==>
          Mapped(table, other.Pixel(u - x, v - y), Pixel(u, v))
      {
        CellInside(other.width, other.height, ix, iy);
        var from := other.bitmap[Cell(other.width, ix, iy)];
        assert from == other.Pixel(ix, iy);
        hide Bitmap.Valid, Bitmap.Pixel, Mapped, Cell;
        if !overlay || from != 0 {
          var to := from;
          if table.Some? {
            to := *;
            if from as int < |table.value| {
              to := table.value[from];
            }
          }
          assert Mapped(table, from, to);
          SetIndex(x + ix, y + iy, to);
        }
        iy := iy + 1;
      }
    }

    /** The two loops of DrawBitmap, with or without a table of indexes; an index the table lacks becomes anything. */
    method CopyPixels(x: int, y: int, other: Bitmap, table: Option<seq<byte>>, overlay: bool)
      requires Valid() && other.Valid() && other != this && other.bitmap != bitmap && other.bitmap != null
      modifies bitmap, `dirty, `changed
      ensures Valid()
      ensures forall u, v :: Inside(u, v) && !Drawn(u, v, x, y, other, overlay) ==> Pixel(u, v) == old(Pixel(u, v))
      ensures forall u, v :: Inside(u, v) && Drawn(u, v, x, y, other, overlay) ==> Mapped(table, other.Pixel(u - x, v - y), Pixel(u, v))
    {
      hide Mapped, Cell, Box.Bounds;
      var ix := 0;
      while ix < other.width
        invariant 0 <= ix <= other.width && Valid()
        invariant forall u, v :: Inside(u, v) && !(u - x < ix && Drawn(u, v, x, y, other, overlay)) ==> Pixel(u, v) == old(Pixel(u, v))
        invariant forall u, v :: Inside(u, v) && u - x < ix && Drawn(u, v, x, y, other, overlay) ==>
          Mapped(table, other.Pixel(u - x, v - y), Pixel(u, v))
      {
        CopyColumn(x, y, other, table, overlay, ix);
        ix := ix + 1;
      }
    }

    /** Every pixel drawn shows the colour it was to show, or a close one. */
    ghost predicate Shows(x: int, y: int, other: Bitmap, fg: Color, bg: Color, overlay: bool)
      requires Valid() && other.Valid() && palette.Valid() && other.palette.Valid()
      reads this, bitmap, palette, other, other.bitmap, other.palette
    {
      forall u, v :: Inside(u, v) && Drawn(u, v, x, y, other, overlay) && other.Pixel(u - x, v - y) as int < other.palette.numColors ==>
        && Pixel(u, v) as int < palette.numColors
        && Close(palette.color[Pixel(u, v)], Palette.Wanted(other.palette, other.Pixel(u - x, v - y) as nat, fg, bg))
    }

    /** With a foreground or a background colour the first two colours of the other bitmap are these, all others are its own. */
    lemma ShownColors(x: int, y: int, other: Bitmap, fg: Color, bg: Color, overlay: bool, u: int, v: int)
      requires Valid() && other.Valid() && palette.Valid() && other.palette.Valid() && Shows(x, y, other, fg, bg, overlay)
      requires Inside(u, v) && Drawn(u, v, x, y, other, overlay) && other.Pixel(u - x, v - y) as int < other.palette.numColors
      ensures var shown, k := palette.color[Pixel(u, v)], other.Pixel(u - x, v - y);
        && (k == 0 && (fg != 0 || bg != 0) ==> Close(shown, bg)) && (k == 1 && (fg != 0 || bg != 0) ==> Close(shown, fg))
        && (k > 1 || (fg == 0 && bg == 0) ==> Close(shown, other.palette.color[k]))
    {
      hide Close, Cell;
    }

    /** The other bitmap's colours are joined to those of this one, which has room for them. */
    method DrawTaking(x: int, y: int, other: Bitmap, fg: Color, bg: Color, overlay: bool)
      requires Valid() && other.Valid() && palette.Valid() && other.palette.Valid()
      requires other != this && other.bitmap != bitmap && other.bitmap != null && other.palette != palette
      modifies bitmap, `dirty, `changed, palette
      ensures Valid() && palette.Valid() && palette.maxColors == old(palette.maxColors) && old(palette.Colors()) <= palette.Colors()
      ensures forall u, v :: Inside(u, v) && !Drawn(u, v, x, y, other, overlay) ==> Pixel(u, v) == old(Pixel(u, v))
      ensures old(palette.numColors) + other.palette.numColors <= palette.maxColors ==> Shows(x, y, other, fg, bg, overlay)
    {
      hide Close, Distance, Cell, Box.Bounds, Palette.Wanted;
      var indexes := palette.Take(other.palette, fg, bg);
      CopyPixels(x, y, other, Some(indexes), overlay);
    }

    /** The other bitmap's palette takes the place of this one's. */
    method DrawReplacing(x: int, y: int, other: Bitmap, overlay: bool)
      requires Valid() && other.Valid() && palette.Valid() && other.palette.Valid()
      requires other != this && other.bitmap != bitmap && other.bitmap != null && other.palette != palette
      modifies bitmap, `dirty, `changed, palette
      ensures Valid() && palette.Valid() && palette.maxColors == old(palette.maxColors) && palette.CopyOf(other.palette, old(palette.color))
      ensures forall u, v :: Inside(u, v) && !Drawn(u, v, x, y, other, overlay) ==> Pixel(u, v) == old(Pixel(u, v))
      ensures forall u, v :: Inside(u, v) && Drawn(u, v, x, y, other, overlay) ==> Pixel(u, v) == other.Pixel(u - x, v - y)
    {
      hide Cell, Box.Bounds;
      palette.Replace(other.palette);
      CopyPixels(x, y, other, None, overlay);
    }

    /** DrawBitmap: the other bitmap's pixels where it lies on this one, its colours joined to this palette or put in its place. */
    method DrawBitmap(x: int, y: int, other: Bitmap, fg: Color, bg: Color, replacePalette: bool, overlay: bool)
      requires Valid() && other.Valid() && palette.Valid() && other.palette.Valid()
      requires other != this && (bitmap != null ==> other.bitmap != bitmap) && other.palette != palette
      modifies bitmap, `dirty, `changed, palette
      ensures Valid() && palette.Valid() && palette.maxColors == old(palette.maxColors)
      ensures forall u, v :: Inside(u, v) && !Drawn(u, v, x - x0, y - y0, other, overlay) ==> Pixel(u, v) == old(Pixel(u, v))
      ensures !Covers(x, y, x + other.width - 1, y + other.height - 1) ==> old(palette.Colors()) <= palette.Colors()
      ensures replacePalette && Covers(x, y, x + other.width - 1, y + other.height - 1) ==>
        forall u, v :: Inside(u, v) && Drawn(u, v, x - x0, y - y0, other, overlay) ==>
          Pixel(u, v) == other.Pixel(u - (x - x0), v - (y - y0))
      ensures replacePalette && Covers(x, y, x + other.width - 1, y + other.height - 1) && bitmap != null && other.bitmap != null ==>
        palette.CopyOf(other.palette, old(palette.color))
      ensures var whole := Covers(x, y, x + other.width - 1, y + other.height - 1);
        !(replacePalette && whole) && (if whole then 0 else old(palette.numColors)) + other.palette.numColors <= palette.maxColors ==>
          Shows(x - x0, y - y0, other, fg, bg, overlay)
    {
      hide Close, Distance, Cell, Box.Bounds, Palette.Wanted;
      var x2, y2 := x + other.width - 1, y + other.height - 1;
      if bitmap != null && other.bitmap != null && Intersects(x, y, x2, y2) {
        if Covers(x, y, x2, y2) {
          palette.Reset();
        }
        if replacePalette && Covers(x, y, x2, y2) {
          DrawReplacing(x - x0, y - y0, other, overlay);
        } else {
          DrawTaking(x - x0, y - y0, other, fg, bg, overlay);
        }
      }
    }
  }

  predicate Mapped(table: Option<seq<byte>>, from: byte, to: byte) {
    match table
    case None => to == from
    case Some(indexes) => from as int < |indexes| ==> to == indexes[from]
  }

  lemma EightBits(n: nat)
    requires n <= 8
    ensures Pow2(n) <= MAXNUMCOLORS
  {
    Pow2Monotone(n, 8);
    assert Pow2(8) == 256;
  }
}
