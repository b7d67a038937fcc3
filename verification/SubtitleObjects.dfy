/** Subtitle objects drawn into a region's bitmap: cSubtitleObject of lib/libdvbsub/dvbsubtitle.cpp. */
module SubtitleObjects {
  import opened Collections
  import opened Octets
  import opened Bitmaps
  import opened SubtitleStrings

  type Picture = map<(int, int), byte>

  /** Where an object lies on its region, and whether its colour 1 leaves what is there alone. */
  datatype Place = Place(px: int, py: int, keep: bool)

  /** Whether a stroke colours a pixel of the region. */
  predicate Touches(s: Stroke, at: Place, q: (int, int)) {
    q.1 == at.py + s.y && 0 <= q.0 - at.px - s.x < |s.pixels| && !(at.keep && s.pixels[q.0 - at.px - s.x] == 1)
  }

  predicate Colors(pixels: seq<nat>) {
    forall i :: 0 <= i < |pixels| ==> pixels[i] < 256
  }

  /** One stroke on a picture: it stays inside, and every pixel it does not touch is kept. */
  function Paint(m: Picture, s: Stroke, at: Place): (r: Picture)
    requires Colors(s.pixels)
    ensures r.Keys == m.Keys
  {
    map q | q in m :: if Touches(s, at, q) then s.pixels[q.0 - at.px - s.x] as byte else m[q]
  }

  predicate AllColors(strokes: seq<Stroke>) {
    forall s :: s in strokes ==> Colors(s.pixels)
  }

  function PaintAll(m: Picture, strokes: seq<Stroke>, at: Place): (r: Picture)
    requires AllColors(strokes)
    ensures r.Keys == m.Keys
    decreases |strokes|
  {
    if strokes == [] then m else PaintAll(Paint(m, strokes[0], at), strokes[1..], at)
  }

  /** A run drawn behind another run on the same line is one longer run. */
  lemma PaintJoin(m: Picture, x: nat, y: nat, a: seq<nat>, b: seq<nat>, at: Place)
    requires Colors(a) && Colors(b)
    ensures Colors(a + b) && Paint(Paint(m, Stroke(x, y, a), at), Stroke(x + |a|, y, b), at) == Paint(m, Stroke(x, y, a + b), at)
  {
  }

  lemma PaintNothing(m: Picture, x: nat, y: nat, at: Place)
    ensures forall c: nat :: Paint(m, Stroke(x, y, Repeat(c, 0)), at) == m
    ensures Paint(m, Stroke(x, y, []), at) == m
  {
  }

  /** One pixel, if it is in the picture. */
  function Dot(m: Picture, q: (int, int), index: byte): Picture {
    if q in m then m[q := index] else m
  }

  lemma PaintDot(m: Picture, x: nat, y: nat, index: byte, n: nat, at: Place)
    requires !(at.keep && index == 1)
    ensures Dot(Paint(m, Stroke(x, y, Repeat(index as nat, n)), at), (at.px + x + n, at.py + y), index)
         == Paint(m, Stroke(x, y, Repeat(index as nat, n + 1)), at)
  {
  }

  lemma PaintKept(m: Picture, x: nat, y: nat, n: nat, at: Place)
    requires at.keep
    ensures Paint(m, Stroke(x, y, Repeat(1, n)), at) == m
  {
  }

  /** What the bitmap of a region shows. */
  ghost function Shown(b: Bitmap): Picture
    requires b.Valid()
    reads b, b.bitmap
  {
    map u, v | 0 <= u < b.width && 0 <= v < b.height && b.Inside(u, v) :: (u, v) := b.Pixel(u, v)
  }

  class SubtitleObject {
    const bitmap: Bitmap
    var nonModifyingColorFlag: bool
    var nibblePos: nat
    var px: int
    var py: int

    constructor (bitmap: Bitmap)
      ensures this.bitmap == bitmap && !nonModifyingColorFlag && nibblePos == 0 && px == py == 0
    {
      this.bitmap := bitmap;
      nonModifyingColorFlag, nibblePos, px, py := false, 0, 0, 0;
    }

    ghost function At(): Place
      reads this
    {
      Place(px, py, nonModifyingColorFlag)
    }

    method SetPixel(u: int, v: int, index: byte)
      requires bitmap.Valid()
      modifies bitmap.bitmap, bitmap`dirty, bitmap`changed
      ensures bitmap.Valid() && Shown(bitmap) == Dot(old(Shown(bitmap)), (u, v), index)
    {
      hide Bitmap.Valid, Bitmap.Pixel;
      bitmap.SetIndex(u, v, index);
    }

    /** DrawLine: a run of one colour. */
    method DrawLine(x: nat, y: nat, index: byte, length: nat)
      requires bitmap.Valid()
      modifies bitmap.bitmap, bitmap`dirty, bitmap`changed
      ensures bitmap.Valid() && Colors(Repeat(index as nat, length))
      ensures Shown(bitmap) == Paint(old(Shown(bitmap)), Stroke(x, y, Repeat(index as nat, length)), At())
    {
      hide Bitmap.Valid, Shown, Paint, Dot;
      if nonModifyingColorFlag && index == 1 {
        PaintKept(Shown(bitmap), x, y, length, At());
        return;
      }
      var left, line := x + px, y + py;
      var pos := left;
      PaintNothing(Shown(bitmap), x, y, At());
      while pos < left + length
        invariant left <= pos <= left + length && bitmap.Valid()
        invariant Shown(bitmap) == Paint(old(Shown(bitmap)), Stroke(x, y, Repeat(index as nat, pos - left)), At())
      {
        PaintDot(old(Shown(bitmap)), x, y, index, pos - left, At());
        SetPixel(pos, line, index);
        pos := pos + 1;
      }
    }

    /** Where the bits of a byte that are read next are, for a kind of string. */
    ghost predicate Aligned(kind: Kind)
      reads this
    {
      match kind case Two(start) => start % 4 == 0 && nibblePos in {0, 2, 4, 6, 8} case Four => nibblePos in {0, 4} case Eight => true
    }

    /** The unit that is read next, counted from the start of a block. */
    ghost function Next(kind: Kind, index: nat): nat
      reads this
    {
      match kind
      case Two(_) => 4 * index + (if nibblePos < 8 then (8 - nibblePos) / 2 else 0)
      case Four => 2 * index + if nibblePos == 0 then 1 else 0
      case Eight => index
    }

    /** In a string, at its start or behind it. */
    ghost predicate Inside(kind: Kind, index: nat)
      reads this
    {
      && Aligned(kind)
      && (kind.Two? ==> if nibblePos == 8 then Next(kind, index) == kind.start else Next(kind, index) > kind.start)
    }

    /** A byte of the block; behind its end there are zeros. */
    static function ByteAt(data: seq<byte>, index: nat): (b: nat)
      ensures b < 256
    {
      if index < |data| then data[index] as nat else 0
    }

    /** Get2Bits: the byte is fetched before the index moves on, so the first two bits of a byte are those of the one in front. */
    method Get2Bits(data: seq<byte>, index: nat, ghost start: nat) returns (result: nat, index': nat)
      requires Inside(Two(start), index)
      modifies `nibblePos
      ensures Inside(Two(start), index') && nibblePos != 8 && Next(Two(start), index') == old(Next(Two(start), index)) + 1
      ensures result == TwoBitsAt(Crumbs(data), start, old(Next(Two(start), index))) < 4
    {
      ghost var p := Next(Two(start), index);
      TwoBitsIn(data, index, nibblePos, start);
      result, index' := ByteAt(data, index), index;
      if nibblePos == 0 {
        index', nibblePos := index + 1, 8;
      }
      nibblePos := nibblePos - 2;
      result := Shifted(result, nibblePos);
    }

    /** (b >> n) & 3 */
    static function Shifted(b: nat, n: nat): nat {
      match n case 0 => b % 4 case 2 => b / 4 % 4 case 4 => b / 16 % 4 case _ => b / 64 % 4
    }

    static lemma TwoBitsIn(data: seq<byte>, index: nat, pos: nat, start: nat)
      requires start % 4 == 0 && pos in {0, 2, 4, 6, 8}
      requires if pos == 8 then 4 * index == start else 4 * index + (8 - pos) / 2 > start
      ensures TwoBitsAt(Crumbs(data), start, 4 * index + (8 - pos) / 2)
           == Shifted(ByteAt(data, index), if pos == 0 then 6 else pos - 2) < 4
    {
      hide Crumbs;
      if index < |data| {
        CrumbsAt(data, index);
      }
      assert (4 * index + (8 - pos) / 2) % 4 == (8 - pos) / 2 % 4;
    }

    /** Get4Bits: the high half of a byte first, then its low half. */
    method Get4Bits(data: seq<byte>, index: nat) returns (result: nat, index': nat)
      requires Aligned(Four)
      modifies `nibblePos
      ensures Aligned(Four) && Next(Four, index') == old(Next(Four, index)) + 1
      ensures result == SubtitleStrings.At(Unpack(data), old(Next(Four, index))) < 16
    {
      hide Unpack;
      if index < |data| {
        UnpackAt(data, index);
      }
      result, index' := ByteAt(data, index), index;
      if nibblePos == 0 {
        index', nibblePos := index + 1, 4;
      } else {
        result := result / 16;
        nibblePos := nibblePos - 4;
      }
      result := result % 16;
    }

    /** The decision tree of Decode2BppCodeString; the operands of a sum are read from left to right. */
    method ReadCode2(data: seq<byte>, index: nat, ghost start: nat) returns (more: bool, rl: nat, color: nat, index': nat)
      requires Inside(Two(start), index)
      modifies `nibblePos
      ensures Inside(Two(start), index') && nibblePos != 8 && color < 4
      ensures CodeAt2(Crumbs(data), start, old(Next(Two(start), index))) == (if more then Run(color, rl) else End, Next(Two(start), index'))
    {
      hide Crumbs, TwoBitsAt, LongCodeAt2, SubtitleObject.Inside, SubtitleObject.Next, SubtitleObject.Aligned;
      var code;
      rl, color := 0, 0;
      code, index' := Get2Bits(data, index, start);
      if code != 0 {
        return true, 1, code, index';
      }
      code, index' := Get2Bits(data, index', start);
      if code >= 2 {
        var low;
        low, index' := Get2Bits(data, index', start);
        color, index' := Get2Bits(data, index', start);
        return true, code % 2 * 4 + low + 3, color, index';
      }
      if code == 1 {
        return true, 1, 0, index';
      }
      more, rl, color, index' := ReadLongCode2(data, index', start);
    }

    /** The innermost switch of Decode2BppCodeString. */
    method ReadLongCode2(data: seq<byte>, index: nat, ghost start: nat) returns (more: bool, rl: nat, color: nat, index': nat)
      requires Inside(Two(start), index)
      modifies `nibblePos
      ensures Inside(Two(start), index') && nibblePos != 8 && color < 4
      ensures LongCodeAt2(Crumbs(data), start, old(Next(Two(start), index))) == (if more then Run(color, rl) else End, Next(Two(start), index'))
    {
      hide Crumbs, TwoBitsAt, SubtitleObject.Inside, SubtitleObject.Next, SubtitleObject.Aligned;
      var code;
      code, index' := Get2Bits(data, index, start);
      more, rl, color := code != 0, 2, 0;
      if code == 2 {
        var high, low;
        high, index' := Get2Bits(data, index', start);
        low, index' := Get2Bits(data, index', start);
        color, index' := Get2Bits(data, index', start);
        rl := high * 4 + low + 12;
      } else if code == 3 {
        var first, second, third, last;
        first, index' := Get2Bits(data, index', start);
        second, index' := Get2Bits(data, index', start);
        third, index' := Get2Bits(data, index', start);
        last, index' := Get2Bits(data, index', start);
        color, index' := Get2Bits(data, index', start);
        rl := first * 64 + second * 16 + third * 4 + last + 29;
      }
    }

    /** The decision tree of Decode8BppCodeString. */
    method ReadCode8(data: seq<byte>, index: nat) returns (more: bool, rl: nat, color: nat, index': nat)
      ensures color < 256
      ensures CodeAt8(Eight.Units(data), index) == (if more then Run(color, rl) else End, index')
    {
      hide And63;
      assert forall i :: SubtitleStrings.At(Eight.Units(data), i) == ByteAt(data, i);
      rl, color := 0, 0;
      var code := ByteAt(data, index);
      index' := index + 1;
      if code != 0 {
        return true, 1, code, index';
      }
      code := ByteAt(data, index');
      index' := index' + 1;
      rl := And63(code);
      if code >= 128 {
        color := ByteAt(data, index');
        index' := index' + 1;
      } else if rl == 0 {
        return false, 0, 0, index';
      }
      more := true;
    }

    /** The decision tree of Decode4BppCodeString; the operands of a sum are read from left to right. */
    method ReadCode4(data: seq<byte>, index: nat) returns (more: bool, rl: nat, color: nat, index': nat)
      requires Aligned(Four)
      modifies `nibblePos
      ensures Aligned(Four) && color < 16
      ensures CodeAt4(Unpack(data), old(Next(Four, index))) == (if more then Run(color, rl) else End, Next(Four, index'))
    {
      hide Unpack, SubtitleStrings.At;
      var code;
      rl, color := 0, 0;
      code, index' := Get4Bits(data, index);
      if code != 0 {
        return true, 1, code, index';
      }
      code, index' := Get4Bits(data, index');
      if code >= 8 {
        if code % 8 >= 4 {
          match code % 4
          case 0 =>
            rl := 1;
          case 1 =>
            rl := 2;
          case 2 =>
            var low;
            low, index' := Get4Bits(data, index');
            color, index' := Get4Bits(data, index');
            rl := low + 9;
          case _ =>
            var high, low;
            high, index' := Get4Bits(data, index');
            low, index' := Get4Bits(data, index');
            color, index' := Get4Bits(data, index');
            rl := high * 16 + low + 25;
        } else {
          color, index' := Get4Bits(data, index');
          rl := code % 4 + 4;
        }
      } else {
        if code == 0 {
          return false, 0, 0, index';
        }
        rl := code + 2;
      }
      more := true;
    }

    /** The code at an index. */
    method ReadCode(kind: Kind, data: seq<byte>, index: nat) returns (more: bool, rl: nat, color: nat, index': nat)
      requires Inside(kind, index)
      modifies `nibblePos
      ensures Inside(kind, index') && (kind.Two? ==> nibblePos != 8) && color < 256
      ensures CodeAt(kind, kind.Units(data), old(Next(kind, index))) == (if more then Run(color, rl) else End, Next(kind, index'))
    {
      hide CodeAt2, CodeAt4, CodeAt8, Crumbs, Unpack;
      match kind
      case Two(start) =>
        more, rl, color, index' := ReadCode2(data, index, start);
      case Four =>
        more, rl, color, index' := ReadCode4(data, index);
      case Eight =>
        more, rl, color, index' := ReadCode8(data, index);
    }

    /** Decode2BppCodeString, Decode4BppCodeString and Decode8BppCodeString: one code; more tells whether it was a run. */
    method DecodeCode(kind: Kind, data: seq<byte>, index: nat, x: nat, y: nat) returns (more: bool, index': nat, x': nat)
      requires bitmap.Valid() && Inside(kind, index)
      modifies `nibblePos, bitmap.bitmap, bitmap`dirty, bitmap`changed
      ensures bitmap.Valid() && Inside(kind, index') && (kind.Two? ==> nibblePos != 8)
      ensures var (code, next) := CodeAt(kind, kind.Units(data), old(Next(kind, index)));
        && Next(kind, index') == next && (more <==> code.Run?)
        && (!more ==> x' == x && Shown(bitmap) == old(Shown(bitmap)))
        && (more ==> x' == x + code.length && Colors(Repeat(code.color, code.length)))
        && (more ==> Shown(bitmap) == Paint(old(Shown(bitmap)), Stroke(x, y, Repeat(code.color, code.length)), At()))
    {
      hide Shown, Bitmap.Valid, Paint, CodeAt, Kind.Units;
      var rl, color;
      more, rl, color, index' := ReadCode(kind, data, index);
      if !more {
        return false, index', x;
      }
      DrawLine(x, y, color as byte, rl);
      x' := x + rl;
    }

    /** One string: codes up to the end code or the end of the block, and the rest of a half byte or byte that was begun. */
    method DecodeString(kind: Kind, data: seq<byte>, index: nat, x: nat, y: nat) returns (index': nat, x': nat)
      requires bitmap.Valid() && 0 < index <= |data| && KindOf(data[index - 1], index) == Some(kind)
      modifies `nibblePos, bitmap.bitmap, bitmap`dirty, bitmap`changed
      ensures bitmap.Valid()
      ensures var r := StringBehind(kind, data, index - 1);
        && index' == r.1 && x' == x + |r.0| && Colors(r.0)
        && Shown(bitmap) == Paint(old(Shown(bitmap)), Stroke(x, y, r.0), At())
    {
      hide Shown, Bitmap.Valid, Kind.Units, Paint, CodeAt, StringAt;
      if !kind.Eight? {
        nibblePos := if kind.Two? then 8 else 4;
      }
      ghost var ns, limit: int, done := kind.Units(data), kind.Limit(|data|), [];
      ghost var p := kind.First(index);
      ghost var r := StringAt(kind, ns, p, limit);
      ghost var m := Shown(bitmap);
      PaintNothing(m, x, y, At());
      assert done + r.0 == r.0;
      var more := true;
      index', x' := index, x;
      while more
        invariant bitmap.Valid() && Inside(kind, index') && p == Next(kind, index') && At() == old(At())
        invariant Colors(done) && x' == x + |done| && Shown(bitmap) == Paint(m, Stroke(x, y, done), At())
        invariant more ==> r == (done + StringAt(kind, ns, p, limit).0, StringAt(kind, ns, p, limit).1)
        invariant !more ==> r == (done, p) && (kind.Two? ==> nibblePos != 8)
        decreases more, limit - p
      {
        StringStep(kind, ns, p, limit);
        assert done + [] == done;
        ghost var code, next := CodeAt(kind, ns, p).0, CodeAt(kind, ns, p).1;
        more, index', x' := DecodeCode(kind, data, index', x', y);
        if more {
          ghost var run := Repeat(code.color, code.length);
          PaintJoin(m, x, y, done, run, At());
          assert next < limit ==> done + (run + StringAt(kind, ns, next, limit).0) == done + run + StringAt(kind, ns, next, limit).0;
          done := done + run;
          more := index' < |data|;
        }
        p := next;
      }
      if !kind.Eight? && nibblePos == 0 {
        index' := index' + 1;
      }
    }

    /** DecodeSubBlock: the lines of one field, every other line of the object, are painted and nothing else is. */
    method DecodeSubBlock(data: seq<byte>, even: bool)
      requires bitmap.Valid()
      modifies `nibblePos, bitmap.bitmap, bitmap`dirty, bitmap`changed
      ensures bitmap.Valid() && AllColors(StrokesAt(data, 0, 0, if even then 0 else 1))
      ensures Shown(bitmap) == PaintAll(old(Shown(bitmap)), StrokesAt(data, 0, 0, if even then 0 else 1), At())
    {
      hide Shown, Bitmap.Valid, Paint, PaintAll, StringBehind, StrokesAt, AllColors;
      var x: nat, y: nat := 0, if even then 0 else 1;
      ghost var m, all := Shown(bitmap), StrokesAt(data, 0, 0, y);
      AllColored(data, 0, 0, y);
      var index := 0;
      while index < |data|
        invariant bitmap.Valid() && At() == old(At())
        invariant AllColors(StrokesAt(data, index, x, y))
        invariant PaintAll(m, all, At()) == PaintAll(Shown(bitmap), StrokesAt(data, index, x, y), At())
        decreases |data| - index
      {
        var b := data[index];
        BlockStep(Shown(bitmap), data, index, x, y, At());
        index := index + 1;
        match b {
          case 0x10 =>
            index, x := DecodeString(Two(4 * index), data, index, x, y);
          case 0x11 =>
            index, x := DecodeString(Four, data, index, x, y);
          case 0x12 =>
            index, x := DecodeString(Eight, data, index, x, y);
          case 0x20 =>
            index := index + 4;
          case 0x21 =>
            index := index + 4;
          case 0x22 =>
            index := index + 16;
          case 0xf0 =>
            x, y := 0, y + 2;
          case _ =>
        }
        AllColored(data, index, x, y);
      }
      NothingLeft(Shown(bitmap), data, index, x, y, At());
    }

    /** An object of pixels: its top field, then its bottom field, which is the top field's once more if it has no data. */
    method DecodePixels(top: seq<byte>, bottom: seq<byte>)
      requires bitmap.Valid()
      modifies `nibblePos, bitmap.bitmap, bitmap`dirty, bitmap`changed
      ensures var below := if bottom == [] then top else bottom;
        && bitmap.Valid() && AllColors(StrokesAt(top, 0, 0, 0)) && AllColors(StrokesAt(below, 0, 0, 1))
        && Shown(bitmap) == PaintAll(PaintAll(old(Shown(bitmap)), StrokesAt(top, 0, 0, 0), At()), StrokesAt(below, 0, 0, 1), At())
    {
      hide Shown, Bitmap.Valid, Paint, PaintAll, AllColors, StrokesAt;
      DecodeSubBlock(top, true);
      if |bottom| > 0 {
        DecodeSubBlock(bottom, false);
      } else {
        DecodeSubBlock(top, false);
      }
    }

    /** The same for an object that was encoded line by line: the region shows it, the lines of an empty bottom field as
        those of the top field once more. */
    method DecodeObject(top: seq<byte>, bottom: seq<byte>, ghost upper: seq<seq<Symbol>>, ghost lower: seq<seq<Symbol>>)
      requires bitmap.Valid() && (forall l :: l in upper ==> AllValid(l)) && (forall l :: l in lower ==> AllValid(l))
      requires top == FieldBytes(upper) && bottom == FieldBytes(lower)
      modifies `nibblePos, bitmap.bitmap, bitmap`dirty, bitmap`changed
      ensures bitmap.Valid() && Shown(bitmap).Keys == old(Shown(bitmap).Keys)
      ensures forall q :: q in Shown(bitmap) ==>
        Shows(old(Shown(bitmap)), Shown(bitmap), upper, if lower == [] then upper else lower, At(), q)
    {
      hide Shown, Bitmap.Valid, PaintAll, AllColors, StrokesAt, FieldBytes, AllValid, Shows;
      ghost var m, below := Shown(bitmap), if lower == [] then upper else lower;
      NoLines(lower);
      DecodePixels(top, bottom);
      forall q | q in m
        ensures Shows(m, Shown(bitmap), upper, below, At(), q)
      {
        ShowsObject(m, Shown(bitmap), upper, below, At(), q);
      }
    }
  }

  /** Pixel q of a region that showed before shows the encoded object where it has a colour that is not kept back. */
  ghost predicate Shows(before: Picture, after: Picture, upper: seq<seq<Symbol>>, lower: seq<seq<Symbol>>, at: Place, q: (int, int))
    requires q in before && q in after
  {
    after[q] as nat == match FieldColor(lower, 1, at, q)
      case Some(c) => c
      case None => match FieldColor(upper, 0, at, q) case Some(c) => c case None => before[q] as nat
  }

  lemma ShowsObject(m: Picture, r: Picture, upper: seq<seq<Symbol>>, lower: seq<seq<Symbol>>, at: Place, q: (int, int))
    requires q in m && q in r && (forall l :: l in upper ==> AllValid(l)) && (forall l :: l in lower ==> AllValid(l))
    requires AllColors(StrokesAt(FieldBytes(upper), 0, 0, 0)) && AllColors(StrokesAt(FieldBytes(lower), 0, 0, 1))
    requires r == PaintAll(PaintAll(m, StrokesAt(FieldBytes(upper), 0, 0, 0), at), StrokesAt(FieldBytes(lower), 0, 0, 1), at)
    ensures Shows(m, r, upper, lower, at, q)
  {
    hide PaintAll, StrokesAt, FieldBytes, AllColors, FieldColor, AllValid;
    ObjectRebuilt(m, upper, lower, at, q);
  }

  lemma NoLines(lines: seq<seq<Symbol>>)
    requires forall l :: l in lines ==> AllValid(l)
    ensures FieldBytes(lines) == [] <==> lines == []
  {
    hide AllValid;
  }

  lemma AllColored(data: seq<byte>, index: nat, x: nat, y: nat)
    ensures AllColors(StrokesAt(data, index, x, y))
  {
    hide StrokesAt;
    StrokeColors(data, index, x, y);
  }

  /** What one step through a block leaves to be painted. */
  lemma BlockStep(m: Picture, data: seq<byte>, index: nat, x: nat, y: nat, at: Place)
    requires index < |data| && AllColors(StrokesAt(data, index, x, y))
    ensures var kind := KindOf(data[index], index + 1);
      if kind.Some? then
        var r := StringBehind(kind.value, data, index);
        var rest := StrokesAt(data, r.1, x + |r.0|, y);
        && AllColors(rest) && Colors(r.0)
        && PaintAll(m, StrokesAt(data, index, x, y), at) == PaintAll(Paint(m, Stroke(x, y, r.0), at), rest, at)
      else
        StrokesAt(data, index, x, y) ==
          if data[index] == 0xf0 then StrokesAt(data, index + 1, 0, y + 2) else StrokesAt(data, index + 1 + Skipped(data[index]), x, y)
  {
    hide StringBehind, Paint;
    var kind := KindOf(data[index], index + 1);
    if kind.Some? {
      var r := StringBehind(kind.value, data, index);
      assert StrokesAt(data, index, x, y)[1..] == StrokesAt(data, r.1, x + |r.0|, y);
    }
  }

  lemma NothingLeft(m: Picture, data: seq<byte>, index: nat, x: nat, y: nat, at: Place)
    requires index >= |data|
    ensures StrokesAt(data, index, x, y) == [] && PaintAll(m, [], at) == m
  {
  }

  // ----- what an encoded object looks like

  /** The colour a line of an object gives column u, if any. */
  function ColorAt(pixels: seq<nat>, u: int, keep: bool): Option<nat> {
    if 0 <= u < |pixels| && !(keep && pixels[u] == 1) then Some(pixels[u]) else None
  }

  /** The colour a field gives a pixel of the region, if any; its lines are every other line of the object, from y on. */
  function FieldColor(lines: seq<seq<Symbol>>, y: nat, at: Place, q: (int, int)): Option<nat>
    decreases |lines|
  {
    if lines == [] then None
    else if q.1 == at.py + y then ColorAt(PixelsOf(lines[0]), q.0 - at.px, at.keep)
    else FieldColor(lines[1..], y + 2, at, q)
  }

  /** Line k of a field is line y + 2 * k of the object. */
  lemma {:induction false} FieldLine(lines: seq<seq<Symbol>>, y: nat, at: Place, q: (int, int), k: nat)
    requires k < |lines| && q.1 == at.py + y + 2 * k
    ensures FieldColor(lines, y, at, q) == ColorAt(PixelsOf(lines[k]), q.0 - at.px, at.keep)
    decreases k
  {
    hide PixelsOf, ColorAt;
    if k > 0 {
      FieldLine(lines[1..], y + 2, at, q, k - 1);
    }
  }

  lemma {:induction false} NotAbove(lines: seq<seq<Symbol>>, y: nat, at: Place, q: (int, int))
    requires q.1 < at.py + y
    ensures FieldColor(lines, y, at, q) == None
    decreases |lines|
  {
    hide PixelsOf, ColorAt;
    if lines != [] {
      NotAbove(lines[1..], y + 2, at, q);
    }
  }

  lemma {:induction false} PixelColors(symbols: seq<Symbol>)
    requires AllValid(symbols)
    ensures forall i :: 0 <= i < |PixelsOf(symbols)| ==> PixelsOf(symbols)[i] < 16
  {
    if symbols != [] {
      assert symbols[0] in symbols;
      PixelColors(symbols[1..]);
    }
  }

  lemma PaintAt(m: Picture, y: nat, pixels: seq<nat>, at: Place, q: (int, int))
    requires q in m && Colors(pixels)
    ensures var c := ColorAt(pixels, q.0 - at.px, at.keep);
      Paint(m, Stroke(0, y, pixels), at)[q] as nat == if q.1 == at.py + y && c.Some? then c.value else m[q] as nat
  {
  }

  /** Each line of a field is drawn where it belongs; pixels of other lines, beside the lines and kept ones stay. */
  lemma {:induction false} FieldDrawn(m: Picture, lines: seq<seq<Symbol>>, y: nat, at: Place, q: (int, int))
    requires q in m && forall l :: l in lines ==> AllValid(l)
    ensures AllColors(LineStrokes(lines, y))
    ensures PaintAll(m, LineStrokes(lines, y), at)[q] as nat
         == (match FieldColor(lines, y, at, q) case Some(c) => c case None => m[q] as nat)
    decreases |lines|
  {
    hide PixelsOf, AllValid, Paint, ColorAt;
    if lines != [] {
      PixelColors(lines[0]);
      PaintAt(m, y, PixelsOf(lines[0]), at, q);
      var stroke := Stroke(0, y, PixelsOf(lines[0]));
      assert LineStrokes(lines, y)[1..] == LineStrokes(lines[1..], y + 2);
      FieldDrawn(Paint(m, stroke, at), lines[1..], y + 2, at, q);
      if q.1 == at.py + y {
        NotAbove(lines[1..], y + 2, at, q);
      }
    }
  }

  /** An object encoded line by line is rebuilt: every pixel of the region shows the object's colour where it has one
      that is not kept back, and otherwise what it showed before. */
  lemma ObjectRebuilt(m: Picture, top: seq<seq<Symbol>>, bottom: seq<seq<Symbol>>, at: Place, q: (int, int))
    requires q in m && (forall l :: l in top ==> AllValid(l)) && (forall l :: l in bottom ==> AllValid(l))
    ensures AllColors(StrokesAt(FieldBytes(top), 0, 0, 0)) && AllColors(StrokesAt(FieldBytes(bottom), 0, 0, 1))
    ensures PaintAll(PaintAll(m, StrokesAt(FieldBytes(top), 0, 0, 0), at), StrokesAt(FieldBytes(bottom), 0, 0, 1), at)[q] as nat
         == (match FieldColor(bottom, 1, at, q)
             case Some(c) => c
             case None => match FieldColor(top, 0, at, q) case Some(c) => c case None => m[q] as nat)
  {
    hide PixelsOf, AllValid, StrokesAt, FieldBytes, PaintAll, FieldColor, LineStrokes;
    FieldBack([], top, 0);
    FieldBack([], bottom, 1);
    assert [] + FieldBytes(top) == FieldBytes(top) && [] + FieldBytes(bottom) == FieldBytes(bottom);
    FieldDrawn(m, top, 0, at, q);
    FieldDrawn(PaintAll(m, LineStrokes(top, 0), at), bottom, 1, at, q);
  }
}
