/** The pixel code strings of ETSI EN 300 743 section 7.2.5.2: what lib/libdvbsub/dvbsubtitle.cpp reads, what an encoder may
    write. */
module SubtitleStrings {
  import opened Collections
  import opened Octets

  // ----- bytes as half bytes

  function Unpack(data: seq<byte>): (ns: seq<nat>)
    ensures |ns| == 2 * |data| && forall i :: 0 <= i < |ns| ==> ns[i] < 16
  {
    if data == [] then [] else Unpack(data[..|data| - 1]) + [data[|data| - 1] as nat / 16, data[|data| - 1] as nat % 16]
  }

  lemma {:induction false} UnpackAt(data: seq<byte>, i: nat)
    requires i < |data|
    ensures Unpack(data)[2 * i] == data[i] as nat / 16 && Unpack(data)[2 * i + 1] == data[i] as nat % 16
  {
    if i < |data| - 1 {
      UnpackAt(data[..|data| - 1], i);
    }
  }

  lemma {:induction false} UnpackConcat(a: seq<byte>, b: seq<byte>)
    ensures Unpack(a + b) == Unpack(a) + Unpack(b)
  {
    if b == [] {
      assert a + b == a;
    } else {
      assert (a + b)[..|a + b| - 1] == a + b[..|b| - 1];
      UnpackConcat(a, b[..|b| - 1]);
    }
  }

  predicate Halves(ns: seq<nat>) {
    forall i :: 0 <= i < |ns| ==> ns[i] < 16
  }

  function Pack(ns: seq<nat>): (data: seq<byte>)
    requires |ns| % 2 == 0 && Halves(ns)
    ensures |data| == |ns| / 2
  {
    if ns == [] then [] else Pack(ns[..|ns| - 2]) + [(ns[|ns| - 2] * 16 + ns[|ns| - 1]) as byte]
  }

  lemma {:induction false} UnpackPack(ns: seq<nat>)
    requires |ns| % 2 == 0 && Halves(ns)
    ensures Unpack(Pack(ns)) == ns
  {
    if ns != [] {
      UnpackPack(ns[..|ns| - 2]);
      var d := Pack(ns);
      assert d[..|d| - 1] == Pack(ns[..|ns| - 2]);
      TwoHalves(ns[|ns| - 2], ns[|ns| - 1]);
      assert d[|d| - 1] as nat == ns[|ns| - 2] * 16 + ns[|ns| - 1];
    }
  }

  lemma TwoHalves(h: nat, l: nat)
    requires h < 16 && l < 16
    ensures (h * 16 + l) / 16 == h && (h * 16 + l) % 16 == l
  {
  }

  // ----- reading

  /** The strings by the size of a pixel; a 2-bit string knows where it starts, in units of two bits. */
  datatype Kind = Two(start: nat) | Four | Eight {
    /** What a string is read in: two bits, four bits or a byte. */
    function Units(data: seq<byte>): (ns: seq<nat>)
      ensures forall i :: 0 <= i < |ns| ==> ns[i] < 256
    {
      match this
      case Two(_) => Crumbs(data)
      case Four => Unpack(data)
      case Eight => seq(|data|, i requires 0 <= i < |data| => data[i] as nat)
    }

    /** The unit with which a byte starts. */
    function First(index: nat): nat {
      match this case Two(_) => 4 * index case Four => 2 * index case Eight => index
    }

    /** Reading goes on in front of this unit when there are n bytes. The last two bits of a byte leave a 2-bit string in it. */
    function Limit(n: nat): nat {
      match this case Two(_) => 4 * n + 1 case Four => 2 * n case Eight => n
    }

    /** The byte that is looked at behind a string; a 2-bit string that ends within a byte leaves that byte to be looked at. */
    function Behind(p: nat): nat {
      match this case Two(_) => p / 4 case Four => WholeBytes(p) case Eight => p
    }
  }

  /** The kind of string a byte announces, if any. */
  function KindOf(b: byte, index: nat): Option<Kind> {
    if b == 0x10 then Some(Two(4 * index)) else if b == 0x11 then Some(Four) else if b == 0x12 then Some(Eight) else None
  }

  function Crumbs(data: seq<byte>): (ns: seq<nat>)
    ensures |ns| == 4 * |data| && forall i :: 0 <= i < |ns| ==> ns[i] < 4
  {
    if data == [] then []
    else
      var b := data[|data| - 1] as nat;
      Crumbs(data[..|data| - 1]) + [b / 64, b / 16 % 4, b / 4 % 4, b % 4]
  }

  lemma {:induction false} CrumbsAt(data: seq<byte>, i: nat)
    requires i < |data|
    ensures var b, ns := data[i] as nat, Crumbs(data);
      ns[4 * i] == b / 64 && ns[4 * i + 1] == b / 16 % 4 && ns[4 * i + 2] == b / 4 % 4 && ns[4 * i + 3] == b % 4
  {
    if i < |data| - 1 {
      CrumbsAt(data[..|data| - 1], i);
    }
  }

  /** The unit at a position; behind the end there are zeros. */
  function At(ns: seq<nat>, p: nat): nat { if p < |ns| then ns[p] else 0 }

  /** What Get2Bits gives at a position: for the first two bits of every byte but the string's first, those of the byte in
      front of it. */
  function TwoBitsAt(ns: seq<nat>, start: nat, p: nat): nat
  {
    At(ns, if p % 4 == 0 && p >= start + 4 then p - 4 else p)
  }

  datatype Code = End | Run(color: nat, length: nat)

  /** The code at a position and the position behind it. */
  function CodeAt(kind: Kind, ns: seq<nat>, p: nat): (r: (Code, nat))
    ensures p < r.1 <= p + 8
  {
    match kind case Two(start) => CodeAt2(ns, start, p) case Four => CodeAt4(ns, p) case Eight => CodeAt8(ns, p)
  }

  function CodeAt2(ns: seq<nat>, start: nat, p: nat): (r: (Code, nat))
    ensures p < r.1 <= p + 8
  {
    var c0, c1 := TwoBitsAt(ns, start, p), TwoBitsAt(ns, start, p + 1);
    if c0 != 0 then (Run(c0, 1), p + 1)
    else if c1 >= 2 then (Run(TwoBitsAt(ns, start, p + 3), c1 % 2 * 4 + TwoBitsAt(ns, start, p + 2) + 3), p + 4)
    else if c1 == 1 then (Run(0, 1), p + 2)
    else LongCodeAt2(ns, start, p + 2)
  }

  /** The rest of a code that starts with four zeros. */
  function LongCodeAt2(ns: seq<nat>, start: nat, p: nat): (r: (Code, nat))
    ensures p < r.1 <= p + 6
  {
    var c0, c1, c2 := TwoBitsAt(ns, start, p), TwoBitsAt(ns, start, p + 1), TwoBitsAt(ns, start, p + 2);
    if c0 == 0 then (End, p + 1)
    else if c0 == 1 then (Run(0, 2), p + 1)
    else if c0 == 2 then (Run(TwoBitsAt(ns, start, p + 3), c1 * 4 + c2 + 12), p + 4)
    else
      var c3, c4 := TwoBitsAt(ns, start, p + 3), TwoBitsAt(ns, start, p + 4);
      (Run(TwoBitsAt(ns, start, p + 5), c1 * 64 + c2 * 16 + c3 * 4 + c4 + 29), p + 6)
  }

  function CodeAt4(ns: seq<nat>, p: nat): (r: (Code, nat))
    ensures p < r.1 <= p + 5
  {
    if At(ns, p) != 0 then (Run(At(ns, p), 1), p + 1)
    else
      var c := At(ns, p + 1);
      if c == 0 then (End, p + 2)
      else if c < 8 then (Run(0, c + 2), p + 2)
      else if c < 12 then (Run(At(ns, p + 2), c - 8 + 4), p + 3)
      else if c == 12 then (Run(0, 1), p + 2)
      else if c == 13 then (Run(0, 2), p + 2)
      else if c == 14 then (Run(At(ns, p + 3), At(ns, p + 2) + 9), p + 4)
      else (Run(At(ns, p + 4), At(ns, p + 2) * 16 + At(ns, p + 3) + 25), p + 5)
  }

  /** code & 0x63 */
  function And63(code: nat): nat { code % 4 + code / 32 % 4 * 32 }

  function CodeAt8(ns: seq<nat>, p: nat): (r: (Code, nat))
    ensures p < r.1 <= p + 3
  {
    if At(ns, p) != 0 then (Run(At(ns, p), 1), p + 1)
    else
      var c := At(ns, p + 1);
      if c >= 128 then (Run(At(ns, p + 2), And63(c)), p + 3)
      else if And63(c) == 0 then (End, p + 2)
      else (Run(0, And63(c)), p + 2)
  }

  function Repeat(color: nat, n: nat): (s: seq<nat>)
    ensures |s| == n
  {
    seq(n, _ => color)
  }

  /** The pixels of a string, up to its end code or the first code that reaches the limit. */
  function StringAt(kind: Kind, ns: seq<nat>, p: nat, limit: nat): (r: (seq<nat>, nat))
    ensures p < r.1
    decreases limit - p
  {
    var (code, next) := CodeAt(kind, ns, p);
    if code.End? then ([], next)
    else
      var pixels := Repeat(code.color, code.length);
      if next < limit then
        var r := StringAt(kind, ns, next, limit);
        (pixels + r.0, r.1)
      else (pixels, next)
  }

  /** The string behind the byte that announces it. */
  function StringBehind(kind: Kind, data: seq<byte>, index: nat): (r: (seq<nat>, nat))
    ensures r.1 >= index + 1
  {
    var r := StringAt(kind, kind.Units(data), kind.First(index + 1), kind.Limit(|data|));
    (r.0, kind.Behind(r.1))
  }

  /** Pixels drawn from one place on, in coordinates of the object. */
  datatype Stroke = Stroke(x: nat, y: nat, pixels: seq<nat>)

  function WholeBytes(p: nat): nat { (p + 1) / 2 }

  /** The bytes of a map table, which are skipped. */
  function Skipped(b: byte): nat { if b == 0x20 || b == 0x21 then 4 else if b == 0x22 then 16 else 0 }

  /** A field block from a byte on: its strings, its line ends, and the map tables that are skipped. */
  function StrokesAt(data: seq<byte>, index: nat, x: nat, y: nat): seq<Stroke>
    decreases |data| - index
  {
    if index >= |data| then []
    else
      var kind := KindOf(data[index], index + 1);
      if kind.Some? then
        var r := StringBehind(kind.value, data, index);
        [Stroke(x, y, r.0)] + StrokesAt(data, r.1, x + |r.0|, y)
      else if data[index] == 0xf0 then StrokesAt(data, index + 1, 0, y + 2)
      else StrokesAt(data, index + 1 + Skipped(data[index]), x, y)
  }

  /** Every pixel of a string is one of 256 colours. */
  lemma {:induction false} StringColors(kind: Kind, ns: seq<nat>, p: nat, limit: nat)
    requires forall i :: 0 <= i < |ns| ==> ns[i] < 256
    ensures forall i :: 0 <= i < |StringAt(kind, ns, p, limit).0| ==> StringAt(kind, ns, p, limit).0[i] < 256
    decreases limit - p
  {
    CodeColor(kind, ns, p);
    hide CodeAt;
    var next := CodeAt(kind, ns, p).1;
    if CodeAt(kind, ns, p).0.Run? && next < limit {
      StringColors(kind, ns, next, limit);
    }
  }

  lemma CodeColor(kind: Kind, ns: seq<nat>, p: nat)
    requires forall i :: 0 <= i < |ns| ==> ns[i] < 256
    ensures CodeAt(kind, ns, p).0.Run? ==> CodeAt(kind, ns, p).0.color < 256
  {
    hide And63;
  }

  lemma {:induction false} StrokeColors(data: seq<byte>, index: nat, x: nat, y: nat)
    ensures forall s :: s in StrokesAt(data, index, x, y) ==> forall i :: 0 <= i < |s.pixels| ==> s.pixels[i] < 256
    decreases |data| - index
  {
    hide StringAt, Kind.Units, Kind.First, Kind.Limit, Kind.Behind, KindOf;
    if index < |data| {
      var kind := KindOf(data[index], index + 1);
      if kind.Some? {
        var k := kind.value;
        StringColors(k, k.Units(data), k.First(index + 1), k.Limit(|data|));
        hide StringBehind;
        var r := StringBehind(k, data, index);
        StrokeColors(data, r.1, x + |r.0|, y);
      } else if data[index] == 0xf0 {
        StrokeColors(data, index + 1, 0, y + 2);
      } else {
        StrokeColors(data, index + 1 + Skipped(data[index]), x, y);
      }
    }
  }

  // ----- writing 4-bit strings

  /** The codes of the 4-bit strings of the standard. */
  datatype Symbol =
    | Pixel(c: nat)
    | Zeros(n: nat)
    | OneZero
    | TwoZeros
    | Short(n: nat, c: nat)
    | Medium(n: nat, c: nat)
    | Long(n: nat, c: nat)
  {
    predicate Valid() {
      match this
      case Pixel(c) => 1 <= c < 16
      case Zeros(n) => 3 <= n <= 9
      case OneZero => true
      case TwoZeros => true
      case Short(n, c) => 4 <= n <= 7 && c < 16
      case Medium(n, c) => 9 <= n <= 24 && c < 16
      case Long(n, c) => 25 <= n <= 280 && c < 16
    }

    /** The run it stands for. */
    function Pixels(): seq<nat> {
      match this
      case Pixel(c) => [c]
      case Zeros(n) => Repeat(0, n)
      case OneZero => [0]
      case TwoZeros => [0, 0]
      case Short(n, c) => Repeat(c, n)
      case Medium(n, c) => Repeat(c, n)
      case Long(n, c) => Repeat(c, n)
    }

    function Halves(): (ns: seq<nat>)
      requires Valid()
      ensures 1 <= |ns| <= 5 && forall i :: 0 <= i < |ns| ==> ns[i] < 16
    {
      match this
      case Pixel(c) => [c]
      case Zeros(n) => [0, n - 2]
      case OneZero => [0, 12]
      case TwoZeros => [0, 13]
      case Short(n, c) => [0, 8 + n - 4, c]
      case Medium(n, c) => [0, 14, n - 9, c]
      case Long(n, c) => [0, 15, (n - 25) / 16, (n - 25) % 16, c]
    }
  }

  predicate AllValid(symbols: seq<Symbol>) {
    forall s :: s in symbols ==> s.Valid()
  }

  function PixelsOf(symbols: seq<Symbol>): seq<nat> {
    if symbols == [] then [] else symbols[0].Pixels() + PixelsOf(symbols[1..])
  }

  /** The symbols, the end code, and half a byte to fill the last one. */
  function StringHalves(symbols: seq<Symbol>): (ns: seq<nat>)
    requires AllValid(symbols)
    ensures Halves(ns) && |ns| >= 2
  {
    if symbols == [] then [0, 0] else symbols[0].Halves() + StringHalves(symbols[1..])
  }

  function StringBytes(symbols: seq<Symbol>): seq<byte>
    requires AllValid(symbols)
  {
    Pack(PaddedHalves(symbols))
  }

  /** A line: a string of 4-bit pixels and a line end. */
  function LineBytes(symbols: seq<Symbol>): seq<byte>
    requires AllValid(symbols)
  {
    [0x11] + StringBytes(symbols) + [0xf0]
  }

  function FieldBytes(lines: seq<seq<Symbol>>): seq<byte>
    requires forall l :: l in lines ==> AllValid(l)
  {
    if lines == [] then [] else LineBytes(lines[0]) + FieldBytes(lines[1..])
  }

  /** One stroke for each line, every other line of the object. */
  function LineStrokes(lines: seq<seq<Symbol>>, y: nat): seq<Stroke> {
    if lines == [] then [] else [Stroke(0, y, PixelsOf(lines[0]))] + LineStrokes(lines[1..], y + 2)
  }

  // ----- reading what was written

  predicate Holds(ns: seq<nat>, p: nat, part: seq<nat>) {
    p + |part| <= |ns| && ns[p..p + |part|] == part
  }

  lemma HoldsAt(ns: seq<nat>, p: nat, part: seq<nat>, i: nat)
    requires Holds(ns, p, part) && i < |part|
    ensures At(ns, p + i) == part[i]
  {
    assert ns[p..p + |part|][i] == ns[p + i];
  }

  lemma SymbolBack(ns: seq<nat>, p: nat, s: Symbol)
    requires s.Valid() && Holds(ns, p, s.Halves())
    ensures CodeAt(Four, ns, p).0.Run? && CodeAt(Four, ns, p).1 == p + |s.Halves()|
    ensures Repeat(CodeAt(Four, ns, p).0.color, CodeAt(Four, ns, p).0.length) == s.Pixels()
  {
    var h := s.Halves();
    HoldsAt(ns, p, h, 0);
    if |h| > 1 {
      HoldsAt(ns, p, h, 1);
    }
    if |h| > 2 {
      HoldsAt(ns, p, h, 2);
    }
    if |h| > 3 {
      HoldsAt(ns, p, h, 3);
    }
    if |h| > 4 {
      HoldsAt(ns, p, h, 4);
    }
    hide Holds, At;
    match s
    case Pixel(c) =>
    case Zeros(n) =>
    case OneZero =>
    case TwoZeros =>
    case Short(n, c) =>
    case Medium(n, c) =>
    case Long(n, c) =>
  }

  lemma StringStep(kind: Kind, ns: seq<nat>, p: nat, limit: nat)
    ensures var (code, next) := CodeAt(kind, ns, p);
      && (code.End? ==> StringAt(kind, ns, p, limit) == ([], next))
      && (code.Run? && next < limit ==>
            var r := StringAt(kind, ns, next, limit); StringAt(kind, ns, p, limit) == (Repeat(code.color, code.length) + r.0, r.1))
      && (code.Run? && next >= limit ==> StringAt(kind, ns, p, limit) == (Repeat(code.color, code.length), next))
  {
    hide CodeAt, Repeat;
  }

  lemma {:induction false} StringBack(ns: seq<nat>, p: nat, limit: nat, symbols: seq<Symbol>)
    requires AllValid(symbols) && Holds(ns, p, StringHalves(symbols)) && p + |StringHalves(symbols)| <= limit
    ensures StringAt(Four, ns, p, limit) == (PixelsOf(symbols), p + |StringHalves(symbols)|)
    decreases |symbols|
  {
    hide CodeAt, Symbol.Halves, Symbol.Pixels, StringAt, Holds, Repeat;
    StringStep(Four, ns, p, limit);
    if symbols == [] {
      EndBack(ns, p);
    } else {
      var h, rest := symbols[0].Halves(), StringHalves(symbols[1..]);
      HoldsParts(ns, p, h, rest);
      SymbolBack(ns, p, symbols[0]);
      StringBack(ns, p + |h|, limit, symbols[1..]);
    }
  }

  lemma EndBack(ns: seq<nat>, p: nat)
    requires Holds(ns, p, [0, 0])
    ensures CodeAt(Four, ns, p) == (End, p + 2)
  {
    HoldsAt(ns, p, [0, 0], 0);
    HoldsAt(ns, p, [0, 0], 1);
  }

  lemma HoldsParts(ns: seq<nat>, p: nat, a: seq<nat>, b: seq<nat>)
    requires Holds(ns, p, a + b)
    ensures Holds(ns, p, a) && Holds(ns, p + |a|, b)
  {
    assert ns[p..p + |a|] == (a + b)[..|a|];
    assert ns[p + |a|..p + |a| + |b|] == (a + b)[|a|..];
  }

  function PaddedHalves(symbols: seq<Symbol>): (ns: seq<nat>)
    requires AllValid(symbols)
    ensures Halves(ns) && |ns| % 2 == 0 && StringHalves(symbols) <= ns && |ns| <= |StringHalves(symbols)| + 1
  {
    var ns := StringHalves(symbols);
    if |ns| % 2 == 0 then ns else ns + [0]
  }

  lemma Whole(a: nat, n: nat, m: nat)
    requires m % 2 == 0 && n <= m <= n + 1
    ensures WholeBytes(2 * a + n) == a + m / 2
  {
  }

  lemma Inside(a: seq<nat>, part: seq<nat>, padded: seq<nat>, b: seq<nat>)
    requires part <= padded
    ensures Holds(a + padded + b, |a|, part)
  {
    var all := a + padded + b;
    assert all[|a|..|a| + |part|] == padded[..|part|];
  }

  lemma StringUnpacked(symbols: seq<Symbol>)
    requires AllValid(symbols)
    ensures Unpack(StringBytes(symbols)) == PaddedHalves(symbols) && |StringBytes(symbols)| == |PaddedHalves(symbols)| / 2
  {
    hide Unpack, Pack;
    UnpackPack(PaddedHalves(symbols));
  }

  /** The half bytes of a string that lies somewhere in a block. */
  lemma StringHere(a: seq<byte>, symbols: seq<Symbol>, b: seq<byte>)
    requires AllValid(symbols)
    ensures Holds(Unpack(a + StringBytes(symbols) + b), 2 * |a|, StringHalves(symbols))
    ensures WholeBytes(2 * |a| + |StringHalves(symbols)|) == |a| + |StringBytes(symbols)|
  {
    hide *;
    var ns, half, bytes := PaddedHalves(symbols), StringHalves(symbols), StringBytes(symbols);
    StringUnpacked(symbols);
    UnpackConcat(a + bytes, b);
    UnpackConcat(a, bytes);
    Inside(Unpack(a), half, ns, Unpack(b));
    Whole(|a|, |half|, |ns|);
  }

  /** One step of reading a block. */
  lemma StepAt(data: seq<byte>, index: nat, x: nat, y: nat)
    requires index < |data|
    ensures data[index] == 0x11 ==>
      var r := StringAt(Four, Unpack(data), 2 * (index + 1), 2 * |data|);
      StrokesAt(data, index, x, y) == [Stroke(x, y, r.0)] + StrokesAt(data, WholeBytes(r.1), x + |r.0|, y)
    ensures data[index] == 0xf0 ==> StrokesAt(data, index, x, y) == StrokesAt(data, index + 1, 0, y + 2)
  {
    hide StringAt, Unpack;
  }

  /** One line of a block is read as its stroke, and reading goes on at the start of the next line. */
  lemma LineBack(a: seq<byte>, symbols: seq<Symbol>, b: seq<byte>, y: nat)
    requires AllValid(symbols)
    ensures StrokesAt(a + LineBytes(symbols) + b, |a|, 0, y)
         == [Stroke(0, y, PixelsOf(symbols))] + StrokesAt(a + LineBytes(symbols) + b, |a| + |LineBytes(symbols)|, 0, y + 2)
  {
    hide PixelsOf, StringAt, Unpack, Holds, StringHalves, StringBytes, StrokesAt, WholeBytes;
    var data, s := a + LineBytes(symbols) + b, StringBytes(symbols);
    assert data == (a + [0x11]) + s + ([0xf0] + b);
    StringHere(a + [0x11], symbols, [0xf0] + b);
    StringFits(Unpack(data), 2 * (|a| + 1), StringHalves(symbols));
    StringBack(Unpack(data), 2 * (|a| + 1), 2 * |data|, symbols);
    var next := |a| + 1 + |s|;
    assert data[|a|] == 0x11 && data[next] == 0xf0;
    StepAt(data, |a|, 0, y);
    StepAt(data, next, |PixelsOf(symbols)|, y);
  }

  lemma StringFits(ns: seq<nat>, p: nat, part: seq<nat>)
    requires Holds(ns, p, part)
    ensures p + |part| <= |ns|
  {
  }

  lemma BlockEnd(data: seq<byte>, index: nat, x: nat, y: nat)
    requires index >= |data|
    ensures StrokesAt(data, index, x, y) == []
  {
  }

  /** A field written line by line is read back stroke by stroke. */
  lemma {:induction false} FieldBack(a: seq<byte>, lines: seq<seq<Symbol>>, y: nat)
    requires forall l :: l in lines ==> AllValid(l)
    ensures StrokesAt(a + FieldBytes(lines), |a|, 0, y) == LineStrokes(lines, y)
    decreases |lines|
  {
    hide PixelsOf, LineBytes, StrokesAt, AllValid;
    if lines == [] {
      BlockEnd(a + [], |a|, 0, y);
    } else {
      var line, rest := LineBytes(lines[0]), FieldBytes(lines[1..]);
      LineBack(a, lines[0], rest, y);
      assert a + FieldBytes(lines) == a + line + rest;
      FieldBack(a + line, lines[1..], y + 2);
    }
  }

  // ----- 2-bit strings

  /** A string of n units is seen as it is exactly when the first two bits of each of its bytes are those of the byte before. */
  lemma TwoBitsExactly(ns: seq<nat>, start: nat, n: nat)
    requires start % 4 == 0 && start + n <= |ns|
    ensures (forall k :: start <= k < start + n ==> TwoBitsAt(ns, start, k) == ns[k])
      <==> forall k :: start + 4 <= k < start + n && k % 4 == 0 ==> ns[k] == ns[k - 4]
  {
    if forall k :: start <= k < start + n ==> TwoBitsAt(ns, start, k) == ns[k] {
      forall k | start + 4 <= k < start + n && k % 4 == 0
        ensures ns[k] == ns[k - 4]
      {
        assert TwoBitsAt(ns, start, k) == ns[k];
      }
    }
  }

  /** Four pixels of colour 1 and one of colour 2 are read as five of colour 1. */
  lemma FifthPixelWrong()
    ensures StringAt(Two(0), [1, 1, 1, 1, 2, 0, 0, 0], 0, 9).0 == [1, 1, 1, 1, 1]
  {
    var ns := [1, 1, 1, 1, 2, 0, 0, 0];
    assert StringAt(Two(0), ns, 5, 9) == ([], 8);
    assert Repeat(1, 1) == [1];
    assert StringAt(Two(0), ns, 4, 9).0 == [1];
    assert StringAt(Two(0), ns, 3, 9).0 == [1, 1];
    assert StringAt(Two(0), ns, 2, 9).0 == [1, 1, 1];
    assert StringAt(Two(0), ns, 1, 9).0 == [1, 1, 1, 1];
  }

  /** The codes of the 2-bit strings of the standard. */
  datatype Symbol2 = Pixel2(c: nat) | OneZero2 | TwoZeros2 | Short2(n: nat, c: nat) | Medium2(n: nat, c: nat) | Long2(n: nat, c: nat) {
    predicate Valid() {
      match this
      case Pixel2(c) => 1 <= c < 4
      case OneZero2 => true
      case TwoZeros2 => true
      case Short2(n, c) => 3 <= n <= 10 && c < 4
      case Medium2(n, c) => 12 <= n <= 27 && c < 4
      case Long2(n, c) => 29 <= n <= 284 && c < 4
    }

    function Pixels(): seq<nat> {
      match this
      case Pixel2(c) => [c]
      case OneZero2 => [0]
      case TwoZeros2 => [0, 0]
      case Short2(n, c) => Repeat(c, n)
      case Medium2(n, c) => Repeat(c, n)
      case Long2(n, c) => Repeat(c, n)
    }

    /** The pixel, or zeros, switches, and a run length less its least value, in units of two bits. */
    function Crumbs(): (ns: seq<nat>)
      requires Valid()
      ensures 1 <= |ns| <= 8
    {
      match this
      case Pixel2(c) => [c]
      case OneZero2 => [0, 1]
      case TwoZeros2 => [0, 0, 1]
      case Short2(n, c) => [0, 2 + (n - 3) / 4, (n - 3) % 4, c]
      case Medium2(n, c) => [0, 0, 2, (n - 12) / 4, (n - 12) % 4, c]
      case Long2(n, c) => [0, 0, 3, (n - 29) / 64, (n - 29) / 16 % 4, (n - 29) / 4 % 4, (n - 29) % 4, c]
    }
  }

  predicate AllValid2(symbols: seq<Symbol2>) { forall s :: s in symbols ==> s.Valid() }

  function PixelsOf2(symbols: seq<Symbol2>): seq<nat> {
    if symbols == [] then [] else symbols[0].Pixels() + PixelsOf2(symbols[1..])
  }

  function StringCrumbs(symbols: seq<Symbol2>): (ns: seq<nat>)
    requires AllValid2(symbols)
    ensures |ns| >= 3
  {
    if symbols == [] then [0, 0, 0] else symbols[0].Crumbs() + StringCrumbs(symbols[1..])
  }

  /** Units are seen at a position of a string. */
  ghost predicate Seen(ns: seq<nat>, start: nat, p: nat, part: seq<nat>) {
    forall k :: 0 <= k < |part| ==> TwoBitsAt(ns, start, p + k) == part[k]
  }

  lemma SeenParts(ns: seq<nat>, start: nat, p: nat, a: seq<nat>, b: seq<nat>)
    requires Seen(ns, start, p, a + b)
    ensures Seen(ns, start, p, a) && Seen(ns, start, p + |a|, b)
  {
    forall k | 0 <= k < |a|
      ensures TwoBitsAt(ns, start, p + k) == a[k]
    {
      assert (a + b)[k] == a[k];
    }
    forall k | 0 <= k < |b|
      ensures TwoBitsAt(ns, start, p + |a| + k) == b[k]
    {
      assert (a + b)[|a| + k] == b[k];
    }
  }

  lemma SeenAt(ns: seq<nat>, start: nat, p: nat, part: seq<nat>, k: nat)
    requires Seen(ns, start, p, part) && k < |part|
    ensures TwoBitsAt(ns, start, p + k) == part[k]
  {
  }

  lemma FourQuarters(n: nat)
    requires n < 256
    ensures n / 64 * 64 + n / 16 % 4 * 16 + n / 4 % 4 * 4 + n % 4 == n && n / 64 < 4
  {
    assert n / 4 / 4 == n / 16 && n / 16 / 4 == n / 64;
  }

  /** Each code, seen as it is, is read as its run. */
  lemma SymbolBack2(ns: seq<nat>, start: nat, p: nat, s: Symbol2)
    requires s.Valid() && Seen(ns, start, p, s.Crumbs())
    ensures CodeAt(Two(start), ns, p).0.Run? && CodeAt(Two(start), ns, p).1 == p + |s.Crumbs()|
    ensures Repeat(CodeAt(Two(start), ns, p).0.color, CodeAt(Two(start), ns, p).0.length) == s.Pixels()
  {
    hide Seen, TwoBitsAt;
    var c := s.Crumbs();
    SeenAt(ns, start, p, c, 0);
    if |c| > 1 {
      SeenAt(ns, start, p, c, 1);
    }
    if |c| > 2 {
      SeenAt(ns, start, p, c, 2);
    }
    if |c| > 3 {
      SeenAt(ns, start, p, c, 3);
    }
    if |c| > 4 {
      SeenAt(ns, start, p, c, 4);
      SeenAt(ns, start, p, c, 5);
    }
    match s
    case Pixel2(_) =>
    case OneZero2 =>
    case TwoZeros2 =>
    case Short2(n, _) =>
    case Medium2(n, _) =>
    case Long2(n, _) =>
      SeenAt(ns, start, p, c, 6);
      SeenAt(ns, start, p, c, 7);
      FourQuarters(n - 29);
  }

  lemma EndBack2(ns: seq<nat>, start: nat, p: nat)
    requires Seen(ns, start, p, [0, 0, 0])
    ensures CodeAt(Two(start), ns, p) == (End, p + 3)
  {
    hide TwoBitsAt;
    SeenAt(ns, start, p, [0, 0, 0], 0);
    SeenAt(ns, start, p, [0, 0, 0], 1);
    SeenAt(ns, start, p, [0, 0, 0], 2);
  }

  /** And so is a string of them. */
  lemma {:induction false} StringBack2(ns: seq<nat>, start: nat, p: nat, limit: nat, symbols: seq<Symbol2>)
    requires AllValid2(symbols) && Seen(ns, start, p, StringCrumbs(symbols)) && p + |StringCrumbs(symbols)| <= limit
    ensures StringAt(Two(start), ns, p, limit) == (PixelsOf2(symbols), p + |StringCrumbs(symbols)|)
    decreases |symbols|
  {
    hide CodeAt, Symbol2.Crumbs, Symbol2.Pixels, StringAt, Seen, Repeat, TwoBitsAt;
    StringStep(Two(start), ns, p, limit);
    if symbols == [] {
      EndBack2(ns, start, p);
    } else {
      var c, rest := symbols[0].Crumbs(), StringCrumbs(symbols[1..]);
      SeenParts(ns, start, p, c, rest);
      SymbolBack2(ns, start, p, symbols[0]);
      StringBack2(ns, start, p + |c|, limit, symbols[1..]);
    }
  }

  /** A stored string is read as its pixels if each of its bytes starts with the two bits of the one before it. */
  lemma AlikeStringBack(ns: seq<nat>, start: nat, limit: nat, symbols: seq<Symbol2>)
    requires AllValid2(symbols) && start % 4 == 0 && start + |StringCrumbs(symbols)| <= |ns| && |ns| <= limit
    requires ns[start..start + |StringCrumbs(symbols)|] == StringCrumbs(symbols)
    requires forall k :: start + 4 <= k < start + |StringCrumbs(symbols)| && k % 4 == 0 ==> ns[k] == ns[k - 4]
    ensures StringAt(Two(start), ns, start, limit).0 == PixelsOf2(symbols)
  {
    hide StringCrumbs, StringAt;
    var c := StringCrumbs(symbols);
    TwoBitsExactly(ns, start, |c|);
    forall k | 0 <= k < |c|
      ensures TwoBitsAt(ns, start, start + k) == c[k]
    {
      assert ns[start..start + |c|][k] == ns[start + k];
    }
    StringBack2(ns, start, start, limit, symbols);
  }

  // ----- map tables

  /** The bytes of the map tables in the standard: four entries of four bits, four of eight and sixteen of eight. */
  function TableBytes(b: byte): nat { if b == 0x20 then 2 else if b == 0x21 then 4 else if b == 0x22 then 16 else 0 }

  /** A map table is skipped; behind one from 2-bit to 4-bit pixels two bytes too many are. */
  lemma TableSkipped(data: seq<byte>, index: nat, x: nat, y: nat)
    requires index < |data| && data[index] in {0x20, 0x21, 0x22}
    ensures StrokesAt(data, index, x, y) == StrokesAt(data, index + 1 + TableBytes(data[index]) + (if data[index] == 0x20 then 2 else 0), x, y)
  {
  }

  // ----- 8-bit strings

  /** The codes of the 8-bit strings of the standard. */
  datatype Symbol8 = Pixel8(c: nat) | Zeros8(n: nat) | Run8(n: nat, c: nat) {
    predicate Valid() {
      match this
      case Pixel8(c) => 1 <= c < 256
      case Zeros8(n) => 1 <= n <= 127
      case Run8(n, c) => 3 <= n <= 127 && c < 256
    }

    function Pixels(): seq<nat> {
      match this
      case Pixel8(c) => [c]
      case Zeros8(n) => Repeat(0, n)
      case Run8(n, c) => Repeat(c, n)
    }

    function Octets(): (ns: seq<nat>)
      requires Valid()
      ensures 1 <= |ns| <= 3
    {
      match this
      case Pixel8(c) => [c]
      case Zeros8(n) => [0, n]
      case Run8(n, c) => [0, 128 + n, c]
    }

    /** Its length has none of the bits that are masked away. */
    predicate Kept() {
      match this
      case Pixel8(_) => true
      case Zeros8(n) => n / 4 % 8 == 0
      case Run8(n, _) => n / 4 % 8 == 0
    }
  }

  predicate AllValid8(symbols: seq<Symbol8>) { forall s :: s in symbols ==> s.Valid() }

  function PixelsOf8(symbols: seq<Symbol8>): seq<nat> {
    if symbols == [] then [] else symbols[0].Pixels() + PixelsOf8(symbols[1..])
  }

  function StringOctets(symbols: seq<Symbol8>): (ns: seq<nat>)
    requires AllValid8(symbols)
    ensures |ns| >= 2
  {
    if symbols == [] then [0, 0] else symbols[0].Octets() + StringOctets(symbols[1..])
  }

  lemma MaskedLength(n: nat)
    requires n < 128
    ensures And63(n) <= n && And63(128 + n) == And63(n) && (And63(n) == n <==> n / 4 % 8 == 0)
  {
  }

  /** A code is read as its run, cut short by the mask; a run of zeros of which nothing is left is an end code. */
  lemma SymbolBack8(ns: seq<nat>, p: nat, s: Symbol8)
    requires s.Valid() && Holds(ns, p, s.Octets())
    ensures var (code, next) := CodeAt(Eight, ns, p);
      && (s.Kept() ==> code.Run? && next == p + |s.Octets()| && Repeat(code.color, code.length) == s.Pixels())
      && (!s.Kept() && code.Run? ==> next == p + |s.Octets()| && code.length < |s.Pixels()|)
  {
    hide And63, Holds, At;
    var h := s.Octets();
    HoldsAt(ns, p, h, 0);
    if |h| > 1 {
      HoldsAt(ns, p, h, 1);
    }
    if |h| > 2 {
      HoldsAt(ns, p, h, 2);
    }
    match s
    case Pixel8(c) =>
    case Zeros8(n) =>
      MaskedLength(n);
    case Run8(n, c) =>
      MaskedLength(n);
  }

  lemma EndBack8(ns: seq<nat>, p: nat)
    requires Holds(ns, p, [0, 0])
    ensures CodeAt(Eight, ns, p) == (End, p + 2)
  {
    HoldsAt(ns, p, [0, 0], 0);
    HoldsAt(ns, p, [0, 0], 1);
  }

  /** A coded string is never read as more pixels than it has, and as its own exactly when every run length is kept. */
  lemma {:induction false} StringBack8(ns: seq<nat>, p: nat, limit: nat, symbols: seq<Symbol8>)
    requires AllValid8(symbols) && Holds(ns, p, StringOctets(symbols)) && p + |StringOctets(symbols)| <= limit
    ensures |StringAt(Eight, ns, p, limit).0| <= |PixelsOf8(symbols)|
    ensures StringAt(Eight, ns, p, limit).0 == PixelsOf8(symbols) <==> forall s :: s in symbols ==> s.Kept()
    decreases |symbols|
  {
    hide CodeAt, Symbol8.Octets, Symbol8.Pixels, Symbol8.Kept, StringAt, Holds, Repeat;
    StringStep(Eight, ns, p, limit);
    if symbols == [] {
      EndBack8(ns, p);
    } else {
      var s, h, rest := symbols[0], symbols[0].Octets(), StringOctets(symbols[1..]);
      HoldsParts(ns, p, h, rest);
      SymbolBack8(ns, p, s);
      SomePixels(s);
      assert symbols == [s] + symbols[1..];
      if CodeAt(Eight, ns, p).0.Run? {
        StringBack8(ns, p + |h|, limit, symbols[1..]);
        SameBehind(s.Pixels(), StringAt(Eight, ns, p + |h|, limit).0, PixelsOf8(symbols[1..]));
      }
    }
  }

  lemma SameBehind(a: seq<nat>, b: seq<nat>, c: seq<nat>)
    ensures a + b == a + c <==> b == c
  {
    assert (a + b)[|a|..] == b && (a + c)[|a|..] == c;
  }

  lemma SomePixels(s: Symbol8)
    requires s.Valid()
    ensures |s.Pixels()| >= 1
  {
  }
}
