/** Packets X/28 and M/29 of lib/libtuxtxt/tuxtxt_common.h: 13 Hamming 24/18 triplets read through a bit reservoir. */
module ExtensionPackets {
  import opened Octets
  import opened BitStreams
  import opened Hamming2418

  /** The 18 low bits of a bit pattern as a number. */
  function NumberOf(w: bv32, n: nat): (v: nat)
    ensures v < Pow2(n)
  {
    if n == 0 then 0 else (if w & 1 == 1 then 1 else 0) + 2 * NumberOf(w >> 1, n - 1)
  }

  /** deh24: the 18 data bits, or a negative number for a triplet that cannot be corrected. */
  function Deh24(t: Triplet): (d: int)
    ensures -1 <= d < Pow2(18)
  {
    if Deh24Word(t) == 0xffff_ffff then -1 else NumberOf(Deh24Word(t), 18)
  }

  const ROW: nat := 42
  const TRIPLETS: nat := 13

  function TripletAt(row: seq<bv8>, at: nat): Triplet
    requires at + 3 <= |row|
  {
    Triplet(row[at], row[at + 1], row[at + 2])
  }

  /** deh24 on the three bytes at a position. */
  function DehAt(row: seq<bv8>, at: nat): (d: int)
    requires at + 3 <= |row|
    ensures -1 <= d < Pow2(18)
  {
    Deh24(TripletAt(row, at))
  }

  /** The decoded value of triplet i; the triplets start behind magazine, packet and designation code. */
  function Value(row: seq<bv8>, i: nat): (d: int)
    requires |row| == ROW && i < TRIPLETS
    ensures -1 <= d < Pow2(18)
  {
    DehAt(row, 3 + 3 * i)
  }

  predicate Readable(row: seq<bv8>, n: nat)
    requires |row| == ROW && n <= TRIPLETS
  {
    forall i :: 0 <= i < n ==> Value(row, i) >= 0
  }

  /** The bits of the first n triplets in a row. */
  function Stream(row: seq<bv8>, n: nat): (bits: seq<bool>)
    requires |row| == ROW && n <= TRIPLETS && Readable(row, n)
    ensures |bits| == 18 * n
  {
    if n == 0 then [] else Stream(row, n - 1) + ToBits(Value(row, n - 1), 18)
  }

  /** The number in n bits from position a on. */
  function Field(bits: seq<bool>, a: nat, n: nat): nat
    requires a + n <= |bits|
  {
    FromBits(bits[a..a + n])
  }

  /** tstExtData, as far as packets 28 and 29 fill it. */
  class ExtensionData {
    var received: bool
    var defaultCharset: nat
    var secondCharset: nat
    var leftPanel: bool
    var rightPanel: bool
    var panels25: bool
    var leftColumns: nat
    const bgr: array<nat>
    var screenColor: nat
    var rowColor: nat
    var blackSubstitution: bool
    var remapping: nat

    constructor ()
      ensures bgr.Length == 16 && fresh(bgr) && !received
    {
      received, leftPanel, rightPanel, panels25, blackSubstitution := false, false, false, false, false;
      defaultCharset, secondCharset, leftColumns, screenColor, rowColor, remapping := 0, 0, 0, 0, 0, 0;
      bgr := new nat[16](_ => 0);
    }

    /** The fields before the colours are those of the first 28 bits. */
    ghost predicate HeadIs(bits: seq<bool>)
      requires |bits| >= 36
      reads this
    {
      && defaultCharset == Field(bits, 7, 7)
      && secondCharset == Field(bits, 14, 7)
      && leftPanel == bits[21] && rightPanel == bits[22] && panels25 == bits[23]
      && leftColumns == Field(bits, 24, 4)
    }

    /** The first n colours, twelve bits each. */
    ghost predicate ColorsAre(bits: seq<bool>, n: nat)
      requires n <= bgr.Length && |bits| >= 28 + 12 * n
      reads this, bgr
    {
      forall k :: 0 <= k < n ==> bgr[k] == Field(bits, 28 + 12 * k, 12)
    }

    /** The fields behind the colours, in the last 14 bits. */
    ghost predicate TailIs(bits: seq<bool>)
      requires |bits| == 234
      reads this
    {
      && screenColor == Field(bits, 220, 5) && rowColor == Field(bits, 225, 5)
      && blackSubstitution == bits[230] && remapping == Field(bits, 231, 3)
    }
  }

  /** (v >> a) & (2^n - 1) is a field of the bits of v. */
  lemma FieldOf(v: nat, a: nat, n: nat, total: nat)
    requires a + n <= total
    ensures LowBits(ShiftRight(v, a), n) == Field(ToBits(v, total), a, n)
  {
    BitsOfShift(v, a, total - a);
    BitsPrefix(ShiftRight(v, a), n, total - a);
    FromToBits(ShiftRight(v, a), n);
    assert ToBits(v, total)[a..a + n] == ToBits(v, total)[a..][..n];
  }

  lemma BitOf(v: nat, a: nat, total: nat)
    requires a < total
    ensures (ShiftRight(v, a) % 2 == 1) == ToBits(v, total)[a]
  {
    BitsOfShift(v, a, total - a);
    assert ToBits(v, total)[a..][0] == ToBits(v, total)[a];
  }

  /** t2 | (d << b) in 32-bit signed arithmetic, for a reservoir t2 of b bits: a negative d makes it negative. */
  function Refill(t2: nat, d: int, b: nat): int
    requires d >= -1 && b < 12 && d < Pow2(18)
  {
    if d >= 0 then Bitwise(Or, 32, d * Pow2(b), t2) else t2 - Pow2(b)
  }

  lemma RefillBits(t2: nat, d: nat, b: nat)
    requires t2 < Pow2(b) && d < Pow2(18) && b < 12
    ensures Refill(t2, d, b) == d * Pow2(b) + t2 < Pow2(b + 18)
    ensures ToBits(d * Pow2(b) + t2, b + 18) == ToBits(t2, b) + ToBits(d, 18)
  {
    hide Pow2, Bitwise;
    SumBound(t2, b, d, 18);
    BitsOfSum(t2, b, d, 18);
    Pow2Monotone(b + 18, 32);
    OrIsSum(32, b, d, t2);
  }

  /** The reservoir holds the next bits of the stream, up to the last triplet fetched. */
  ghost predicate Holds(row: seq<bv8>, t2: int, bitsleft: nat, pos: nat, fetched: nat)
    requires |row| == ROW
  {
    && fetched <= TRIPLETS && Readable(row, fetched)
    && pos + bitsleft == 18 * fetched
    && 0 <= t2 < Pow2(bitsleft)
    && ToBits(t2, bitsleft) == Stream(row, fetched)[pos..]
  }

  lemma Fetch(row: seq<bv8>, t2: nat, bitsleft: nat, pos: nat, fetched: nat)
    requires |row| == ROW && Holds(row, t2, bitsleft, pos, fetched)
    requires fetched < TRIPLETS && bitsleft < 12 && Value(row, fetched) >= 0
    ensures Holds(row, Refill(t2, Value(row, fetched), bitsleft), bitsleft + 18, pos, fetched + 1)
  {
    hide Refill, Value, ToBits, Pow2;
    var d := Value(row, fetched);
    RefillBits(t2, d, bitsleft);
    assert Stream(row, fetched + 1) == Stream(row, fetched) + ToBits(d, 18);
    assert Stream(row, fetched + 1)[pos..] == Stream(row, fetched)[pos..] + ToBits(d, 18);
  }

  /** Taking n bits out: they are the next field of the stream. */
  lemma Take(row: seq<bv8>, t2: nat, bitsleft: nat, pos: nat, fetched: nat, n: nat)
    requires |row| == ROW && Holds(row, t2, bitsleft, pos, fetched) && n <= bitsleft
    ensures LowBits(t2, n) == Field(Stream(row, fetched), pos, n)
    ensures Holds(row, ShiftRight(t2, n), bitsleft - n, pos + n, fetched)
  {
    hide ToBits, Pow2, Stream, ShiftRight, Value;
    var bits := Stream(row, fetched);
    BitsPrefix(t2, n, bitsleft);
    FromToBits(t2, n);
    assert bits[pos..pos + n] == bits[pos..][..n];
    BitsOfShift(t2, n, bitsleft - n);
    ShiftBound(t2, n, bitsleft - n);
    assert bits[pos..][n..] == bits[pos + n..];
  }

  lemma FieldKept(row: seq<bv8>, fetched: nat, a: nat, n: nat)
    requires |row| == ROW && fetched < TRIPLETS && Readable(row, fetched + 1) && a + n <= 18 * fetched
    ensures Field(Stream(row, fetched + 1), a, n) == Field(Stream(row, fetched), a, n)
  {
    hide ToBits, Value;
    assert Stream(row, fetched + 1)[a..a + n] == Stream(row, fetched)[a..a + n];
  }

  lemma ColorsKept(row: seq<bv8>, fetched: nat, ext: ExtensionData, n: nat)
    requires |row| == ROW && fetched < TRIPLETS && Readable(row, fetched + 1) && n <= ext.bgr.Length
    requires 28 + 12 * n <= 18 * fetched && ext.ColorsAre(Stream(row, fetched), n)
    ensures ext.ColorsAre(Stream(row, fetched + 1), n)
  {
    hide Stream, Field, Value;
    forall k | 0 <= k < n
      ensures ext.bgr[k] == Field(Stream(row, fetched + 1), 28 + 12 * k, 12)
    {
      FieldKept(row, fetched, 28 + 12 * k, 12);
    }
  }

  /** bitsleft runs through 8, 14 and 2. */
  function BitsLeft(colorindex: nat): nat { match colorindex % 3 case 0 => 8 case 1 => 14 case _ => 2 }

  /** Where a colour round stands: the reservoir, and the colours so far. */
  ghost predicate AtColor(row: seq<bv8>, ext: ExtensionData, k: nat, t2: int, bitsleft: nat, p: nat)
    requires |row| == ROW && ext.bgr.Length == 16
    reads ext, ext.bgr
  {
    && k <= 16 && 9 <= p <= ROW && p % 3 == 0 && bitsleft == BitsLeft(k)
    && Holds(row, t2, bitsleft, 28 + 12 * k, p / 3 - 1)
    && ext.ColorsAre(Stream(row, p / 3 - 1), k)
  }

  /** The first half of a colour round: fetch a triplet when fewer than twelve bits are left. */
  method RefillWhenLow(row: seq<bv8>, ghost ext: ExtensionData, ghost colorindex: nat, t: nat, bits: nat, at: nat)
    returns (t2: int, bitsleft: nat, p: nat)
    requires |row| == ROW && ext.bgr.Length == 16 && colorindex < 16 && AtColor(row, ext, colorindex, t, bits, at)
    ensures t2 < 0 ==> !Readable(row, TRIPLETS)
    ensures t2 >= 0 ==>
      && 9 <= p <= ROW && p % 3 == 0 && bitsleft == (if bits < 12 then bits + 18 else bits)
      && Holds(row, t2, bitsleft, 28 + 12 * colorindex, p / 3 - 1)
      && ext.ColorsAre(Stream(row, p / 3 - 1), colorindex)
  {
    hide Value, Stream, Refill, Field, DehAt, Holds, LowBits, ShiftRight, Readable, ExtensionData.ColorsAre;
    t2, bitsleft, p := t, bits, at;
    ghost var pos, fetched := 28 + 12 * colorindex, p / 3 - 1;
    HoldsBounds(row, t2, bitsleft, pos, fetched);
    if bitsleft < 12 {
      var d := DehAt(row, p);
      ValueAt(row, fetched);
      t2 := Refill(t2, d, bitsleft);
      RefillSign(t, d, bits);
      if t2 < 0 {
        NotReadable(row, fetched);
        return;
      }
      Fetch(row, t, bits, pos, fetched);
      HoldsBounds(row, t2, bits + 18, pos, fetched + 1);
      ColorsKept(row, fetched, ext, colorindex);
      p := p + 3;
      bitsleft := bitsleft + 18;
    }
  }

  /** One round of the colour loop. */
  method NextColor(row: seq<bv8>, ext: ExtensionData, colorindex: nat, t: nat, bits: nat, at: nat)
    returns (t2: int, bitsleft: nat, p: nat)
    requires |row| == ROW && ext.bgr.Length == 16 && colorindex < 16 && AtColor(row, ext, colorindex, t, bits, at)
    modifies ext.bgr
    ensures if t2 >= 0 then AtColor(row, ext, colorindex + 1, t2, bitsleft, p) else !Readable(row, TRIPLETS)
  {
    hide Stream, Field, Holds, LowBits, ShiftRight, Readable;
    t2, bitsleft, p := RefillWhenLow(row, ext, colorindex, t, bits, at);
    if t2 >= 0 {
      ghost var pos, fetched := 28 + 12 * colorindex, p / 3 - 1;
      HoldsBounds(row, t2, bitsleft, pos, fetched);
      Take(row, t2, bitsleft, pos, fetched, 12);
      ext.bgr[colorindex] := LowBits(t2, 12);
      bitsleft := bitsleft - 12;
      t2 := ShiftRight(t2, 12);
    }
  }

  lemma HoldsBounds(row: seq<bv8>, t2: int, bitsleft: nat, pos: nat, fetched: nat)
    requires |row| == ROW && Holds(row, t2, bitsleft, pos, fetched)
    ensures t2 < Pow2(bitsleft) && fetched <= TRIPLETS && pos + bitsleft == 18 * fetched && Readable(row, fetched)
  {
  }

  lemma NotReadable(row: seq<bv8>, i: nat)
    requires |row| == ROW && i < TRIPLETS && Value(row, i) < 0
    ensures !Readable(row, TRIPLETS)
  {
  }

  lemma ValueAt(row: seq<bv8>, i: nat)
    requires |row| == ROW && i < TRIPLETS
    ensures Value(row, i) == DehAt(row, 3 * (i + 1))
  {
    hide DehAt;
  }

  lemma RefillSign(t2: nat, d: int, b: nat)
    requires t2 < Pow2(b) && -1 <= d < Pow2(18) && b < 12
    ensures Refill(t2, d, b) < 0 <==> d < 0
  {
  }

  /** Sixteen colours from the reservoir; the eleven colour triplets end with the row. Negative when a triplet is lost. */
  method ReadColors(row: seq<bv8>, ext: ExtensionData, first: nat) returns (t2: int)
    requires |row| == ROW && ext.bgr.Length == 16 && Holds(row, first, 8, 28, 2)
    modifies ext.bgr
    ensures t2 >= 0 <==> Readable(row, TRIPLETS)
    ensures t2 >= 0 ==> Holds(row, t2, 14, 220, TRIPLETS) && ext.ColorsAre(Stream(row, TRIPLETS), 16)
  {
    hide Value, Stream, Holds;
    t2 := first;
    var bitsleft, p := 8, 9;
    assert AtColor(row, ext, 0, t2, bitsleft, p);
    for colorindex := 0 to 16
      invariant t2 >= 0 && AtColor(row, ext, colorindex, t2, bitsleft, p)
    {
      t2, bitsleft, p := NextColor(row, ext, colorindex, t2, bitsleft, p);
      if t2 < 0 {
        return;
      }
      assert t2 >= 0;
    }
    assert bitsleft == 14;
    HoldsEnd(row, t2, p);
  }

  lemma HoldsEnd(row: seq<bv8>, t2: int, p: nat)
    requires |row| == ROW && 9 <= p <= ROW && p % 3 == 0 && Holds(row, t2, 14, 220, p / 3 - 1)
    ensures p == ROW && Readable(row, TRIPLETS)
  {
  }

  lemma {:induction false} StreamPrefix(row: seq<bv8>, m: nat, n: nat)
    requires |row| == ROW && m <= n <= TRIPLETS && Readable(row, n)
    ensures Readable(row, m) && Stream(row, m) == Stream(row, n)[..18 * m]
    decreases n
  {
    hide Value, ToBits;
    if m < n {
      StreamPrefix(row, m, n - 1);
      assert Stream(row, n)[..18 * (n - 1)] == Stream(row, n - 1);
    }
  }

  /** The first two triplets as bits. */
  lemma HeadBits(row: seq<bv8>)
    requires |row| == ROW && Readable(row, 2)
    ensures Stream(row, 2) == ToBits(Value(row, 0), 18) + ToBits(Value(row, 1), 18)
  {
    hide Value, ToBits;
    assert Stream(row, 1) == [] + ToBits(Value(row, 0), 18);
  }

  lemma HeadReservoir(row: seq<bv8>)
    requires |row| == ROW && Readable(row, 2)
    ensures Holds(row, ShiftRight(Value(row, 1), 10), 8, 28, 2)
  {
    hide Value, ToBits, ShiftRight, Pow2;
    var t2 := Value(row, 1);
    HeadBits(row);
    BitsOfShift(t2, 10, 8);
    ShiftBound(t2, 10, 8);
    assert Stream(row, 2)[28..] == ToBits(t2, 18)[10..];
  }

  /** A field inside the first or the second triplet. */
  lemma HeadField(row: seq<bv8>, i: nat, a: nat, n: nat)
    requires |row| == ROW && Readable(row, 2) && i < 2 && a + n <= 18
    ensures LowBits(ShiftRight(Value(row, i), a), n) == Field(Stream(row, 2), 18 * i + a, n)
    ensures a < 18 ==> (ShiftRight(Value(row, i), a) % 2 == 1) == Stream(row, 2)[18 * i + a]
  {
    hide Value, ToBits, ShiftRight, LowBits, Stream;
    var v := Value(row, i);
    HeadBits(row);
    FieldOf(v, a, n, 18);
    if a < 18 {
      BitOf(v, a, 18);
    }
    HalfOf(ToBits(Value(row, 0), 18), ToBits(Value(row, 1), 18), i, a, n);
  }

  lemma HalfOf(x: seq<bool>, y: seq<bool>, i: nat, a: nat, n: nat)
    requires |x| == |y| == 18 && i < 2 && a + n <= 18
    ensures (x + y)[18 * i + a..18 * i + a + n] == (if i == 0 then x else y)[a..a + n]
    ensures a < 18 ==> (x + y)[18 * i + a] == (if i == 0 then x else y)[a]
  {
  }

  lemma SmallPowers()
    ensures Pow2(3) == 8 && Pow2(4) == 16 && Pow2(7) == 128
  {
  }

  lemma NoShift(v: nat)
    ensures ShiftRight(v, 0) == v
  {
  }

  lemma StraddlingSum(low: nat, high: nat)
    requires low < 16 && high < 8
    ensures Bitwise(Or, 7, high * 16, low) == low + 16 * high
  {
    hide Pow2, Bitwise;
    SmallPowers();
    OrIsSum(7, 4, high, low);
  }

  /** The second character set straddles the first two triplets: four bits and three. */
  lemma StraddlingField(row: seq<bv8>)
    requires |row| == ROW && Readable(row, 2)
    ensures var low, high := LowBits(ShiftRight(Value(row, 0), 14), 4), LowBits(Value(row, 1), 3);
      Bitwise(Or, 7, high * 16, low) == Field(Stream(row, 2), 14, 7)
  {
    hide Value, Bitwise, LowBits, Stream, Pow2, FromBits, ShiftRight;
    var bits := Stream(row, 2);
    var low, high := LowBits(ShiftRight(Value(row, 0), 14), 4), LowBits(Value(row, 1), 3);
    HeadField(row, 0, 14, 4);
    HeadField(row, 1, 0, 3);
    assert ShiftRight(Value(row, 1), 0) == Value(row, 1) by { NoShift(Value(row, 1)); }
    assert bits[14..21] == bits[14..18] + bits[18..21];
    FromBitsAppend(bits[14..18], bits[18..21]);
    SmallPowers();
    StraddlingSum(low, high);
  }

  /** Inside a longer stream the head stays where it is. */
  lemma FieldInPrefix(row: seq<bv8>, a: nat, n: nat)
    requires |row| == ROW && Readable(row, TRIPLETS) && a + n <= 36
    ensures Readable(row, 2) && Field(Stream(row, TRIPLETS), a, n) == Field(Stream(row, 2), a, n)
    ensures a < 36 ==> Stream(row, TRIPLETS)[a] == Stream(row, 2)[a]
  {
    hide Stream, Readable;
    StreamPrefix(row, 2, TRIPLETS);
    assert Stream(row, TRIPLETS)[a..a + n] == Stream(row, 2)[a..a + n];
  }

  /** tuxtxt_decode_p2829 */
  method DecodeP2829(row: seq<bv8>, ptExtData: ExtensionData?) returns (ext: ExtensionData?)
    requires |row| == ROW && (ptExtData != null ==> ptExtData.bgr.Length == 16)
    modifies ptExtData, if ptExtData != null then {ptExtData.bgr} else {}
    ensures !Readable(row, 2) ==> ext == ptExtData && (ext != null ==> unchanged(ext) && unchanged(ext.bgr))
    ensures Readable(row, 2) ==> ext != null && (ptExtData != null ==> ext == ptExtData)
    ensures Readable(row, 2) ==> ext.bgr.Length == 16 && ext.received == Readable(row, TRIPLETS)
    ensures Readable(row, TRIPLETS) ==>
      && Readable(row, 2)
      && ext.HeadIs(Stream(row, TRIPLETS)) && ext.ColorsAre(Stream(row, TRIPLETS), 16) && ext.TailIs(Stream(row, TRIPLETS))
  {
    hide Stream, Value, DehAt, Field, Readable, ShiftRight, LowBits, Holds;
    AllReadable(row);
    var t1, t2 := DehAt(row, 3), DehAt(row, 6);
    ext := ptExtData;
    FirstTwo(row);
    if t1 < 0 || t2 < 0 {
      return;
    }
    if ext == null {
      ext := new ExtensionData();
    }
    ReadHead(row, ext, t1, t2);
    HeadReservoir(row);
    t2 := ReadColors(row, ext, ShiftRight(t2, 10));
    if t2 < 0 {
      ext.received := false;
      return;
    }
    ReadTail(row, ext, t2);
    HeadLifted(row, ext);
  }

  lemma AllReadable(row: seq<bv8>)
    requires |row| == ROW
    ensures Readable(row, TRIPLETS) ==> Readable(row, 2)
  {
  }

  lemma HeadLifted(row: seq<bv8>, ext: ExtensionData)
    requires |row| == ROW && Readable(row, TRIPLETS) && Readable(row, 2) && ext.HeadIs(Stream(row, 2))
    ensures ext.HeadIs(Stream(row, TRIPLETS))
  {
    hide Stream, Value, Field, Readable;
    FieldInPrefix(row, 7, 7);
    FieldInPrefix(row, 14, 7);
    FieldInPrefix(row, 21, 1);
    FieldInPrefix(row, 22, 1);
    FieldInPrefix(row, 23, 1);
    FieldInPrefix(row, 24, 4);
  }

  lemma FirstTwo(row: seq<bv8>)
    requires |row| == ROW
    ensures Value(row, 0) == DehAt(row, 3) && Value(row, 1) == DehAt(row, 6)
    ensures Readable(row, 2) <==> DehAt(row, 3) >= 0 && DehAt(row, 6) >= 0
  {
    hide DehAt;
  }

  method ReadHead(row: seq<bv8>, ext: ExtensionData, t1: nat, t2: nat)
    requires |row| == ROW && Readable(row, 2) && t1 == Value(row, 0) && t2 == Value(row, 1)
    modifies ext
    ensures ext.received && ext.HeadIs(Stream(row, 2))
  {
    hide Value, Stream, ShiftRight, LowBits, Field, Bitwise;
    ext.received := true;
    ext.defaultCharset := LowBits(ShiftRight(t1, 7), 7);
    ext.secondCharset := Bitwise(Or, 7, LowBits(t2, 3) * 16, LowBits(ShiftRight(t1, 14), 4));
    ext.leftPanel := ShiftRight(t2, 3) % 2 == 1;
    ext.rightPanel := ShiftRight(t2, 4) % 2 == 1;
    ext.panels25 := ShiftRight(t2, 5) % 2 == 1;
    ext.leftColumns := LowBits(ShiftRight(t2, 6), 4);
    HeadField(row, 0, 7, 7);
    StraddlingField(row);
    HeadField(row, 1, 3, 0);
    HeadField(row, 1, 4, 0);
    HeadField(row, 1, 5, 0);
    HeadField(row, 1, 6, 4);
  }

  /** The two colours behind the colour table; five bits are left to the caller in front of the last flags. */
  method ReadScreen(row: seq<bv8>, ext: ExtensionData, t: nat) returns (t2: nat)
    requires |row| == ROW && Holds(row, t, 14, 220, TRIPLETS)
    modifies ext`screenColor, ext`rowColor
    ensures ext.screenColor == Field(Stream(row, TRIPLETS), 220, 5) && ext.rowColor == Field(Stream(row, TRIPLETS), 225, 5)
    ensures Holds(row, t2, 9, 225, TRIPLETS)
  {
    hide Value, Stream, ShiftRight, LowBits, Field, ToBits, Pow2;
    ext.screenColor := LowBits(t, 5);
    Take(row, t, 14, 220, TRIPLETS, 5);
    t2 := ShiftRight(t, 5);
    ext.rowColor := LowBits(t2, 5);
    Take(row, t2, 9, 225, TRIPLETS, 5);
  }

  /** One bit of what the reservoir holds. */
  lemma TakeBit(row: seq<bv8>, t2: nat, bitsleft: nat, pos: nat, fetched: nat, n: nat)
    requires |row| == ROW && Holds(row, t2, bitsleft, pos, fetched) && n < bitsleft
    ensures (ShiftRight(t2, n) % 2 == 1) == Stream(row, fetched)[pos + n]
  {
    hide ToBits, Pow2, Stream, ShiftRight, Value;
    BitOf(t2, n, bitsleft);
    assert Stream(row, fetched)[pos..][n] == Stream(row, fetched)[pos + n];
  }

  method ReadTail(row: seq<bv8>, ext: ExtensionData, t: nat)
    requires |row| == ROW && Holds(row, t, 14, 220, TRIPLETS)
    modifies ext`screenColor, ext`rowColor, ext`blackSubstitution, ext`remapping
    ensures ext.TailIs(Stream(row, TRIPLETS))
  {
    hide Value, Stream, ShiftRight, LowBits, Field, ToBits, Pow2;
    var t2 := ReadScreen(row, ext, t);
    TakeBit(row, t2, 9, 225, TRIPLETS, 5);
    ext.blackSubstitution := ShiftRight(t2, 5) % 2 == 1;
    Take(row, t2, 9, 225, TRIPLETS, 6);
    t2 := ShiftRight(t2, 6);
    Take(row, t2, 3, 231, TRIPLETS, 3);
    ext.remapping := LowBits(t2, 3);
  }

  // ----- what is sent and what is received

  /** f is the triplet t with at most one bit wrong. */
  ghost predicate NearlyReceived(t: Triplet, f: Triplet) {
    f == t || exists w: Position :: IsBit(w.b) && f == Corrupt(t, w)
  }

  /** f is the triplet t with two bits wrong. */
  ghost predicate BadlyReceived(t: Triplet, f: Triplet) {
    exists w: Position, w': Position :: IsBit(w.b) && IsBit(w'.b) && w != w' && f == Corrupt(Corrupt(t, w), w')
  }

  lemma DataIsNoError(t: Triplet)
    ensures Data(t) != 0xffff_ffff
  {
  }

  lemma NearlyReceivedValue(t: Triplet, f: Triplet)
    requires IsCodeword(t) && NearlyReceived(t, f)
    ensures Deh24(f) == NumberOf(Data(t), 18)
  {
    hide IsCodeword, Data, Deh24Word, NumberOf, IsBit, Corrupt;
    if f == t {
      BitOne();
      OneErrorCorrected(t, InFirst(1));
    } else {
      var w: Position :| IsBit(w.b) && f == Corrupt(t, w);
      OneErrorCorrected(t, w);
    }
    DataIsNoError(t);
  }

  lemma BitOne()
    ensures IsBit(1)
  {
  }

  lemma BadlyReceivedValue(t: Triplet, f: Triplet)
    requires IsCodeword(t) && BadlyReceived(t, f)
    ensures Deh24(f) == -1
  {
    hide IsCodeword, Data, Deh24Word, NumberOf, IsBit, Corrupt;
    var w: Position, w': Position :| IsBit(w.b) && IsBit(w'.b) && w != w' && f == Corrupt(Corrupt(t, w), w');
    TwoErrorsReported(t, w, w');
  }

  /** The bits a sender puts into the triplets. */
  function SentBits(sent: seq<Triplet>): seq<bool> {
    if sent == [] then [] else SentBits(sent[..|sent| - 1]) + ToBits(NumberOf(Data(sent[|sent| - 1]), 18), 18)
  }

  /** With at most one bit wrong in each triplet the whole row is read as it was sent. */
  lemma {:induction false} RowCorrected(sent: seq<Triplet>, row: seq<bv8>)
    requires |row| == ROW && |sent| <= TRIPLETS
    requires forall i :: 0 <= i < |sent| ==> IsCodeword(sent[i]) && NearlyReceived(sent[i], TripletAt(row, 3 + 3 * i))
    ensures Readable(row, |sent|) && Stream(row, |sent|) == SentBits(sent)
  {
    hide IsCodeword, Data, NumberOf, NearlyReceived, Deh24, TripletAt, ToBits;
    if sent != [] {
      var n := |sent| - 1;
      RowCorrected(sent[..n], row);
      NearlyReceivedValue(sent[n], TripletAt(row, 3 + 3 * n));
    }
  }

  /** Two wrong bits in any one triplet make the row unreadable; from the third triplet on that clears the received flag. */
  lemma TripletLost(t: Triplet, row: seq<bv8>, i: nat)
    requires |row| == ROW && i < TRIPLETS && IsCodeword(t) && BadlyReceived(t, TripletAt(row, 3 + 3 * i))
    ensures !Readable(row, TRIPLETS)
  {
    hide IsCodeword, BadlyReceived, Deh24, TripletAt;
    BadlyReceivedValue(t, TripletAt(row, 3 + 3 * i));
    assert Value(row, i) < 0;
  }
}
