/** Bit fields of a byte buffer, most significant bit first: getbits of lib/libdvbsub/helpers.cpp and the time stamps it reads. */
module BitFields {
  import opened Collections
  import opened Octets
  import opened BitStreams

  /** The number some bits make, first bit on top. */
  function Number(bits: seq<bool>): (n: nat)
    ensures n < Pow2(|bits|)
  {
    if bits == [] then 0 else 2 * Number(bits[..|bits| - 1]) + if bits[|bits| - 1] then 1 else 0
  }

  /** The n low bits of a number. */
  function BitsOf(v: nat, n: nat): (bits: seq<bool>)
    ensures |bits| == n
    decreases n
  {
    if n == 0 then [] else BitsOf(v / 2, n - 1) + [v % 2 == 1]
  }

  function Bits(buf: seq<byte>): (bits: seq<bool>)
    ensures |bits| == 8 * |buf|
  {
    if buf == [] then [] else Bits(buf[..|buf| - 1]) + BitsOf(buf[|buf| - 1] as nat, 8)
  }

  lemma NumberLast(bits: seq<bool>, last: bool)
    ensures Number(bits + [last]) == 2 * Number(bits) + if last then 1 else 0
  {
    assert (bits + [last])[..|bits|] == bits;
  }

  lemma {:induction false} NumberConcat(a: seq<bool>, b: seq<bool>)
    ensures Number(a + b) == Number(a) * Pow2(|b|) + Number(b)
  {
    if b == [] {
      assert a + b == a;
    } else {
      hide Number, Pow2;
      var c, last := b[..|b| - 1], b[|b| - 1];
      assert a + b == (a + c) + [last] && b == c + [last];
      NumberLast(a + c, last);
      NumberLast(c, last);
      NumberConcat(a, c);
      TwiceTimes(Number(a), Pow2(|c|));
      Pow2Next(|c|);
    }
  }

  lemma Pow2Next(n: nat)
    ensures Pow2(n + 1) == 2 * Pow2(n)
  {
  }

  lemma TwiceTimes(x: nat, y: nat)
    ensures x * (2 * y) == 2 * (x * y)
  {
  }

  lemma {:induction false} NumberOfBits(v: nat, n: nat)
    requires v < Pow2(n)
    ensures Number(BitsOf(v, n)) == v
    decreases n
  {
    if n > 0 {
      NumberOfBits(v / 2, n - 1);
      assert BitsOf(v, n)[..n - 1] == BitsOf(v / 2, n - 1);
    }
  }

  lemma BitsLast(a: seq<byte>, last: byte)
    ensures Bits(a + [last]) == Bits(a) + BitsOf(last as nat, 8)
  {
    hide BitsOf;
    assert (a + [last])[..|a|] == a;
  }

  lemma {:induction false} BitsConcat(a: seq<byte>, b: seq<byte>)
    ensures Bits(a + b) == Bits(a) + Bits(b)
  {
    if b == [] {
      assert a + b == a;
    } else {
      hide Bits, BitsOf;
      var c, last := b[..|b| - 1], b[|b| - 1];
      assert a + b == (a + c) + [last] && b == c + [last];
      BitsLast(a + c, last);
      BitsLast(c, last);
      BitsConcat(a, c);
      Regroup(Bits(a), Bits(c), BitsOf(last as nat, 8));
    }
  }

  lemma ThreeParts<T>(s: seq<T>, i: nat, j: nat)
    requires i <= j <= |s|
    ensures s == s[..i] + s[i..j] + s[j..]
  {
    assert s[..i] + s[i..j] == s[..j];
    assert s == s[..j] + s[j..];
  }

  lemma Regroup<T>(x: seq<T>, y: seq<T>, z: seq<T>)
    ensures x + y + z == x + (y + z)
  {
  }

  /** Shifting right drops the last bits of a number, masking its first. */
  lemma MiddleBits(a: seq<bool>, b: seq<bool>, c: seq<bool>)
    ensures LowBits(ShiftRight(Number(a + b + c), |c|), |b|) == Number(b)
  {
    NumberConcat(a + b, c);
    ShiftIsQuotient(Number(a + b), |c|, Number(c));
    NumberConcat(a, b);
    LowIsRest(Number(a), |b|, Number(b));
  }

  lemma {:induction false} ShiftIsQuotient(q: nat, s: nat, r: nat)
    requires r < Pow2(s)
    ensures ShiftRight(q * Pow2(s) + r, s) == q
    decreases s
  {
    if s == 0 {
      assert q * Pow2(0) == q;
    } else {
      var y := q * Pow2(s - 1);
      Doubled(Pow2(s - 1), q);
      assert q * Pow2(s) == 2 * y;
      assert (2 * y + r) / 2 == y + r / 2;
      ShiftIsQuotient(q, s - 1, r / 2);
    }
  }

  lemma {:induction false} LowIsRest(q: nat, n: nat, r: nat)
    requires r < Pow2(n)
    ensures LowBits(q * Pow2(n) + r, n) == r
    decreases n
  {
    if n > 0 {
      var y := q * Pow2(n - 1);
      Doubled(Pow2(n - 1), q);
      assert q * Pow2(n) == 2 * y;
      assert (2 * y + r) / 2 == y + r / 2 && (2 * y + r) % 2 == r % 2;
      LowIsRest(q, n - 1, r / 2);
    }
  }

  // ----- getbits

  /** How many bytes getbits looks at. */
  function Reach(len: nat): nat { if len <= 8 then 2 else if len <= 16 then 3 else 4 }

  /** x << 8 | b in 32 bits */
  function OrByte(x: nat, b: byte): nat { Bitwise(Or, 32, x * 256, b as nat) }

  lemma OrByteIsNumber(w: seq<byte>, b: byte)
    requires |w| <= 3
    ensures OrByte(Number(Bits(w)), b) == Number(Bits(w + [b]))
  {
    var x := Number(Bits(w));
    SmallPowers();
    assert x < Pow2(24) by {
      Pow2Monotone(8 * |w|, 24);
    }
    hide Pow2;
    OrIsSum(32, 8, x, b as nat);
    BitsConcat(w, [b]);
    OneByte(b);
    NumberConcat(Bits(w), Bits([b]));
  }

  lemma SmallPowers()
    ensures Pow2(8) == 256 && Pow2(24) == 0x100_0000 && Pow2(32) == 0x1_0000_0000
  {
    Pow2Of32();
    assert Pow2(8) == 256;
    assert Pow2(32) == 2 * Pow2(31) == 4 * Pow2(30) == 8 * Pow2(29) == 16 * Pow2(28);
    assert Pow2(28) == 2 * Pow2(27) == 4 * Pow2(26) == 8 * Pow2(25) == 16 * Pow2(24);
  }

  lemma OneByte(b: byte)
    ensures Bits([b]) == BitsOf(b as nat, 8) && Number(Bits([b])) == b as nat
  {
    assert [b][..0] == [] && [] + BitsOf(b as nat, 8) == BitsOf(b as nat, 8);
    assert Pow2(8) == 256;
    NumberOfBits(b as nat, 8);
  }

  lemma Cut<T>(x: seq<T>, y: seq<T>, z: seq<T>)
    ensures (x + y + z)[|x|..|x| + |y|] == y
  {
  }

  /** The bits of a part of a buffer are a part of its bits. */
  lemma BitsWithin(buf: seq<byte>, a: nat, k: nat)
    requires a + k <= |buf|
    ensures Bits(buf)[8 * a..8 * (a + k)] == Bits(buf[a..a + k])
  {
    hide *;
    var before, part, behind := buf[..a], buf[a..a + k], buf[a + k..];
    assert buf == before + part + behind;
    Joined(before, part, behind);
    Cut(Bits(before), Bits(part), Bits(behind));
  }

  lemma Joined(x: seq<byte>, y: seq<byte>, z: seq<byte>)
    ensures Bits(x + y + z) == Bits(x) + Bits(y) + Bits(z)
  {
    BitsConcat(x, y);
    BitsConcat(x + y, z);
  }

  /** The bytes a field of len bits may lie in, as one number; left is what remains of len for the last of them. */
  method Gather(buf: seq<byte>, a: nat, len: nat) returns (retval: nat, left: nat)
    requires len <= 24 && a + Reach(len) <= |buf|
    ensures retval == Number(Bits(buf[a..a + Reach(len)]))
    ensures left <= 8 && left + 8 * Reach(len) == len + 16
  {
    hide Bits, Number, OrByte;
    left := len;
    FirstByte(buf[a]);
    retval := OrByte(buf[a] as nat, buf[a + 1]);
    OrByteIsNumber([buf[a]], buf[a + 1]);
    assert [buf[a]] + [buf[a + 1]] == buf[a..a + 2];
    if left > 8 {
      OrByteIsNumber(buf[a..a + 2], buf[a + 2]);
      assert buf[a..a + 2] + [buf[a + 2]] == buf[a..a + 3];
      retval := OrByte(retval, buf[a + 2]);
      left := left - 8;
    }
    if left > 8 {
      OrByteIsNumber(buf[a..a + 3], buf[a + 3]);
      assert buf[a..a + 3] + [buf[a + 3]] == buf[a..a + 4];
      retval := OrByte(retval, buf[a + 3]);
      left := left - 8;
    }
  }

  /** getbits, for fields of at most 24 bits: the bits from the offset on, as a number. */
  method GetBits(buf: seq<byte>, offset: nat, len: nat) returns (value: nat)
    requires len <= 24 && offset / 8 + Reach(len) <= |buf|
    ensures offset + len <= 8 * |buf| && value == Number(Bits(buf)[offset..offset + len])
  {
    hide Bits, Number, LowBits, ShiftRight;
    var retval, left := Gather(buf, offset / 8, len);
    FieldOfWindow(buf, offset / 8, Reach(len), offset % 8, len);
    value := LowBits(ShiftRight(retval, 8 - offset % 8 + (8 - left)), len);
  }

  lemma FirstByte(b: byte)
    ensures Number(Bits([b])) == b as nat
  {
    OneByte(b);
  }

  /** The field is what is left of a window when the bits behind it are shifted out and those before it are masked. */
  lemma FieldOfWindow(buf: seq<byte>, a: nat, k: nat, skip: nat, len: nat)
    requires a + k <= |buf| && skip + len <= 8 * k
    ensures 8 * a + skip + len <= 8 * |buf|
    ensures LowBits(ShiftRight(Number(Bits(buf[a..a + k])), 8 * k - skip - len), len)
         == Number(Bits(buf)[8 * a + skip..8 * a + skip + len])
  {
    hide Bits, Number;
    var bits := Bits(buf[a..a + k]);
    BitsWithin(buf, a, k);
    ThreeParts(bits, skip, skip + len);
    MiddleBits(bits[..skip], bits[skip..skip + len], bits[skip + len..]);
    SubSlice(Bits(buf), 8 * a, 8 * (a + k), skip, skip + len);
  }

  // ----- presentation time stamps

  /** The five bytes of a time stamp in ISO/IEC 13818-1 section 2.4.3.6: four bits of prefix, then 3, 15 and 15 bits with a
      marker bit behind each. */
  predicate StampBits(bits: seq<bool>, pts: nat) {
    |bits| == 40 && pts < Pow2(33)
    && var p := BitsOf(pts, 33); bits[4..7] == p[..3] && bits[8..23] == p[3..18] && bits[24..39] == p[18..]
  }

  /** Three fields put together with shifts and or. */
  method ReadStamp(packet: seq<byte>) returns (pts: nat)
    requires |packet| >= 15
    ensures forall sent: nat :: StampBits(Bits(packet)[72..112], sent) ==> pts == sent
  {
    hide Bits, Number, BitsOf, Bitwise, Pow2;
    var high := GetBits(packet, 9 * 8 + 4, 3);
    var middle := GetBits(packet, 10 * 8, 15);
    var low := GetBits(packet, 12 * 8, 15);
    ghost var bits := Bits(packet);
    SubSlice(bits, 72, 112, 4, 7);
    SubSlice(bits, 72, 112, 8, 23);
    SubSlice(bits, 72, 112, 24, 39);
    OrOfParts(bits[76..79], bits[80..95], bits[96..111]);
    pts := Bitwise(Or, 64, Bitwise(Or, 64, high * 0x4000_0000, middle * 0x8000), low);
    forall sent: nat | StampBits(bits[72..112], sent)
      ensures pts == sent
    {
      var p := BitsOf(sent, 33);
      assert p[..3] + p[3..18] + p[18..] == p;
      NumberOfBits(sent, 33);
    }
  }

  lemma TwoBits(bits: seq<bool>)
    requires |bits| == 2
    ensures Number(bits) == (if bits[0] then 2 else 0) + if bits[1] then 1 else 0
  {
    assert bits[..1][..0] == [];
    assert Number(bits[..1]) == if bits[0] then 1 else 0;
  }

  /** The time stamp of a packet, or zero if its flags say that it has none. */
  method ReadTime(packet: seq<byte>) returns (pts: nat)
    requires |packet| >= 9 && (Bits(packet)[56] ==> |packet| >= 15)
    ensures !Bits(packet)[56] ==> pts == 0
    ensures Bits(packet)[56] ==> forall sent: nat :: StampBits(Bits(packet)[72..112], sent) ==> pts == sent
  {
    hide Bits, Number;
    var flag := GetBits(packet, 7 * 8, 2);
    TwoBits(Bits(packet)[56..58]);
    if flag == 2 || flag == 3 {
      pts := ReadStamp(packet);
    } else {
      pts := 0;
    }
  }

  lemma OrOfParts(a: seq<bool>, b: seq<bool>, c: seq<bool>)
    requires |a| == 3 && |b| == 15 && |c| == 15
    ensures Bitwise(Or, 64, Bitwise(Or, 64, Number(a) * 0x4000_0000, Number(b) * 0x8000), Number(c)) == Number(a + b + c)
  {
    hide Number, Bitwise, Pow2;
    var x, y, z := Number(a), Number(b), Number(c);
    StampPowers();
    assert x < 8 && y < 0x8000 && z < 0x8000;
    OrIsSum(64, 30, x, y * 0x8000);
    assert x * 0x4000_0000 + y * 0x8000 == (x * 0x8000 + y) * 0x8000;
    OrIsSum(64, 15, x * 0x8000 + y, z);
    NumberConcat(a, b);
    NumberConcat(a + b, c);
  }

  lemma StampPowers()
    ensures Pow2(3) == 8 && Pow2(15) == 0x8000 && Pow2(30) == 0x4000_0000 && Pow2(64) == TWO32 * TWO32
  {
    Pow2Of32();
    assert Pow2(32) == 2 * Pow2(31) == 4 * Pow2(30);
    assert Pow2(3) == 8 && Pow2(8) == 256;
    assert Pow2(12) == 2 * Pow2(11) == 4 * Pow2(10) == 8 * Pow2(9) == 16 * Pow2(8);
    assert Pow2(15) == 2 * Pow2(14) == 4 * Pow2(13) == 8 * Pow2(12);
    Pow2Sum(32, 32);
  }

  lemma {:induction false} Pow2Sum(m: nat, n: nat)
    ensures Pow2(m + n) == Pow2(m) * Pow2(n)
  {
    if m > 0 {
      Pow2Sum(m - 1, n);
      TwiceTimes(Pow2(n), Pow2(m - 1));
    }
  }
}
