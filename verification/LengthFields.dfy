/** The three length field codecs: lib/connection/messagetools.cpp, lib/libazbox/dvbci_session.cpp and lib/libazbox/dvb-ci.cpp. */
module LengthFields {
  import opened Collections
  import opened Octets

  /** A length and how many bytes it was written in. */
  datatype Field = Field(length: nat, size: nat)

  /** How many bytes v takes. */
  function Width(v: nat): (n: nat)
    ensures n >= 1
  {
    if v < 256 then 1 else 1 + Width(v / 256)
  }

  /** v in n bytes, most significant first. */
  function BigEndian(n: nat, v: nat): (s: seq<byte>)
    ensures |s| == n
  {
    if n == 0 then [] else BigEndian(n - 1, v / 256) + [(v % 256) as byte]
  }

  function Value(s: seq<byte>): nat {
    if s == [] then 0 else Value(s[..|s| - 1]) * 256 + s[|s| - 1] as nat
  }

  /** EN 50221 section 7.1: one byte below 128, else a count and that many bytes. */
  function Encoded(v: nat): (s: seq<byte>)
    requires v < 0x100_0000
  {
    if v < 128 then [v as byte]
    else
      WidthBound(v, 3);
      [(128 + Width(v)) as byte] + BigEndian(Width(v), v)
  }

  lemma {:induction false} WidthBound(v: nat, n: nat)
    requires n >= 1 && v < Power256(n)
    ensures Width(v) <= n
  {
    if v >= 256 {
      WidthBound(v / 256, n - 1);
    }
  }

  function Power256(n: nat): (p: nat)
    ensures p >= 1
  {
    if n == 0 then 1 else 256 * Power256(n - 1)
  }

  lemma {:induction false} WidthFits(v: nat)
    ensures v < Power256(Width(v))
  {
    if v >= 256 {
      WidthFits(v / 256);
    }
  }

  lemma {:induction false} ValueOfBigEndian(n: nat, v: nat)
    requires v < Power256(n)
    ensures Value(BigEndian(n, v)) == v
  {
    if n > 0 {
      ValueOfBigEndian(n - 1, v / 256);
    }
  }

  // ----- lib/connection/messagetools.cpp

  /** v >> 8 * k */
  function Byte(v: nat, k: nat): nat {
    if k == 0 then v else Byte(v / 256, k - 1)
  }

  lemma {:induction false} ShiftOfBytes(v: nat, k: nat)
    ensures ShiftRight(v, 8 * k) == Byte(v, k)
  {
    if k > 0 {
      EightShifts(v, 8 * (k - 1));
      ShiftOfBytes(v / 256, k - 1);
    }
  }

  lemma TwoShifts(v: nat, s: nat)
    ensures ShiftRight(v, s + 2) == ShiftRight(v / 4, s)
  {
    assert ShiftRight(v, s + 2) == ShiftRight(v / 2, s + 1) == ShiftRight(v / 2 / 2, s);
  }

  lemma EightShifts(v: nat, s: nat)
    ensures ShiftRight(v, s + 8) == ShiftRight(v / 256, s)
  {
    hide ShiftRight;
    TwoShifts(v, s + 6);
    TwoShifts(v / 4, s + 4);
    TwoShifts(v / 4 / 4, s + 2);
    TwoShifts(v / 4 / 4 / 4, s);
    assert v / 4 / 4 / 4 / 4 == v / 256;
  }

  lemma {:induction false} BigEndianAt(n: nat, v: nat, i: nat)
    requires i < n
    ensures BigEndian(n, v)[i] as nat == Byte(v, n - 1 - i) % 256
  {
    if i < n - 1 {
      BigEndianAt(n - 1, v / 256, i);
    }
  }

  lemma {:induction false} WidthByBytes(v: nat, n: nat)
    requires n >= 1 && Byte(v, n) == 0 && (n == 1 || Byte(v, n - 1) != 0)
    ensures Width(v) == n
  {
    if n > 1 {
      if v < 256 {
        ByteOfZero(n - 2);
      } else {
        WidthByBytes(v / 256, n - 1);
      }
    }
  }

  lemma {:induction false} ByteOfZero(k: nat)
    ensures Byte(0, k) == 0
  {
    if k > 0 {
      ByteOfZero(k - 1);
    }
  }

  method WriteLengthField(buffer: array<byte>, length: nat) returns (pos: nat)
    requires length < 0x100_0000 && buffer.Length >= |Encoded(length)|
    modifies buffer
    ensures pos == |Encoded(length)|
    ensures buffer[..] == Encoded(length) + old(buffer[pos..])
  {
    hide BigEndian, ShiftRight, Width;
    if length < 128 {
      buffer[0] := length as byte;
      return 1;
    }
    var size := LengthFieldSize(length);
    ghost var rest, bytes := buffer[1 + size..], BigEndian(size, length);
    buffer[0] := (128 + size) as byte;
    pos := 1;
    var shiftby := 8 * size;
    while shiftby != 0
      invariant 0 <= shiftby && shiftby == 8 * (size + 1 - pos) && 1 <= pos <= size + 1
      invariant buffer[0] == (128 + size) as byte
      invariant forall i :: 1 <= i < pos ==> buffer[i] == bytes[i - 1]
      invariant buffer[1 + size..] == rest
    {
      shiftby := shiftby - 8;
      ByteToWrite(length, size, pos);
      buffer[pos] := (ShiftRight(length, shiftby) % 256) as byte;
      pos := pos + 1;
    }
    assert buffer[1..1 + size] == bytes;
    assert buffer[..] == [buffer[0]] + buffer[1..1 + size] + buffer[1 + size..];
  }

  lemma ByteToWrite(v: nat, size: nat, pos: nat)
    requires 1 <= pos <= size
    ensures |BigEndian(size, v)| == size && (ShiftRight(v, 8 * (size - pos)) % 256) as byte == BigEndian(size, v)[pos - 1]
  {
    hide ShiftRight;
    ShiftOfBytes(v, size - pos);
    BigEndianAt(size, v, pos - 1);
  }

  lemma ThreeBytes(v: nat)
    requires v < 0x100_0000
    ensures Byte(v, 3) == 0
  {
    assert Byte(v, 3) == Byte(v / 256, 2) == Byte(v / 256 / 256, 1) == Byte(v / 256 / 256 / 256, 0);
  }

  /** The first loop of the writer: how many bytes the length takes. */
  method LengthFieldSize(length: nat) returns (size: nat)
    requires length < 0x100_0000
    ensures size == Width(length) <= 3
  {
    size := 1;
    var shiftby := 8;
    ShiftOfBytes(length, 1);
    while ShiftRight(length, shiftby) != 0
      invariant 1 <= size <= 3 && shiftby == 8 * size
      invariant ShiftRight(length, shiftby) == Byte(length, size)
      invariant size == 1 || Byte(length, size - 1) != 0
      decreases 3 - size
    {
      ThreeBytes(length);
      size := size + 1;
      shiftby := shiftby + 8;
      ShiftOfBytes(length, size);
    }
    WidthByBytes(length, size);
  }

  /** The bytes of a length: (value << 8 | byte) in 32 bits, once for each byte. */
  method ReadBytes(buffer: seq<byte>, n: nat) returns (value: nat)
    requires n < |buffer|
    ensures value == Value(buffer[1..1 + n]) % TWO32
  {
    value := 0;
    var i := 0;
    while i < n
      invariant 0 <= i <= n
      invariant value == Value(buffer[1..1 + i]) % TWO32
    {
      assert buffer[1..1 + i + 1][..i] == buffer[1..1 + i];
      NextByte(Value(buffer[1..1 + i]), buffer[i + 1] as nat);
      value := value * 256 % TWO32 + buffer[i + 1] as nat;
      i := i + 1;
    }
  }

  lemma NextByte(v: nat, b: nat)
    requires b < 256
    ensures (v % TWO32) * 256 % TWO32 + b == (v * 256 + b) % TWO32
  {
    var q, r := v / TWO32, v % TWO32;
    var k, l := r / 0x100_0000, r % 0x100_0000;
    assert r == k * 0x100_0000 + l && v == q * TWO32 + r;
    Remainder(r * 256, k, l * 256);
    Remainder(v * 256 + b, q * 256 + k, l * 256 + b);
  }

  lemma Remainder(x: nat, q: nat, r: nat)
    requires x == q * TWO32 + r && r < TWO32
    ensures x % TWO32 == r
  {
  }

  /** What a length field at the start of some bytes says, when all of it is there. */
  function Decoded(s: seq<byte>): (f: Option<Field>)
    ensures f.Some? ==> 1 <= f.value.size <= |s|
  {
    if s == [] then None
    else if s[0] < 128 then Some(Field(s[0] as nat, 1))
    else
      var n := s[0] as nat - 128;
      if n < |s| then Some(Field(Value(s[1..1 + n]) % TWO32, 1 + n)) else None
  }

  /** parse_length_field */
  method ParseLengthField(buffer: seq<byte>) returns (length: nat)
    requires Decoded(buffer).Some?
    ensures length == Decoded(buffer).value.length
  {
    if buffer[0] / 128 == 0 {
      length := (buffer[0] % 128) as nat;
    } else {
      length := ReadBytes(buffer, (buffer[0] % 128) as nat);
    }
  }

  lemma Widths(v: nat)
    requires v < 0x1_0000_0000
    ensures Width(v) == if v < 0x100 then 1 else if v < 0x1_0000 then 2 else if v < 0x100_0000 then 3 else 4
  {
    if v >= 0x1_0000 {
      assert Width(v) == 2 + Width(v / 256 / 256) && v / 256 / 256 == v / 0x1_0000;
    }
  }

  /** get_length_field_size: the size of the field that is written, up to four bytes of length. */
  function GetLengthFieldSize(length: nat): (n: nat)
    requires length < TWO32
    ensures length < 0x100_0000 ==> n == |Encoded(length)|
    ensures length >= 128 ==> n == 1 + Width(length)
  {
    Widths(length);
    if length < 0x80 then 0x01
    else if length < 0x100 then 0x02
    else if length < 0x1_0000 then 0x03
    else if length < 0x100_0000 then 0x04
    else 0x05
  }

  /** The reader gives back every length the writer can write, whatever follows the field. */
  lemma RoundTrip(length: nat, rest: seq<byte>)
    requires length < 0x100_0000
    ensures Decoded(Encoded(length) + rest) == Some(Field(length, |Encoded(length)|))
  {
    if length >= 128 {
      var n := Width(length);
      WidthBound(length, 3);
      WidthFits(length);
      ValueOfBigEndian(n, length);
      assert (Encoded(length) + rest)[1..1 + n] == BigEndian(n, length);
    }
  }

  // ----- lib/libazbox/dvbci_session.cpp

  /** buildLengthField: the bytes before the packet pointer, or None where the program gives up. */
  function Built(len: nat): (s: Option<seq<byte>>)
    ensures s.Some? <==> len < 65535
  {
    if len < 127 then Some([len as byte])
    else if len < 256 then Some([0x81, len as byte])
    else if len < 65535 then Some([0x82, (len / 256) as byte, (len % 256) as byte])
    else None
  }

  /** A 32-bit word as a signed number. */
  function Signed(v: nat): int {
    if v < 0x8000_0000 then v else v - TWO32
  }

  lemma SignedExactly(v: nat)
    requires v < TWO32
    ensures -0x8000_0000 <= Signed(v) < 0x8000_0000 && (Signed(v) - v) % TWO32 == 0
  {
  }

  /** parseLengthField; its length is signed. */
  method ParseLength(pkt: seq<byte>) returns (size: nat, len: int)
    requires Decoded(pkt).Some?
    ensures size == Decoded(pkt).value.size && len == Signed(Decoded(pkt).value.length)
  {
    if pkt[0] < 128 {
      len, size := pkt[0] as int, 1;
    } else {
      var word := ReadBytes(pkt, (pkt[0] % 128) as nat);
      len, size := Signed(word), (pkt[0] % 128) as nat + 1;
    }
  }

  /** The session layer reads back the lengths it builds, whatever follows the field. */
  lemma BuiltRoundTrip(len: nat, rest: seq<byte>)
    requires Built(len).Some?
    ensures Decoded(Built(len).value + rest) == Some(Field(len, |Built(len).value|))
  {
    ShortValues(Built(len).value + rest);
  }

  /** A length is written in as few bytes as can be, exactly unless it is 127. */
  lemma BuiltShortest(len: nat)
    requires len < 65535
    ensures |Built(len).value| == |Encoded(len)| <==> len != 127
  {
    Widths(len);
  }

  lemma ShortValues(s: seq<byte>)
    ensures |s| >= 2 ==> Value(s[1..2]) == s[1] as nat
    ensures |s| >= 3 ==> Value(s[1..3]) == s[1] as nat * 256 + s[2] as nat
  {
    if |s| >= 3 {
      assert s[1..3][..1] == s[1..2];
    }
    if |s| >= 2 {
      assert s[1..2][..0] == [];
    }
  }

  // ----- lib/libazbox/dvb-ci.cpp

  /** asn_1_decode */
  function AsnDecode(s: seq<byte>): (f: Option<Field>)
    ensures f.Some? ==> 1 <= f.value.size <= |s| && f.value.length < 65536
  {
    if |s| < 1 then None
    else if s[0] < 0x80 then Some(Field(s[0] as nat, 1))
    else if s[0] == 0x81 then
      if |s| < 2 then None else Some(Field(s[1] as nat, 2))
    else if s[0] == 0x82 then
      if |s| < 3 then None else Some(Field(s[1] as nat * 256 + s[2] as nat, 3))
    else None
  }

  /** The transport layer reads a length exactly as the other two do, when its field has at most three bytes, and rejects all else. */
  lemma DecodersAgree(s: seq<byte>)
    ensures AsnDecode(s) == if s != [] && s[0] != 0x80 && Decoded(s).Some? && Decoded(s).value.size <= 3 then Decoded(s) else None
  {
    ShortValues(s);
  }
}
