/** The MD5 message digest as RFC 1321 defines it (sections 3.1 to 3.5): the
    reference that the incremental code of Md5.dfy is proved against. */
module Rfc1321 {
  import opened Octets

  datatype State = State(a: word, b: word, c: word, d: word)

  /** Section 3.3: the initial buffer. */
  const INITIAL := State(0x67452301, 0xefcdab89, 0x98badcfe, 0x10325476)

  /** Section 3.4: the four auxiliary functions. */
  function F(x: word, y: word, z: word): word {
    Bitwise32(Or, Bitwise32(And, x, y), Bitwise32(And, Not32(x), z))
  }

  function G(x: word, y: word, z: word): word {
    Bitwise32(Or, Bitwise32(And, x, z), Bitwise32(And, y, Not32(z)))
  }

  function H(x: word, y: word, z: word): word { Bitwise32(Xor, Bitwise32(Xor, x, y), z) }

  function I(x: word, y: word, z: word): word { Bitwise32(Xor, y, Bitwise32(Or, x, Not32(z))) }

  function Auxiliary(r: nat, x: word, y: word, z: word): word
    requires r < 4
  {
    match r
    case 0 => F(x, y, z)
    case 1 => G(x, y, z)
    case 2 => H(x, y, z)
    case _ => I(x, y, z)
  }

  /** Which of the sixteen words of the block operation i of round r uses. */
  function WordIndex(r: nat, i: nat): (k: nat)
    requires r < 4 && i < 16
    ensures k < 16
  {
    match r
    case 0 => i
    case 1 => (5 * i + 1) % 16
    case 2 => (3 * i + 5) % 16
    case _ => 7 * i % 16
  }

  /** Four parameters, one for each operation of a group. */
  datatype Four<T> = Four(p: T, q: T, r: T, s: T)

  /** The rotation amounts of round r, the same in each of its four groups. */
  function Shifts(r: nat): (f: Four<nat>)
    requires r < 4
    ensures 0 < f.p < 32 && 0 < f.q < 32 && 0 < f.r < 32 && 0 < f.s < 32
  {
    match r
    case 0 => Four(7, 12, 17, 22)
    case 1 => Four(5, 9, 14, 20)
    case 2 => Four(4, 11, 16, 23)
    case _ => Four(6, 10, 15, 21)
  }

  /** T[4 * g + 1] to T[4 * g + 4] of section 3.4: T[i] is the integer part of 4294967296 * abs(sin(i)), i in radians. */
  function Sines(g: nat): Four<word>
    requires g < 16
  {
    match g
    case 0 => Four(0xd76aa478, 0xe8c7b756, 0x242070db, 0xc1bdceee)
    case 1 => Four(0xf57c0faf, 0x4787c62a, 0xa8304613, 0xfd469501)
    case 2 => Four(0x698098d8, 0x8b44f7af, 0xffff5bb1, 0x895cd7be)
    case 3 => Four(0x6b901122, 0xfd987193, 0xa679438e, 0x49b40821)
    case 4 => Four(0xf61e2562, 0xc040b340, 0x265e5a51, 0xe9b6c7aa)
    case 5 => Four(0xd62f105d, 0x02441453, 0xd8a1e681, 0xe7d3fbc8)
    case 6 => Four(0x21e1cde6, 0xc33707d6, 0xf4d50d87, 0x455a14ed)
    case 7 => Four(0xa9e3e905, 0xfcefa3f8, 0x676f02d9, 0x8d2a4c8a)
    case 8 => Four(0xfffa3942, 0x8771f681, 0x6d9d6122, 0xfde5380c)
    case 9 => Four(0xa4beea44, 0x4bdecfa9, 0xf6bb4b60, 0xbebfbc70)
    case 10 => Four(0x289b7ec6, 0xeaa127fa, 0xd4ef3085, 0x04881d05)
    case 11 => Four(0xd9d4d039, 0xe6db99e5, 0x1fa27cf8, 0xc4ac5665)
    case 12 => Four(0xf4292244, 0x432aff97, 0xab9423a7, 0xfc93a039)
    case 13 => Four(0x655b59c3, 0x8f0ccc92, 0xffeff47d, 0x85845dd1)
    case 14 => Four(0x6fa87e4f, 0xfe2ce6e0, 0xa3014314, 0x4e0811a1)
    case _ => Four(0xf7537e82, 0xbd3af235, 0x2ad7d2bb, 0xeb86d391)
  }

  /** abs(sin(i + 1)) from abs(sin(i - 1)) and abs(sin(i)): sin(i + 1) is 2 * cos(1) * sin(i) - sin(i - 1), where 2 * cos(1) is
      4641161467 / 2^32; all up to the parts cut off. */
  predicate Follows(before: word, sine: word, next: word) {
    var x, y, z := 4641161467 * sine, TWO32 * before, TWO32 * next;
    || -2 * TWO32 <= z - (x - y) <= 2 * TWO32
    || -2 * TWO32 <= z + (x - y) <= 2 * TWO32
    || -2 * TWO32 <= z - (x + y) <= 2 * TWO32
  }

  predicate GroupFollows(g: nat)
    requires g < 16
  {
    var e, f := if g == 0 then Four(0, 0, 0, 0) else Sines(g - 1), Sines(g);
    && (g > 0 ==> Follows(e.r, e.s, f.p))
    && Follows(e.s, f.p, f.q) && Follows(f.p, f.q, f.r) && Follows(f.q, f.r, f.s)
  }

  lemma Sines0To3(g: nat)
    requires 0 <= g < 4
    ensures GroupFollows(g)
  {
    match g case 0 => case 1 => case 2 => case _ =>
  }

  lemma Sines4To7(g: nat)
    requires 4 <= g < 8
    ensures GroupFollows(g)
  {
    match g case 4 => case 5 => case 6 => case _ =>
  }

  lemma Sines8To11(g: nat)
    requires 8 <= g < 12
    ensures GroupFollows(g)
  {
    match g case 8 => case 9 => case 10 => case _ =>
  }

  lemma Sines12To15(g: nat)
    requires 12 <= g < 16
    ensures GroupFollows(g)
  {
    match g case 12 => case 13 => case 14 => case _ =>
  }

  /** The constants are sines: the first is that of 1, to ten digits, and each follows from the two before it. */
  lemma SinesFollow(g: nat)
    requires g < 16
    ensures 8414709847 * TWO32 <= Sines(0).p * 10_000_000_000 < 8414709848 * TWO32 && GroupFollows(g)
  {
    hide GroupFollows;
    if g < 4 {
      Sines0To3(g);
    } else if g < 8 {
      Sines4To7(g);
    } else if g < 12 {
      Sines8To11(g);
    } else {
      Sines12To15(g);
    }
  }

  /** w <<< s: circular shift to the left by s bits. */
  function RotateLeft(w: word, s: nat): word
    requires 0 < s < 32
  {
    Bitwise32(Or, ShiftLeft32(w, s), ShiftRight(w, 32 - s))
  }

  /** b + ((a + aux + x + t) <<< s) */
  function Mix(aux: word, a: word, b: word, x: word, s: nat, t: word): word
    requires 0 < s < 32
  {
    Add32(b, RotateLeft(Add32(Add32(Add32(a, aux), x), t), s))
  }

  /** One operation of round r, with the register names rotated by one after it. */
  function Operation(r: nat, s: State, word: word, shift: nat, sine: word): State
    requires r < 4 && 0 < shift < 32
  {
    State(s.d, Mix(Auxiliary(r, s.b, s.c, s.d), s.a, s.b, word, shift, sine), s.b, s.c)
  }

  /** Operations 4 * g to 4 * g + 3 of round r; after them the register names are back in place. */
  function Group(r: nat, g: nat, s: State, x: seq<word>): State
    requires r < 4 && g < 4 && |x| == 16
  {
    var n, t := Shifts(r), Sines(4 * r + g);
    var s1 := Operation(r, s, x[WordIndex(r, 4 * g)], n.p, t.p);
    var s2 := Operation(r, s1, x[WordIndex(r, 4 * g + 1)], n.q, t.q);
    var s3 := Operation(r, s2, x[WordIndex(r, 4 * g + 2)], n.r, t.r);
    Operation(r, s3, x[WordIndex(r, 4 * g + 3)], n.s, t.s)
  }

  /** The first n groups of round r. */
  function Groups(r: nat, n: nat, s: State, x: seq<word>): State
    requires r < 4 && n <= 4 && |x| == 16
  {
    if n == 0 then s else Group(r, n - 1, Groups(r, n - 1, s, x), x)
  }

  /** The first n rounds. */
  function Rounds(n: nat, s: State, x: seq<word>): State
    requires n <= 4 && |x| == 16
  {
    if n == 0 then s else Groups(n - 1, 4, Rounds(n - 1, s, x), x)
  }

  function Add(s: State, t: State): State { State(Add32(s.a, t.a), Add32(s.b, t.b), Add32(s.c, t.c), Add32(s.d, t.d)) }

  /** Word i of a block, low-order byte first. */
  function WordAt(m: seq<byte>, i: nat): word
    requires 4 * i + 4 <= |m|
  {
    FromLittleEndian32(m[4 * i..4 * i + 4])
  }

  function Words(block: seq<byte>): (x: seq<word>)
    requires |block| == 64
    ensures |x| == 16
  {
    seq(16, i requires 0 <= i < 16 => WordAt(block, i))
  }

  function Compress(s: State, block: seq<byte>): State
    requires |block| == 64
  {
    Add(Rounds(4, s, Words(block)), s)
  }

  /** Section 3.4: every 16-word block in turn. */
  function Fold(s: State, m: seq<byte>): State
    decreases |m|
  {
    if |m| < 64 then s else Fold(Compress(s, m[..64]), m[64..])
  }

  /** Section 3.1: between 1 and 64 padding bytes, up to 56 modulo 64. */
  function PadLength(n: nat): (k: nat)
    ensures 1 <= k <= 64
  {
    if n % 64 < 56 then 56 - n % 64 else 120 - n % 64
  }

  function Zeros(k: nat): seq<byte> { seq(k, _ => 0) }

  /** Section 3.2: the length in bits modulo 2^64 as two words, low-order word first. */
  function BitCount(n: nat): (r: seq<byte>)
    ensures |r| == 8
  {
    LittleEndian32(8 * n % TWO32) + LittleEndian32(8 * n / TWO32 % TWO32)
  }

  function Padded(m: seq<byte>): seq<byte> {
    m + [0x80] + Zeros(PadLength(|m|) - 1) + BitCount(|m|)
  }

  function Output(s: State): seq<byte> {
    LittleEndian32(s.a) + LittleEndian32(s.b) + LittleEndian32(s.c) + LittleEndian32(s.d)
  }

  function Digest(m: seq<byte>): seq<byte> { Output(Fold(INITIAL, Padded(m))) }

  lemma {:induction false} FoldAppend(s: State, m: seq<byte>, n: seq<byte>, blocks: nat)
    requires |m| == 64 * blocks
    ensures Fold(s, m + n) == Fold(Fold(s, m), n)
    decreases blocks
  {
    if blocks == 0 {
      assert m + n == n;
    } else {
      assert (m + n)[..64] == m[..64] && (m + n)[64..] == m[64..] + n;
      FoldAppend(Compress(s, m[..64]), m[64..], n, blocks - 1);
    }
  }

  lemma FourGroups(r: nat, s: State, x: seq<word>)
    requires r < 4 && |x| == 16
    ensures Groups(r, 4, s, x) == Group(r, 3, Group(r, 2, Group(r, 1, Group(r, 0, s, x), x), x), x)
  {
    hide Group;
    assert Groups(r, 2, s, x) == Group(r, 1, Groups(r, 1, s, x), x);
  }

  lemma FourRounds(s: State, x: seq<word>)
    requires |x| == 16
    ensures Rounds(4, s, x) == Groups(3, 4, Groups(2, 4, Groups(1, 4, Groups(0, 4, s, x), x), x), x)
  {
    hide Groups;
    assert Rounds(2, s, x) == Groups(1, 4, Rounds(1, s, x), x);
  }
}
