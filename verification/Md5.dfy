/** lib/libmd5sum/md5.c: the unrolled block function, the incremental context and the one-shot and stream digests. */
module Md5Rounds {
  import opened Octets
  import opened Rfc1321

  /** The optimised auxiliary functions. */
  function FF(b: word, c: word, d: word): word {
    Bitwise32(Xor, d, Bitwise32(And, b, Bitwise32(Xor, c, d)))
  }

  function FG(b: word, c: word, d: word): word { FF(d, b, c) }

  function FH(b: word, c: word, d: word): word { Bitwise32(Xor, Bitwise32(Xor, b, c), d) }

  function FI(b: word, c: word, d: word): word { Bitwise32(Xor, c, Bitwise32(Or, b, Not32(d))) }

  /** What the OP macro leaves in its first register. */
  function Op(f: word, a: word, b: word, x: word, s: nat, t: word): word
    requires 0 < s < 32
  {
    Add32(RotateLeft(Add32(a, Add32(Add32(f, x), t)), s), b)
  }

  lemma FFIsF(b: word, c: word, d: word)
    ensures FF(b, c, d) == F(b, c, d)
  {
    Pow2Of32();
    Choose(32, b, c, d);
  }

  lemma FGIsG(b: word, c: word, d: word)
    ensures FG(b, c, d) == G(b, c, d)
  {
    FFIsF(d, b, c);
    BitwiseCommutes(And, 32, d, b);
    BitwiseCommutes(And, 32, Not32(d), c);
  }

  /** The macro computes the mixing step of the standard, at each of the sixteen rotation amounts in use. */
  lemma OpIsMix(f: word, a: word, b: word, x: word, s: nat, t: word)
    requires 0 < s < 32
    ensures Op(f, a, b, x, s, t) == Mix(f, a, b, x, s, t)
  {
    Regroup(f, a, x, t);
  }

  lemma Regroup(f: word, a: word, x: word, t: word)
    ensures Add32(Add32(Add32(a, f), x), t) == Add32(a, Add32(Add32(f, x), t))
  {
  }

  function Fast(r: nat, b: word, c: word, d: word): word
    requires r < 4
  {
    match r
    case 0 => FF(b, c, d)
    case 1 => FG(b, c, d)
    case 2 => FH(b, c, d)
    case _ => FI(b, c, d)
  }

  /** A group of four OP lines, for the words w and the table row t. */
  function FastGroup(r: nat, s: State, w: Four<word>, n: Four<nat>, t: Four<word>): State
    requires r < 4 && n == Shifts(r)
  {
    var A := Op(Fast(r, s.b, s.c, s.d), s.a, s.b, w.p, n.p, t.p);
    var D := Op(Fast(r, A, s.b, s.c), s.d, A, w.q, n.q, t.q);
    var C := Op(Fast(r, D, A, s.b), s.c, D, w.r, n.r, t.r);
    var B := Op(Fast(r, C, D, A), s.b, C, w.s, n.s, t.s);
    State(A, B, C, D)
  }

  lemma OperationIsOp(r: nat, s: State, w: word, n: nat, t: word)
    requires r < 4 && 0 < n < 32
    ensures Operation(r, s, w, n, t) == State(s.d, Op(Fast(r, s.b, s.c, s.d), s.a, s.b, w, n, t), s.b, s.c)
  {
    hide Op, Mix, F, G, FF, FG;
    FFIsF(s.b, s.c, s.d);
    FGIsG(s.b, s.c, s.d);
    OpIsMix(Auxiliary(r, s.b, s.c, s.d), s.a, s.b, w, n, t);
  }

  lemma GroupIsUnrolled(r: nat, g: nat, s: State, x: seq<word>)
    requires r < 4 && g < 4 && |x| == 16
    ensures Group(r, g, s, x) == FastGroup(r, s,
      Four(x[WordIndex(r, 4 * g)], x[WordIndex(r, 4 * g + 1)], x[WordIndex(r, 4 * g + 2)], x[WordIndex(r, 4 * g + 3)]),
      Shifts(r), Sines(4 * r + g))
  {
    hide Operation, Op, Fast, WordIndex, Sines, Shifts;
    var n, t := Shifts(r), Sines(4 * r + g);
    OperationIsOp(r, s, x[WordIndex(r, 4 * g)], n.p, t.p);
    var s1 := Operation(r, s, x[WordIndex(r, 4 * g)], n.p, t.p);
    OperationIsOp(r, s1, x[WordIndex(r, 4 * g + 1)], n.q, t.q);
    var s2 := Operation(r, s1, x[WordIndex(r, 4 * g + 1)], n.q, t.q);
    OperationIsOp(r, s2, x[WordIndex(r, 4 * g + 2)], n.r, t.r);
    var s3 := Operation(r, s2, x[WordIndex(r, 4 * g + 2)], n.r, t.r);
    OperationIsOp(r, s3, x[WordIndex(r, 4 * g + 3)], n.s, t.s);
  }

  method Round1(s: State, x: seq<word>) returns (r: State)
    requires |x| == 16
    ensures r == Groups(0, 4, s, x)
  {
    hide Op, FF, FG, FH, FI, Group, Groups;
    var A, B, C, D := s.a, s.b, s.c, s.d;
    FourGroups(0, s, x);
    GroupIsUnrolled(0, 0, State(A, B, C, D), x);
    A := Op(FF(B, C, D), A, B, x[0], 7, 0xd76aa478);
    D := Op(FF(A, B, C), D, A, x[1], 12, 0xe8c7b756);
    C := Op(FF(D, A, B), C, D, x[2], 17, 0x242070db);
    B := Op(FF(C, D, A), B, C, x[3], 22, 0xc1bdceee);
    GroupIsUnrolled(0, 1, State(A, B, C, D), x);
    A := Op(FF(B, C, D), A, B, x[4], 7, 0xf57c0faf);
    D := Op(FF(A, B, C), D, A, x[5], 12, 0x4787c62a);
    C := Op(FF(D, A, B), C, D, x[6], 17, 0xa8304613);
    B := Op(FF(C, D, A), B, C, x[7], 22, 0xfd469501);
    GroupIsUnrolled(0, 2, State(A, B, C, D), x);
    A := Op(FF(B, C, D), A, B, x[8], 7, 0x698098d8);
    D := Op(FF(A, B, C), D, A, x[9], 12, 0x8b44f7af);
    C := Op(FF(D, A, B), C, D, x[10], 17, 0xffff5bb1);
    B := Op(FF(C, D, A), B, C, x[11], 22, 0x895cd7be);
    GroupIsUnrolled(0, 3, State(A, B, C, D), x);
    A := Op(FF(B, C, D), A, B, x[12], 7, 0x6b901122);
    D := Op(FF(A, B, C), D, A, x[13], 12, 0xfd987193);
    C := Op(FF(D, A, B), C, D, x[14], 17, 0xa679438e);
    B := Op(FF(C, D, A), B, C, x[15], 22, 0x49b40821);
    r := State(A, B, C, D);
  }

  method Round2(s: State, x: seq<word>) returns (r: State)
    requires |x| == 16
    ensures r == Groups(1, 4, s, x)
  {
    hide Op, FF, FG, FH, FI, Group, Groups;
    var A, B, C, D := s.a, s.b, s.c, s.d;
    FourGroups(1, s, x);
    GroupIsUnrolled(1, 0, State(A, B, C, D), x);
    A := Op(FG(B, C, D), A, B, x[1], 5, 0xf61e2562);
    D := Op(FG(A, B, C), D, A, x[6], 9, 0xc040b340);
    C := Op(FG(D, A, B), C, D, x[11], 14, 0x265e5a51);
    B := Op(FG(C, D, A), B, C, x[0], 20, 0xe9b6c7aa);
    GroupIsUnrolled(1, 1, State(A, B, C, D), x);
    A := Op(FG(B, C, D), A, B, x[5], 5, 0xd62f105d);
    D := Op(FG(A, B, C), D, A, x[10], 9, 0x02441453);
    C := Op(FG(D, A, B), C, D, x[15], 14, 0xd8a1e681);
    B := Op(FG(C, D, A), B, C, x[4], 20, 0xe7d3fbc8);
    GroupIsUnrolled(1, 2, State(A, B, C, D), x);
    A := Op(FG(B, C, D), A, B, x[9], 5, 0x21e1cde6);
    D := Op(FG(A, B, C), D, A, x[14], 9, 0xc33707d6);
    C := Op(FG(D, A, B), C, D, x[3], 14, 0xf4d50d87);
    B := Op(FG(C, D, A), B, C, x[8], 20, 0x455a14ed);
    GroupIsUnrolled(1, 3, State(A, B, C, D), x);
    A := Op(FG(B, C, D), A, B, x[13], 5, 0xa9e3e905);
    D := Op(FG(A, B, C), D, A, x[2], 9, 0xfcefa3f8);
    C := Op(FG(D, A, B), C, D, x[7], 14, 0x676f02d9);
    B := Op(FG(C, D, A), B, C, x[12], 20, 0x8d2a4c8a);
    r := State(A, B, C, D);
  }

  method Round3(s: State, x: seq<word>) returns (r: State)
    requires |x| == 16
    ensures r == Groups(2, 4, s, x)
  {
    hide Op, FF, FG, FH, FI, Group, Groups;
    var A, B, C, D := s.a, s.b, s.c, s.d;
    FourGroups(2, s, x);
    GroupIsUnrolled(2, 0, State(A, B, C, D), x);
    A := Op(FH(B, C, D), A, B, x[5], 4, 0xfffa3942);
    D := Op(FH(A, B, C), D, A, x[8], 11, 0x8771f681);
    C := Op(FH(D, A, B), C, D, x[11], 16, 0x6d9d6122);
    B := Op(FH(C, D, A), B, C, x[14], 23, 0xfde5380c);
    GroupIsUnrolled(2, 1, State(A, B, C, D), x);
    A := Op(FH(B, C, D), A, B, x[1], 4, 0xa4beea44);
    D := Op(FH(A, B, C), D, A, x[4], 11, 0x4bdecfa9);
    C := Op(FH(D, A, B), C, D, x[7], 16, 0xf6bb4b60);
    B := Op(FH(C, D, A), B, C, x[10], 23, 0xbebfbc70);
    GroupIsUnrolled(2, 2, State(A, B, C, D), x);
    A := Op(FH(B, C, D), A, B, x[13], 4, 0x289b7ec6);
    D := Op(FH(A, B, C), D, A, x[0], 11, 0xeaa127fa);
    C := Op(FH(D, A, B), C, D, x[3], 16, 0xd4ef3085);
    B := Op(FH(C, D, A), B, C, x[6], 23, 0x04881d05);
    GroupIsUnrolled(2, 3, State(A, B, C, D), x);
    A := Op(FH(B, C, D), A, B, x[9], 4, 0xd9d4d039);
    D := Op(FH(A, B, C), D, A, x[12], 11, 0xe6db99e5);
    C := Op(FH(D, A, B), C, D, x[15], 16, 0x1fa27cf8);
    B := Op(FH(C, D, A), B, C, x[2], 23, 0xc4ac5665);
    r := State(A, B, C, D);
  }

  method Round4(s: State, x: seq<word>) returns (r: State)
    requires |x| == 16
    ensures r == Groups(3, 4, s, x)
  {
    hide Op, FF, FG, FH, FI, Group, Groups;
    var A, B, C, D := s.a, s.b, s.c, s.d;
    FourGroups(3, s, x);
    GroupIsUnrolled(3, 0, State(A, B, C, D), x);
    A := Op(FI(B, C, D), A, B, x[0], 6, 0xf4292244);
    D := Op(FI(A, B, C), D, A, x[7], 10, 0x432aff97);
    C := Op(FI(D, A, B), C, D, x[14], 15, 0xab9423a7);
    B := Op(FI(C, D, A), B, C, x[5], 21, 0xfc93a039);
    GroupIsUnrolled(3, 1, State(A, B, C, D), x);
    A := Op(FI(B, C, D), A, B, x[12], 6, 0x655b59c3);
    D := Op(FI(A, B, C), D, A, x[3], 10, 0x8f0ccc92);
    C := Op(FI(D, A, B), C, D, x[10], 15, 0xffeff47d);
    B := Op(FI(C, D, A), B, C, x[1], 21, 0x85845dd1);
    GroupIsUnrolled(3, 2, State(A, B, C, D), x);
    A := Op(FI(B, C, D), A, B, x[8], 6, 0x6fa87e4f);
    D := Op(FI(A, B, C), D, A, x[15], 10, 0xfe2ce6e0);
    C := Op(FI(D, A, B), C, D, x[6], 15, 0xa3014314);
    B := Op(FI(C, D, A), B, C, x[13], 21, 0x4e0811a1);
    GroupIsUnrolled(3, 3, State(A, B, C, D), x);
    A := Op(FI(B, C, D), A, B, x[4], 6, 0xf7537e82);
    D := Op(FI(A, B, C), D, A, x[11], 10, 0xbd3af235);
    C := Op(FI(D, A, B), C, D, x[2], 15, 0x2ad7d2bb);
    B := Op(FI(C, D, A), B, C, x[9], 21, 0xeb86d391);
    r := State(A, B, C, D);
  }
}

module Md5 {
  import opened Collections
  import opened Octets
  import opened Rfc1321
  import opened Md5Rounds

  const TWO64: nat := TWO32 * TWO32

  /** A context that has digested the whole blocks p: chaining value and 64-bit byte count. */
  ghost predicate Digested(s: State, low: word, high: word, p: seq<byte>) {
    && s == Fold(INITIAL, p)
    && |p| % 64 == 0
    && low + TWO32 * high == |p| % TWO64
  }

  /** The double-word increment of the byte count. */
  function Advance(low: word, high: word, len: nat): (word, word) {
    var l := (low + len) % TWO32;
    (l, if l < len then Add32(high, 1) else high)
  }

  lemma Remainder64(n: nat, r: nat, wraps: nat)
    requires n == TWO64 * wraps + r && r < TWO64
    ensures n % TWO64 == r
  {
  }

  lemma AdvanceCounts(low: word, high: word, len: nat, n: nat)
    requires len < TWO32 && low + TWO32 * high == n % TWO64
    ensures var (l, h) := Advance(low, high, len); l + TWO32 * h == (n + len) % TWO64
  {
    var (l, h) := Advance(low, high, len);
    var wraps := n / TWO64;
    var carry := low + len >= TWO32;
    assert l == if carry then low + len - TWO32 else low + len;
    Remainder64(n + len, l + TWO32 * h, if carry && h == 0 then wraps + 1 else wraps);
  }

  /** For longer calls the carry is added once: the count is right exactly while the sum stays below 2 * 2^32. */
  lemma AdvanceExact(low: word, high: word, len: nat)
    requires len < TWO64
    ensures (var (l, h) := Advance(low, high, len); l + TWO32 * h == (low + TWO32 * high + len) % TWO64)
      <==> low + len < 2 * TWO32
  {
  }

  lemma DigestedAppend(s: State, low: word, high: word, p: seq<byte>, m: seq<byte>)
    requires Digested(s, low, high, p) && |m| % 64 == 0 && |m| < TWO32
    ensures var (l, h) := Advance(low, high, |m|); Digested(Fold(s, m), l, h, p + m)
  {
    hide Fold, Advance;
    FoldAppend(INITIAL, p, m, |p| / 64);
    AdvanceCounts(low, high, |m|, |p|);
    assert |p + m| % 64 == 0;
  }

  /** One pass of the block loop: the 64 operations and the addition of the saved registers. */
  method OneBlock(a: word, b: word, c: word, d: word, block: seq<byte>)
    returns (a': word, b': word, c': word, d': word)
    requires |block| == 64
    ensures State(a', b', c', d') == Compress(State(a, b, c, d), block)
  {
    hide Groups;
    var x := Words(block);
    var s := State(a, b, c, d);
    var s1 := Round1(s, x);
    var s2 := Round2(s1, x);
    var s3 := Round3(s2, x);
    var s4 := Round4(s3, x);
    FourRounds(s, x);
    a', b', c', d' := Add32(s4.a, a), Add32(s4.b, b), Add32(s4.c, c), Add32(s4.d, d);
  }

  /** The padding bytes. */
  const FILLBUF: seq<byte> := [0x80] + Zeros(63)

  lemma ShiftLeftBy3(x: word)
    ensures ShiftLeft32(x, 3) == 8 * x % TWO32
  {
    var x1 := Add32(x, x);
    var x2 := Add32(x1, x1);
    assert ShiftLeft32(x, 3) == ShiftLeft32(x1, 2) == ShiftLeft32(x2, 1) == Add32(x2, x2);
  }

  lemma ShiftRightBy29(x: word)
    ensures ShiftRight(x, 29) == x / 0x2000_0000
  {
    hide ShiftRight, Pow2;
    var low := ShiftRightParts(x, 29);
    Pow2Of29();
  }

  /** The two length words are the bit count of section 3.2. */
  lemma LengthWords(low: word, high: word, n: nat)
    requires low + TWO32 * high == n % TWO64
    ensures LittleEndian32(ShiftLeft32(low, 3)) + LittleEndian32(Bitwise32(Or, ShiftLeft32(high, 3), ShiftRight(low, 29)))
      == BitCount(n)
  {
    ShiftLeftBy3(low);
    ShiftLeftBy3(high);
    ShiftRightBy29(low);
    OrShifted(high, low / 0x2000_0000);
    BitWords(low, high, n);
  }

  lemma OrShifted(high: word, y: nat)
    requires y < 8
    ensures Bitwise32(Or, 8 * high % TWO32, y) == 8 * high % TWO32 + y
  {
    var q := high % 0x2000_0000;
    assert 8 * high % TWO32 == q * 8;
    assert Pow2(3) == 8;
    Pow2Of32();
    OrIsSum(32, 3, q, y);
  }

  lemma Split32(q: nat, r: word)
    ensures (TWO32 * q + r) / TWO32 == q && (TWO32 * q + r) % TWO32 == r
  {
  }

  lemma BitWords(low: word, high: word, n: nat)
    requires low + TWO32 * high == n % TWO64
    ensures 8 * low % TWO32 == 8 * n % TWO32
    ensures 8 * high % TWO32 + low / 0x2000_0000 == 8 * n / TWO32 % TWO32
  {
    var wraps := n / TWO64;
    var c, l := low / 0x2000_0000, low % 0x2000_0000;
    var e, h := high / 0x2000_0000, high % 0x2000_0000;
    Split32(c, 8 * l);
    Split32(e, 8 * h);
    Split32(e + 8 * wraps, c + 8 * h);
    Split32(c + 8 * high + 8 * TWO32 * wraps, 8 * l);
    assert 8 * n == TWO32 * (c + 8 * high + 8 * TWO32 * wraps) + 8 * l;
  }

  /** With b bytes carried over from whole blocks the code pads as section 3.1 asks. */
  lemma CarriedPad(d: nat, b: nat)
    requires d % 64 == 0 && b <= 64
    ensures PadLength(d + b) == if b >= 56 then 64 + 56 - b else 56 - b
  {
    var k := d / 64;
    assert d + b == 64 * k + b;
    assert (d + b) % 64 == if b == 64 then 0 else b;
  }

  lemma PaddedParts(d: seq<byte>, carry: seq<byte>, pad: nat)
    requires pad == PadLength(|d + carry|)
    ensures d + (carry + FILLBUF[..pad] + BitCount(|d + carry|)) == Padded(d + carry)
  {
    hide PadLength, BitCount;
    assert FILLBUF[..pad] == [0x80] + Zeros(pad - 1);
  }

  class Context {
    var A: word
    var B: word
    var C: word
    var D: word
    var total0: word
    var total1: word
    var buflen: nat
    const buffer: array<byte>
    /** The whole blocks digested since initialisation. */
    ghost var digested: seq<byte>

    ghost function Chain(): State
      reads this
    {
      State(A, B, C, D)
    }

    ghost function Carry(): seq<byte>
      reads this, buffer
    {
      if buflen <= buffer.Length then buffer[..buflen] else []
    }

    /** Everything processed since initialisation. */
    ghost function Message(): seq<byte>
      reads this, buffer
    {
      digested + Carry()
    }

    ghost predicate Accounted()
      reads this
    {
      Digested(Chain(), total0, total1, digested)
    }

    ghost predicate Valid()
      reads this, buffer
    {
      buffer.Length == 128 && buflen <= 64 && Accounted()
    }

    /** md5_init_ctx */
    constructor ()
      ensures Valid() && Message() == [] && fresh(buffer)
    {
      A, B, C, D := 0x67452301, 0xefcdab89, 0x98badcfe, 0x10325476;
      total0, total1 := 0, 0;
      buflen := 0;
      buffer := new byte[128];
      digested := [];
    }

    /** md5_process_block: the words pointer advances 64 bytes at a time. */
    method ProcessBlock(data: seq<byte>)
      requires |data| % 64 == 0
      modifies `A, `B, `C, `D, `total0, `total1
      ensures Chain() == Fold(old(Chain()), data)
      ensures (total0, total1) == Advance(old(total0), old(total1), |data|)
    {
      hide Compress;
      var a, b, c, d := A, B, C, D;
      var sum := (total0 + |data|) % TWO32;
      total0 := sum;
      if total0 < |data| {
        total1 := Add32(total1, 1);
      }
      var words := 0;
      while words < |data|
        invariant words <= |data| && (|data| - words) % 64 == 0
        invariant (total0, total1) == Advance(old(total0), old(total1), |data|)
        invariant Fold(State(a, b, c, d), data[words..]) == Fold(old(Chain()), data)
      {
        var block := data[words..words + 64];
        a, b, c, d := OneBlock(a, b, c, d, block);
        assert data[words..][..64] == block && data[words..][64..] == data[words + 64..];
        words := words + 64;
      }
      A, B, C, D := a, b, c, d;
    }

    /** ProcessBlock extends what is digested. */
    method DigestBlocks(data: seq<byte>)
      requires Accounted() && |data| % 64 == 0 && |data| < TWO32
      modifies `A, `B, `C, `D, `total0, `total1, `digested
      ensures Accounted() && digested == old(digested) + data
    {
      DigestedAppend(Chain(), total0, total1, digested, data);
      ProcessBlock(data);
      digested := digested + data;
    }

    /** The first part of md5_process_bytes: top up a non-empty carry buffer and flush it once it holds more than 64 bytes. */
    method TopUp(data: seq<byte>) returns (add: nat)
      requires Valid() && buflen > 0
      modifies this, buffer
      ensures add <= |data| && Valid() && Message() == old(Message()) + data[..add]
      ensures add < |data| ==> buflen == 0
    {
      hide Digested;
      var leftOver := buflen;
      add := if 128 - leftOver > |data| then |data| else 128 - leftOver;
      assert digested + (Carry() + data[..add]) == Message() + data[..add];
      Memcpy(buffer, leftOver, data[..add]);
      buflen := buflen + add;
      if leftOver + add > 64 {
        Flush();
      }
    }

    method Flush()
      requires buffer.Length == 128 && 64 < buflen <= 128 && Accounted()
      modifies this, buffer
      ensures Valid() && buflen == old(buflen) % 64 && Message() == old(Message())
    {
      hide Digested;
      var whole := buflen - buflen % 64;
      var flushed, kept := buffer[..whole], buffer[whole..buflen];
      assert digested + Carry() == digested + flushed + kept;
      DigestBlocks(flushed);
      Memcpy(buffer, 0, kept);
      buflen := buflen % 64;
      assert Carry() == kept;
    }

    /** The second part: digest the complete blocks straight from the input when more than 64 bytes remain. */
    method WholeBlocks(data: seq<byte>) returns (whole: nat)
      requires Valid() && |data| < TWO32 && (data != [] ==> buflen == 0)
      modifies `A, `B, `C, `D, `total0, `total1, `digested
      ensures whole <= |data| && |data| - whole <= 64
      ensures Valid() && Message() == old(Message()) + data[..whole]
    {
      hide Digested;
      whole := 0;
      if |data| > 64 {
        whole := |data| - |data| % 64;
        assert Carry() == [];
        DigestBlocks(data[..whole]);
        assert Carry() == [];
      }
    }

    /** md5_process_bytes */
    method ProcessBytes(data: seq<byte>)
      requires Valid() && |data| < TWO32
      modifies this, buffer
      ensures Valid() && Message() == old(Message()) + data
    {
      hide Digested;
      var rest := data;
      if buflen != 0 {
        var add := TopUp(rest);
        rest := rest[add..];
      }
      assert Message() + rest == old(Message()) + data;
      var whole := WholeBlocks(rest);
      rest := rest[whole..];
      assert Message() + rest == old(Message()) + data;
      if |rest| > 0 {
        assert Message() == digested;
        Memcpy(buffer, 0, rest);
        buflen := |rest|;
        assert Carry() == rest;
      } else {
        assert Message() == Message() + rest;
      }
    }

    /** md5_read_ctx */
    method ReadContext() returns (resbuf: seq<byte>)
      ensures resbuf == Output(Chain())
    {
      resbuf := LittleEndian32(A) + LittleEndian32(B) + LittleEndian32(C) + LittleEndian32(D);
    }

    /** The first part of md5_finish_ctx: count the carried bytes, append padding and length words. */
    method AppendPadding() returns (size: nat)
      requires Valid()
      modifies `total0, `total1, buffer
      ensures size in {64, 128} && size <= buffer.Length
      ensures digested + buffer[..size] == Padded(old(Message()))
    {
      hide Fold, LittleEndian32, Bitwise32, ShiftLeft32, ShiftRight, PadLength, Padded;
      var bytes := buflen;
      ghost var m := Message();
      AdvanceCounts(total0, total1, bytes, |digested|);
      total0 := (total0 + bytes) % TWO32;
      if total0 < bytes {
        total1 := Add32(total1, 1);
      }
      LengthWords(total0, total1, |m|);
      var pad := if bytes >= 56 then 64 + 56 - bytes else 56 - bytes;
      CarriedPad(|digested|, bytes);
      Memcpy(buffer, bytes, FILLBUF[..pad]);
      Memcpy(buffer, bytes + pad, LittleEndian32(ShiftLeft32(total0, 3)));
      Memcpy(buffer, bytes + pad + 4, LittleEndian32(Bitwise32(Or, ShiftLeft32(total1, 3), ShiftRight(total0, 29))));
      size := bytes + pad + 8;
      PaddedParts(digested, old(Carry()), pad);
      assert buffer[..size] == old(Carry()) + FILLBUF[..pad] + BitCount(|m|);
    }

    /** md5_finish_ctx: 64 or 128 bytes are flushed. */
    method Finish() returns (resbuf: seq<byte>)
      requires Valid()
      modifies this, buffer
      ensures resbuf == Rfc1321.Digest(old(Message()))
      ensures digested == Padded(old(Message())) && |digested| - |old(digested)| in {64, 128}
    {
      hide Fold, Padded;
      var size := AppendPadding();
      FoldAppend(INITIAL, digested, buffer[..size], |digested| / 64);
      ProcessBlock(buffer[..size]);
      digested := digested + buffer[..size];
      resbuf := ReadContext();
    }
  }

  /** md5_buffer */
  method Buffer(data: seq<byte>) returns (resblock: seq<byte>)
    requires |data| < TWO32
    ensures resblock == Digest(data)
  {
    var ctx := new Context();
    ctx.ProcessBytes(data);
    assert [] + data == data;
    resblock := ctx.Finish();
  }

  /** Any way of cutting a message into calls of md5_process_bytes gives its digest. */
  method Pieces(pieces: seq<seq<byte>>) returns (resblock: seq<byte>)
    requires forall i :: 0 <= i < |pieces| ==> |pieces[i]| < TWO32
    ensures resblock == Digest(Concat(pieces))
  {
    var ctx := new Context();
    for i := 0 to |pieces|
      invariant ctx.Valid() && fresh(ctx) && fresh(ctx.buffer)
      invariant ctx.Message() == Concat(pieces[..i])
    {
      ctx.ProcessBytes(pieces[i]);
      assert pieces[..i + 1][..i] == pieces[..i];
    }
    assert pieces[..|pieces|] == pieces;
    resblock := ctx.Finish();
  }

  /** A stdio stream: fread may return fewer bytes than asked for, and none only at the end or after an error. */
  class Stream {
    var rest: seq<byte>
    var failed: bool

    method Fread(want: nat) returns (chunk: seq<byte>)
      modifies this
      ensures |chunk| <= want && old(rest) == chunk + rest
      ensures chunk == [] && want > 0 ==> rest == [] || failed
    {
      if * {
        failed := true;
      }
      var n :| 0 <= n <= |rest| && n <= want && (n == 0 && want > 0 ==> rest == [] || failed);
      chunk, rest := rest[..n], rest[n..];
    }
  }

  datatype Outcome = Digested128(resblock: seq<byte>) | ReadError

  const BLOCKSIZE: nat := 4096

  ghost predicate BlockRead(buffer: seq<byte>, eof: bool, stream: Stream)
    reads stream
  {
    if eof then |buffer| < BLOCKSIZE && (stream.rest == [] || stream.failed) else |buffer| == BLOCKSIZE
  }

  /** Read one block, taking care of partial reads; eof says that the last read returned nothing. */
  method ReadBlock(stream: Stream) returns (buffer: seq<byte>, eof: bool)
    modifies stream
    ensures old(stream.rest) == buffer + stream.rest
    ensures BlockRead(buffer, eof, stream)
  {
    buffer, eof := [], false;
    while |buffer| < BLOCKSIZE && !eof
      invariant |buffer| <= BLOCKSIZE && old(stream.rest) == buffer + stream.rest
      invariant eof ==> |buffer| < BLOCKSIZE && (stream.rest == [] || stream.failed)
      decreases BLOCKSIZE - |buffer|, !eof
    {
      var chunk := stream.Fread(BLOCKSIZE - |buffer|);
      buffer := buffer + chunk;
      eof := chunk == [];
    }
  }

  /** md5_stream */
  method StreamDigest(stream: Stream) returns (r: Outcome)
    modifies stream
    ensures r.ReadError? <==> stream.failed
    ensures r.Digested128? ==> stream.rest == [] && r.resblock == Digest(old(stream.rest))
  {
    hide Rfc1321.Digest, Digested;
    var ctx := new Context();
    ghost var message := stream.rest;
    var buffer, eof := ReadBlock(stream);
    while !eof
      invariant ctx.Valid() && fresh(ctx) && fresh(ctx.buffer) && ctx.buflen == 0
      invariant ctx.digested + (buffer + stream.rest) == message
      invariant BlockRead(buffer, eof, stream)
      decreases |stream.rest|, !eof
    {
      assert ctx.digested + buffer + stream.rest == message;
      ctx.DigestBlocks(buffer);
      buffer, eof := ReadBlock(stream);
    }
    if stream.failed {
      return ReadError;
    }
    assert ctx.Message() == ctx.digested && buffer + stream.rest == buffer;
    if |buffer| > 0 {
      ctx.ProcessBytes(buffer);
    }
    assert ctx.Message() == message;
    var digest := ctx.Finish();
    r := Digested128(digest);
  }
}
