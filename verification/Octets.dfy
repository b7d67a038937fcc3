/** Bytes and 32-bit words as numbers, with the wrap-around addition, the shifts and
    the bitwise operators of the C and C++ sources written out. */
module Octets {
  newtype byte = x: int | 0 <= x < 256

  const TWO32: nat := 0x1_0000_0000

  type word = x: nat | x < TWO32

  function Pow2(k: nat): (r: nat)
    ensures r > 0
  {
    if k == 0 then 1 else 2 * Pow2(k - 1)
  }

  datatype BitOp = And | Or | Xor {
    predicate Apply(p: bool, q: bool) {
      match this
      case And => p && q
      case Or => p || q
      case Xor => p != q
    }
  }

  /** The operator applied to each of the k low bits. */
  function Bitwise(op: BitOp, k: nat, x: nat, y: nat): (r: nat)
    ensures r < Pow2(k)
  {
    if k == 0 then 0
    else (if op.Apply(x % 2 == 1, y % 2 == 1) then 1 else 0) + 2 * Bitwise(op, k - 1, x / 2, y / 2)
  }

  function AllOnes(k: nat): nat { Pow2(k) - 1 }

  lemma {:induction false} Pow2Monotone(m: nat, n: nat)
    requires m <= n
    ensures Pow2(m) <= Pow2(n)
    decreases n - m
  {
    if m < n {
      Pow2Monotone(m + 1, n);
    }
  }

  lemma Pow2Of32()
    ensures Pow2(32) == TWO32
  {
    assert Pow2(8) == 256;
    assert Pow2(16) == 256 * Pow2(8);
    assert Pow2(24) == 256 * Pow2(16);
    assert Pow2(32) == 256 * Pow2(24);
  }

  lemma Pow2Of29()
    ensures Pow2(29) == 0x2000_0000
  {
    Pow2Of32();
    assert Pow2(32) == 2 * Pow2(31) == 4 * Pow2(30) == 8 * Pow2(29);
  }

  function Bitwise32(op: BitOp, x: word, y: word): word {
    Pow2Of32();
    Bitwise(op, 32, x, y)
  }

  function Not32(x: word): word { Bitwise32(Xor, x, TWO32 - 1) }

  /** Unsigned addition with wrap-around. */
  function Add32(x: word, y: word): word { if x + y < TWO32 then x + y else x + y - TWO32 }

  function ShiftLeft32(x: word, s: nat): word
    decreases s
  {
    if s == 0 then x else ShiftLeft32(Add32(x, x), s - 1)
  }

  function ShiftRight(x: nat, s: nat): (r: nat)
    ensures r <= x
    decreases s
  {
    if s == 0 then x else ShiftRight(x / 2, s - 1)
  }

  /** Shifting right drops the low bits. */
  lemma {:induction false} ShiftRightParts(x: nat, s: nat) returns (low: nat)
    ensures x == Pow2(s) * ShiftRight(x, s) + low && low < Pow2(s)
    decreases s
  {
    if s == 0 {
      low := 0;
    } else {
      var l := ShiftRightParts(x / 2, s - 1);
      low := 2 * l + x % 2;
    }
  }

  /** Operands that share no set bit: or is addition. */
  lemma {:induction false} OrIsSum(k: nat, n: nat, q: nat, y: nat)
    requires n <= k && q * Pow2(n) < Pow2(k) && y < Pow2(n)
    ensures Bitwise(Or, k, q * Pow2(n), y) == q * Pow2(n) + y
  {
    if k == 0 {
    } else if n == 0 {
      assert q * Pow2(0) == q && q / 2 * Pow2(0) == q / 2;
      OrIsSum(k - 1, 0, q / 2, 0);
    } else {
      assert q * Pow2(n) == 2 * (q * Pow2(n - 1));
      OrIsSum(k - 1, n - 1, q, y / 2);
    }
  }

  lemma {:induction false} BitwiseCommutes(op: BitOp, k: nat, x: nat, y: nat)
    ensures Bitwise(op, k, x, y) == Bitwise(op, k, y, x)
  {
    if k > 0 {
      BitwiseCommutes(op, k - 1, x / 2, y / 2);
    }
  }

  /** Selecting the bits of y where x is set and those of z elsewhere, with three operators instead of four. */
  lemma {:induction false} Choose(k: nat, x: nat, y: nat, z: nat)
    requires z < Pow2(k)
    ensures Bitwise(Xor, k, z, Bitwise(And, k, x, Bitwise(Xor, k, y, z)))
      == Bitwise(Or, k, Bitwise(And, k, x, y), Bitwise(And, k, Bitwise(Xor, k, x, AllOnes(k)), z))
  {
    if k > 0 {
      var ones := AllOnes(k);
      assert ones / 2 == AllOnes(k - 1) && ones % 2 == 1;
      Choose(k - 1, x / 2, y / 2, z / 2);
      Halve(Xor, k, y, z);
      Halve(Xor, k, x, ones);
      Halve(And, k, x, Bitwise(Xor, k, y, z));
      Halve(And, k, x, y);
      Halve(And, k, Bitwise(Xor, k, x, ones), z);
    }
  }

  lemma Halve(op: BitOp, k: nat, x: nat, y: nat)
    requires k > 0
    ensures Bitwise(op, k, x, y) / 2 == Bitwise(op, k - 1, x / 2, y / 2)
    ensures Bitwise(op, k, x, y) % 2 == 1 <==> op.Apply(x % 2 == 1, y % 2 == 1)
  {
  }

  /** The four bytes of a 32-bit word, least significant first. */
  function LittleEndian32(w: word): (r: seq<byte>)
    ensures |r| == 4
  {
    [(w % 256) as byte, (w / 256 % 256) as byte, (w / 65536 % 256) as byte, (w / 16777216) as byte]
  }

  function FromLittleEndian32(s: seq<byte>): (w: word)
    requires |s| == 4
  {
    s[0] as nat + 256 * s[1] as nat + 65536 * s[2] as nat + 16777216 * s[3] as nat
  }

  /** memcpy into an array from a position on. */
  method Memcpy(data: array<byte>, at: nat, bytes: seq<byte>)
    requires at + |bytes| <= data.Length
    modifies data
    ensures data[..at + |bytes|] == old(data[..at]) + bytes
    ensures data[at + |bytes|..] == old(data[at + |bytes|..])
  {
    var i := 0;
    while i < |bytes|
      invariant 0 <= i <= |bytes|
      invariant data[..at + i] == old(data[..at]) + bytes[..i]
      invariant forall k :: at + i <= k < data.Length ==> data[k] == old(data[k])
    {
      data[at + i] := bytes[i];
      assert data[..at + i + 1] == data[..at + i] + [bytes[i]] && bytes[..i + 1] == bytes[..i] + [bytes[i]];
      i := i + 1;
    }
    assert bytes[..|bytes|] == bytes;
  }
}
