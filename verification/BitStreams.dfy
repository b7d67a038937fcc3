/** Numbers as bit sequences, least significant bit first. */
module BitStreams {
  import opened Octets

  function ToBits(v: nat, n: nat): (bits: seq<bool>)
    ensures |bits| == n
    decreases n
  {
    if n == 0 then [] else [v % 2 == 1] + ToBits(v / 2, n - 1)
  }

  function FromBits(bits: seq<bool>): nat {
    if bits == [] then 0 else (if bits[0] then 1 else 0) + 2 * FromBits(bits[1..])
  }

  /** v & (2^n - 1) */
  function LowBits(v: nat, n: nat): (r: nat)
    ensures r < Pow2(n)
    decreases n
  {
    if n == 0 then 0 else v % 2 + 2 * LowBits(v / 2, n - 1)
  }

  lemma {:induction false} FromToBits(v: nat, n: nat)
    ensures FromBits(ToBits(v, n)) == LowBits(v, n)
    decreases n
  {
    if n > 0 {
      FromToBits(v / 2, n - 1);
      assert ToBits(v, n)[1..] == ToBits(v / 2, n - 1);
    }
  }

  lemma {:induction false} BitsPrefix(v: nat, m: nat, n: nat)
    requires m <= n
    ensures ToBits(v, n)[..m] == ToBits(v, m)
    decreases m
  {
    if m > 0 {
      BitsPrefix(v / 2, m - 1, n - 1);
    }
  }

  lemma {:induction false} BitsOfShift(v: nat, s: nat, n: nat)
    ensures ToBits(v, s + n)[s..] == ToBits(ShiftRight(v, s), n)
    decreases s
  {
    if s > 0 {
      BitsOfShift(v / 2, s - 1, n);
      assert ToBits(v, s + n)[1..] == ToBits(v / 2, s - 1 + n);
      assert ToBits(v, s + n)[s..] == ToBits(v, s + n)[1..][s - 1..];
    }
  }

  lemma {:induction false} ShiftBound(v: nat, s: nat, n: nat)
    requires v < Pow2(s + n)
    ensures ShiftRight(v, s) < Pow2(n)
    decreases s
  {
    if s > 0 {
      ShiftBound(v / 2, s - 1, n);
    }
  }

  lemma Doubled(p: nat, f: nat)
    ensures (2 * p) * f == 2 * (p * f)
  {
  }

  lemma {:induction false} FromBitsAppend(a: seq<bool>, b: seq<bool>)
    ensures FromBits(a + b) == FromBits(a) + Pow2(|a|) * FromBits(b)
    decreases |a|
  {
    if a == [] {
      assert a + b == b;
    } else {
      assert (a + b)[1..] == a[1..] + b;
      FromBitsAppend(a[1..], b);
      Doubled(Pow2(|a| - 1), FromBits(b));
    }
  }

  /** Appending d above the b bits of x. */
  lemma {:induction false} BitsOfSum(x: nat, b: nat, d: nat, n: nat)
    requires x < Pow2(b)
    ensures ToBits(d * Pow2(b) + x, b + n) == ToBits(x, b) + ToBits(d, n)
    decreases b
  {
    if b == 0 {
      assert d * Pow2(0) + x == d;
    } else {
      var y := d * Pow2(b - 1);
      assert d * Pow2(b) == 2 * y;
      assert (2 * y + x) % 2 == x % 2 && (2 * y + x) / 2 == y + x / 2;
      BitsOfSum(x / 2, b - 1, d, n);
      assert ToBits(x, b) + ToBits(d, n) == [x % 2 == 1] + (ToBits(x / 2, b - 1) + ToBits(d, n));
    }
  }

  /** The sum d * 2^b + x has b + n bits. */
  lemma {:induction false} SumBound(x: nat, b: nat, d: nat, n: nat)
    requires x < Pow2(b) && d < Pow2(n)
    ensures d * Pow2(b) + x < Pow2(b + n)
    decreases b
  {
    if b == 0 {
      assert d * Pow2(0) == d;
    } else {
      var y := d * Pow2(b - 1);
      assert d * Pow2(b) == 2 * y;
      SumBound(x / 2, b - 1, d, n);
      assert Pow2(b + n) == 2 * Pow2(b - 1 + n);
    }
  }
}
