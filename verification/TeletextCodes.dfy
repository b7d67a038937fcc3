/** The byte codes of teletext rows: Hamming 8/4 and odd parity, from the tables of lib/libtuxtxt/tuxtxt_def.h. */
module TeletextCodes {
  import opened Octets

  /** What the Hamming 8/4 table holds for a byte that cannot be corrected. */
  const X: nat := 0xff

  /** The entry of a row of sixteen. */
  function Pick(low: nat, e0: nat, e1: nat, e2: nat, e3: nat, e4: nat, e5: nat, e6: nat, e7: nat,
                e8: nat, e9: nat, e10: nat, e11: nat, e12: nat, e13: nat, e14: nat, e15: nat): nat {
    if low < 8 then
      if low < 4 then
        if low < 2 then if low < 1 then e0 else e1 else if low < 3 then e2 else e3
      else
        if low < 6 then if low < 5 then e4 else e5 else if low < 7 then e6 else e7
    else
      if low < 12 then
        if low < 10 then if low < 9 then e8 else e9 else if low < 11 then e10 else e11
      else
        if low < 14 then if low < 13 then e12 else e13 else if low < 15 then e14 else e15
  }

  function HammingAt(high: nat, low: nat): (r: nat)
    ensures r < 16 || r == X
  {
    match high
    case 0 => Pick(low, 1, X, 1, 1, X, 0, 1, X, X, 2, 1, X, 10, X, X, 7)
    case 1 => Pick(low, X, 0, 1, X, 0, 0, X, 0, 6, X, X, 11, X, 0, 3, X)
    case 2 => Pick(low, X, 12, 1, X, 4, X, X, 7, 6, X, X, 7, X, 7, 7, 7)
    case 3 => Pick(low, 6, X, X, 5, X, 0, 13, X, 6, 6, 6, X, 6, X, X, 7)
    case 4 => Pick(low, X, 2, 1, X, 4, X, X, 9, 2, 2, X, 2, X, 2, 3, X)
    case 5 => Pick(low, 8, X, X, 5, X, 0, 3, X, X, 2, 3, X, 3, X, 3, 3)
    case 6 => Pick(low, 4, X, X, 5, 4, 4, 4, X, X, 2, 15, X, 4, X, X, 7)
    case 7 => Pick(low, X, 5, 5, 5, 4, X, X, 5, 6, X, X, 5, X, 14, 3, X)
    case 8 => Pick(low, X, 12, 1, X, 10, X, X, 9, 10, X, X, 11, 10, 10, 10, X)
    case 9 => Pick(low, 8, X, X, 11, X, 0, 13, X, X, 11, 11, 11, 10, X, X, 11)
    case 10 => Pick(low, 12, 12, X, 12, X, 12, 13, X, X, 12, 15, X, 10, X, X, 7)
    case 11 => Pick(low, X, 12, 13, X, 13, X, 13, 13, 6, X, X, 11, X, 14, 13, X)
    case 12 => Pick(low, 8, X, X, 9, X, 9, 9, 9, X, 2, 15, X, 10, X, X, 9)
    case 13 => Pick(low, 8, 8, 8, X, 8, X, X, 9, 8, X, X, 11, X, 14, 3, X)
    case 14 => Pick(low, X, 12, 15, X, 4, X, X, 9, 15, X, 15, 15, X, 14, 15, X)
    case _ => Pick(low, 8, X, X, 5, X, 14, 13, X, X, 14, 15, X, 14, 14, X, 14)
  }

  /** dehamming[b]: four data bits, or 0xff. */
  function Dehamming(b: nat): (r: nat)
    ensures r < 16 || r == X
  {
    HammingAt(b / 16, b % 16)
  }

  predicate OddOnes(n: nat) {
    n > 0 && (n % 2 == 1) != OddOnes(n / 2)
  }

  /** deparity[b]: the seven data bits of a byte of odd parity, a space for any other. */
  function Deparity(b: byte): byte {
    if OddOnes(b as nat) then b % 128 else 0x20
  }

  /** Four data bits with the protection bits of ETS 300 706 section 8.2, first transmitted bit lowest. */
  function Codeword(d: nat): (b: nat)
    requires d < 16
    ensures b < 256
  {
    match d
    case 0 => 0x15
    case 1 => 0x02
    case 2 => 0x49
    case 3 => 0x5e
    case 4 => 0x64
    case 5 => 0x73
    case 6 => 0x38
    case 7 => 0x2f
    case 8 => 0xd0
    case 9 => 0xc7
    case 10 => 0x8c
    case 11 => 0x9b
    case 12 => 0xa1
    case 13 => 0xb6
    case 14 => 0xfd
    case _ => 0xea
  }

  /** 2^k for a bit of a byte. */
  function Weight(k: nat): (w: nat)
    requires k < 8
    ensures w >= 1
  {
    match k
    case 0 => 1
    case 1 => 2
    case 2 => 4
    case 3 => 8
    case 4 => 16
    case 5 => 32
    case 6 => 64
    case _ => 128
  }

  /** b with bit k inverted. */
  function Flip(b: nat, k: nat): nat
    requires k < 8 && b < 256
  {
    var w := Weight(k);
    if b / w % 2 == 1 then b - w else b + w
  }

  /** Every byte that differs from w in one bit is read as d, and so is w. */
  predicate Centre(w: nat, d: nat)
    requires w < 256
  {
    Dehamming(w) == d && forall k :: 0 <= k < 8 ==> Dehamming(Flip(w, k)) == d
  }

  lemma EightFlips(w: nat, d: nat)
    requires w < 256 && Dehamming(w) == d
    requires Dehamming(Flip(w, 0)) == d && Dehamming(Flip(w, 1)) == d && Dehamming(Flip(w, 2)) == d && Dehamming(Flip(w, 3)) == d
    requires Dehamming(Flip(w, 4)) == d && Dehamming(Flip(w, 5)) == d && Dehamming(Flip(w, 6)) == d && Dehamming(Flip(w, 7)) == d
    ensures Centre(w, d)
  {
    hide Dehamming, Flip;
  }

  lemma Words0And1()
    ensures Centre(Codeword(0), 0) && Centre(Codeword(1), 1)
  {
    hide Centre;
    EightFlips(0x15, 0);
    EightFlips(0x02, 1);
  }

  lemma Words2And3()
    ensures Centre(Codeword(2), 2) && Centre(Codeword(3), 3)
  {
    hide Centre;
    EightFlips(0x49, 2);
    EightFlips(0x5e, 3);
  }

  lemma Words4And5()
    ensures Centre(Codeword(4), 4) && Centre(Codeword(5), 5)
  {
    hide Centre;
    EightFlips(0x64, 4);
    EightFlips(0x73, 5);
  }

  lemma Words6And7()
    ensures Centre(Codeword(6), 6) && Centre(Codeword(7), 7)
  {
    hide Centre;
    EightFlips(0x38, 6);
    EightFlips(0x2f, 7);
  }

  lemma Words8And9()
    ensures Centre(Codeword(8), 8) && Centre(Codeword(9), 9)
  {
    hide Centre;
    EightFlips(0xd0, 8);
    EightFlips(0xc7, 9);
  }

  lemma Words10And11()
    ensures Centre(Codeword(10), 10) && Centre(Codeword(11), 11)
  {
    hide Centre;
    EightFlips(0x8c, 10);
    EightFlips(0x9b, 11);
  }

  lemma Words12And13()
    ensures Centre(Codeword(12), 12) && Centre(Codeword(13), 13)
  {
    hide Centre;
    EightFlips(0xa1, 12);
    EightFlips(0xb6, 13);
  }

  lemma Words14And15()
    ensures Centre(Codeword(14), 14) && Centre(Codeword(15), 15)
  {
    hide Centre;
    EightFlips(0xfd, 14);
    EightFlips(0xea, 15);
  }

  /** A byte sent with at most one bit inverted is read as it was sent. */
  lemma OneBitCorrected(d: nat, k: nat)
    requires d < 16 && k < 8
    ensures Dehamming(Codeword(d)) == d && Dehamming(Flip(Codeword(d), k)) == d
  {
    hide Dehamming, Flip, Codeword;
    Words0And1();
    Words2And3();
    Words4And5();
    Words6And7();
    Words8And9();
    Words10And11();
    Words12And13();
    Words14And15();
    assert Centre(Codeword(d), d);
  }

  // ----- characters with odd parity, section 8.1 of ETS 300 706

  /** The number of set bits of a byte. */
  function Ones(b: nat): nat {
    b % 2 + b / 2 % 2 + b / 4 % 2 + b / 8 % 2 + b / 16 % 2 + b / 32 % 2 + b / 64 % 2 + b / 128 % 2
  }

  /** A seven-bit character with an eighth bit that makes the number of set bits odd. */
  function WithParity(c: nat): (b: nat)
    requires c < 128
    ensures b < 256
  {
    if Ones(c) % 2 == 1 then c else c + 128
  }

  function FromDigits(d: seq<nat>): nat { if d == [] then 0 else d[0] + 2 * FromDigits(d[1..]) }

  function DigitSum(d: seq<nat>): nat { if d == [] then 0 else d[0] + DigitSum(d[1..]) }

  predicate BinaryDigits(d: seq<nat>) { forall i :: 0 <= i < |d| ==> d[i] < 2 }

  lemma {:induction false} OddDigits(d: seq<nat>)
    requires BinaryDigits(d)
    ensures OddOnes(FromDigits(d)) <==> DigitSum(d) % 2 == 1
  {
    if d != [] {
      assert FromDigits(d) / 2 == FromDigits(d[1..]) && FromDigits(d) % 2 == d[0];
      OddDigits(d[1..]);
    }
  }

  lemma NextDigit(d: seq<nat>, k: nat)
    requires k < |d|
    ensures FromDigits(d[k..]) == d[k] + 2 * FromDigits(d[k + 1..]) && DigitSum(d[k..]) == d[k] + DigitSum(d[k + 1..])
  {
    assert d[k..][1..] == d[k + 1..];
  }

  lemma NoDigits()
    ensures FromDigits([]) == 0 && DigitSum([]) == 0
  {
  }

  lemma EightDigits(d: seq<nat>)
    requires |d| == 8
    ensures FromDigits(d) == d[0] + 2 * d[1] + 4 * d[2] + 8 * d[3] + 16 * d[4] + 32 * d[5] + 64 * d[6] + 128 * d[7]
    ensures DigitSum(d) == d[0] + d[1] + d[2] + d[3] + d[4] + d[5] + d[6] + d[7]
  {
    hide FromDigits, DigitSum;
    NoDigits();
    NextDigit(d, 0);
    NextDigit(d, 1);
    NextDigit(d, 2);
    NextDigit(d, 3);
    NextDigit(d, 4);
    NextDigit(d, 5);
    NextDigit(d, 6);
    NextDigit(d, 7);
    assert d[0..] == d && d[8..] == [];
  }

  lemma DigitsOf(b: nat) returns (d: seq<nat>)
    requires b < 256
    ensures |d| == 8 && BinaryDigits(d) && FromDigits(d) == b
  {
    var b1 := b / 2;
    var b2 := b1 / 2;
    var b3 := b2 / 2;
    var b4 := b3 / 2;
    var b5 := b4 / 2;
    var b6 := b5 / 2;
    d := [b % 2, b1 % 2, b2 % 2, b3 % 2, b4 % 2, b5 % 2, b6 % 2, b6 / 2];
    EightDigits(d);
  }

  lemma LowDigits(d: seq<nat>, b: nat)
    requires |d| == 8 && BinaryDigits(d) && b == d[0] + 2 * d[1] + 4 * d[2] + 8 * d[3] + 16 * d[4] + 32 * d[5] + 64 * d[6] + 128 * d[7]
    ensures b % 2 == d[0] && b / 2 % 2 == d[1] && b / 4 % 2 == d[2] && b / 8 % 2 == d[3]
  {
    assert b / 2 == d[1] + 2 * d[2] + 4 * d[3] + 8 * d[4] + 16 * d[5] + 32 * d[6] + 64 * d[7];
    assert b / 4 == d[2] + 2 * d[3] + 4 * d[4] + 8 * d[5] + 16 * d[6] + 32 * d[7];
    assert b / 8 == d[3] + 2 * d[4] + 4 * d[5] + 8 * d[6] + 16 * d[7];
  }

  lemma HighDigits(d: seq<nat>, b: nat)
    requires |d| == 8 && BinaryDigits(d) && b == d[0] + 2 * d[1] + 4 * d[2] + 8 * d[3] + 16 * d[4] + 32 * d[5] + 64 * d[6] + 128 * d[7]
    ensures b / 16 % 2 == d[4] && b / 32 % 2 == d[5] && b / 64 % 2 == d[6] && b / 128 % 2 == d[7]
  {
    assert b / 16 == d[4] + 2 * d[5] + 4 * d[6] + 8 * d[7];
    assert b / 32 == d[5] + 2 * d[6] + 4 * d[7];
    assert b / 64 == d[6] + 2 * d[7];
    assert b / 128 == d[7];
  }

  lemma DigitAt(d: seq<nat>, k: nat)
    requires |d| == 8 && BinaryDigits(d) && k < 8
    ensures FromDigits(d) / Weight(k) % 2 == d[k] && Ones(FromDigits(d)) == DigitSum(d)
  {
    hide FromDigits, DigitSum;
    EightDigits(d);
    LowDigits(d, FromDigits(d));
    HighDigits(d, FromDigits(d));
  }

  lemma OtherValue(d: seq<nat>, k: nat)
    requires |d| == 8 && BinaryDigits(d) && k < 8
    ensures d[k] == 1 ==> FromDigits(d[k := 1 - d[k]]) + Weight(k) == FromDigits(d)
    ensures d[k] == 0 ==> FromDigits(d[k := 1 - d[k]]) == FromDigits(d) + Weight(k)
  {
    hide FromDigits, DigitSum;
    EightDigits(d);
    EightDigits(d[k := 1 - d[k]]);
  }

  lemma OtherSum(d: seq<nat>, k: nat)
    requires |d| == 8 && BinaryDigits(d) && k < 8
    ensures DigitSum(d[k := 1 - d[k]]) == DigitSum(d) + 1 - 2 * d[k]
  {
    hide FromDigits, DigitSum;
    EightDigits(d);
    EightDigits(d[k := 1 - d[k]]);
  }

  lemma FlippedDigit(d: seq<nat>, k: nat)
    requires |d| == 8 && BinaryDigits(d) && k < 8 && FromDigits(d) < 256
    ensures Flip(FromDigits(d), k) == FromDigits(d[k := 1 - d[k]])
  {
    hide FromDigits, DigitSum, Ones, Weight;
    DigitAt(d, k);
    OtherValue(d, k);
  }

  lemma OddOnesIs(b: nat)
    requires b < 256
    ensures OddOnes(b) <==> Ones(b) % 2 == 1
  {
    hide FromDigits, DigitSum, OddOnes, Ones;
    var d := DigitsOf(b);
    OddDigits(d);
    DigitAt(d, 0);
  }

  lemma FlippedByte(d: seq<nat>)
    requires |d| == 8 && BinaryDigits(d)
    ensures FromDigits(d) < 256
  {
    hide FromDigits, DigitSum;
    EightDigits(d);
  }

  lemma FlipChangesParity(b: nat, k: nat)
    requires b < 256 && k < 8
    ensures Flip(b, k) < 256 && (OddOnes(Flip(b, k)) <==> !OddOnes(b))
  {
    hide FromDigits, DigitSum, OddOnes, Flip;
    var d := DigitsOf(b);
    var e := d[k := 1 - d[k]];
    FlippedDigit(d, k);
    FlippedByte(e);
    OtherSum(d, k);
    OddDigits(d);
    OddDigits(e);
  }

  lemma TopBitCounts(c: nat)
    requires c < 128
    ensures Ones(c + 128) == Ones(c) + 1
  {
    hide FromDigits, DigitSum, Ones;
    var d := DigitsOf(c);
    EightDigits(d);
    EightDigits(d[7 := 1]);
    DigitAt(d, 0);
    DigitAt(d[7 := 1], 0);
  }

  /** A character is read as it was sent, and as a space after any one bit of it was inverted. */
  lemma ParityChecked(c: nat, k: nat)
    requires c < 128 && k < 8
    ensures Deparity(WithParity(c) as byte) as nat == c
    ensures Flip(WithParity(c), k) < 256 && Deparity(Flip(WithParity(c), k) as byte) == 0x20
  {
    hide OddOnes, Ones, Flip;
    TopBitCounts(c);
    OddOnesIs(WithParity(c));
    FlipChangesParity(WithParity(c), k);
  }
}
