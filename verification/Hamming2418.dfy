/** Hamming 24/18 of lib/libtuxtxt/tuxtxt_def.h, against the parity tests of section 8.3 of ETS 300 706. */
module Hamming2418 {
  import opened Octets

  /** Entry k of a table row. */
  function Pick<T>(k: bv8, v0: T, v1: T, v2: T, v3: T, v4: T, v5: T, v6: T, v7: T, v8: T, v9: T, v10: T, v11: T, v12: T, v13: T, v14: T, v15: T): T {
    match k
    case 0 => v0 case 1 => v1 case 2 => v2 case 3 => v3 case 4 => v4 case 5 => v5 case 6 => v6 case 7 => v7
    case 8 => v8 case 9 => v9 case 10 => v10 case 11 => v11 case 12 => v12 case 13 => v13 case 14 => v14 case _ => v15
  }

  /** hamm24par: the parity checks of each byte of a triplet. */
  function Par0(x: bv8): bv8 {
    match x >> 4
    case 0 => Pick(x & 15, 0, 33, 34, 3, 35, 2, 1, 32, 36, 5, 6, 39, 7, 38, 37, 4)
    case 1 => Pick(x & 15, 37, 4, 7, 38, 6, 39, 36, 5, 1, 32, 35, 2, 34, 3, 0, 33)
    case 2 => Pick(x & 15, 38, 7, 4, 37, 5, 36, 39, 6, 2, 35, 32, 1, 33, 0, 3, 34)
    case 3 => Pick(x & 15, 3, 34, 33, 0, 32, 1, 2, 35, 39, 6, 5, 36, 4, 37, 38, 7)
    case 4 => Pick(x & 15, 39, 6, 5, 36, 4, 37, 38, 7, 3, 34, 33, 0, 32, 1, 2, 35)
    case 5 => Pick(x & 15, 2, 35, 32, 1, 33, 0, 3, 34, 38, 7, 4, 37, 5, 36, 39, 6)
    case 6 => Pick(x & 15, 1, 32, 35, 2, 34, 3, 0, 33, 37, 4, 7, 38, 6, 39, 36, 5)
    case 7 => Pick(x & 15, 36, 5, 6, 39, 7, 38, 37, 4, 0, 33, 34, 3, 35, 2, 1, 32)
    case 8 => Pick(x & 15, 40, 9, 10, 43, 11, 42, 41, 8, 12, 45, 46, 15, 47, 14, 13, 44)
    case 9 => Pick(x & 15, 13, 44, 47, 14, 46, 15, 12, 45, 41, 8, 11, 42, 10, 43, 40, 9)
    case 10 => Pick(x & 15, 14, 47, 44, 13, 45, 12, 15, 46, 42, 11, 8, 41, 9, 40, 43, 10)
    case 11 => Pick(x & 15, 43, 10, 9, 40, 8, 41, 42, 11, 15, 46, 45, 12, 44, 13, 14, 47)
    case 12 => Pick(x & 15, 15, 46, 45, 12, 44, 13, 14, 47, 43, 10, 9, 40, 8, 41, 42, 11)
    case 13 => Pick(x & 15, 42, 11, 8, 41, 9, 40, 43, 10, 14, 47, 44, 13, 45, 12, 15, 46)
    case 14 => Pick(x & 15, 41, 8, 11, 42, 10, 43, 40, 9, 13, 44, 47, 14, 46, 15, 12, 45)
    case _ => Pick(x & 15, 12, 45, 46, 15, 47, 14, 13, 44, 40, 9, 10, 43, 11, 42, 41, 8)
  }

  function Par1(x: bv8): bv8 {
    match x >> 4
    case 0 => Pick(x & 15, 0, 41, 42, 3, 43, 2, 1, 40, 44, 5, 6, 47, 7, 46, 45, 4)
    case 1 => Pick(x & 15, 45, 4, 7, 46, 6, 47, 44, 5, 1, 40, 43, 2, 42, 3, 0, 41)
    case 2 => Pick(x & 15, 46, 7, 4, 45, 5, 44, 47, 6, 2, 43, 40, 1, 41, 0, 3, 42)
    case 3 => Pick(x & 15, 3, 42, 41, 0, 40, 1, 2, 43, 47, 6, 5, 44, 4, 45, 46, 7)
    case 4 => Pick(x & 15, 47, 6, 5, 44, 4, 45, 46, 7, 3, 42, 41, 0, 40, 1, 2, 43)
    case 5 => Pick(x & 15, 2, 43, 40, 1, 41, 0, 3, 42, 46, 7, 4, 45, 5, 44, 47, 6)
    case 6 => Pick(x & 15, 1, 40, 43, 2, 42, 3, 0, 41, 45, 4, 7, 46, 6, 47, 44, 5)
    case 7 => Pick(x & 15, 44, 5, 6, 47, 7, 46, 45, 4, 0, 41, 42, 3, 43, 2, 1, 40)
    case 8 => Pick(x & 15, 48, 25, 26, 51, 27, 50, 49, 24, 28, 53, 54, 31, 55, 30, 29, 52)
    case 9 => Pick(x & 15, 29, 52, 55, 30, 54, 31, 28, 53, 49, 24, 27, 50, 26, 51, 48, 25)
    case 10 => Pick(x & 15, 30, 55, 52, 29, 53, 28, 31, 54, 50, 27, 24, 49, 25, 48, 51, 26)
    case 11 => Pick(x & 15, 51, 26, 25, 48, 24, 49, 50, 27, 31, 54, 53, 28, 52, 29, 30, 55)
    case 12 => Pick(x & 15, 31, 54, 53, 28, 52, 29, 30, 55, 51, 26, 25, 48, 24, 49, 50, 27)
    case 13 => Pick(x & 15, 50, 27, 24, 49, 25, 48, 51, 26, 30, 55, 52, 29, 53, 28, 31, 54)
    case 14 => Pick(x & 15, 49, 24, 27, 50, 26, 51, 48, 25, 29, 52, 55, 30, 54, 31, 28, 53)
    case _ => Pick(x & 15, 28, 53, 54, 31, 55, 30, 29, 52, 48, 25, 26, 51, 27, 50, 49, 24)
  }

  function Par2(x: bv8): bv8 {
    match x >> 4
    case 0 => Pick(x & 15, 63, 14, 13, 60, 12, 61, 62, 15, 11, 58, 57, 8, 56, 9, 10, 59)
    case 1 => Pick(x & 15, 10, 59, 56, 9, 57, 8, 11, 58, 62, 15, 12, 61, 13, 60, 63, 14)
    case 2 => Pick(x & 15, 9, 56, 59, 10, 58, 11, 8, 57, 61, 12, 15, 62, 14, 63, 60, 13)
    case 3 => Pick(x & 15, 60, 13, 14, 63, 15, 62, 61, 12, 8, 57, 58, 11, 59, 10, 9, 56)
    case 4 => Pick(x & 15, 8, 57, 58, 11, 59, 10, 9, 56, 60, 13, 14, 63, 15, 62, 61, 12)
    case 5 => Pick(x & 15, 61, 12, 15, 62, 14, 63, 60, 13, 9, 56, 59, 10, 58, 11, 8, 57)
    case 6 => Pick(x & 15, 62, 15, 12, 61, 13, 60, 63, 14, 10, 59, 56, 9, 57, 8, 11, 58)
    case 7 => Pick(x & 15, 11, 58, 57, 8, 56, 9, 10, 59, 63, 14, 13, 60, 12, 61, 62, 15)
    case 8 => Pick(x & 15, 31, 46, 45, 28, 44, 29, 30, 47, 43, 26, 25, 40, 24, 41, 42, 27)
    case 9 => Pick(x & 15, 42, 27, 24, 41, 25, 40, 43, 26, 30, 47, 44, 29, 45, 28, 31, 46)
    case 10 => Pick(x & 15, 41, 24, 27, 42, 26, 43, 40, 25, 29, 44, 47, 30, 46, 31, 28, 45)
    case 11 => Pick(x & 15, 28, 45, 46, 31, 47, 30, 29, 44, 40, 25, 26, 43, 27, 42, 41, 24)
    case 12 => Pick(x & 15, 40, 25, 26, 43, 27, 42, 41, 24, 28, 45, 46, 31, 47, 30, 29, 44)
    case 13 => Pick(x & 15, 29, 44, 47, 30, 46, 31, 28, 45, 41, 24, 27, 42, 26, 43, 40, 25)
    case 14 => Pick(x & 15, 30, 47, 44, 29, 45, 28, 31, 46, 42, 27, 24, 41, 25, 40, 43, 26)
    case _ => Pick(x & 15, 43, 26, 25, 40, 24, 41, 42, 27, 31, 46, 45, 28, 44, 29, 30, 47)
  }

  /** hamm24val: the four data bits of the first byte. */
  function Val(x: bv8): bv8 {
    match x >> 4
    case 0 => Pick(x & 15, 0, 0, 0, 0, 1, 1, 1, 1, 0, 0, 0, 0, 1, 1, 1, 1)
    case 1 => Pick(x & 15, 2, 2, 2, 2, 3, 3, 3, 3, 2, 2, 2, 2, 3, 3, 3, 3)
    case 2 => Pick(x & 15, 4, 4, 4, 4, 5, 5, 5, 5, 4, 4, 4, 4, 5, 5, 5, 5)
    case 3 => Pick(x & 15, 6, 6, 6, 6, 7, 7, 7, 7, 6, 6, 6, 6, 7, 7, 7, 7)
    case 4 => Pick(x & 15, 8, 8, 8, 8, 9, 9, 9, 9, 8, 8, 8, 8, 9, 9, 9, 9)
    case 5 => Pick(x & 15, 10, 10, 10, 10, 11, 11, 11, 11, 10, 10, 10, 10, 11, 11, 11, 11)
    case 6 => Pick(x & 15, 12, 12, 12, 12, 13, 13, 13, 13, 12, 12, 12, 12, 13, 13, 13, 13)
    case 7 => Pick(x & 15, 14, 14, 14, 14, 15, 15, 15, 15, 14, 14, 14, 14, 15, 15, 15, 15)
    case 8 => Pick(x & 15, 0, 0, 0, 0, 1, 1, 1, 1, 0, 0, 0, 0, 1, 1, 1, 1)
    case 9 => Pick(x & 15, 2, 2, 2, 2, 3, 3, 3, 3, 2, 2, 2, 2, 3, 3, 3, 3)
    case 10 => Pick(x & 15, 4, 4, 4, 4, 5, 5, 5, 5, 4, 4, 4, 4, 5, 5, 5, 5)
    case 11 => Pick(x & 15, 6, 6, 6, 6, 7, 7, 7, 7, 6, 6, 6, 6, 7, 7, 7, 7)
    case 12 => Pick(x & 15, 8, 8, 8, 8, 9, 9, 9, 9, 8, 8, 8, 8, 9, 9, 9, 9)
    case 13 => Pick(x & 15, 10, 10, 10, 10, 11, 11, 11, 11, 10, 10, 10, 10, 11, 11, 11, 11)
    case 14 => Pick(x & 15, 12, 12, 12, 12, 13, 13, 13, 13, 12, 12, 12, 12, 13, 13, 13, 13)
    case _ => Pick(x & 15, 14, 14, 14, 14, 15, 15, 15, 15, 14, 14, 14, 14, 15, 15, 15, 15)
  }

  /** hamm24err: all ones where the checks show more than one wrong bit. */
  function Err(x: bv8): bv32 {
    match x >> 4
    case 0 => Pick(x & 15, 0, 0xffff_ffff, 0xffff_ffff, 0xffff_ffff, 0xffff_ffff, 0xffff_ffff, 0xffff_ffff, 0xffff_ffff, 0xffff_ffff, 0xffff_ffff, 0xffff_ffff, 0xffff_ffff, 0xffff_ffff, 0xffff_ffff, 0xffff_ffff, 0xffff_ffff)
    case 1 => Pick(x & 15, 0xffff_ffff, 0xffff_ffff, 0xffff_ffff, 0xffff_ffff, 0xffff_ffff, 0xffff_ffff, 0xffff_ffff, 0xffff_ffff, 0xffff_ffff, 0xffff_ffff, 0xffff_ffff, 0xffff_ffff, 0xffff_ffff, 0xffff_ffff, 0xffff_ffff, 0xffff_ffff)
    case 2 => Pick(x & 15, 0, 0, 0, 0, 0, 0, 0, 0, 0, 0, 0, 0, 0, 0, 0, 0)
    case _ => Pick(x & 15, 0, 0, 0, 0, 0, 0, 0, 0, 0xffff_ffff, 0xffff_ffff, 0xffff_ffff, 0xffff_ffff, 0xffff_ffff, 0xffff_ffff, 0xffff_ffff, 0xffff_ffff)
  }

  /** hamm24cor: the data bit to correct. */
  function Cor(x: bv8): bv32 {
    match x >> 4
    case 0 => Pick(x & 15, 0, 0, 0, 0, 0, 0, 0, 0, 0, 0, 0, 0, 0, 0, 0, 0)
    case 1 => Pick(x & 15, 0, 0, 0, 0, 0, 0, 0, 0, 0, 0, 0, 0, 0, 0, 0, 0)
    case 2 => Pick(x & 15, 0, 0, 0, 0x1, 0, 0x2, 0x4, 0x8, 0, 0x10, 0x20, 0x40, 0x80, 0x100, 0x200, 0x400)
    case _ => Pick(x & 15, 0, 0x800, 0x1000, 0x2000, 0x4000, 0x8000, 0x10000, 0x20000, 0, 0, 0, 0, 0, 0, 0, 0)
  }

  /** Three bytes in transmission order, least significant bit first. */
  datatype Triplet = Triplet(p: bv8, q: bv8, r: bv8)

  function Checks(t: Triplet): bv8 { Par0(t.p) ^ Par1(t.q) ^ Par2(t.r) }

  function RawData(t: Triplet): bv32 {
    (Val(t.p) as bv32) + ((t.q & 127) as bv32) * 16 + ((t.r & 127) as bv32) * 2048
  }

  /** deh24, as the bit pattern of its signed result. */
  function Deh24Word(t: Triplet): bv32 { (RawData(t) ^ Cor(Checks(t))) | Err(Checks(t)) }

  // ----- the code

  /** Whether a byte has an odd number of set bits. */
  predicate OddByte(x: bv8) {
    var y := x ^ (x >> 4);
    var z := y ^ (y >> 2);
    (z ^ (z >> 1)) & 1 == 1
  }

  /** An odd number of the three. */
  predicate OddOf(a: bool, b: bool, c: bool) { (a != b) != c }

  predicate TestA(t: Triplet) { OddOf(OddByte(t.p & 0x55), OddByte(t.q & 0x55), OddByte(t.r & 0x55)) }

  predicate TestB(t: Triplet) { OddOf(OddByte(t.p & 0x66), OddByte(t.q & 0x66), OddByte(t.r & 0x66)) }

  predicate TestC(t: Triplet) { OddOf(OddByte(t.p & 0x78), OddByte(t.q & 0x78), OddByte(t.r & 0x78)) }

  predicate TestD(t: Triplet) { OddOf(OddByte(t.p & 0x80), OddByte(t.q & 0x7f), OddByte(t.r & 0x00)) }

  predicate TestE(t: Triplet) { OddOf(OddByte(t.p & 0x00), OddByte(t.q & 0x80), OddByte(t.r & 0x7f)) }

  predicate TestF(t: Triplet) { OddOf(OddByte(t.p & 0xff), OddByte(t.q & 0xff), OddByte(t.r & 0xff)) }

  /** All six tests see an odd number of ones under their masks. */
  predicate IsCodeword(t: Triplet) { TestA(t) && TestB(t) && TestC(t) && TestD(t) && TestE(t) && TestF(t) }

  /** The data bits of each byte: bit 3 and bits 5 to 7 of the first, all but the last of the others. */
  function First(p: bv8): bv32 { (((p >> 2) & 1) | ((p >> 3) & 14)) as bv32 }

  function Second(q: bv8): bv32 { ((q & 127) as bv32) << 4 }

  function Third(r: bv8): bv32 { ((r & 127) as bv32) << 11 }

  /** The data bits D1 to D18. */
  function Data(t: Triplet): bv32 { First(t.p) | Second(t.q) | Third(t.r) }

  /** Exactly one bit set. */
  predicate IsBit(b: bv8) { b == 1 || b == 2 || b == 4 || b == 8 || b == 16 || b == 32 || b == 64 || b == 128 }

  /** A bit of a triplet: its byte and its mask there. */
  datatype Position = InFirst(b: bv8) | InSecond(b: bv8) | InThird(b: bv8)

  /** The triplet with that bit received wrong. */
  function Corrupt(t: Triplet, w: Position): Triplet {
    match w
    case InFirst(b) => t.(p := t.p ^ b)
    case InSecond(b) => t.(q := t.q ^ b)
    case InThird(b) => t.(r := t.r ^ b)
  }

  // ----- the tables are linear

  /** The exclusive or of the columns of the bits that are set. */
  function Columns(x: bv8, c0: bv8, c1: bv8, c2: bv8, c3: bv8, c4: bv8, c5: bv8, c6: bv8, c7: bv8): bv8 {
    (if x & 1 != 0 then c0 else 0) ^ (if x & 2 != 0 then c1 else 0) ^ (if x & 4 != 0 then c2 else 0) ^ (if x & 8 != 0 then c3 else 0)
      ^ (if x & 16 != 0 then c4 else 0) ^ (if x & 32 != 0 then c5 else 0) ^ (if x & 64 != 0 then c6 else 0) ^ (if x & 128 != 0 then c7 else 0)
  }

  lemma Par0Linear(x: bv8)
    ensures Par0(x) == Columns(x, 33, 34, 35, 36, 37, 38, 39, 40)
  {
    match x >> 4
    case 0 => case 1 => case 2 => case 3 => case 4 => case 5 => case 6 => case 7 =>
     case 8 => case 9 => case 10 => case 11 => case 12 => case 13 => case 14 => case _ =>
  }

  lemma Par1Linear(x: bv8)
    ensures Par1(x) == Columns(x, 41, 42, 43, 44, 45, 46, 47, 48)
  {
    match x >> 4
    case 0 => case 1 => case 2 => case 3 => case 4 => case 5 => case 6 => case 7 =>
     case 8 => case 9 => case 10 => case 11 => case 12 => case 13 => case 14 => case _ =>
  }

  lemma Par2LinearLow(x: bv8)
    requires x < 128
    ensures Par2(x) == Columns(x, 49, 50, 51, 52, 53, 54, 55, 32) ^ 63
  {
  }

  lemma Par2LinearHigh(x: bv8)
    requires x >= 128
    ensures Par2(x) == Columns(x, 49, 50, 51, 52, 53, 54, 55, 32) ^ 63
  {
  }

  lemma Par2Linear(x: bv8)
    ensures Par2(x) == Columns(x, 49, 50, 51, 52, 53, 54, 55, 32) ^ 63
  {
    hide Par2, Columns;
    if x < 128 {
      Par2LinearLow(x);
    } else {
      Par2LinearHigh(x);
    }
  }

  /** What a wrong bit of the first byte adds to the checks: its position, and the overall parity. */
  function Column0(b: bv8): bv8 {
    match b
    case 1 => 33 case 2 => 34 case 4 => 35 case 8 => 36 case 16 => 37 case 32 => 38 case 64 => 39 case _ => 40
  }

  lemma Par0FlipLow(x: bv8, b: bv8)
    requires b == 1 || b == 2 || b == 4 || b == 8
    ensures Par0(x ^ b) == Par0(x) ^ Column0(b)
  {
    Par0Linear(x);
    Par0Linear(x ^ b);
    hide Par0;
    match b case 1 => case 2 => case 4 => case _ =>
  }

  lemma Par0FlipHigh(x: bv8, b: bv8)
    requires b == 16 || b == 32 || b == 64 || b == 128
    ensures Par0(x ^ b) == Par0(x) ^ Column0(b)
  {
    Par0Linear(x);
    Par0Linear(x ^ b);
    hide Par0;
    match b case 16 => case 32 => case 64 => case _ =>
  }

  lemma Par0Flip(x: bv8, b: bv8)
    requires IsBit(b)
    ensures Par0(x ^ b) == Par0(x) ^ Column0(b)
  {
    hide Par0, Column0;
    if b <= 8 {
      Par0FlipLow(x, b);
    } else {
      Par0FlipHigh(x, b);
    }
  }

  /** What a wrong bit of the second byte adds to the checks: its position, and the overall parity. */
  function Column1(b: bv8): bv8 {
    match b
    case 1 => 41 case 2 => 42 case 4 => 43 case 8 => 44 case 16 => 45 case 32 => 46 case 64 => 47 case _ => 48
  }

  lemma Par1FlipLow(x: bv8, b: bv8)
    requires b == 1 || b == 2 || b == 4 || b == 8
    ensures Par1(x ^ b) == Par1(x) ^ Column1(b)
  {
    Par1Linear(x);
    Par1Linear(x ^ b);
    hide Par1;
    match b case 1 => case 2 => case 4 => case _ =>
  }

  lemma Par1FlipHigh(x: bv8, b: bv8)
    requires b == 16 || b == 32 || b == 64 || b == 128
    ensures Par1(x ^ b) == Par1(x) ^ Column1(b)
  {
    Par1Linear(x);
    Par1Linear(x ^ b);
    hide Par1;
    match b case 16 => case 32 => case 64 => case _ =>
  }

  lemma Par1Flip(x: bv8, b: bv8)
    requires IsBit(b)
    ensures Par1(x ^ b) == Par1(x) ^ Column1(b)
  {
    hide Par1, Column1;
    if b <= 8 {
      Par1FlipLow(x, b);
    } else {
      Par1FlipHigh(x, b);
    }
  }

  /** What a wrong bit of the third byte adds to the checks: its position, and the overall parity. */
  function Column2(b: bv8): bv8 {
    match b
    case 1 => 49 case 2 => 50 case 4 => 51 case 8 => 52 case 16 => 53 case 32 => 54 case 64 => 55 case _ => 32
  }

  lemma Par2FlipLow(x: bv8, b: bv8)
    requires b == 1 || b == 2 || b == 4 || b == 8
    ensures Par2(x ^ b) == Par2(x) ^ Column2(b)
  {
    Par2Linear(x);
    Par2Linear(x ^ b);
    hide Par2;
    match b case 1 => case 2 => case 4 => case _ =>
  }

  lemma Par2FlipHigh(x: bv8, b: bv8)
    requires b == 16 || b == 32 || b == 64 || b == 128
    ensures Par2(x ^ b) == Par2(x) ^ Column2(b)
  {
    Par2Linear(x);
    Par2Linear(x ^ b);
    hide Par2;
    match b case 16 => case 32 => case 64 => case _ =>
  }

  lemma Par2Flip(x: bv8, b: bv8)
    requires IsBit(b)
    ensures Par2(x ^ b) == Par2(x) ^ Column2(b)
  {
    hide Par2, Column2;
    if b <= 8 {
      Par2FlipLow(x, b);
    } else {
      Par2FlipHigh(x, b);
    }
  }

  /** Bit by bit, the table entries of the first byte are its share in the six tests. */
  lemma Par0Tests(x: bv8)
    ensures OddByte(x & 0x55) <==> Par0(x) & 1 != 0
    ensures OddByte(x & 0x66) <==> Par0(x) & 2 != 0
    ensures OddByte(x & 0x78) <==> Par0(x) & 4 != 0
    ensures OddByte(x & 0x80) <==> Par0(x) & 8 != 0
    ensures OddByte(x & 0x00) <==> Par0(x) & 16 != 0
    ensures OddByte(x & 0xff) <==> Par0(x) & 32 != 0
    ensures Par0(x) < 64
  {
    Par0Linear(x);
    hide Par0;
  }

  /** Bit by bit, the table entries of the second byte are its share in the six tests. */
  lemma Par1Tests(x: bv8)
    ensures OddByte(x & 0x55) <==> Par1(x) & 1 != 0
    ensures OddByte(x & 0x66) <==> Par1(x) & 2 != 0
    ensures OddByte(x & 0x78) <==> Par1(x) & 4 != 0
    ensures OddByte(x & 0x7f) <==> Par1(x) & 8 != 0
    ensures OddByte(x & 0x80) <==> Par1(x) & 16 != 0
    ensures OddByte(x & 0xff) <==> Par1(x) & 32 != 0
    ensures Par1(x) < 64
  {
    Par1Linear(x);
    hide Par1;
  }

  /** Bit by bit, the table entries of the third byte are its share in the six tests. */
  lemma Par2Tests(x: bv8)
    ensures OddByte(x & 0x55) <==> Par2(x) & 1 == 0
    ensures OddByte(x & 0x66) <==> Par2(x) & 2 == 0
    ensures OddByte(x & 0x78) <==> Par2(x) & 4 == 0
    ensures OddByte(x & 0x00) <==> Par2(x) & 8 == 0
    ensures OddByte(x & 0x7f) <==> Par2(x) & 16 == 0
    ensures OddByte(x & 0xff) <==> Par2(x) & 32 == 0
    ensures Par2(x) < 64
  {
    Par2Linear(x);
    hide Par2;
  }

  /** One bit of the exclusive or of three numbers, the third counted inverted. */
  lemma XorBit(x: bv8, y: bv8, z: bv8, m: bv8)
    requires m == 1 || m == 2 || m == 4 || m == 8 || m == 16 || m == 32
    ensures (x ^ y ^ z) & m == 0 <==> (((x & m != 0) != (y & m != 0)) != (z & m == 0))
  {
  }

  lemma TestABit(t: Triplet)
    ensures TestA(t) <==> Checks(t) & 1 == 0
  {
    hide Par0, Par1, Par2, OddByte;
    assert OddByte(t.p & 0x55) <==> Par0(t.p) & 1 != 0 by { Par0Tests(t.p); }
    assert OddByte(t.q & 0x55) <==> Par1(t.q) & 1 != 0 by { Par1Tests(t.q); }
    assert OddByte(t.r & 0x55) <==> Par2(t.r) & 1 == 0 by { Par2Tests(t.r); }
    XorBit(Par0(t.p), Par1(t.q), Par2(t.r), 1);
  }

  lemma TestBBit(t: Triplet)
    ensures TestB(t) <==> Checks(t) & 2 == 0
  {
    hide Par0, Par1, Par2, OddByte;
    assert OddByte(t.p & 0x66) <==> Par0(t.p) & 2 != 0 by { Par0Tests(t.p); }
    assert OddByte(t.q & 0x66) <==> Par1(t.q) & 2 != 0 by { Par1Tests(t.q); }
    assert OddByte(t.r & 0x66) <==> Par2(t.r) & 2 == 0 by { Par2Tests(t.r); }
    XorBit(Par0(t.p), Par1(t.q), Par2(t.r), 2);
  }

  lemma TestCBit(t: Triplet)
    ensures TestC(t) <==> Checks(t) & 4 == 0
  {
    hide Par0, Par1, Par2, OddByte;
    assert OddByte(t.p & 0x78) <==> Par0(t.p) & 4 != 0 by { Par0Tests(t.p); }
    assert OddByte(t.q & 0x78) <==> Par1(t.q) & 4 != 0 by { Par1Tests(t.q); }
    assert OddByte(t.r & 0x78) <==> Par2(t.r) & 4 == 0 by { Par2Tests(t.r); }
    XorBit(Par0(t.p), Par1(t.q), Par2(t.r), 4);
  }

  lemma TestDBit(t: Triplet)
    ensures TestD(t) <==> Checks(t) & 8 == 0
  {
    hide Par0, Par1, Par2, OddByte;
    assert OddByte(t.p & 0x80) <==> Par0(t.p) & 8 != 0 by { Par0Tests(t.p); }
    assert OddByte(t.q & 0x7f) <==> Par1(t.q) & 8 != 0 by { Par1Tests(t.q); }
    assert OddByte(t.r & 0x00) <==> Par2(t.r) & 8 == 0 by { Par2Tests(t.r); }
    XorBit(Par0(t.p), Par1(t.q), Par2(t.r), 8);
  }

  lemma TestEBit(t: Triplet)
    ensures TestE(t) <==> Checks(t) & 16 == 0
  {
    hide Par0, Par1, Par2, OddByte;
    assert OddByte(t.p & 0x00) <==> Par0(t.p) & 16 != 0 by { Par0Tests(t.p); }
    assert OddByte(t.q & 0x80) <==> Par1(t.q) & 16 != 0 by { Par1Tests(t.q); }
    assert OddByte(t.r & 0x7f) <==> Par2(t.r) & 16 == 0 by { Par2Tests(t.r); }
    XorBit(Par0(t.p), Par1(t.q), Par2(t.r), 16);
  }

  lemma TestFBit(t: Triplet)
    ensures TestF(t) <==> Checks(t) & 32 == 0
  {
    hide Par0, Par1, Par2, OddByte;
    assert OddByte(t.p & 0xff) <==> Par0(t.p) & 32 != 0 by { Par0Tests(t.p); }
    assert OddByte(t.q & 0xff) <==> Par1(t.q) & 32 != 0 by { Par1Tests(t.q); }
    assert OddByte(t.r & 0xff) <==> Par2(t.r) & 32 == 0 by { Par2Tests(t.r); }
    XorBit(Par0(t.p), Par1(t.q), Par2(t.r), 32);
  }

  lemma ChecksBelow64(t: Triplet)
    ensures Checks(t) < 64
  {
    Par0Tests(t.p);
    Par1Tests(t.q);
    Par2Tests(t.r);
    hide Par0, Par1, Par2, OddByte;
  }

  lemma SixBits(e: bv8)
    requires e < 64
    ensures e == 0 <==> e & 1 == 0 && e & 2 == 0 && e & 4 == 0 && e & 8 == 0 && e & 16 == 0 && e & 32 == 0
  {
  }

  /** The checks are zero exactly on codewords. */
  lemma CodewordChecks(t: Triplet)
    ensures IsCodeword(t) <==> Checks(t) == 0
  {
    hide Checks, TestA, TestB, TestC, TestD, TestE, TestF;
    ChecksBelow64(t);
    TestABit(t);
    TestBBit(t);
    TestCBit(t);
    TestDBit(t);
    TestEBit(t);
    TestFBit(t);
    SixBits(Checks(t));
  }

  lemma ValBits(x: bv8)
    ensures Val(x) == ((x >> 2) & 1) | ((x >> 3) & 14)
  {
    match x >> 4
    case 0 => case 1 => case 2 => case 3 => case 4 => case 5 => case 6 => case 7 =>
    case 8 => case 9 => case 10 => case 11 => case 12 => case 13 => case 14 => case _ =>
  }

  lemma SumIsUnion(a: bv32, q: bv8, r: bv8)
    requires a < 16
    ensures a + ((q & 127) as bv32) * 16 + ((r & 127) as bv32) * 2048 == a | Second(q) | Third(r)
  {
  }

  lemma FirstIsVal(p: bv8)
    ensures Val(p) as bv32 == First(p) < 16
  {
    ValBits(p);
    hide Val;
  }

  lemma RawIsData(t: Triplet)
    ensures RawData(t) == Data(t)
  {
    hide Val, First, Second, Third;
    FirstIsVal(t.p);
    SumIsUnion(First(t.p), t.q, t.r);
  }

  // ----- one wrong bit is corrected

  lemma MoveLast(x: bv8, y: bv8, z: bv8, c: bv8)
    ensures (x ^ c) ^ y ^ z == x ^ y ^ z ^ c && y ^ (x ^ c) ^ z == y ^ x ^ z ^ c && y ^ z ^ (x ^ c) == y ^ z ^ x ^ c
  {
  }

  lemma WordIs(f: Triplet)
    ensures Deh24Word(f) == (Data(f) ^ Cor(Checks(f))) | Err(Checks(f))
  {
    hide Checks, Data, Err, Cor, RawData;
    RawIsData(f);
  }

  lemma Decoded(f: Triplet, e: bv8, d: bv32)
    requires Checks(f) == e && Err(e) == 0 && Data(f) ^ Cor(e) == d
    ensures Deh24Word(f) == d
  {
    hide Checks, Data, Err, Cor, Deh24Word;
    WordIs(f);
  }

  // For each byte: what a wrong bit does to the checks, and that the tables undo what it does to the data.

  lemma FirstChecks(t: Triplet, f: Triplet, b: bv8)
    requires IsBit(b) && f == t.(p := t.p ^ b)
    ensures Checks(f) == Checks(t) ^ Column0(b)
  {
    hide Par0, Par1, Par2, Column0;
    Par0Flip(t.p, b);
    MoveLast(Par0(t.p), Par1(t.q), Par2(t.r), Column0(b));
  }

  lemma FirstZero(t: Triplet, f: Triplet, b: bv8)
    requires IsBit(b) && Checks(t) == 0 && f == t.(p := t.p ^ b)
    ensures Checks(f) == Column0(b)
  {
    hide Checks, Column0, IsBit;
    FirstChecks(t, f, b);
  }

  lemma FirstData(t: Triplet, f: Triplet, b: bv8)
    requires IsBit(b) && f == t.(p := t.p ^ b)
    ensures Err(Column0(b)) == 0 && Data(f) ^ Cor(Column0(b)) == Data(t)
  {
    match b case 1 => case 2 => case 4 => case 8 => case 16 => case 32 => case 64 => case _ =>
  }

  lemma FirstCorrected(t: Triplet, f: Triplet, b: bv8, d: bv32)
    requires IsBit(b) && Checks(t) == 0 && f == t.(p := t.p ^ b)
    requires Err(Column0(b)) == 0 && Data(f) ^ Cor(Column0(b)) == d
    ensures Deh24Word(f) == d
  {
    hide Checks, Data, Err, Cor, Column0, Deh24Word, IsBit;
    FirstZero(t, f, b);
    Decoded(f, Column0(b), d);
  }

  lemma SecondChecks(t: Triplet, f: Triplet, b: bv8)
    requires IsBit(b) && f == t.(q := t.q ^ b)
    ensures Checks(f) == Checks(t) ^ Column1(b)
  {
    hide Par0, Par1, Par2, Column1;
    Par1Flip(t.q, b);
    MoveLast(Par1(t.q), Par0(t.p), Par2(t.r), Column1(b));
  }

  lemma SecondZero(t: Triplet, f: Triplet, b: bv8)
    requires IsBit(b) && Checks(t) == 0 && f == t.(q := t.q ^ b)
    ensures Checks(f) == Column1(b)
  {
    hide Checks, Column1, IsBit;
    SecondChecks(t, f, b);
  }

  lemma SecondData(t: Triplet, f: Triplet, b: bv8)
    requires IsBit(b) && f == t.(q := t.q ^ b)
    ensures Err(Column1(b)) == 0 && Data(f) ^ Cor(Column1(b)) == Data(t)
  {
    match b case 1 => case 2 => case 4 => case 8 => case 16 => case 32 => case 64 => case _ =>
  }

  lemma SecondCorrected(t: Triplet, f: Triplet, b: bv8, d: bv32)
    requires IsBit(b) && Checks(t) == 0 && f == t.(q := t.q ^ b)
    requires Err(Column1(b)) == 0 && Data(f) ^ Cor(Column1(b)) == d
    ensures Deh24Word(f) == d
  {
    hide Checks, Data, Err, Cor, Column1, Deh24Word, IsBit;
    SecondZero(t, f, b);
    Decoded(f, Column1(b), d);
  }

  lemma ThirdChecks(t: Triplet, f: Triplet, b: bv8)
    requires IsBit(b) && f == t.(r := t.r ^ b)
    ensures Checks(f) == Checks(t) ^ Column2(b)
  {
    hide Par0, Par1, Par2, Column2;
    Par2Flip(t.r, b);
    MoveLast(Par2(t.r), Par0(t.p), Par1(t.q), Column2(b));
  }

  lemma ThirdZero(t: Triplet, f: Triplet, b: bv8)
    requires IsBit(b) && Checks(t) == 0 && f == t.(r := t.r ^ b)
    ensures Checks(f) == Column2(b)
  {
    hide Checks, Column2, IsBit;
    ThirdChecks(t, f, b);
  }

  lemma ThirdData(t: Triplet, f: Triplet, b: bv8)
    requires IsBit(b) && f == t.(r := t.r ^ b)
    ensures Err(Column2(b)) == 0 && Data(f) ^ Cor(Column2(b)) == Data(t)
  {
    match b case 1 => case 2 => case 4 => case 8 => case 16 => case 32 => case 64 => case _ =>
  }

  lemma ThirdCorrected(t: Triplet, f: Triplet, b: bv8, d: bv32)
    requires IsBit(b) && Checks(t) == 0 && f == t.(r := t.r ^ b)
    requires Err(Column2(b)) == 0 && Data(f) ^ Cor(Column2(b)) == d
    ensures Deh24Word(f) == d
  {
    hide Checks, Data, Err, Cor, Column2, Deh24Word, IsBit;
    ThirdZero(t, f, b);
    Decoded(f, Column2(b), d);
  }

  lemma NoneWrong(t: Triplet)
    requires Checks(t) == 0
    ensures Deh24Word(t) == Data(t)
  {
    hide Checks, Data, Deh24Word;
    WordIs(t);
    assert Cor(0) == 0 && Err(0) == 0;
  }

  /** Any codeword received with at most one wrong bit is decoded to its data. */
  lemma OneErrorCorrected(t: Triplet, w: Position)
    requires IsCodeword(t) && IsBit(w.b)
    ensures Deh24Word(t) == Data(t) && Deh24Word(Corrupt(t, w)) == Data(t)
  {
    hide Checks, Deh24Word, Data, IsBit, IsCodeword, Err, Cor, Column0, Column1, Column2;
    CodewordChecks(t);
    NoneWrong(t);
    var f := Corrupt(t, w);
    match w
    case InFirst(b) =>
      FirstData(t, f, b);
      FirstCorrected(t, f, b, Data(t));
    case InSecond(b) =>
      SecondData(t, f, b);
      SecondCorrected(t, f, b, Data(t));
    case InThird(b) =>
      ThirdData(t, f, b);
      ThirdCorrected(t, f, b, Data(t));
  }

  // ----- two wrong bits are reported

  lemma ErrorTable(e: bv8)
    requires 0 < e < 32
    ensures Err(e) == 0xffff_ffff
  {
    match e >> 4 case 0 => case _ =>
  }

  lemma UnlikeColumns(c: bv8, c': bv8)
    requires 32 <= c < 64 && 32 <= c' < 64 && c != c'
    ensures 0 < 0 ^ c ^ c' < 32
  {
  }

  lemma TwoColumns(t: Triplet, g: Triplet, f: Triplet, c: bv8, c': bv8)
    requires Checks(t) == 0 && Checks(g) == Checks(t) ^ c && Checks(f) == Checks(g) ^ c'
    requires 32 <= c < 64 && 32 <= c' < 64 && c != c'
    ensures 0 < Checks(f) < 32
  {
    hide Checks;
    UnlikeColumns(c, c');
  }

  lemma Reported(f: Triplet)
    requires 0 < Checks(f) < 32
    ensures Deh24Word(f) == 0xffff_ffff
  {
    hide Checks, RawData, Cor, Err;
    ErrorTable(Checks(f));
  }

  lemma Column0Range(b: bv8)
    requires IsBit(b)
    ensures 33 <= Column0(b) <= 40
  {
    match b case 1 => case 2 => case 4 => case 8 => case 16 => case 32 => case 64 => case _ =>
  }

  lemma Column0Distinct(b: bv8, b': bv8)
    requires IsBit(b) && IsBit(b') && b != b'
    ensures Column0(b) != Column0(b')
  {
    match b case 1 => case 2 => case 4 => case 8 => case 16 => case 32 => case 64 => case _ =>
  }

  lemma Column1Range(b: bv8)
    requires IsBit(b)
    ensures 41 <= Column1(b) <= 48
  {
    match b case 1 => case 2 => case 4 => case 8 => case 16 => case 32 => case 64 => case _ =>
  }

  lemma Column1Distinct(b: bv8, b': bv8)
    requires IsBit(b) && IsBit(b') && b != b'
    ensures Column1(b) != Column1(b')
  {
    match b case 1 => case 2 => case 4 => case 8 => case 16 => case 32 => case 64 => case _ =>
  }

  lemma Column2Range(b: bv8)
    requires IsBit(b)
    ensures (49 <= Column2(b) <= 55 || Column2(b) == 32)
  {
    match b case 1 => case 2 => case 4 => case 8 => case 16 => case 32 => case 64 => case _ =>
  }

  lemma Column2Distinct(b: bv8, b': bv8)
    requires IsBit(b) && IsBit(b') && b != b'
    ensures Column2(b) != Column2(b')
  {
    match b case 1 => case 2 => case 4 => case 8 => case 16 => case 32 => case 64 => case _ =>
  }

  function Column(w: Position): bv8 {
    match w case InFirst(b) => Column0(b) case InSecond(b) => Column1(b) case InThird(b) => Column2(b)
  }

  lemma CorruptFirstChecks(t: Triplet, w: Position)
    requires IsBit(w.b) && w.InFirst?
    ensures Checks(Corrupt(t, w)) == Checks(t) ^ Column(w)
  {
    hide Checks, IsBit, Column0, Column1, Column2;
    FirstChecks(t, Corrupt(t, w), w.b);
  }

  lemma CorruptSecondChecks(t: Triplet, w: Position)
    requires IsBit(w.b) && w.InSecond?
    ensures Checks(Corrupt(t, w)) == Checks(t) ^ Column(w)
  {
    hide Checks, IsBit, Column0, Column1, Column2;
    SecondChecks(t, Corrupt(t, w), w.b);
  }

  lemma CorruptThirdChecks(t: Triplet, w: Position)
    requires IsBit(w.b) && w.InThird?
    ensures Checks(Corrupt(t, w)) == Checks(t) ^ Column(w)
  {
    hide Checks, IsBit, Column0, Column1, Column2;
    ThirdChecks(t, Corrupt(t, w), w.b);
  }

  lemma CorruptChecks(t: Triplet, w: Position)
    requires IsBit(w.b)
    ensures Checks(Corrupt(t, w)) == Checks(t) ^ Column(w)
  {
    hide *;
    match w
    case InFirst(_) => CorruptFirstChecks(t, w);
    case InSecond(_) => CorruptSecondChecks(t, w);
    case InThird(_) => CorruptThirdChecks(t, w);
  }

  lemma ColumnRange(w: Position)
    requires IsBit(w.b)
    ensures 32 <= Column(w) < 64
    ensures match w case InFirst(_) => 33 <= Column(w) <= 40 case InSecond(_) => 41 <= Column(w) <= 48
      case InThird(_) => 49 <= Column(w) || Column(w) == 32
  {
    hide Column0, Column1, Column2;
    match w
    case InFirst(b) => Column0Range(b);
    case InSecond(b) => Column1Range(b);
    case InThird(b) => Column2Range(b);
  }

  lemma ColumnDistinct(w: Position, w': Position)
    requires IsBit(w.b) && IsBit(w'.b) && w != w'
    ensures Column(w) != Column(w')
  {
    hide Column0, Column1, Column2, IsBit;
    ColumnRange(w);
    ColumnRange(w');
    match w
    case InFirst(b) => if w'.InFirst? { Column0Distinct(b, w'.b); }
    case InSecond(b) => if w'.InSecond? { Column1Distinct(b, w'.b); }
    case InThird(b) => if w'.InThird? { Column2Distinct(b, w'.b); }
  }

  /** Any codeword received with two wrong bits is reported as an error. */
  lemma TwoErrorsReported(t: Triplet, w: Position, w': Position)
    requires IsCodeword(t) && IsBit(w.b) && IsBit(w'.b) && w != w'
    ensures Deh24Word(Corrupt(Corrupt(t, w), w')) == 0xffff_ffff
  {
    hide Checks, IsCodeword, Corrupt, Deh24Word, IsBit, Column;
    CodewordChecks(t);
    var g := Corrupt(t, w);
    CorruptChecks(t, w);
    CorruptChecks(g, w');
    ColumnDistinct(w, w');
    ColumnRange(w);
    ColumnRange(w');
    TwoColumns(t, g, Corrupt(g, w'), Column(w), Column(w'));
    Reported(Corrupt(g, w'));
  }
}