/** A sender of packets X/28 and M/29, after sections 8.3 and 9.4.2 of ETS 300 706, and what the receiver of
    lib/libtuxtxt/tuxtxt_common.h makes of what it sends. */
module ExtensionSender {
  import opened Octets
  import opened BitStreams
  import opened Hamming2418
  import opened ExtensionPackets

  // ----- every 18 bits have a codeword

  /** The data bits at their places. */
  function Placed(d: bv32): Triplet {
    Triplet((((d & 1) << 2) | ((d & 14) << 3)) as bv8, ((d >> 4) & 127) as bv8, ((d >> 11) & 127) as bv8)
  }

  /** The bit to set for a test that does not hold. */
  function Needed(holds: bool, b: bv8): bv8 { if holds then 0 else b }

  function Inverted(t: Triplet, a: bv8, e: bv8, f: bv8): Triplet { Triplet(t.p ^ a, t.q ^ e, t.r ^ f) }

  /** The parity bits of tests A to D, all in the first byte. */
  function FirstParity(t: Triplet): bv8 {
    Needed(TestA(t), 1) | Needed(TestB(t), 2) | Needed(TestC(t), 8) | Needed(TestD(t), 0x80)
  }

  /** Bits 1, 2, 4, 8 and 16 make tests A to E hold, and then bit 24 test F. */
  function Encode(d: bv32): Triplet {
    var t := Placed(d);
    var u := Inverted(t, FirstParity(t), Needed(TestE(t), 0x80), 0);
    Inverted(u, 0, 0, Needed(TestF(u), 0x80))
  }

  /** Bits where parity bits are. */
  predicate ParityBits(a: bv8, e: bv8, f: bv8) { a & 0x74 == 0 && e & 0x7f == 0 && f & 0x7f == 0 }

  lemma SetsA(t: Triplet, a: bv8, e: bv8, f: bv8)
    requires ParityBits(a, e, f) && (a & 1 == 0 <==> TestA(t))
    ensures TestA(Inverted(t, a, e, f))
  {
  }

  lemma SetsB(t: Triplet, a: bv8, e: bv8, f: bv8)
    requires ParityBits(a, e, f) && (a & 2 == 0 <==> TestB(t))
    ensures TestB(Inverted(t, a, e, f))
  {
  }

  lemma SetsC(t: Triplet, a: bv8, e: bv8, f: bv8)
    requires ParityBits(a, e, f) && (a & 8 == 0 <==> TestC(t))
    ensures TestC(Inverted(t, a, e, f))
  {
  }

  lemma SetsD(t: Triplet, a: bv8, e: bv8, f: bv8)
    requires ParityBits(a, e, f) && (a & 0x80 == 0 <==> TestD(t))
    ensures TestD(Inverted(t, a, e, f))
  {
  }

  lemma SetsE(t: Triplet, a: bv8, e: bv8, f: bv8)
    requires ParityBits(a, e, f) && (e & 0x80 == 0 <==> TestE(t))
    ensures TestE(Inverted(t, a, e, f))
  {
  }

  lemma SetsF(t: Triplet)
    ensures TestF(Inverted(t, 0, 0, Needed(TestF(t), 0x80)))
  {
  }

  lemma KeepsData(t: Triplet, a: bv8, e: bv8, f: bv8)
    requires ParityBits(a, e, f)
    ensures Data(Inverted(t, a, e, f)) == Data(t)
  {
  }

  lemma ParityOf(t: Triplet)
    ensures var a := FirstParity(t);
      && a & 0x74 == 0 && (a & 1 == 0 <==> TestA(t)) && (a & 2 == 0 <==> TestB(t)) && (a & 8 == 0 <==> TestC(t))
      && (a & 0x80 == 0 <==> TestD(t))
  {
    hide TestA, TestB, TestC, TestD;
  }

  lemma TwoSteps(t: Triplet, a: bv8, e: bv8, f: bv8)
    ensures Inverted(Inverted(t, a, e, 0), 0, 0, f) == Inverted(t, a, e, f)
  {
  }

  lemma PlacedData(d: bv32)
    ensures Data(Placed(d)) == d & 0x3ffff
  {
  }

  lemma ParityPlaces(a: bv8, x: bool, y: bool)
    requires a & 0x74 == 0
    ensures ParityBits(a, Needed(x, 0x80), Needed(y, 0x80)) && (Needed(x, 0x80) & 0x80 == 0 <==> x)
  {
  }

  /** Every 18 bits have a codeword that carries them. */
  lemma EncodeIsCodeword(d: bv32)
    ensures IsCodeword(Encode(d)) && Data(Encode(d)) == d & 0x3ffff
  {
    hide TestA, TestB, TestC, TestD, TestE, TestF, Data, Placed, FirstParity, Needed, Inverted, ParityBits;
    var t := Placed(d);
    var a, e := FirstParity(t), Needed(TestE(t), 0x80);
    var u := Inverted(t, a, e, 0);
    var f := Needed(TestF(u), 0x80);
    PlacedData(d);
    ParityOf(t);
    ParityPlaces(a, TestE(t), TestF(u));
    TwoSteps(t, a, e, f);
    SetsA(t, a, e, f);
    SetsB(t, a, e, f);
    SetsC(t, a, e, f);
    SetsD(t, a, e, f);
    SetsE(t, a, e, f);
    SetsF(u);
    KeepsData(t, a, e, f);
  }

  // ----- bits, words and numbers

  function WordOf(bits: seq<bool>): bv32 {
    if bits == [] then 0 else (if bits[0] then 1 else 0) | (WordOf(bits[1..]) << 1)
  }

  /** The n low bits of m are set. */
  predicate IsOnes(m: bv32, n: nat) {
    n == 0 || (m & 1 == 1 && IsOnes(m >> 1, n - 1))
  }

  lemma MaskedShift(w: bv32, m: bv32)
    ensures (w & m) >> 1 == (w >> 1) & (m >> 1) && (m & 1 == 1 ==> (w & m) & 1 == w & 1)
  {
  }

  lemma {:induction false} NumberOfMasked(w: bv32, m: bv32, n: nat)
    requires IsOnes(m, n)
    ensures NumberOf(w & m, n) == NumberOf(w, n)
    decreases n
  {
    if n > 0 {
      MaskedShift(w, m);
      NumberOfMasked(w >> 1, m >> 1, n - 1);
    }
  }

  lemma NineOnes(m: bv32, n: nat)
    requires m & 0x1ff == 0x1ff && IsOnes(m >> 9, n)
    ensures IsOnes(m, n + 9)
  {
    assert IsOnes(m >> 8, n + 1) && IsOnes(m >> 7, n + 2) && IsOnes(m >> 6, n + 3) && IsOnes(m >> 5, n + 4);
    assert IsOnes(m >> 4, n + 5) && IsOnes(m >> 3, n + 6) && IsOnes(m >> 2, n + 7) && IsOnes(m >> 1, n + 8);
  }

  lemma Masks()
    ensures IsOnes(0x3ffff, 18) && IsOnes(0x7fff_ffff, 18)
  {
    NineOnes(0x1ff, 0);
    NineOnes(0x3ffff, 9);
    NineOnes(0x3f_ffff, 0);
    NineOnes(0x7fff_ffff, 9);
  }

  lemma {:induction false} FewerOnes(m: bv32, k: nat, n: nat)
    requires IsOnes(m, n) && k <= n
    ensures IsOnes(m, k)
    decreases n
  {
    if k > 0 {
      FewerOnes(m >> 1, k - 1, n - 1);
    }
  }

  lemma Doubled(w: bv32, x: bv32)
    requires x <= 1
    ensures (x | (w << 1)) & 1 == x && (x | (w << 1)) >> 1 == w & 0x7fff_ffff
  {
  }

  lemma NumberOfDoubled(w: bv32, x: bv32, n: nat)
    requires x <= 1 && n < 18
    ensures NumberOf(x | (w << 1), n + 1) == (if x == 1 then 1 else 0) + 2 * NumberOf(w, n)
  {
    hide IsOnes;
    Doubled(w, x);
    Masks();
    FewerOnes(0x7fff_ffff, n, 18);
    NumberOfMasked(w, 0x7fff_ffff, n);
  }

  lemma {:induction false} WordNumber(bits: seq<bool>)
    requires |bits| <= 18
    ensures NumberOf(WordOf(bits), |bits|) == FromBits(bits)
  {
    hide NumberOf;
    if bits == [] {
      NoNumber();
    } else {
      var x: bv32 := if bits[0] then 1 else 0;
      WordNumber(bits[1..]);
      NumberOfDoubled(WordOf(bits[1..]), x, |bits| - 1);
    }
  }

  lemma NoNumber()
    ensures forall w :: NumberOf(w, 0) == 0
  {
  }

  lemma {:induction false} ToFromBits(bits: seq<bool>)
    ensures ToBits(FromBits(bits), |bits|) == bits
  {
    if bits != [] {
      ToFromBits(bits[1..]);
      assert FromBits(bits) / 2 == FromBits(bits[1..]);
    }
  }

  lemma TripletCarries(bits: seq<bool>)
    requires |bits| == 18
    ensures IsCodeword(Encode(WordOf(bits))) && ToBits(NumberOf(Data(Encode(WordOf(bits))), 18), 18) == bits
  {
    hide IsCodeword, Data, Encode, WordOf, ToBits, NumberOf, IsOnes;
    EncodeIsCodeword(WordOf(bits));
    Masks();
    NumberOfMasked(WordOf(bits), 0x3ffff, 18);
    WordNumber(bits);
    ToFromBits(bits);
  }

  // ----- rows of triplets

  /** Thirteen triplets for 234 bits, and any other multiple of 18 likewise. */
  function Triplets(bits: seq<bool>, n: nat): (sent: seq<Triplet>)
    requires |bits| == 18 * n
    ensures |sent| == n
  {
    if n == 0 then [] else Triplets(bits[..18 * (n - 1)], n - 1) + [Encode(WordOf(bits[18 * (n - 1)..]))]
  }

  lemma {:induction false} TripletsCarry(bits: seq<bool>, n: nat)
    requires |bits| == 18 * n
    ensures forall i :: 0 <= i < n ==> IsCodeword(Triplets(bits, n)[i])
    ensures SentBits(Triplets(bits, n)) == bits
  {
    hide IsCodeword, Data, Encode, WordOf, ToBits, NumberOf;
    if n > 0 {
      var front, last := bits[..18 * (n - 1)], bits[18 * (n - 1)..];
      TripletsCarry(front, n - 1);
      TripletCarries(last);
      var sent := Triplets(bits, n);
      assert sent[..n - 1] == Triplets(front, n - 1) && sent[n - 1] == Encode(WordOf(last));
      assert front + last == bits;
    }
  }

  // ----- the fields

  datatype Fields = Fields(
    coding: nat, defaultCharset: nat, secondCharset: nat, leftPanel: bool, rightPanel: bool, panels25: bool, leftColumns: nat,
    bgr: seq<nat>, screenColor: nat, rowColor: nat, blackSubstitution: bool, remapping: nat) {

    predicate Valid() {
      && coding < Pow2(7) && defaultCharset < Pow2(7) && secondCharset < Pow2(7) && leftColumns < Pow2(4)
      && |bgr| == 16 && (forall k :: 0 <= k < 16 ==> bgr[k] < Pow2(12))
      && screenColor < Pow2(5) && rowColor < Pow2(5) && remapping < Pow2(3)
    }

    /** Page function and coding, character sets, panels. */
    function Head(): (bits: seq<bool>)
      ensures |bits| == 28
    {
      ToBits(coding, 7) + ToBits(defaultCharset, 7) + ToBits(secondCharset, 7) + [leftPanel, rightPanel, panels25] + ToBits(leftColumns, 4)
    }

    function Tail(): (bits: seq<bool>)
      ensures |bits| == 14
    {
      ToBits(screenColor, 5) + ToBits(rowColor, 5) + [blackSubstitution] + ToBits(remapping, 3)
    }

    function Bits(): (bits: seq<bool>)
      requires |bgr| == 16
      ensures |bits| == 234
    {
      Head() + Colors(bgr) + Tail()
    }
  }

  function Colors(bgr: seq<nat>): (bits: seq<bool>)
    ensures |bits| == 12 * |bgr|
  {
    if bgr == [] then [] else Colors(bgr[..|bgr| - 1]) + ToBits(bgr[|bgr| - 1], 12)
  }

  lemma {:induction false} LowBitsOf(v: nat, n: nat)
    requires v < Pow2(n)
    ensures LowBits(v, n) == v
    decreases n
  {
    if n > 0 {
      LowBitsOf(v / 2, n - 1);
    }
  }

  /** A number among other bits. */
  lemma FieldBack(before: seq<bool>, v: nat, n: nat, after: seq<bool>)
    requires v < Pow2(n)
    ensures Field(before + ToBits(v, n) + after, |before|, n) == v
  {
    hide ToBits, FromBits;
    FromToBits(v, n);
    LowBitsOf(v, n);
    assert (before + ToBits(v, n) + after)[|before|..|before| + n] == ToBits(v, n);
  }

  lemma {:induction false} ColorsSplit(bgr: seq<nat>, k: nat)
    requires k < |bgr|
    ensures exists before, after :: |before| == 12 * k && Colors(bgr) == before + ToBits(bgr[k], 12) + after
  {
    hide ToBits;
    var n := |bgr| - 1;
    if k == n {
      assert Colors(bgr) == Colors(bgr[..n]) + ToBits(bgr[k], 12) + [];
    } else {
      ColorsSplit(bgr[..n], k);
      var before, after :| |before| == 12 * k && Colors(bgr[..n]) == before + ToBits(bgr[..n][k], 12) + after;
      assert Colors(bgr) == before + ToBits(bgr[k], 12) + (after + ToBits(bgr[n], 12));
    }
  }

  lemma ColorBack(f: Fields, k: nat)
    requires f.Valid() && k < 16
    ensures Field(f.Bits(), 28 + 12 * k, 12) == f.bgr[k]
  {
    hide ToBits, Fields.Head, Fields.Tail, Pow2, Colors, Field;
    ColorsSplit(f.bgr, k);
    var before, after :| |before| == 12 * k && Colors(f.bgr) == before + ToBits(f.bgr[k], 12) + after;
    assert f.Bits() == f.Head() + before + ToBits(f.bgr[k], 12) + (after + f.Tail());
    FieldBack(f.Head() + before, f.bgr[k], 12, after + f.Tail());
  }

  /** The receiver's structure says what the fields say. */
  ghost predicate Says(ext: ExtensionData, f: Fields)
    requires f.Valid()
    reads ext, ext.bgr
  {
    && ext.received && ext.bgr[..] == f.bgr
    && ext.defaultCharset == f.defaultCharset && ext.secondCharset == f.secondCharset
    && ext.leftPanel == f.leftPanel && ext.rightPanel == f.rightPanel && ext.panels25 == f.panels25
    && ext.leftColumns == f.leftColumns && ext.screenColor == f.screenColor && ext.rowColor == f.rowColor
    && ext.blackSubstitution == f.blackSubstitution && ext.remapping == f.remapping
  }

  lemma HeadBack(f: Fields, rest: seq<bool>)
    requires f.Valid()
    ensures var bits := f.Head() + rest;
      && Field(bits, 7, 7) == f.defaultCharset && Field(bits, 14, 7) == f.secondCharset
      && bits[21] == f.leftPanel && bits[22] == f.rightPanel && bits[23] == f.panels25 && Field(bits, 24, 4) == f.leftColumns
  {
    hide ToBits, Pow2, Field;
    var a, b, c, d := ToBits(f.coding, 7), ToBits(f.defaultCharset, 7), ToBits(f.secondCharset, 7), ToBits(f.leftColumns, 4);
    var flags, bits := [f.leftPanel, f.rightPanel, f.panels25], f.Head() + rest;
    assert bits == a + b + (c + flags + d + rest);
    FieldBack(a, f.defaultCharset, 7, c + flags + d + rest);
    assert bits == (a + b) + c + (flags + d + rest);
    FieldBack(a + b, f.secondCharset, 7, flags + d + rest);
    assert bits == (a + b + c + flags) + d + rest;
    FieldBack(a + b + c + flags, f.leftColumns, 4, rest);
  }

  lemma TailBack(f: Fields, front: seq<bool>)
    requires f.Valid() && |front| == 220
    ensures var bits := front + f.Tail();
      && Field(bits, 220, 5) == f.screenColor && Field(bits, 225, 5) == f.rowColor
      && bits[230] == f.blackSubstitution && Field(bits, 231, 3) == f.remapping
  {
    hide ToBits, Pow2, Field;
    var a, b, flag, c := ToBits(f.screenColor, 5), ToBits(f.rowColor, 5), [f.blackSubstitution], ToBits(f.remapping, 3);
    var bits := front + f.Tail();
    assert bits == front + a + (b + flag + c);
    FieldBack(front, f.screenColor, 5, b + flag + c);
    assert bits == (front + a) + b + (flag + c);
    FieldBack(front + a, f.rowColor, 5, flag + c);
    assert bits == (front + a + b + flag) + c + [];
    FieldBack(front + a + b + flag, f.remapping, 3, []);
  }

  /** The places of DecodeP2829 are those of the sender. */
  lemma FieldsBack(f: Fields, ext: ExtensionData)
    requires f.Valid() && ext.bgr.Length == 16 && ext.received
    requires ext.HeadIs(f.Bits()) && ext.ColorsAre(f.Bits(), 16) && ext.TailIs(f.Bits())
    ensures Says(ext, f)
  {
    hide Fields.Head, Fields.Tail, Colors, Field, Pow2;
    HeadBack(f, Colors(f.bgr) + f.Tail());
    assert f.Bits() == f.Head() + (Colors(f.bgr) + f.Tail());
    TailBack(f, f.Head() + Colors(f.bgr));
    forall k | 0 <= k < 16
      ensures ext.bgr[k] == f.bgr[k]
    {
      ColorBack(f, k);
    }
  }

  /** The row of a packet as it arrives: at most one bit wrong in each triplet. */
  ghost predicate Arrives(f: Fields, row: seq<bv8>)
    requires f.Valid() && |row| == ROW
  {
    var sent := Triplets(f.Bits(), TRIPLETS);
    forall i :: 0 <= i < TRIPLETS ==> NearlyReceived(sent[i], Triplet(row[3 * i + 3], row[3 * i + 4], row[3 * i + 5]))
  }

  lemma ArrivesReadable(f: Fields, row: seq<bv8>)
    requires f.Valid() && |row| == ROW && Arrives(f, row)
    ensures Readable(row, TRIPLETS) && Readable(row, 2) && Stream(row, TRIPLETS) == f.Bits()
  {
    hide IsCodeword, NearlyReceived, TripletAt, Fields.Bits, Triplets, Stream, Readable;
    var sent := Triplets(f.Bits(), TRIPLETS);
    TripletsCarry(f.Bits(), TRIPLETS);
    forall i | 0 <= i < TRIPLETS
      ensures NearlyReceived(sent[i], TripletAt(row, 3 + 3 * i))
    {
      TripletBytes(row, i);
    }
    RowCorrected(sent, row);
    AllReadable(row);
  }

  lemma TripletBytes(row: seq<bv8>, i: nat)
    requires |row| == ROW && i < TRIPLETS
    ensures TripletAt(row, 3 + 3 * i) == Triplet(row[3 * i + 3], row[3 * i + 4], row[3 * i + 5])
  {
  }

  /** tuxtxt_decode_p2829 on what a sender made of some fields, with up to one wrong bit in each triplet: the same fields. */
  method DecodeSent(row: seq<bv8>, ptExtData: ExtensionData?, ghost f: Fields) returns (ext: ExtensionData?)
    requires f.Valid() && |row| == ROW && Arrives(f, row) && (ptExtData != null ==> ptExtData.bgr.Length == 16)
    modifies ptExtData, if ptExtData != null then {ptExtData.bgr} else {}
    ensures ext != null && Says(ext, f) && (ptExtData != null ==> ext == ptExtData)
  {
    hide Arrives, Stream, Readable, Fields.Bits, Fields.Valid;
    ArrivesReadable(f, row);
    ext := DecodeP2829(row, ptExtData);
    FieldsBack(f, ext);
  }
}
