/** One cached teletext page of lib/libtuxtxt: 920 bytes stored as a bitmask of run starts and the bytes that start the runs. */
module PageCompression {
  import opened Collections
  import opened Octets

  const PAGE_BYTES: nat := 920
  const MASK_BYTES: nat := 115
  const SPACE: byte := 0x20

  /** b & (0x80 >> k) */
  predicate TestBit(b: bv8, k: nat)
    requires k < 8
  {
    match k
    case 0 => b & 0x80 != 0
    case 1 => b & 0x40 != 0
    case 2 => b & 0x20 != 0
    case 3 => b & 0x10 != 0
    case 4 => b & 0x08 != 0
    case 5 => b & 0x04 != 0
    case 6 => b & 0x02 != 0
    case _ => b & 0x01 != 0
  }

  /** b | (0x80 >> k) */
  function SetBit(b: bv8, k: nat): bv8
    requires k < 8
  {
    match k
    case 0 => b | 0x80
    case 1 => b | 0x40
    case 2 => b | 0x20
    case 3 => b | 0x10
    case 4 => b | 0x08
    case 5 => b | 0x04
    case 6 => b | 0x02
    case _ => b | 0x01
  }

  lemma SetBitSets(b: bv8, k: nat, j: nat)
    requires k < 8 && j < 8
    ensures TestBit(SetBit(b, k), j) <==> j == k || TestBit(b, j)
  {
    match k
    case 0 =>
    case 1 =>
    case 2 =>
    case 3 =>
    case 4 =>
    case 5 =>
    case 6 =>
    case _ =>
  }

  function MaskBits(mask: seq<bv8>): (bits: seq<bool>)
    requires |mask| == MASK_BYTES
    ensures |bits| == PAGE_BYTES
  {
    seq(PAGE_BYTES, i requires 0 <= i < PAGE_BYTES => TestBit(mask[i / 8], i % 8))
  }

  /** Which positions of s start a run of equal bytes. */
  function Starts(s: seq<byte>): (bits: seq<bool>)
    ensures |bits| == |s|
  {
    seq(|s|, i requires 0 <= i < |s| => i == 0 || s[i] != s[i - 1])
  }

  function Count(bits: seq<bool>): (n: nat)
    ensures n <= |bits|
  {
    if bits == [] then 0 else Count(bits[..|bits| - 1]) + if bits[|bits| - 1] then 1 else 0
  }

  /** The first bytes of the runs of s. */
  function Heads(s: seq<byte>): seq<byte> {
    if s == [] then []
    else
      var n := |s| - 1;
      Heads(s[..n]) + if n == 0 || s[n] != s[n - 1] then [s[n]] else []
  }

  /** The runs of s, each a byte and how often it is repeated. */
  function Runs(s: seq<byte>): seq<(byte, nat)> {
    if s == [] then []
    else
      var n := |s| - 1;
      var r := Runs(s[..n]);
      if r != [] && r[|r| - 1].0 == s[n] then r[..|r| - 1] + [(s[n], r[|r| - 1].1 + 1)] else r + [(s[n], 1)]
  }

  /** The bytes a bitmask and its run bytes stand for; before the first run there are spaces. */
  function Expand(bits: seq<bool>, data: seq<byte>): (s: seq<byte>)
    requires Count(bits) <= |data|
    ensures |s| == |bits|
  {
    if bits == [] then []
    else
      var n := |bits| - 1;
      var r := Expand(bits[..n], data);
      r + [if bits[n] then data[Count(bits[..n])] else if n == 0 then SPACE else r[n - 1]]
  }

  lemma StartsPrefix(s: seq<byte>, n: nat)
    requires n <= |s|
    ensures Starts(s)[..n] == Starts(s[..n])
  {
  }

  lemma {:induction false} HeadsCounted(s: seq<byte>)
    ensures |Heads(s)| == Count(Starts(s))
  {
    if s != [] {
      HeadsCounted(s[..|s| - 1]);
      StartsPrefix(s, |s| - 1);
    }
  }

  /** Only as many run bytes as there are run starts are looked at. */
  lemma {:induction false} ExpandPrefix(bits: seq<bool>, data: seq<byte>, more: seq<byte>)
    requires Count(bits) <= |data|
    ensures Expand(bits, data + more) == Expand(bits, data)
  {
    if bits != [] {
      ExpandPrefix(bits[..|bits| - 1], data, more);
    }
  }

  /** Decompressing what was compressed gives the page back, whatever its bytes. */
  lemma {:induction false} RoundTrip(s: seq<byte>)
    ensures Count(Starts(s)) == |Heads(s)| && Expand(Starts(s), Heads(s)) == s
  {
    HeadsCounted(s);
    if s != [] {
      var n := |s| - 1;
      RoundTrip(s[..n]);
      StartsPrefix(s, n);
      ExpandPrefix(Starts(s[..n]), Heads(s[..n]), Heads(s)[|Heads(s[..n])|..]);
      assert Heads(s) == Heads(s[..n]) + Heads(s)[|Heads(s[..n])|..];
    }
  }

  lemma {:induction false} LastRun(s: seq<byte>)
    requires s != []
    ensures Runs(s) != [] && Runs(s)[|Runs(s)| - 1].0 == s[|s| - 1]
  {
    if |s| > 1 {
      LastRun(s[..|s| - 1]);
    }
  }

  /** One stored byte and one mask bit for each run of equal bytes. */
  lemma {:induction false} OneByteForEachRun(s: seq<byte>)
    ensures |Runs(s)| == |Heads(s)| == Count(Starts(s))
    ensures forall i :: 0 <= i < |Runs(s)| ==> Runs(s)[i].0 == Heads(s)[i]
  {
    HeadsCounted(s);
    if s != [] {
      OneByteForEachRun(s[..|s| - 1]);
      if |s| > 1 {
        LastRun(s[..|s| - 1]);
      }
    }
  }

  lemma {:induction false} NoStarts(bits: seq<bool>, data: seq<byte>)
    requires forall i :: 0 <= i < |bits| ==> !bits[i]
    ensures Count(bits) == 0 && Expand(bits, data) == seq(|bits|, _ => SPACE)
  {
    if bits != [] {
      NoStarts(bits[..|bits| - 1], data);
    }
  }

  function Blank(): (s: seq<byte>)
    ensures |s| == PAGE_BYTES
  {
    seq(PAGE_BYTES, _ => SPACE)
  }

  /** tstCachedPage: what the cache keeps of rows 1 to 23. */
  class CachedPage {
    var bitmask: seq<bv8>
    var pData: Option<seq<byte>>

    /** A page just allocated and erased. */
    constructor ()
      ensures Valid() && Image() == Blank()
    {
      bitmask := seq(MASK_BYTES, _ => 0);
      pData := None;
    }

    ghost function Bits(): (bits: seq<bool>)
      requires |bitmask| == MASK_BYTES
      reads this
      ensures |bits| == PAGE_BYTES
    {
      MaskBits(bitmask)
    }

    ghost predicate Valid()
      reads this
    {
      && |bitmask| == MASK_BYTES
      && (pData.Some? ==> Count(Bits()) <= |pData.value|)
    }

    /** The page this entry stands for. */
    ghost function Image(): (s: seq<byte>)
      requires Valid()
      reads this
      ensures |s| == PAGE_BYTES
    {
      if pData.None? then Blank() else Expand(Bits(), pData.value)
    }

    /** memset(bitmask, 0, sizeof(bitmask)) */
    method EraseMask()
      requires Valid()
      modifies `bitmask
      ensures |bitmask| == MASK_BYTES && Bits() == seq(PAGE_BYTES, _ => false)
      ensures Valid() && Image() == Blank()
    {
      bitmask := seq(MASK_BYTES, _ => 0);
      assert Bits() == seq(PAGE_BYTES, _ => false);
      NoStarts(Bits(), if pData.Some? then pData.value else []);
    }

    /** tuxtxt_compress_page on an allocated entry. */
    method Compress(buffer: array<byte>)
      requires Valid() && buffer.Length == PAGE_BYTES
      modifies this
      ensures Valid() && Image() == buffer[..]
      ensures Bits() == Starts(buffer[..]) && pData == Some(Heads(buffer[..]))
      ensures Count(Bits()) == |Runs(buffer[..])| == |pData.value|
    {
      hide Count, Heads, Starts, Expand, Runs;
      var cbuf := FillMask(buffer);
      pData := Some(cbuf);
      RoundTrip(buffer[..]);
      OneByteForEachRun(buffer[..]);
    }

    /** The loop of the compression: sets the mask and collects the run bytes. */
    method FillMask(buffer: array<byte>) returns (cbuf: seq<byte>)
      requires Valid() && buffer.Length == PAGE_BYTES
      modifies `bitmask
      ensures |bitmask| == MASK_BYTES && Bits() == Starts(buffer[..]) && cbuf == Heads(buffer[..])
    {
      hide TestBit, SetBit;
      EraseMask();
      cbuf := [];
      var i := 0;
      while i < PAGE_BYTES
        invariant 0 <= i <= PAGE_BYTES
        invariant |bitmask| == MASK_BYTES && cbuf == Heads(buffer[..i])
        invariant forall k :: 0 <= k < PAGE_BYTES ==> (Bits()[k] <==> k < i && Starts(buffer[..])[k])
      {
        assert buffer[..i + 1][..i] == buffer[..i];
        if i == 0 || buffer[i] != buffer[i - 1] {
          MarkStart(i);
          cbuf := cbuf + [buffer[i]];
        }
        i := i + 1;
      }
      assert buffer[..PAGE_BYTES] == buffer[..];
    }

    method MarkStart(i: nat)
      requires |bitmask| == MASK_BYTES && i < PAGE_BYTES
      modifies `bitmask
      ensures |bitmask| == MASK_BYTES && Bits() == old(Bits())[i := true]
    {
      hide TestBit, SetBit;
      bitmask := bitmask[i / 8 := SetBit(bitmask[i / 8], i % 8)];
      forall k | 0 <= k < PAGE_BYTES
        ensures Bits()[k] == old(Bits())[i := true][k]
      {
        if k / 8 == i / 8 {
          SetBitSets(old(bitmask[i / 8]), i % 8, k % 8);
        }
      }
    }

    /** tuxtxt_decompress_page on an allocated entry. */
    method Decompress(buffer: array<byte>)
      requires Valid() && buffer.Length == PAGE_BYTES
      modifies buffer
      ensures buffer[..] == Image()
    {
      forall i | 0 <= i < PAGE_BYTES {
        buffer[i] := SPACE;
      }
      if pData.Some? {
        Unpack(pData.value, buffer);
      }
    }

    /** The loop of the decompression. */
    method Unpack(data: seq<byte>, buffer: array<byte>)
      requires |bitmask| == MASK_BYTES && Count(Bits()) <= |data| && buffer.Length == PAGE_BYTES
      modifies buffer
      ensures buffer[..] == Expand(Bits(), data)
    {
      hide TestBit, Count;
      ghost var bits := Bits();
      var c: byte := SPACE;
      var j := 0;
      var i := 0;
      CountNone();
      CountPrefix(bits, 0);
      while i < PAGE_BYTES
        invariant 0 <= i <= PAGE_BYTES
        invariant j == Count(bits[..i]) <= Count(bits) <= |data|
        invariant buffer[..i] == Expand(bits[..i], data)
        invariant c == if i == 0 then SPACE else buffer[i - 1]
      {
        CountPrefix(bits, i + 1);
        CountLast(bits[..i + 1]);
        assert bits[..i + 1][..i] == bits[..i];
        if TestBit(bitmask[i / 8], i % 8) {
          c, j := data[j], j + 1;
        }
        ghost var before := buffer[..i];
        buffer[i] := c;
        assert buffer[..i + 1] == before + [c];
        i := i + 1;
      }
      assert bits[..PAGE_BYTES] == bits && buffer[..PAGE_BYTES] == buffer[..];
    }

    /** tuxtxt_get_zipsize on an allocated entry. */
    method ZipSize() returns (zipsize: nat)
      requires Valid()
      ensures zipsize == Count(Bits()) + MASK_BYTES
    {
      hide TestBit, Count;
      zipsize := 0;
      ghost var bits := Bits();
      CountNone();
      var i := 0;
      while i < MASK_BYTES
        invariant 0 <= i <= MASK_BYTES
        invariant zipsize == Count(bits[..8 * i])
      {
        var ones := OnesIn(i);
        CountConcat(bits[..8 * i], bits[8 * i..8 * i + 8]);
        assert bits[..8 * (i + 1)] == bits[..8 * i] + bits[8 * i..8 * i + 8];
        zipsize := zipsize + ones;
        i := i + 1;
      }
      assert bits[..PAGE_BYTES] == bits;
      zipsize := zipsize + MASK_BYTES;
    }

    /** The inner loop: bitmask[i] >> j & 1 for j from 0 to 7. */
    method OnesIn(i: nat) returns (n: nat)
      requires |bitmask| == MASK_BYTES && i < MASK_BYTES
      ensures n == Count(Bits()[8 * i..8 * i + 8])
    {
      hide TestBit, Count;
      n := 0;
      ghost var bits := Bits()[8 * i..8 * i + 8];
      assert forall k :: 0 <= k < 8 ==> bits[k] == TestBit(bitmask[i], k);
      CountNone();
      var j := 0;
      while j < 8
        invariant 0 <= j <= 8
        invariant n == Count(bits[8 - j..])
      {
        CountFirst(bits[7 - j..]);
        n := n + if TestBit(bitmask[i], 7 - j) then 1 else 0;
        j := j + 1;
      }
    }
  }

  lemma CountLast(bits: seq<bool>)
    requires bits != []
    ensures Count(bits) == Count(bits[..|bits| - 1]) + if bits[|bits| - 1] then 1 else 0
  {
  }

  lemma CountNone()
    ensures Count([]) == 0
  {
  }

  lemma {:induction false} CountConcat(a: seq<bool>, b: seq<bool>)
    ensures Count(a + b) == Count(a) + Count(b)
  {
    if b == [] {
      assert a + b == a;
    } else {
      assert (a + b)[..|a + b| - 1] == a + b[..|b| - 1];
      CountConcat(a, b[..|b| - 1]);
    }
  }

  lemma CountFirst(bits: seq<bool>)
    requires bits != []
    ensures Count(bits) == (if bits[0] then 1 else 0) + Count(bits[1..])
  {
    CountConcat(bits[..1], bits[1..]);
    assert bits == bits[..1] + bits[1..];
  }

  lemma {:induction false} CountPrefix(bits: seq<bool>, n: nat)
    requires n <= |bits|
    ensures Count(bits[..n]) <= Count(bits)
    decreases |bits|
  {
    if n == |bits| {
      assert bits[..n] == bits;
    } else {
      assert bits[..|bits| - 1][..n] == bits[..n];
      CountPrefix(bits[..|bits| - 1], n);
    }
  }
}
