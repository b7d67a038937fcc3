/** The ring buffer of src/driver/ringbuffer.c: one writer, one reader, and vectors of one or two stretches. */
module RingBuffers {
  import opened Collections
  import opened Octets

  /** One or two stretches of the ring; the second always starts at its first cell. */
  datatype Vector = Vector(at: nat, len0: nat, len1: nat)

  datatype Ring = Ring(cells: seq<byte>, rd: nat, wr: nat) {
    function Size(): nat { |cells| }

    predicate Valid() {
      rd < Size() && wr < Size()
    }

    /** x & size_mask, for a position at most one round ahead */
    function Masked(x: nat): nat {
      if x >= Size() then x - Size() else x
    }

    function ReadSpace(): nat
      requires Valid()
    {
      if wr > rd then wr - rd else Masked(wr + Size() - rd)
    }

    function WriteSpace(): nat
      requires Valid()
    {
      if wr > rd then rd + Size() - wr - 1 else if wr < rd then rd - wr - 1 else Size() - 1
    }

    function VectorFrom(at: nat, n: nat): Vector
      requires at < Size()
    {
      if at + n > Size() then Vector(at, Size() - at, at + n - Size()) else Vector(at, n, 0)
    }

    function ReadVector(): Vector
      requires Valid()
    {
      VectorFrom(rd, ReadSpace())
    }

    function WriteVector(): Vector
      requires Valid()
    {
      VectorFrom(wr, WriteSpace())
    }

    /** What was written and not yet read. */
    function Contents(): seq<byte>
      requires Valid()
    {
      if wr >= rd then cells[rd..wr] else cells[rd..] + cells[..wr]
    }

    /** Bytes copied into the cells from a position on. */
    function Fill(at: nat, bytes: seq<byte>): Ring
      requires at + |bytes| <= Size()
    {
      this.(cells := cells[..at] + bytes + cells[at + |bytes|..])
    }

    function WriteAdvance(n: nat): Ring
      requires Valid()
    {
      this.(wr := Masked(wr + n))
    }

    function ReadAdvance(n: nat): Ring
      requires Valid()
    {
      this.(rd := Masked(rd + n))
    }
  }

  lemma SpaceShared(r: Ring)
    requires r.Valid()
    ensures r.ReadSpace() == |r.Contents()| && r.ReadSpace() + r.WriteSpace() == r.Size() - 1
  {
  }

  /** A vector covers what it is asked for, and a second stretch is only there behind the end of the ring. */
  lemma VectorCovers(r: Ring, at: nat, n: nat)
    requires r.Valid() && at < r.Size() && n < r.Size()
    ensures var v := r.VectorFrom(at, n);
      && v.at == at && v.len0 + v.len1 == n && v.at + v.len0 <= r.Size() && v.len1 <= at
      && (v.len1 > 0 ==> v.at + v.len0 == r.Size()) && (n > 0 ==> v.len0 > 0)
  {
  }

  /** What the vector for reading shows is the contents. */
  lemma VectorShows(r: Ring)
    requires r.Valid()
    ensures var v := r.ReadVector(); v.at + v.len0 <= r.Size() && v.len1 <= r.Size() && r.cells[v.at..v.at + v.len0] + r.cells[..v.len1] == r.Contents()
  {
    var v := r.ReadVector();
    if v.len1 == 0 {
      assert r.cells[v.at..v.at + v.len0] + r.cells[..0] == r.cells[v.at..v.at + v.len0];
      assert r.wr < r.rd ==> r.wr == 0 && r.cells[r.rd..] + r.cells[..0] == r.cells[r.rd..];
    } else {
      assert v.len1 == r.wr && v.at + v.len0 == r.Size();
    }
  }

  /** Cells from the write position on, one stretch of the free space. */
  predicate FreeStretch(r: Ring, n: nat)
    requires r.Valid()
  {
    n <= r.WriteSpace() && r.wr + n <= r.Size()
  }

  lemma FillUnseen(r: Ring, bytes: seq<byte>)
    requires r.Valid() && FreeStretch(r, |bytes|)
    ensures r.Fill(r.wr, bytes).Valid() && r.Fill(r.wr, bytes).Contents() == r.Contents()
  {
    var q := r.Fill(r.wr, bytes);
    assert q.cells[..r.wr] == r.cells[..r.wr];
    if r.wr >= r.rd {
      assert q.cells[r.rd..r.wr] == r.cells[r.rd..r.wr];
    } else {
      assert q.cells[r.rd..] == r.cells[r.rd..];
    }
  }

  lemma AdvanceShows(r: Ring, n: nat)
    requires r.Valid() && FreeStretch(r, n)
    ensures r.WriteAdvance(n).Valid() && r.WriteAdvance(n).Contents() == r.Contents() + r.cells[r.wr..r.wr + n]
    ensures r.WriteAdvance(n).WriteSpace() == r.WriteSpace() - n
  {
    var q, added := r.WriteAdvance(n), r.cells[r.wr..r.wr + n];
    if r.wr >= r.rd {
      assert r.cells[r.rd..r.wr + n] == r.cells[r.rd..r.wr] + added;
      if r.wr + n == r.Size() {
        assert q.Contents() == r.cells[r.rd..] + r.cells[..0] == r.cells[r.rd..r.wr] + added;
      }
    } else {
      assert r.cells[..r.wr + n] == r.cells[..r.wr] + added;
      assert r.cells[r.rd..] + (r.cells[..r.wr] + added) == r.Contents() + added;
    }
  }

  lemma ReadStraight(r: Ring, n: nat)
    requires r.Valid() && r.wr >= r.rd && n <= r.ReadSpace()
    ensures r.cells[r.rd..r.rd + n] == r.Contents()[..n] && r.ReadAdvance(n).Contents() == r.Contents()[n..]
  {
    assert r.ReadAdvance(n).rd == r.rd + n <= r.wr;
    assert r.ReadAdvance(n).Contents() == r.cells[r.rd + n..r.wr];
    SubSlice(r.cells, r.rd, r.wr, 0, n);
    SubSlice(r.cells, r.rd, r.wr, n, r.wr - r.rd);
    var all := r.cells[r.rd..r.wr];
    assert all[0..n] == all[..n] && all[n..r.wr - r.rd] == all[n..];
  }

  lemma ReadWrapped(r: Ring, n: nat)
    requires r.Valid() && r.wr < r.rd && r.rd + n <= r.Size()
    ensures r.cells[r.rd..r.rd + n] == r.Contents()[..n] && r.ReadAdvance(n).Contents() == r.Contents()[n..]
  {
    var q, behind, front := r.ReadAdvance(n), r.cells[r.rd..], r.cells[..r.wr];
    assert r.Contents() == behind + front;
    assert (behind + front)[..n] == behind[..n] == r.cells[r.rd..r.rd + n];
    if r.rd + n == r.Size() {
      assert q.rd == 0 && q.Contents() == r.cells[0..r.wr] == front;
      assert (behind + front)[n..] == front;
    } else {
      assert q.rd == r.rd + n && q.Contents() == r.cells[r.rd + n..] + front;
      assert (behind + front)[n..] == r.cells[r.rd + n..] + front;
    }
  }

  /** The cells from the read position on, one stretch of what can be read. */
  lemma ReadStretch(r: Ring, n: nat)
    requires r.Valid() && n <= r.ReadSpace() && r.rd + n <= r.Size()
    ensures r.cells[r.rd..r.rd + n] == r.Contents()[..n]
    ensures r.ReadAdvance(n).Valid() && r.ReadAdvance(n).Contents() == r.Contents()[n..]
    ensures r.ReadAdvance(n).WriteSpace() == r.WriteSpace() + n
  {
    if r.wr >= r.rd {
      ReadStraight(r, n);
    } else {
      ReadWrapped(r, n);
    }
  }

  lemma AnnounceRing(r: Ring, n: nat)
    requires r.Valid() && FreeStretch(r, n)
    ensures var q := r.WriteAdvance(n);
      && q.Valid() && q.cells == r.cells && q.rd == r.rd && q.wr == (if r.wr + n == r.Size() then 0 else r.wr + n)
      && q.Contents() == r.Contents() + r.cells[r.wr..r.wr + n]
      && q.ReadSpace() == r.ReadSpace() + n && q.WriteSpace() == r.WriteSpace() - n < q.Size()
  {
    hide Ring.Contents;
    AdvanceShows(r, n);
    SpaceShared(r);
    SpaceShared(r.WriteAdvance(n));
  }

  lemma ReleaseRing(r: Ring, n: nat)
    requires r.Valid() && n <= r.ReadSpace() && r.rd + n <= r.Size()
    ensures |r.Contents()| == r.ReadSpace() && r.cells[r.rd..r.rd + n] == r.Contents()[..n]
    ensures var q := r.ReadAdvance(n);
      && q.Valid() && q.cells == r.cells && q.wr == r.wr && q.rd == (if r.rd + n == r.Size() then 0 else r.rd + n)
      && q.Contents() == r.Contents()[n..]
      && q.ReadSpace() == r.ReadSpace() - n < q.Size() && q.WriteSpace() == r.WriteSpace() + n
  {
    hide Ring.Contents;
    ReadStretch(r, n);
    SpaceShared(r);
    SpaceShared(r.ReadAdvance(n));
  }

  lemma FillRing(r: Ring, bytes: seq<byte>)
    requires r.Valid() && FreeStretch(r, |bytes|)
    ensures var q := r.Fill(r.wr, bytes);
      && q.Valid() && q.Size() == r.Size() && q.rd == r.rd && q.wr == r.wr && q.Contents() == r.Contents()
      && q.cells[r.wr..r.wr + |bytes|] == bytes && q.ReadSpace() == r.ReadSpace() && q.WriteSpace() == r.WriteSpace()
  {
    FillUnseen(r, bytes);
  }

  /** ringbuffer_write: as many of the bytes as there is space for, in one or two stretches. */
  function Push(r: Ring, bytes: seq<byte>): Ring
    requires r.Valid()
  {
    var n := if |bytes| > r.WriteSpace() then r.WriteSpace() else |bytes|;
    var vec := r.VectorFrom(r.wr, n);
    var half := r.Fill(r.wr, bytes[..vec.len0]).WriteAdvance(vec.len0);
    if vec.len1 == 0 then half else half.Fill(half.wr, bytes[vec.len0..n]).WriteAdvance(vec.len1)
  }

  lemma PushShows(r: Ring, bytes: seq<byte>)
    requires r.Valid()
    ensures var n := if |bytes| > r.WriteSpace() then r.WriteSpace() else |bytes|;
            Push(r, bytes).Valid() && Push(r, bytes).rd == r.rd && Push(r, bytes).Contents() == r.Contents() + bytes[..n]
    ensures Push(r, bytes).Size() == r.Size()
  {
    hide Ring.Contents, Ring.WriteSpace, Ring.ReadSpace, Ring.Fill, Ring.WriteAdvance;
    var n := if |bytes| > r.WriteSpace() then r.WriteSpace() else |bytes|;
    var vec := r.VectorFrom(r.wr, n);
    var a, b := bytes[..vec.len0], bytes[vec.len0..n];
    PushStretch(r, a);
    FillRing(r, a);
    if vec.len1 > 0 {
      var half := r.Fill(r.wr, a).WriteAdvance(vec.len0);
      WriteLimit(r);
      PushStretch(half, b);
    }
    assert a + b == bytes[..n];
  }

  lemma WriteLimit(r: Ring)
    requires r.Valid()
    ensures r.WriteSpace() < r.Size()
  {
  }

  lemma PushStretch(r: Ring, bytes: seq<byte>)
    requires r.Valid() && FreeStretch(r, |bytes|)
    ensures var q := r.Fill(r.wr, bytes).WriteAdvance(|bytes|);
      && q.Valid() && q.Size() == r.Size() && q.rd == r.rd && q.wr == (if r.wr + |bytes| == r.Size() then 0 else r.wr + |bytes|)
      && q.Contents() == r.Contents() + bytes && q.WriteSpace() == r.WriteSpace() - |bytes|
  {
    hide Ring.Contents, Ring.WriteSpace, Ring.ReadSpace, Ring.Fill, Ring.WriteAdvance;
    FillRing(r, bytes);
    AnnounceRing(r.Fill(r.wr, bytes), |bytes|);
  }

  // ----- the buffer in memory

  lemma {:induction false} AndZero(k: nat, x: nat)
    ensures Bitwise(And, k, x, 0) == 0
  {
    if k > 0 {
      AndZero(k - 1, x / 2);
    }
  }

  lemma AndStep(k: nat, x: nat, p: nat)
    requires k > 0 && p > 0
    ensures Bitwise(And, k, x, 2 * p - 1) == x % 2 + 2 * Bitwise(And, k - 1, x / 2, p - 1)
  {
    assert (2 * p - 1) / 2 == p - 1 && (2 * p - 1) % 2 == 1;
  }

  /** x & (2^n - 1) is the remainder of x. */
  lemma {:induction false} AndIsRemainder(k: nat, x: nat, n: nat)
    requires n <= k && x < Pow2(k)
    ensures Bitwise(And, k, x, Pow2(n) - 1) == x % Pow2(n)
  {
    hide Bitwise;
    if n == 0 {
      AndZero(k, x);
    } else {
      var p := Pow2(n - 1);
      AndIsRemainder(k - 1, x / 2, n - 1);
      AndStep(k, x, p);
      RemainderOfTwice(x, p);
    }
  }

  lemma RemainderOfTwice(x: nat, p: nat)
    requires p > 0
    ensures x % (2 * p) == x % 2 + 2 * (x / 2 % p)
  {
    var q, r := x / 2 / p, x / 2 % p;
    assert x / 2 == q * p + r;
    assert x == q * (2 * p) + (2 * r + x % 2);
    Remainder(x, 2 * p, q, 2 * r + x % 2);
  }

  lemma TimesOrdered(a: nat, b: nat, m: nat)
    requires a < b
    ensures (a + 1) * m <= b * m
  {
  }

  lemma Remainder(x: nat, m: nat, q: nat, r: nat)
    requires r < m && x == q * m + r
    ensures x % m == r
  {
    if x / m < q {
      TimesOrdered(x / m, q, m);
    } else if x / m > q {
      TimesOrdered(q, x / m, m);
    }
    assert x == x / m * m + x % m;
  }

  class RingBuffer {
    const buf: array<byte>
    const size: nat
    ghost const log: nat
    var writePtr: nat
    var readPtr: nat

    ghost predicate Valid()
      reads this
    {
      && log < 32 && size == Pow2(log) == buf.Length
      && readPtr < size && writePtr < size
    }

    ghost function View(): Ring
      reads this, buf
    {
      Ring(buf[..], readPtr, writePtr)
    }

    /** ringbuffer_create: the size is rounded up to a power of two. */
    constructor (sz: nat)
      requires sz <= 0x4000_0000
      ensures Valid() && size >= sz && View().Contents() == [] && fresh(buf)
    {
      var n, power := 1, 2;
      assert Pow2(1) == 2 * Pow2(0) == 2;
      BigPower();
      while power < sz
        invariant 1 <= n < 31 && power == Pow2(n)
        decreases sz - power
      {
        PowerBelow(n, 30);
        n, power := n + 1, 2 * power;
      }
      size, log := power, n;
      buf := new byte[power];
      writePtr, readPtr := 0, 0;
    }

    /** x & size_mask */
    method Mask(x: nat) returns (r: nat)
      requires Valid() && x < 2 * size
      ensures r == View().Masked(x)
    {
      Pow2Of32();
      Pow2Monotone(log + 1, 32);
      AndIsRemainder(32, x, log);
      Remainder(x, size, if x >= size then 1 else 0, if x >= size then x - size else x);
      r := Bitwise(And, 32, x, size - 1);
    }

    method ReadSpace() returns (n: nat)
      requires Valid()
      ensures n == View().ReadSpace()
    {
      var w, r := writePtr, readPtr;
      if w > r {
        n := w - r;
      } else {
        n := Mask(w + size - r);
      }
    }

    method WriteSpace() returns (n: nat)
      requires Valid()
      ensures n == View().WriteSpace()
    {
      var w, r := writePtr, readPtr;
      if w > r {
        n := Mask(r + size - w);
        n := n - 1;
      } else if w < r {
        n := r - w - 1;
      } else {
        n := size - 1;
      }
    }

    method GetReadVector() returns (vec: Vector)
      requires Valid()
      ensures vec == View().ReadVector()
    {
      var n := ReadSpace();
      vec := Stretches(readPtr, n);
    }

    method GetWriteVector() returns (vec: Vector)
      requires Valid()
      ensures vec == View().WriteVector()
    {
      var n := WriteSpace();
      vec := Stretches(writePtr, n);
    }

    /** Two stretches if the end of the buffer is in between, else one. */
    method Stretches(at: nat, n: nat) returns (vec: Vector)
      requires Valid() && at < size && n < size
      ensures vec == View().VectorFrom(at, n)
    {
      var cnt2 := at + n;
      if cnt2 > size {
        var rest := Mask(cnt2);
        vec := Vector(at, size - at, rest);
      } else {
        vec := Vector(at, n, 0);
      }
    }

    method ReadAdvance(cnt: nat)
      requires Valid() && cnt <= size
      modifies `readPtr
      ensures Valid() && View() == old(View()).ReadAdvance(cnt)
    {
      readPtr := Mask(readPtr + cnt);
    }

    method WriteAdvance(cnt: nat)
      requires Valid() && cnt <= size
      modifies `writePtr
      ensures Valid() && View() == old(View()).WriteAdvance(cnt)
    {
      writePtr := Mask(writePtr + cnt);
    }

    /** memcpy into the cells from a position on. */
    method Copy(at: nat, src: seq<byte>)
      requires Valid() && at + |src| <= size
      modifies buf
      ensures View() == old(View()).Fill(at, src)
    {
      Memcpy(buf, at, src);
      assert buf[..] == buf[..at + |src|] + buf[at + |src|..];
    }

    /** ringbuffer_write: what fits of the bytes is stored, and how much that was is returned. */
    method Write(src: seq<byte>) returns (written: nat)
      requires Valid()
      modifies `writePtr, buf
      ensures Valid() && View() == Push(old(View()), src)
      ensures written == if |src| > old(View().WriteSpace()) then old(View().WriteSpace()) else |src|
      ensures View().Contents() == old(View().Contents()) + src[..written]
    {
      ghost var before := View();
      PushShows(before, src);
      var free := WriteSpace();
      if free == 0 {
        PushNothing(before, src);
        return 0;
      }
      written := if |src| > free then free else |src|;
      var vec := Stretches(writePtr, written);
      Copy(writePtr, src[..vec.len0]);
      WriteAdvance(vec.len0);
      if vec.len1 > 0 {
        Copy(writePtr, src[vec.len0..written]);
        WriteAdvance(vec.len1);
      }
    }
  }

  lemma PushNothing(r: Ring, bytes: seq<byte>)
    requires r.Valid() && r.WriteSpace() == 0
    ensures Push(r, bytes) == r
  {
  }

  lemma BigPower()
    ensures Pow2(30) == 0x4000_0000
  {
    Pow2Of32();
    assert Pow2(32) == 2 * Pow2(31) == 4 * Pow2(30);
  }

  lemma PowerBelow(m: nat, n: nat)
    requires Pow2(m) < Pow2(n)
    ensures m < n
  {
    if m >= n {
      Pow2Monotone(n, m);
    }
  }
}
