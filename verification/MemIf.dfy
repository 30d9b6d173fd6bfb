/**
 memif.cc and htif_t::clear_chunk: byte reads and writes of a target's memory
 made of aligned chunks of bounded size. The target is flat memory; the
 preconditions of its chunk operations are what memif must respect.
 */
module MemIf {
  import opened Bytes

  // --------------------------------------------------------- arithmetic

  /** Aligned places below an aligned limit leave room for one more unit. */
  lemma RoomAbove(x: nat, limit: nat, align: nat)
    requires align > 0 && x < limit && limit % align == 0
    ensures x - x % align + align <= limit && (x - x % align) % align == 0
  {
    var q := Quotient(x, align);
    var m := Quotient(limit, align);
    NextFits(q, m, align);
    MulMod(q, align);
  }

  lemma Quotient(x: nat, n: nat) returns (q: nat)
    requires n > 0
    ensures x == q * n + x % n
  {
    q := x / n;
  }

  lemma NextFits(q: nat, m: nat, align: nat)
    requires q * align < m * align
    ensures q * align + align <= m * align
  {
    if q >= m {
      MulOrder(m, q, align);
    } else {
      MulOrder(q + 1, m, align);
      assert (q + 1) * align == q * align + align;
    }
  }

  lemma {:induction false} MulMod(q: nat, n: nat)
    requires n > 0
    ensures (q * n) % n == 0
    decreases q
  {
    if q > 0 {
      MulMod(q - 1, n);
      assert q * n == (q - 1) * n + n;
      AddMod((q - 1) * n, n, n);
    }
  }

  /** Filling up to the next multiple. */
  lemma NextMultiple(x: nat, n: nat)
    requires n > 0
    ensures (x + (n - x % n)) % n == 0
  {
    var q := x / n;
    assert x + (n - x % n) == (q + 1) * n;
    ModUnique(x + (n - x % n), q + 1, 0, n);
  }

  /** What is left after the tail is a multiple. */
  lemma WholePart(x: nat, n: nat)
    requires n > 0
    ensures (x - x % n) % n == 0
  {
    var q := x / n;
    assert x - x % n == q * n;
    ModUnique(x - x % n, q, 0, n);
  }

  /** The part of a request before the first aligned address fits one chunk. */
  lemma HeadFacts(addr: nat, len: nat, limit: nat, align: nat)
    requires align > 0 && len > 0 && addr % align != 0 && addr + len <= limit && limit % align == 0
    ensures var o := addr % align;
            var n := Min(len, align - o);
            && o <= addr && (addr - o) % align == 0 && addr - o + align <= limit && o + n <= align
            && (n == len || (addr + n) % align == 0)
  {
    RoomAbove(addr, limit, align);
    NextMultiple(addr, align);
  }

  /** How many bytes there are after the last aligned address. */
  function Tail(len: nat, align: nat): nat
    requires align > 0
  {
    len % align
  }

  lemma TailSplits(len: nat, align: nat)
    requires align > 0
    ensures Tail(len, align) < align && Tail(len, align) <= len && (len - Tail(len, align)) % align == 0
  {
    WholePart(len, align);
  }

  lemma AlignedRoom(x: nat, limit: nat, align: nat)
    requires align > 0 && x < limit && x % align == 0 && limit % align == 0
    ensures x + align <= limit
  {
    RoomAbove(x, limit, align);
  }

  /** So does the part after the last. */
  lemma TailFacts(a: nat, len: nat, limit: nat, align: nat)
    requires align > 0 && (len == 0 || a % align == 0) && a + len <= limit && limit % align == 0
    ensures var n := Tail(len, align);
            var keep := len - n;
            && n < align && 0 <= keep && keep % align == 0
            && (n != 0 ==> (a + keep) % align == 0 && a + keep + align <= limit)
  {
    hide Tail;
    TailSplits(len, align);
    var keep := len - Tail(len, align);
    if keep < len {
      AddMod(a, keep, align);
      AlignedRoom(a + keep, limit, align);
    }
  }

  // -------------------------------------------------------------- chunks

  function Min(a: nat, b: nat): nat {
    if a < b then a else b
  }

  /** The target's memory behind a chunk interface. */
  class Chunked {
    const align: nat
    const maxSize: nat
    var mem: bytes

    ghost predicate Valid()
      reads this
    {
      0 < align <= maxSize && maxSize % align == 0 && |mem| % align == 0
    }

    /** A request the interface allows: aligned at both ends, not too long, inside the memory. */
    predicate Request(taddr: nat, len: nat)
      reads this
    {
      align > 0 && taddr % align == 0 && len % align == 0 && len <= maxSize && taddr + len <= |mem|
    }

    method ReadChunk(taddr: nat, len: nat) returns (dst: bytes)
      requires Valid() && Request(taddr, len)
      ensures dst == mem[taddr..taddr + len]
    {
      dst := mem[taddr..taddr + len];
    }

    method WriteChunk(taddr: nat, src: bytes)
      requires Valid() && Request(taddr, |src|)
      modifies this
      ensures Valid() && mem == Patch(old(mem), taddr, src)
    {
      mem := Patch(mem, taddr, src);
    }

    /** htif_t::clear_chunk: zeros written in chunks. */
    method ClearChunk(taddr: nat, len: nat)
      requires Valid() && taddr % align == 0 && len % align == 0 && taddr + len <= |mem|
      modifies this
      ensures Valid() && mem == Patch(old(mem), taddr, Zeros(len))
    {
      WriteAll(taddr, Zeros(len));
    }

    /** The loop over a whole aligned range in chunks of the largest size. */
    method WriteAll(taddr: nat, src: bytes)
      requires Valid() && (taddr % align == 0 || src == []) && |src| % align == 0 && taddr + |src| <= |mem|
      modifies this
      ensures Valid() && mem == Patch(old(mem), taddr, src)
    {
      hide Patch;
      ghost var was := mem;
      var pos := 0;
      PatchEmpty(was, taddr, src);
      while pos < |src|
        invariant Valid() && |mem| == |was| && pos % align == 0
        invariant mem == Patch(was, taddr, src[..Min(pos, |src|)])
        decreases |src| - pos
      {
        var n := Min(maxSize, |src| - pos);
        AddMod(taddr, pos, align);
        SubMod(|src|, pos, align);
        WriteChunk(taddr + pos, src[pos..pos + n]);
        PatchOn(was, taddr, src[..pos], src[pos..pos + n]);
        assert src[..pos] + src[pos..pos + n] == src[..pos + n];
        AddMod(pos, maxSize, align);
        pos := pos + maxSize;
      }
      assert src[..|src|] == src;
    }
  }

  function Zeros(n: nat): (z: bytes)
    ensures |z| == n && forall k :: 0 <= k < n ==> z[k] == 0
  {
    seq(n, _ => 0)
  }

  lemma PatchEmpty(s: bytes, o: nat, w: bytes)
    requires o <= |s|
    ensures Patch(s, o, w[..0]) == s
  {
  }

  /** Writing on from where the last write ended. */
  lemma PatchOn(s: bytes, o: nat, w: bytes, v: bytes)
    requires o + |w| + |v| <= |s|
    ensures Patch(Patch(s, o, w), o + |w|, v) == Patch(s, o, w + v)
  {
    var l, r := Patch(Patch(s, o, w), o + |w|, v), Patch(s, o, w + v);
    assert forall k :: 0 <= k < |s| ==> l[k] == r[k];
  }

  /** Writing in front of the last write. */
  lemma PatchBefore(s: bytes, o: nat, w: bytes, v: bytes)
    requires o + |w| + |v| <= |s|
    ensures Patch(Patch(s, o + |w|, v), o, w) == Patch(s, o, w + v)
  {
    var l, r := Patch(Patch(s, o + |w|, v), o, w), Patch(s, o, w + v);
    assert forall k :: 0 <= k < |s| ==> l[k] == r[k];
  }

  /** A chunk read, changed in part and written back changes that part. */
  lemma ReadModifyWrite(s: bytes, a: nat, n: nat, o: nat, w: bytes)
    requires a + n <= |s| && o + |w| <= n
    ensures Patch(s, a, Patch(s[a..a + n], o, w)) == Patch(s, a + o, w)
  {
    var l, r := Patch(s, a, Patch(s[a..a + n], o, w)), Patch(s, a + o, w);
    assert forall k :: 0 <= k < |s| ==> l[k] == r[k];
  }

  // --------------------------------------------------------------- bytes

  class MemIf {
    const cmemif: Chunked

    constructor (c: Chunked)
      ensures cmemif == c
    {
      cmemif := c;
    }

    /** memif_t::write: exactly the bytes from addr on change, to the given ones. */
    method Write(addr: nat, src: bytes)
      requires cmemif.Valid() && addr + |src| <= |cmemif.mem|
      modifies cmemif
      ensures cmemif.Valid() && cmemif.mem == Patch(old(cmemif.mem), addr, src)
    {
      hide Patch;
      ghost var was := cmemif.mem;
      var n := WriteHead(addr, src);
      var a, rest := addr + n, src[n..];
      ghost var mid := cmemif.mem;
      var keep := WriteTail(a, rest);
      WriteMiddle(a, rest[..keep]);
      PatchBefore(mid, a, rest[..keep], rest[keep..]);
      assert rest[..keep] + rest[keep..] == rest;
      PatchOn(was, addr, src[..n], rest);
      assert src[..n] + rest == src;
    }

    /** The bytes up to the first aligned address. */
    method WriteHead(addr: nat, src: bytes) returns (n: nat)
      requires cmemif.Valid() && addr + |src| <= |cmemif.mem|
      modifies cmemif
      ensures n <= |src| && (n == |src| || (addr + n) % cmemif.align == 0)
      ensures cmemif.Valid() && cmemif.mem == Patch(old(cmemif.mem), addr, src[..n])
    {
      hide Patch;
      var align := cmemif.align;
      n := 0;
      PatchEmpty(cmemif.mem, addr, src);
      if |src| > 0 && addr % align != 0 {
        n := Min(|src|, align - addr % align);
        HeadFacts(addr, |src|, |cmemif.mem|, align);
        WritePart(addr - addr % align, addr % align, src[..n]);
      }
    }

    /** The bytes after the last aligned address; keep is how many there are before it. */
    method WriteTail(a: nat, src: bytes) returns (keep: nat)
      requires cmemif.Valid() && a + |src| <= |cmemif.mem| && (src == [] || a % cmemif.align == 0)
      modifies cmemif
      ensures keep <= |src| && keep % cmemif.align == 0
      ensures cmemif.Valid() && cmemif.mem == Patch(old(cmemif.mem), a + keep, src[keep..])
    {
      hide Patch, Tail;
      var align := cmemif.align;
      var n := Tail(|src|, align);
      TailFacts(a, |src|, |cmemif.mem|, align);
      keep := |src| - n;
      PatchEmptyAt(cmemif.mem, a + keep, src[keep..]);
      if n != 0 {
        WritePart(a + keep, 0, src[keep..]);
      }
    }

    /** Whole chunks, or zeros. */
    method WriteMiddle(a: nat, src: bytes)
      requires cmemif.Valid() && a + |src| <= |cmemif.mem| && (src == [] || a % cmemif.align == 0) && |src| % cmemif.align == 0
      modifies cmemif
      ensures cmemif.Valid() && cmemif.mem == Patch(old(cmemif.mem), a, src)
    {
      hide Patch;
      var allZero := AllZero(src);
      if |src| != 0 && allZero {
        cmemif.ClearChunk(a, |src|);
        assert Zeros(|src|) == src;
      } else {
        cmemif.WriteAll(a, src);
      }
    }

    /** The read-modify-write of one chunk for bytes that do not fill it. */
    method WritePart(base: nat, o: nat, src: bytes)
      requires cmemif.Valid() && o + |src| <= cmemif.align && base % cmemif.align == 0 && base + cmemif.align <= |cmemif.mem|
      modifies cmemif
      ensures cmemif.Valid() && cmemif.mem == Patch(old(cmemif.mem), base + o, src)
    {
      var chunk := cmemif.ReadChunk(base, cmemif.align);
      ReadModifyWrite(cmemif.mem, base, cmemif.align, o, src);
      cmemif.WriteChunk(base, Patch(chunk, o, src));
    }

    /** memif_t::read: dst receives exactly the bytes at addr, and the memory does not change. */
    method Read(addr: nat, dst: array<byte>)
      requires cmemif.Valid() && addr + dst.Length <= |cmemif.mem|
      modifies dst
      ensures dst[..] == cmemif.mem[addr..addr + dst.Length]
    {
      hide Patch;
      ghost var was, want := dst[..], cmemif.mem[addr..addr + dst.Length];
      var n := ReadHead(addr, dst);
      ghost var mid, rest := dst[..], want[n..];
      var keep := ReadTail(addr + n, dst, n);
      ReadMiddle(addr + n, dst, n, keep);
      assert rest[keep..] == cmemif.mem[addr + n + keep..addr + dst.Length];
      assert rest[..keep] == cmemif.mem[addr + n..addr + n + keep];
      PatchBefore(mid, n, rest[..keep], rest[keep..]);
      assert rest[..keep] + rest[keep..] == rest;
      assert want[..n] == cmemif.mem[addr..addr + n];
      PatchOn(was, 0, want[..n], rest);
      assert want[..n] + rest == want;
      PatchWhole(was, want);
    }

    /** The bytes up to the first aligned address. */
    method ReadHead(addr: nat, dst: array<byte>) returns (n: nat)
      requires cmemif.Valid() && addr + dst.Length <= |cmemif.mem|
      modifies dst
      ensures n <= dst.Length && (n == dst.Length || (addr + n) % cmemif.align == 0)
      ensures dst[..] == Patch(old(dst[..]), 0, cmemif.mem[addr..addr + n])
    {
      hide Patch;
      var align := cmemif.align;
      n := 0;
      PatchEmptyAt(dst[..], 0, cmemif.mem[addr..addr + n]);
      if dst.Length > 0 && addr % align != 0 {
        n := Min(dst.Length, align - addr % align);
        HeadFacts(addr, dst.Length, |cmemif.mem|, align);
        ReadPart(addr - addr % align, addr % align, dst, 0, n);
      }
    }

    /** The bytes after the last aligned address, which go to the end of dst. */
    method ReadTail(a: nat, dst: array<byte>, at: nat) returns (keep: nat)
      requires cmemif.Valid() && at <= dst.Length && a + (dst.Length - at) <= |cmemif.mem|
      requires at == dst.Length || a % cmemif.align == 0
      modifies dst
      ensures at + keep <= dst.Length && keep % cmemif.align == 0
      ensures dst[..] == Patch(old(dst[..]), at + keep, cmemif.mem[a + keep..a + (dst.Length - at)])
    {
      hide Patch, Tail;
      var align, len := cmemif.align, dst.Length - at;
      var n := Tail(len, align);
      TailFacts(a, len, |cmemif.mem|, align);
      keep := len - n;
      PatchEmptyAt(dst[..], at + keep, cmemif.mem[a + keep..a + len]);
      if n != 0 {
        ReadPart(a + keep, 0, dst, at + keep, n);
      }
    }

    /** Part of one chunk. */
    method ReadPart(base: nat, o: nat, dst: array<byte>, at: nat, n: nat)
      requires cmemif.Valid() && o + n <= cmemif.align && base % cmemif.align == 0 && base + cmemif.align <= |cmemif.mem|
      requires at + n <= dst.Length
      modifies dst
      ensures dst[..] == Patch(old(dst[..]), at, cmemif.mem[base + o..base + o + n])
    {
      hide Patch;
      var chunk := cmemif.ReadChunk(base, cmemif.align);
      ChunkPart(cmemif.mem, base, cmemif.align, o, n, chunk, base + o);
      CopyIn(dst, at, chunk[o..o + n]);
    }

    /** The loop over whole chunks. */
    method ReadMiddle(a: nat, dst: array<byte>, at: nat, len: nat)
      requires cmemif.Valid() && at + len <= dst.Length && a + len <= |cmemif.mem|
      requires (len == 0 || a % cmemif.align == 0) && len % cmemif.align == 0
      modifies dst
      ensures dst[..] == Patch(old(dst[..]), at, cmemif.mem[a..a + len])
    {
      hide Patch;
      ghost var was := dst[..];
      var pos := 0;
      PatchEmptyAt(was, at, cmemif.mem[a..a + 0]);
      while pos < len
        invariant pos % cmemif.align == 0
        invariant dst[..] == Patch(was, at, cmemif.mem[a..a + Min(pos, len)])
        decreases len - pos
      {
        var n := Min(cmemif.maxSize, len - pos);
        AddMod(a, pos, cmemif.align);
        SubMod(len, pos, cmemif.align);
        var chunk := cmemif.ReadChunk(a + pos, n);
        CopyIn(dst, at + pos, chunk);
        PatchOn(was, at, cmemif.mem[a..a + pos], chunk);
        assert cmemif.mem[a..a + pos] + chunk == cmemif.mem[a..a + (pos + n)];
        AddMod(pos, cmemif.maxSize, cmemif.align);
        pos := pos + cmemif.maxSize;
      }
    }

    method AllZero(b: bytes) returns (z: bool)
      ensures z <==> forall i :: 0 <= i < |b| ==> b[i] == 0
    {
      z := true;
      for i := 0 to |b|
        invariant z <==> forall k :: 0 <= k < i ==> b[k] == 0
      {
        z := z && b[i] == 0;
      }
    }
  }

  lemma PatchEmptyAt(s: bytes, o: nat, w: bytes)
    requires o <= |s|
    ensures w == [] ==> Patch(s, o, w) == s
  {
  }

  lemma PatchWhole(s: bytes, w: bytes)
    requires |s| == |w|
    ensures Patch(s, 0, w) == w
  {
  }

  lemma ChunkPart(s: bytes, i: nat, m: nat, o: nat, n: nat, chunk: bytes, a: nat)
    requires o + n <= m && i + m <= |s| && chunk == s[i..i + m] && a == i + o
    ensures chunk[o..o + n] == s[a..a + n]
  {
    var l, r := chunk[o..o + n], s[a..a + n];
    assert forall k :: 0 <= k < n ==> l[k] == chunk[o + k] == s[i + (o + k)] == r[k];
  }
}
