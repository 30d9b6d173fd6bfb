/** fdt_rw.c, fdt_pack: the blocks are moved together, over themselves, without changing what they say. */
module FdtPack {
  import opened Bytes
  import opened FdtFormat
  import opened FdtTree
  import opened FdtBlob
  import opened FdtReserve
  import opened FdtRw

  /** The n bytes of a buffer from i on. */
  function Part(buf: array<byte>, i: nat, n: nat): bytes
    requires i + n <= buf.Length
    reads buf
  {
    Cut(buf[..], i, n)
  }

  /** One memmove, and two windows that it does not write to. */
  method Move(buf: array<byte>, src: nat, dst: nat, n: nat, ghost a: nat, ghost m: nat, ghost b: nat, ghost k: nat)
    requires src + n <= buf.Length && dst + n <= buf.Length && a + m <= buf.Length && b + k <= buf.Length
    requires (a + m <= dst || dst + n <= a) && (b + k <= dst || dst + n <= b)
    modifies buf
    ensures Part(buf, dst, n) == old(Part(buf, src, n))
    ensures Part(buf, a, m) == old(Part(buf, a, m)) && Part(buf, b, k) == old(Part(buf, b, k))
  {
    hide Patch;
    ghost var was := buf[..];
    var w := buf[..][src..src + n];
    CopyIn(buf, dst, w);
    PatchParts(was, dst, w);
    PatchBeside(was, dst, w, a, m);
    PatchBeside(was, dst, w, b, k);
  }

  /** The three memmoves: each block lands in front of where the next one still is. */
  method MoveBlocks(buf: array<byte>, r: nat, n: nat, a: nat, m: nat, b: nat, k: nat, s: nat, t: nat)
    requires HEADER_SIZE <= r && r + n <= a && a + m <= b && b + k <= buf.Length && s == HEADER_SIZE + n && t == s + m
    modifies buf
    ensures Part(buf, HEADER_SIZE, n) == old(Part(buf, r, n))
    ensures Part(buf, s, m) == old(Part(buf, a, m))
    ensures Part(buf, t, k) == old(Part(buf, b, k))
  {
    hide Part;
    Move(buf, r, HEADER_SIZE, n, a, m, b, k);
    Move(buf, a, s, m, HEADER_SIZE, n, b, k);
    Move(buf, b, t, k, HEADER_SIZE, n, s, m);
  }

  /** fdt_packblocks_, from a tree to itself, for a reservation map of n bytes. */
  method PackBlocks(fdt: Blob, n: nat)
    requires fdt.Header() && 16 <= n && fdt.offRsv + n <= fdt.offStruct
    modifies fdt.buf, fdt`offRsv, fdt`offStruct, fdt`offStrings
    ensures fdt.Header() && fdt.Block() == old(fdt.Block()) && fdt.Tab() == old(fdt.Tab())
    ensures fdt.offRsv == HEADER_SIZE && fdt.offStruct == HEADER_SIZE + n && fdt.offStrings == fdt.offStruct + fdt.sizeStruct
    ensures Part(fdt.buf, HEADER_SIZE, n) == old(Part(fdt.buf, fdt.offRsv, n))
  {
    hide Blob.Block, Blob.Tab, Blob.Header, Blob.Bounds, Part;
    var structSize, stringsSize := fdt.sizeStruct, fdt.sizeStrings;
    var structOff := HEADER_SIZE + n;
    var stringsOff := structOff + structSize;
    BlocksInOrder(fdt);
    MoveBlocks(fdt.buf, fdt.offRsv, n, fdt.offStruct, structSize, fdt.offStrings, stringsSize, structOff, stringsOff);
    SetLayout(fdt, structOff, stringsOff);
  }

  lemma BlocksInOrder(fdt: Blob)
    requires fdt.Header()
    ensures fdt.Bounds() && fdt.magic == FDT_MAGIC
    ensures HEADER_SIZE <= fdt.offRsv && fdt.offStruct + fdt.sizeStruct <= fdt.offStrings
    ensures fdt.offStrings + fdt.sizeStrings <= fdt.buf.Length
    ensures fdt.Block() == Part(fdt.buf, fdt.offStruct, fdt.sizeStruct)
    ensures fdt.Tab() == Names(Part(fdt.buf, fdt.offStrings, fdt.sizeStrings), false)
  {
  }

  /** The header updates of fdt_packblocks_. */
  method SetLayout(fdt: Blob, structOff: nat, stringsOff: nat)
    requires fdt.Header() && HEADER_SIZE + 16 <= structOff && stringsOff == structOff + fdt.sizeStruct <= fdt.offStrings
    modifies fdt`offRsv, fdt`offStruct, fdt`offStrings
    ensures fdt.Header() && fdt.offRsv == HEADER_SIZE && fdt.offStruct == structOff && fdt.offStrings == stringsOff
    ensures fdt.Block() == Part(fdt.buf, structOff, fdt.sizeStruct)
    ensures fdt.Tab() == Names(Part(fdt.buf, stringsOff, fdt.sizeStrings), false)
  {
    fdt.offRsv := HEADER_SIZE;
    fdt.offStruct := structOff;
    fdt.offStrings := stringsOff;
  }

  /** The reservation map ends before the structure block. */
  ghost predicate MapFits(fdt: Blob)
    reads fdt, fdt.buf
  {
    fdt.totalsize <= fdt.buf.Length &&
    exists i: nat :: EndsMap(fdt.buf[..][..fdt.totalsize], fdt.offRsv, i) && fdt.offRsv + RSV_ENTRY * i + RSV_ENTRY <= fdt.offStruct
  }

  /** fdt_pack: the same tree and reservation map, in no more bytes than its blocks need. */
  method Pack(fdt: Blob) returns (r: int, ghost n: nat)
    requires fdt.ValidTree() && MapFits(fdt)
    modifies fdt`offRsv, fdt`offStruct, fdt`offStrings, fdt`totalsize, fdt.buf
    ensures r == 0 && fdt.buf == old(fdt.buf) && fdt.ValidTree()
    ensures fdt.tree == old(fdt.tree) && fdt.Tab() == old(fdt.Tab())
    ensures fdt.offRsv == HEADER_SIZE && fdt.offStruct == HEADER_SIZE + n && fdt.offStrings == fdt.offStruct + fdt.sizeStruct
    ensures fdt.totalsize == fdt.offStrings + fdt.sizeStrings <= old(fdt.totalsize)
    ensures n % RSV_ENTRY == 0 && 0 < n <= old(fdt.offStruct - fdt.offRsv)
    ensures MapLength(old(fdt.buf[..][..fdt.totalsize]), old(fdt.offRsv), n / RSV_ENTRY - 1)
    ensures Part(fdt.buf, HEADER_SIZE, n) == old(Part(fdt.buf, fdt.offRsv, n))
    ensures Entries(RsvMap(fdt)) == old(Entries(RsvMap(fdt)))[..n / RSV_ENTRY]
  {
    hide EncAt, Flat, Blob.Block, Blob.Tab, MapLength, MapFits, Entries, RsvMap, Part;
    var size := MapSize(fdt);
    n := size;
    MapPart(fdt, n);
    PackBlocks(fdt, size);
    Shrink(fdt);
    MapPart(fdt, n);
    r := 0;
  }

  /** The first entries of the map are those in its first n bytes. */
  lemma MapPart(fdt: Blob, n: nat)
    requires fdt.Header() && fdt.offRsv + n <= fdt.offStruct && n % RSV_ENTRY == 0
    ensures n / RSV_ENTRY <= |Entries(RsvMap(fdt))|
    ensures Entries(Part(fdt.buf, fdt.offRsv, n)) == Entries(RsvMap(fdt))[..n / RSV_ENTRY]
    ensures fdt.offRsv + n == fdt.offStruct ==> RsvMap(fdt) == Part(fdt.buf, fdt.offRsv, n)
  {
    hide Entries;
    EntriesFront(RsvMap(fdt), n);
    assert RsvMap(fdt)[..n] == Part(fdt.buf, fdt.offRsv, n);
  }

  /** The bytes of the reservation map, its last entry included. */
  method MapSize(fdt: Blob) returns (n: nat)
    requires fdt.Header() && MapFits(fdt)
    ensures n % RSV_ENTRY == 0 && 0 < n <= fdt.offStruct - fdt.offRsv
    ensures MapLength(fdt.buf[..][..fdt.totalsize], fdt.offRsv, n / RSV_ENTRY - 1)
  {
    hide EndsMap;
    ghost var i: nat :| EndsMap(fdt.buf[..][..fdt.totalsize], fdt.offRsv, i) && fdt.offRsv + RSV_ENTRY * i + RSV_ENTRY <= fdt.offStruct;
    var num := NumMemRsv(fdt);
    assert 0 <= num <= i;
    n := (num + 1) * RSV_ENTRY;
  }

  /** Giving up the bytes after the last block. */
  method Shrink(fdt: Blob)
    requires fdt.Header()
    modifies fdt`totalsize
    ensures fdt.Header() && fdt.totalsize == DataSize(fdt) <= old(fdt.totalsize)
    ensures fdt.Block() == old(fdt.Block()) && fdt.Tab() == old(fdt.Tab())
  {
    fdt.totalsize := DataSize(fdt);
  }
}
