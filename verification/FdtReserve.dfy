/**
 The memory reservation map (Devicetree Specification, section 5.3): entries of
 two 64-bit big-endian numbers in front of the structure block, up to the first
 of size zero. What the sequential writer puts there, and how fdt_ro.c reads it.
 */
module FdtReserve {
  import opened Bytes
  import opened FdtFormat
  import opened FdtBlob

  const RSV_ENTRY := 16
  const U64_LIMIT := 0x1_0000_0000_0000_0000

  datatype Reserved = Reserved(address: nat, size: nat) {
    predicate Ok() {
      address < U64_LIMIT && size < U64_LIMIT
    }

    function Bytes(): (b: bytes)
      requires Ok()
      ensures |b| == RSV_ENTRY && EntryAt(b, 0) == this
    {
      var a, s := Word64(address), Word64(size);
      Halves(a, s);
      a + s
    }
  }

  const TERMINATOR := Reserved(0, 0)

  /** The 64-bit number at an offset (fdt64_ld). */
  function Load64(s: bytes, i: nat): (v: nat)
    requires i + 8 <= |s|
  {
    Word(s, i) * U32_LIMIT + Word(s, i + 4)
  }

  /** The eight big-endian bytes of a 64-bit number (cpu_to_fdt64). */
  function Word64(v: nat): (b: bytes)
    requires v < U64_LIMIT
    ensures |b| == 8 && Word(b, 0) * U32_LIMIT + Word(b, 4) == v
  {
    var h, l := Word32(v / U32_LIMIT), Word32(v % U32_LIMIT);
    Words(h, l);
    h + l
  }

  lemma Words(h: bytes, l: bytes)
    requires |h| == |l| == 4
    ensures Word(h + l, 0) == Word(h, 0) && Word(h + l, 4) == Word(l, 0)
  {
  }

  lemma Halves(a: bytes, s: bytes)
    requires |a| == |s| == 8
    ensures Load64(a + s, 0) == Load64(a, 0) && Load64(a + s, 8) == Load64(s, 0)
  {
  }

  function EntryAt(s: bytes, i: nat): Reserved
    requires i + RSV_ENTRY <= |s|
  {
    Reserved(Load64(s, i), Load64(s, i + 8))
  }

  /** The entries of a map, in order. */
  function Entries(m: bytes): (es: seq<Reserved>)
    ensures |es| == |m| / RSV_ENTRY
    ensures forall i :: 0 <= i < |es| ==> es[i] == EntryAt(m, RSV_ENTRY * i)
  {
    seq(|m| / RSV_ENTRY, i requires 0 <= i < |m| / RSV_ENTRY => EntryAt(m, RSV_ENTRY * i))
  }

  lemma EntryIn(s: bytes, i: nat, m: bytes, j: nat)
    requires i + RSV_ENTRY <= |s| && j + RSV_ENTRY <= |m| && s[i..i + RSV_ENTRY] == m[j..j + RSV_ENTRY]
    ensures EntryAt(s, i) == EntryAt(m, j)
  {
    hide Word;
    WordIn(s, i, m, j, 0);
    WordIn(s, i, m, j, 4);
    WordIn(s, i, m, j, 8);
    WordIn(s, i, m, j, 12);
  }

  lemma WordIn(s: bytes, i: nat, m: bytes, j: nat, k: nat)
    requires i + RSV_ENTRY <= |s| && j + RSV_ENTRY <= |m| && s[i..i + RSV_ENTRY] == m[j..j + RSV_ENTRY] && k + 4 <= RSV_ENTRY
    ensures Word(s, i + k) == Word(m, j + k)
  {
    hide Join4;
    var w := s[i..i + RSV_ENTRY];
    assert w[k] == s[i + k] == m[j + k] && w[k + 1] == s[i + k + 1] == m[j + k + 1];
    assert w[k + 2] == s[i + k + 2] == m[j + k + 2] && w[k + 3] == s[i + k + 3] == m[j + k + 3];
  }

  /** One more entry at the end of a map leaves the others as they were. */
  lemma EntryAdded(m: bytes, e: Reserved)
    requires |m| % RSV_ENTRY == 0 && e.Ok()
    ensures Entries(m + e.Bytes()) == Entries(m) + [e]
  {
    hide EntryAt, Reserved.Bytes;
    var w, n := m + e.Bytes(), |m| / RSV_ENTRY;
    assert w[|m|..] == e.Bytes()[0..];
    EntryIn(w, |m|, e.Bytes(), 0);
    forall i: nat | i < n
      ensures EntryAt(w, RSV_ENTRY * i) == EntryAt(m, RSV_ENTRY * i)
    {
      SameRange(w, m, |m|, RSV_ENTRY * i, RSV_ENTRY * i + RSV_ENTRY);
      EntryIn(w, RSV_ENTRY * i, m, RSV_ENTRY * i);
    }
  }

  /** The first entries of a map are those of its first bytes. */
  lemma EntriesFront(m: bytes, n: nat)
    requires n <= |m| && n % RSV_ENTRY == 0
    ensures n / RSV_ENTRY <= |Entries(m)| && Entries(m[..n]) == Entries(m)[..n / RSV_ENTRY]
  {
    hide EntryAt;
    forall i: nat | i < n / RSV_ENTRY
      ensures EntryAt(m[..n], RSV_ENTRY * i) == EntryAt(m, RSV_ENTRY * i)
    {
      SameRange(m[..n], m, n, RSV_ENTRY * i, RSV_ENTRY * i + RSV_ENTRY);
      EntryIn(m[..n], RSV_ENTRY * i, m, RSV_ENTRY * i);
    }
  }

  /** The memory reservation map, as far as the structure block. */
  function RsvMap(fdt: Blob): bytes
    requires fdt.offRsv <= fdt.offStruct <= fdt.buf.Length
    reads fdt`offRsv, fdt`offStruct, fdt`buf, fdt.buf
  {
    fdt.buf[..][..fdt.offStruct][fdt.offRsv..]
  }

  /** The entry at index i is there, and its size is zero. */
  predicate EndsMap(s: bytes, a: nat, i: nat) {
    a + RSV_ENTRY * i + RSV_ENTRY <= |s| && EntryAt(s, a + RSV_ENTRY * i).size == 0
  }

  ghost predicate MapTerminated(s: bytes, a: nat) {
    exists i: nat :: EndsMap(s, a, i)
  }

  /** The map has n entries before the one that ends it. */
  ghost predicate MapLength(s: bytes, a: nat, n: nat) {
    EndsMap(s, a, n) && forall i: nat :: i < n ==> !EndsMap(s, a, i)
  }

  /** fdt_num_mem_rsv: the number of entries before the first of size zero. */
  method NumMemRsv(fdt: Blob) returns (r: int)
    requires RSV_ENTRY <= fdt.totalsize <= fdt.buf.Length
    ensures 0 <= r ==> MapLength(fdt.buf[..][..fdt.totalsize], fdt.offRsv, r)
    ensures r < 0 ==> r == -ERR_TRUNCATED && !MapTerminated(fdt.buf[..][..fdt.totalsize], fdt.offRsv)
  {
    hide Load64;
    var s := fdt.buf[..][..fdt.totalsize];
    r := 0;
    while fdt.offRsv + RSV_ENTRY * r <= fdt.totalsize - RSV_ENTRY
      invariant 0 <= r
      invariant forall i: nat :: i < r ==> !EndsMap(s, fdt.offRsv, i)
      decreases fdt.totalsize - RSV_ENTRY * r
    {
      if Load64(s, fdt.offRsv + RSV_ENTRY * r + 8) == 0 {
        return;
      }
      r := r + 1;
    }
    r := -ERR_TRUNCATED;
  }

  /** fdt_get_mem_rsv, for the numbers whose byte offsets fit a C int. */
  method GetMemRsv(fdt: Blob, n: int) returns (r: int, e: Reserved)
    requires RSV_ENTRY <= fdt.totalsize <= fdt.buf.Length && -INT32_MAX <= RSV_ENTRY * n <= INT32_MAX
    ensures r == if 0 <= n && fdt.offRsv + RSV_ENTRY * n + RSV_ENTRY <= fdt.totalsize then 0 else -ERR_BADOFFSET
    ensures r == 0 ==> e == EntryAt(fdt.buf[..][..fdt.totalsize], fdt.offRsv + RSV_ENTRY * n)
  {
    hide Load64;
    var absoffset := fdt.offRsv + RSV_ENTRY * n;
    if absoffset < fdt.offRsv || absoffset > fdt.totalsize - RSV_ENTRY {
      return -ERR_BADOFFSET, TERMINATOR;
    }
    var s := fdt.buf[..][..fdt.totalsize];
    return 0, Reserved(Load64(s, absoffset), Load64(s, absoffset + 8));
  }

  /** The entries in front of the structure block, as a reader of the blob finds them. */
  lemma MapEntry(fdt: Blob, i: nat)
    requires fdt.Bounds() && fdt.offRsv <= fdt.offStruct && i < |Entries(RsvMap(fdt))|
    ensures fdt.offRsv + RSV_ENTRY * i + RSV_ENTRY <= fdt.offStruct <= fdt.totalsize
    ensures EntryAt(fdt.buf[..][..fdt.totalsize], fdt.offRsv + RSV_ENTRY * i) == Entries(RsvMap(fdt))[i]
  {
    hide EntryAt;
    var s, a, m, j := fdt.buf[..][..fdt.totalsize], fdt.offRsv, RsvMap(fdt), RSV_ENTRY * i;
    assert a + |m| == fdt.offStruct && |s| == fdt.totalsize;
    assert s[a..a + |m|] == m;
    SliceSlice(s, a, |m|, j, RSV_ENTRY);
    EntryIn(s, a + j, m, j);
  }

  /** A map that was given a terminator ends there, or at an entry of size zero before it. */
  lemma MapEnds(fdt: Blob, given: seq<Reserved>)
    requires fdt.Bounds() && fdt.offRsv <= fdt.offStruct && Entries(RsvMap(fdt)) == given + [TERMINATOR]
    ensures EndsMap(fdt.buf[..][..fdt.totalsize], fdt.offRsv, |given|)
    ensures forall i: nat :: i < |given| ==> (EndsMap(fdt.buf[..][..fdt.totalsize], fdt.offRsv, i) <==> given[i].size == 0)
  {
    hide EntryAt, RsvMap, Entries;
    MapEntry(fdt, |given|);
    forall i: nat | i < |given|
      ensures EndsMap(fdt.buf[..][..fdt.totalsize], fdt.offRsv, i) <==> given[i].size == 0
    {
      MapEntry(fdt, i);
    }
  }

  /** es is what comes in given before the first entry of size zero. */
  predicate BeforeEnd(es: seq<Reserved>, given: seq<Reserved>) {
    && es <= given && (forall e :: e in es ==> e.size != 0)
    && (|es| < |given| ==> given[|es|].size == 0)
  }

  /** Reading the whole map of a finished tree. */
  method ReadMap(fdt: Blob, ghost given: seq<Reserved>) returns (es: seq<Reserved>)
    requires fdt.Header() && Entries(RsvMap(fdt)) == given + [TERMINATOR]
    ensures BeforeEnd(es, given)
  {
    hide EntryAt, RsvMap, Entries, EndsMap;
    MapEnds(fdt, given);
    var n := NumMemRsv(fdt);
    assert EndsMap(fdt.buf[..][..fdt.totalsize], fdt.offRsv, |given|);
    es := [];
    for i := 0 to n
      invariant n <= |given| && es == given[..i]
    {
      MapEntry(fdt, i);
      var r, e := GetMemRsv(fdt, i);
      es := es + [e];
    }
  }

  /**
   A reader finds the same entries, and the same number of them, in two buffers
   that hold the same bytes in front of the structure block.
   */
  lemma SameFront(s: bytes, s': bytes, a: nat, b: nat, n: nat)
    requires b <= |s| && b <= |s'| && s[..b] == s'[..b] && a + RSV_ENTRY * n + RSV_ENTRY <= b
    ensures forall i: nat :: i <= n ==> EntryAt(s', a + RSV_ENTRY * i) == EntryAt(s, a + RSV_ENTRY * i)
    ensures MapLength(s', a, n) <==> MapLength(s, a, n)
  {
    hide EntryAt;
    forall i: nat | i <= n
      ensures EntryAt(s', a + RSV_ENTRY * i) == EntryAt(s, a + RSV_ENTRY * i)
    {
      var j := a + RSV_ENTRY * i;
      SameRange(s', s, b, j, j + RSV_ENTRY);
      EntryIn(s', j, s, j);
    }
    assert forall i: nat :: i <= n ==> (EndsMap(s', a, i) <==> EndsMap(s, a, i));
  }
}
