/**
 The two loaders of an ELF file's segments: load_elf (elfloader.cc), which
 writes target memory through memif, and elf_to_memory_dict (elf_utils.py),
 which builds a dictionary of 64-bit words. They agree on every byte of every
 segment. Word shifts and masks are written as division by powers of 256.
 */
module ElfLoad {
  import opened Bytes
  import opened MemIf

  /** A PT_LOAD program header. */
  datatype Segment = Segment(offset: nat, vaddr: nat, paddr: nat, filesz: nat, memsz: nat)

  // ------------------------------------------------------------ load_elf

  /** The segment's file bytes lie in the file, and its memory is not smaller than they are. */
  predicate Sound(seg: Segment, file: bytes, size: nat) {
    seg.filesz <= seg.memsz && seg.offset + seg.filesz <= |file| && seg.paddr + seg.memsz <= size
  }

  ghost predicate AllSound(segs: seq<Segment>, file: bytes, size: nat) {
    forall i :: 0 <= i < |segs| ==> Sound(segs[i], file, size)
  }

  function SegmentBytes(seg: Segment, file: bytes): bytes
    requires seg.filesz <= seg.memsz && seg.offset + seg.filesz <= |file|
  {
    file[seg.offset..seg.offset + seg.filesz] + Zeros(seg.memsz - seg.filesz)
  }

  /** Memory after the segments are written over it in order. */
  ghost function Loaded(mem: bytes, file: bytes, segs: seq<Segment>): (r: bytes)
    requires AllSound(segs, file, |mem|)
    ensures |r| == |mem|
  {
    if segs == [] then mem
    else
      var last := segs[|segs| - 1];
      Patch(Loaded(mem, file, segs[..|segs| - 1]), last.paddr, SegmentBytes(last, file))
  }

  /** The loop over program headers of load_elf. */
  method LoadElf(memif: MemIf, file: bytes, segs: seq<Segment>)
    requires memif.cmemif.Valid()
    requires AllSound(segs, file, |memif.cmemif.mem|)
    modifies memif.cmemif
    ensures memif.cmemif.Valid() && memif.cmemif.mem == Loaded(old(memif.cmemif.mem), file, segs)
  {
    hide Patch, Sound;
    ghost var was := memif.cmemif.mem;
    for i := 0 to |segs|
      invariant memif.cmemif.Valid() && memif.cmemif.mem == Loaded(was, file, segs[..i])
    {
      var seg := segs[i];
      assert segs[..i + 1][..i] == segs[..i];
      LoadSegment(memif, file, seg);
    }
    assert segs[..|segs|] == segs;
  }

  method LoadSegment(memif: MemIf, file: bytes, seg: Segment)
    requires memif.cmemif.Valid() && Sound(seg, file, |memif.cmemif.mem|)
    modifies memif.cmemif
    ensures memif.cmemif.Valid() && memif.cmemif.mem == Patch(old(memif.cmemif.mem), seg.paddr, SegmentBytes(seg, file))
  {
    hide Patch;
    ghost var was := memif.cmemif.mem;
    var data, zeros := file[seg.offset..seg.offset + seg.filesz], Zeros(seg.memsz - seg.filesz);
    PatchEmptyAt(was, seg.paddr, data);
    PatchEmptyAt(was, seg.paddr, data + zeros);
    if seg.memsz != 0 {
      if seg.filesz != 0 {
        memif.Write(seg.paddr, data);
      }
      memif.Write(seg.paddr + seg.filesz, zeros);
      PatchOn(was, seg.paddr, data, zeros);
    }
  }

  // --------------------------------------------------------------- words

  /** (w >> 8k) & 0xff */
  function Byte(w: nat, k: nat): nat {
    if k == 0 then w % 0x100 else Byte(w / 0x100, k - 1)
  }

  /** (w & ~(0xff << 8k)) | (v << 8k) */
  function SetByte(w: nat, k: nat, v: byte): nat {
    if k == 0 then w - w % 0x100 + v else w % 0x100 + 0x100 * SetByte(w / 0x100, k - 1, v)
  }

  lemma {:induction false} PackByte(b: bytes, k: nat)
    requires k < |b|
    ensures Byte(Pack(b), k) == b[k]
  {
    var w := Pack(b);
    assert w % 0x100 == b[0] && w / 0x100 == Pack(b[1..]);
    if k > 0 {
      PackByte(b[1..], k - 1);
    }
  }

  lemma {:induction false} ByteSet(w: nat, k: nat, v: byte, j: nat)
    ensures Byte(SetByte(w, k, v), j) == if j == k then v else Byte(w, j)
  {
    var u := SetByte(w, k, v);
    if k == 0 {
      assert u == 0x100 * (w / 0x100) + v;
      assert u % 0x100 == v && u / 0x100 == w / 0x100;
    } else {
      assert u % 0x100 == w % 0x100 && u / 0x100 == SetByte(w / 0x100, k - 1, v);
      if j > 0 {
        ByteSet(w / 0x100, k - 1, v, j - 1);
      }
    }
  }

  // --------------------------------------------------- elf_to_memory_dict

  /** The file data of a segment, as far as the file goes. */
  function Data(seg: Segment, file: bytes): bytes {
    if seg.offset + seg.filesz <= |file| then file[seg.offset..seg.offset + seg.filesz]
    else if seg.offset < |file| then file[seg.offset..]
    else []
  }

  predicate InData(seg: Segment, file: bytes, a: nat) {
    seg.vaddr <= a < seg.vaddr + |Data(seg, file)|
  }

  /** The byte that the last segment with file data at an address puts there, or 0. */
  function Image(segs: seq<Segment>, file: bytes, a: nat): byte {
    if segs == [] then 0
    else
      var last := segs[|segs| - 1];
      if InData(last, file, a) then Data(last, file)[a - last.vaddr] else Image(segs[..|segs| - 1], file, a)
  }

  /** The address of the aligned word that an address is in. */
  function Base(a: nat): nat {
    a - a % 8
  }

  predicate Aligned(w: nat) {
    w % 8 == 0
  }

  lemma BaseFacts(a: nat)
    ensures Aligned(Base(a)) && Base(a) <= a < Base(a) + 8 && a - Base(a) == a % 8
  {
  }

  lemma BaseOf(w: nat, k: nat)
    requires Aligned(w) && k < 8
    ensures Base(w + k) == w
  {
  }

  lemma BaseNext(w: nat, v: nat)
    requires Aligned(w) && Aligned(v)
    ensures Aligned(w + 8) && Aligned(w + v) && (w <= v ==> Aligned(v - w)) && (v < w ==> v + 8 <= w)
  {
  }

  type Dict = map<nat, nat>

  /** The dictionary shows the image of some segments: its words, and zero where it has none. */
  ghost predicate Shows(memory: Dict, segs: seq<Segment>, file: bytes) {
    && (forall w :: w in memory ==> Aligned(w))
    && (forall w, k :: w in memory && 0 <= k < 8 ==> Byte(memory[w], k) == Image(segs, file, w + k))
    && (forall a: nat :: Base(a) !in memory ==> Image(segs, file, a) == 0)
  }

  /** Every byte of a segment is in some word of the dictionary. */
  ghost predicate Covers(memory: Dict, seg: Segment) {
    forall a: nat :: seg.vaddr <= a < seg.vaddr + seg.memsz ==> Base(a) in memory
  }

  /** Half-way through a segment's data: the words from base to end show it, the others do not yet. */
  ghost predicate Storing(memory: Dict, segs: seq<Segment>, seg: Segment, file: bytes, base: nat, end: nat) {
    && (forall w :: w in memory ==> Aligned(w))
    && (forall w, k :: w in memory && 0 <= k < 8 ==>
          Byte(memory[w], k) == if base <= w < end then Image(segs + [seg], file, w + k) else Image(segs, file, w + k))
    && (forall a: nat :: Base(a) !in memory ==> Image(segs, file, a) == 0)
  }

  /** An aligned word that starts in a range. */
  predicate WordIn(w: nat, base: nat, end: nat) {
    base <= w < end && Aligned(w)
  }

  /** All words from base to end are there. */
  ghost predicate Filled(memory: Dict, base: nat, end: nat) {
    forall w: nat :: WordIn(w, base, end) ==> w in memory
  }

  /** Exactly the words from base to end have come. */
  ghost predicate Grown(memory: Dict, after: Dict, base: nat, end: nat) {
    forall w: nat :: w in after <==> w in memory || WordIn(w, base, end)
  }

  /** The words that a segment's file data, and its zero fill, put in the dictionary. */
  predicate DataWord(seg: Segment, file: bytes, w: nat) {
    WordIn(w, Base(seg.vaddr), seg.vaddr + |Data(seg, file)|)
  }

  predicate ZeroFillWord(seg: Segment, w: nat) {
    seg.memsz > seg.filesz && WordIn(w, Base(seg.vaddr + seg.filesz), seg.vaddr + seg.memsz)
  }

  /** The words of the dictionary are those of the segments and no others. */
  ghost predicate ExactWords(memory: Dict, segs: seq<Segment>, file: bytes) {
    forall w: nat :: w in memory <==> exists i :: 0 <= i < |segs| && (DataWord(segs[i], file, w) || ZeroFillWord(segs[i], w))
  }

  /** They are the words in which some byte of the data, or of the zero fill, is. */
  lemma DataWordTouched(seg: Segment, file: bytes, w: nat)
    requires |Data(seg, file)| > 0
    ensures DataWord(seg, file, w) <==> exists a: nat :: InData(seg, file, a) && Base(a) == w
  {
    hide Data;
    RangeTouched(seg.vaddr, |Data(seg, file)|, w);
    if exists a: nat :: InData(seg, file, a) && Base(a) == w {
      var a: nat :| InData(seg, file, a) && Base(a) == w;
      assert seg.vaddr <= a < seg.vaddr + |Data(seg, file)| && Base(a) == w;
    }
    if DataWord(seg, file, w) {
      var a: nat :| seg.vaddr <= a < seg.vaddr + |Data(seg, file)| && Base(a) == w;
      assert InData(seg, file, a);
    }
  }

  lemma ZeroFillWordTouched(seg: Segment, w: nat)
    ensures ZeroFillWord(seg, w) <==> exists a: nat :: seg.vaddr + seg.filesz <= a < seg.vaddr + seg.memsz && Base(a) == w
  {
    if seg.memsz > seg.filesz {
      RangeTouched(seg.vaddr + seg.filesz, seg.memsz - seg.filesz, w);
    }
  }

  lemma RangeTouched(start: nat, len: nat, w: nat)
    requires len > 0
    ensures WordIn(w, Base(start), start + len) <==> exists a: nat :: start <= a < start + len && Base(a) == w
  {
    if WordIn(w, Base(start), start + len) {
      var a := if w < start then start else w;
      assert Base(a) == w by {
        BaseFacts(start);
        BaseFacts(w);
        BaseOf(w, 0);
      }
      assert start <= a < start + len;
    }
    if a: nat :| start <= a < start + len && Base(a) == w {
      BaseFacts(a);
      BaseGrows(start, a);
    }
  }

  /** A segment without file data at an address that is not aligned still puts a word there. */
  lemma EmptySegmentStored(seg: Segment, file: bytes)
    requires Data(seg, file) == []
    ensures forall w: nat :: DataWord(seg, file, w) <==> seg.vaddr % 8 != 0 && w == Base(seg.vaddr)
  {
    hide Data;
    forall w: nat
      ensures DataWord(seg, file, w) <==> seg.vaddr % 8 != 0 && w == Base(seg.vaddr)
    {
      BaseFacts(seg.vaddr);
    }
  }

  lemma ImageSnoc(segs: seq<Segment>, seg: Segment, file: bytes, a: nat)
    ensures Image(segs + [seg], file, a) == if InData(seg, file, a) then Data(seg, file)[a - seg.vaddr] else Image(segs, file, a)
  {
    assert (segs + [seg])[..|segs|] == segs;
  }

  /** The merge of one data word into a word that is there: only the bytes of the segment change. */
  method MergeWord(existing: nat, newWord: nat, i: nat, addrOffset: nat, len: nat,
                   ghost addr: nat, ghost segs: seq<Segment>, ghost seg: Segment, ghost file: bytes) returns (word: nat)
    requires addrOffset <= 7 && seg.vaddr + i == addr + addrOffset && len == |Data(seg, file)|
    requires forall k :: 0 <= k < 8 ==> Byte(existing, k) == Image(segs, file, addr + k)
    requires forall k :: 0 <= k < 8 && InData(seg, file, addr + k) ==> Byte(newWord, k) == Data(seg, file)[addr + k - seg.vaddr]
    ensures forall k :: 0 <= k < 8 ==> Byte(word, k) == Image(segs + [seg], file, addr + k)
  {
    hide Image, Data, Byte, SetByte;
    word := existing;
    for b := 0 to 8
      invariant forall k :: 0 <= k < b ==> Byte(word, k) == Image(segs + [seg], file, addr + k)
      invariant forall k :: b <= k < 8 ==> Byte(word, k) == Image(segs, file, addr + k)
    {
      var pos := i + b - addrOffset;
      ImageSnoc(segs, seg, file, addr + b);
      if 0 <= pos < len {
        assert InData(seg, file, addr + b);
        var newByte := Byte(newWord, b);
        ghost var before := word;
        word := SetByte(word, b, newByte);
        forall k | 0 <= k < 8
          ensures Byte(word, k) == if k == b then newByte else Byte(before, k)
        {
          ByteSet(before, b, newByte, k);
        }
      }
    }
  }

  /** The loop that stores a segment's padded data word by word. */
  method StoreData(memory: Dict, seg: Segment, file: bytes, ghost segs: seq<Segment>) returns (after: Dict)
    requires Shows(memory, segs, file)
    ensures Shows(after, segs + [seg], file)
    ensures memory.Keys <= after.Keys && Filled(after, Base(seg.vaddr), seg.vaddr + |Data(seg, file)|)
    ensures Grown(memory, after, Base(seg.vaddr), seg.vaddr + |Data(seg, file)|)
  {
    hide Image, Data, Byte, Pack, Base, Aligned, Filled, Storing, Shows, Grown;
    var data := Data(seg, file);
    var base := Base(seg.vaddr);
    BaseFacts(seg.vaddr);
    var addrOffset := seg.vaddr - base;
    var padded := Padded(addrOffset, data);
    after := memory;
    var i := 0;
    StartStoring(memory, segs, seg, file, base);
    NoneGrown(memory, base);
    while i < |padded|
      invariant Aligned(i) && i <= |padded|
      invariant Storing(after, segs, seg, file, base, base + i) && Filled(after, base, base + i)
      invariant memory.Keys <= after.Keys && Grown(memory, after, base, base + i)
      decreases |padded| - i
    {
      BaseNext(i, |padded|);
      BaseNext(base, i);
      ghost var before := after;
      after := StoreWord(after, base, i, padded, addrOffset, data, segs, seg, file);
      GrownOn(memory, before, after, base, base + i);
      i := i + 8;
    }
    BaseNext(base, |padded|);
    GrownTo(memory, after, base, base + |padded|, seg.vaddr + |data|);
    Stored(after, segs, seg, file, base, base + |padded|);
  }

  /** The data with zeros in front, and zeros behind up to a whole number of words. */
  method Padded(addrOffset: nat, data: bytes) returns (padded: bytes)
    ensures Aligned(|padded|) && addrOffset + |data| <= |padded| < addrOffset + |data| + 8
    ensures forall k :: 0 <= k < |padded| ==> padded[k] == if addrOffset <= k < addrOffset + |data| then data[k - addrOffset] else 0
  {
    padded := Zeros(addrOffset) + data;
    if |padded| % 8 != 0 {
      padded := padded + Zeros(8 - |padded| % 8);
    }
  }

  lemma NoneGrown(memory: Dict, base: nat)
    ensures Grown(memory, memory, base, base)
  {
  }

  lemma GrownOn(memory: Dict, mid: Dict, after: Dict, base: nat, addr: nat)
    requires Grown(memory, mid, base, addr) && after.Keys == mid.Keys + {addr} && Aligned(addr) && base <= addr
    ensures Grown(memory, after, base, addr + 8)
  {
    hide Aligned;
    forall w: nat
      ensures w in after <==> w in memory || WordIn(w, base, addr + 8)
    {
      assert w in after <==> w in mid || w == addr;
      if Aligned(w) {
        BaseNext(addr, w);
        BaseNext(w, addr);
      }
    }
  }

  /** A range that ends inside its last word has the same words as one that ends with it. */
  lemma GrownTo(memory: Dict, after: Dict, base: nat, end: nat, stop: nat)
    requires Grown(memory, after, base, end) && Aligned(end) && stop <= end < stop + 8
    ensures Grown(memory, after, base, stop)
  {
    hide Aligned;
    forall w: nat
      ensures w in after <==> w in memory || WordIn(w, base, stop)
    {
      assert w in after <==> w in memory || WordIn(w, base, end);
      if Aligned(w) {
        BaseNext(end, w);
      }
    }
  }

  lemma StartStoring(memory: Dict, segs: seq<Segment>, seg: Segment, file: bytes, base: nat)
    requires Shows(memory, segs, file)
    ensures Storing(memory, segs, seg, file, base, base) && Filled(memory, base, base) && Aligned(0)
  {
    hide Image, Byte, Base;
  }

  /** One round of that loop. */
  method StoreWord(memory: Dict, base: nat, i: nat, padded: bytes, addrOffset: nat, data: bytes,
                   ghost segs: seq<Segment>, ghost seg: Segment, ghost file: bytes) returns (after: Dict)
    requires Storing(memory, segs, seg, file, base, base + i) && Filled(memory, base, base + i)
    requires Aligned(base) && Aligned(i) && i + 8 <= |padded| && data == Data(seg, file)
    requires addrOffset <= 7 && seg.vaddr == base + addrOffset
    requires forall k :: 0 <= k < |padded| ==> padded[k] == if addrOffset <= k < addrOffset + |data| then data[k - addrOffset] else 0
    ensures Storing(after, segs, seg, file, base, base + (i + 8)) && Filled(after, base, base + (i + 8))
    ensures memory.Keys <= after.Keys && Aligned(i + 8) && after.Keys == memory.Keys + {base + i}
  {
    hide Image, Data, Byte, Pack, Base, Aligned, Filled, Storing;
    var addr := base + i;
    BaseNext(base, i);
    var newWord := Pack(padded[i..i + 8]);
    NewWord(padded, i, newWord, addrOffset, data);
    var word := newWord;
    if addr in memory {
      ThereWord(memory, segs, seg, file, base, addr);
      word := MergeWord(memory[addr], newWord, i, addrOffset, |data|, addr, segs, seg, file);
    } else {
      FreshWord(newWord, i, addrOffset, addr, segs, seg, file, memory, base);
    }
    after := memory[addr := word];
    StoredWord(memory, after, segs, seg, file, base, addr);
    BaseNext(i, i);
  }

  lemma ThereWord(memory: Dict, segs: seq<Segment>, seg: Segment, file: bytes, base: nat, addr: nat)
    requires Storing(memory, segs, seg, file, base, addr) && addr in memory
    ensures forall k :: 0 <= k < 8 ==> Byte(memory[addr], k) == Image(segs, file, addr + k)
  {
    hide Image, Byte, Base, Aligned;
  }

  lemma NewWord(padded: bytes, i: nat, w: nat, o: nat, data: bytes)
    requires i + 8 <= |padded| && w == Pack(padded[i..i + 8])
    requires forall k :: 0 <= k < |padded| ==> padded[k] == if o <= k < o + |data| then data[k - o] else 0
    ensures forall k :: 0 <= k < 8 ==> Byte(w, k) == if o <= i + k < o + |data| then data[i + k - o] else 0
  {
    hide Pack, Byte;
    forall k | 0 <= k < 8
      ensures Byte(w, k) == if o <= i + k < o + |data| then data[i + k - o] else 0
    {
      PackByte(padded[i..i + 8], k);
    }
  }

  /** A word that was not there shows the image: no earlier segment has data in it. */
  lemma FreshWord(w: nat, i: nat, o: nat, addr: nat, segs: seq<Segment>, seg: Segment, file: bytes, memory: Dict, base: nat)
    requires Aligned(addr) && addr !in memory && o <= 7 && seg.vaddr + i == addr + o
    requires Storing(memory, segs, seg, file, base, addr)
    requires var data := Data(seg, file);
             forall k :: 0 <= k < 8 ==> Byte(w, k) == if o <= i + k < o + |data| then data[i + k - o] else 0
    ensures forall k :: 0 <= k < 8 ==> Byte(w, k) == Image(segs + [seg], file, addr + k)
  {
    hide Image, Data, Byte, Base, Aligned;
    forall k | 0 <= k < 8
      ensures Byte(w, k) == Image(segs + [seg], file, addr + k)
    {
      ImageSnoc(segs, seg, file, addr + k);
      BaseOf(addr, k);
    }
  }

  lemma StoredWord(memory: Dict, after: Dict, segs: seq<Segment>, seg: Segment, file: bytes, base: nat, addr: nat)
    requires Storing(memory, segs, seg, file, base, addr) && Filled(memory, base, addr) && Aligned(addr) && base <= addr
    requires addr in after && after == memory[addr := after[addr]]
    requires forall k :: 0 <= k < 8 ==> Byte(after[addr], k) == Image(segs + [seg], file, addr + k)
    ensures Storing(after, segs, seg, file, base, addr + 8) && Filled(after, base, addr + 8)
  {
    hide Image, Byte, Base, Aligned;
    forall w, k | w in after && 0 <= k < 8
      ensures Byte(after[w], k) == if base <= w < addr + 8 then Image(segs + [seg], file, w + k) else Image(segs, file, w + k)
    {
      if w != addr {
        assert w in memory && after[w] == memory[w];
        BaseNext(addr, w);
        BaseNext(w, addr);
      }
    }
    forall w: nat | base <= w < addr + 8 && Aligned(w)
      ensures w in after
    {
      BaseNext(addr, w);
      BaseNext(w, addr);
    }
  }

  /** Words outside the padded data hold none of the segment. */
  lemma Stored(memory: Dict, segs: seq<Segment>, seg: Segment, file: bytes, base: nat, end: nat)
    requires Storing(memory, segs, seg, file, base, end) && Filled(memory, base, end)
    requires base == Base(seg.vaddr) && base <= end && Aligned(end - base) && seg.vaddr + |Data(seg, file)| <= end
    ensures Shows(memory, segs + [seg], file) && Filled(memory, base, seg.vaddr + |Data(seg, file)|)
  {
    hide Image, Byte, Data, Base, Aligned;
    BaseFacts(seg.vaddr);
    BaseNext(base, end - base);
    forall w, k | w in memory && 0 <= k < 8
      ensures Byte(memory[w], k) == Image(segs + [seg], file, w + k)
    {
      ImageSnoc(segs, seg, file, w + k);
      BaseNext(base, w);
      BaseNext(w, base);
    }
    forall a: nat | Base(a) !in memory
      ensures Image(segs + [seg], file, a) == 0
    {
      ImageSnoc(segs, seg, file, a);
      BaseFacts(a);
      BaseNext(base, Base(a));
      BaseNext(Base(a), base);
    }
  }

  /** The zero-fill loop: words that no one has stored. */
  method ZeroFill(memory: Dict, seg: Segment, ghost segs: seq<Segment>, ghost file: bytes) returns (after: Dict)
    requires Shows(memory, segs, file)
    ensures Shows(after, segs, file) && memory.Keys <= after.Keys
    ensures forall w: nat :: w in after <==> w in memory || ZeroFillWord(seg, w)
  {
    hide Image, Byte, Base, Aligned, Shows, Grown;
    after := memory;
    if seg.memsz > seg.filesz {
      var start := seg.vaddr + seg.filesz;
      var end := seg.vaddr + seg.memsz;
      var addr := Base(start);
      BaseFacts(start);
      NoneGrown(memory, addr);
      while addr < end
        invariant Aligned(addr) && Base(start) <= addr < end + 8
        invariant Shows(after, segs, file) && memory.Keys <= after.Keys
        invariant Grown(memory, after, Base(start), addr)
        decreases end - addr
      {
        ghost var before := after;
        if addr !in after {
          ZeroWord(after, segs, file, addr);
          after := after[addr := 0];
        }
        GrownOn(memory, before, after, Base(start), addr);
        BaseNext(addr, addr);
        addr := addr + 8;
      }
      GrownTo(memory, after, Base(start), addr, end);
      ZeroFilled(memory, after, seg);
    }
  }

  lemma ZeroFilled(memory: Dict, after: Dict, seg: Segment)
    requires seg.memsz > seg.filesz && Grown(memory, after, Base(seg.vaddr + seg.filesz), seg.vaddr + seg.memsz)
    ensures forall w: nat :: w in after <==> w in memory || ZeroFillWord(seg, w)
  {
    hide Base, Aligned;
  }

  lemma ZeroWord(memory: Dict, segs: seq<Segment>, file: bytes, addr: nat)
    requires Shows(memory, segs, file) && Aligned(addr) && addr !in memory
    ensures Shows(memory[addr := 0], segs, file)
  {
    hide Image, Byte, Base, Aligned;
    var after := memory[addr := 0];
    forall w, k | w in after && 0 <= k < 8
      ensures Byte(after[w], k) == Image(segs, file, w + k)
    {
      if w == addr {
        ZeroByte(k);
        BaseOf(addr, k);
      }
    }
  }

  lemma {:induction false} ZeroByte(k: nat)
    ensures Byte(0, k) == 0
  {
    if k > 0 {
      ZeroByte(k - 1);
    }
  }

  /** elf_to_memory_dict, from the list of segments on. */
  method ElfToMemoryDict(file: bytes, segs: seq<Segment>) returns (memory: Dict)
    ensures Shows(memory, segs, file) && ExactWords(memory, segs, file)
    ensures forall j :: 0 <= j < |segs| && segs[j].offset + segs[j].filesz <= |file| ==> Covers(memory, segs[j])
  {
    hide Shows, Data, Covers, Filled, Base, Grown, ExactWords, DataWord, ZeroFillWord;
    memory := map[];
    NothingShown(file);
    NoWords(file);
    for i := 0 to |segs|
      invariant Shows(memory, segs[..i], file) && ExactWords(memory, segs[..i], file)
      invariant forall j :: 0 <= j < i && segs[j].offset + segs[j].filesz <= |file| ==> Covers(memory, segs[j])
    {
      ghost var before := memory;
      var seg := segs[i];
      var mid := StoreData(memory, seg, file, segs[..i]);
      assert segs[..i] + [seg] == segs[..i + 1];
      memory := ZeroFill(mid, seg, segs[..i + 1], file);
      MoreWords(before, mid, memory, segs[..i], seg, file);
      CoversKept(before, memory, segs, i);
      if seg.offset + seg.filesz <= |file| {
        NowCovered(mid, memory, seg, file);
      }
    }
    assert segs[..|segs|] == segs;
  }

  lemma NoWords(file: bytes)
    ensures ExactWords(map[], [], file)
  {
  }

  lemma MoreWords(before: Dict, mid: Dict, after: Dict, segs: seq<Segment>, seg: Segment, file: bytes)
    requires ExactWords(before, segs, file) && Grown(before, mid, Base(seg.vaddr), seg.vaddr + |Data(seg, file)|)
    requires forall w: nat :: w in after <==> w in mid || ZeroFillWord(seg, w)
    ensures ExactWords(after, segs + [seg], file)
  {
    hide Data, Base, WordIn, ZeroFillWord;
    var all := segs + [seg];
    forall w: nat
      ensures w in after <==> exists i :: 0 <= i < |all| && (DataWord(all[i], file, w) || ZeroFillWord(all[i], w))
    {
      assert w in mid <==> w in before || DataWord(seg, file, w);
      if w in before {
        var i :| 0 <= i < |segs| && (DataWord(segs[i], file, w) || ZeroFillWord(segs[i], w));
        assert all[i] == segs[i];
      }
      assert all[|segs|] == seg;
      if i :| 0 <= i < |all| && (DataWord(all[i], file, w) || ZeroFillWord(all[i], w)) {
        assert i < |segs| ==> all[i] == segs[i];
      }
    }
  }

  lemma CoversKept(before: Dict, after: Dict, segs: seq<Segment>, i: nat)
    requires before.Keys <= after.Keys && i <= |segs|
    ensures forall j :: 0 <= j < i && Covers(before, segs[j]) ==> Covers(after, segs[j])
  {
    hide Base;
  }

  lemma NowCovered(mid: Dict, memory: Dict, seg: Segment, file: bytes)
    requires seg.offset + seg.filesz <= |file| && mid.Keys <= memory.Keys
    requires Filled(mid, Base(seg.vaddr), seg.vaddr + |Data(seg, file)|)
    requires forall w: nat :: ZeroFillWord(seg, w) ==> w in memory
    ensures Covers(memory, seg)
  {
    hide Base, Aligned;
    forall a: nat | seg.vaddr <= a < seg.vaddr + seg.memsz
      ensures Base(a) in memory
    {
      BaseFacts(a);
      if a < seg.vaddr + seg.filesz {
        BaseGrows(seg.vaddr, a);
        assert Base(a) in mid;
      } else {
        BaseGrows(seg.vaddr + seg.filesz, a);
      }
    }
  }

  lemma BaseGrows(a: nat, b: nat)
    requires a <= b
    ensures Base(a) <= Base(b)
  {
  }

  lemma NothingShown(file: bytes)
    ensures Shows(map[], [], file)
  {
  }

  // ----------------------------------------------------------- agreement

  /** Segments whose memory does not overlap. */
  predicate Beside(s: Segment, t: Segment) {
    s.vaddr + s.memsz <= t.vaddr || t.vaddr + t.memsz <= s.vaddr
  }

  ghost predicate Disjoint(segs: seq<Segment>) {
    forall i, j :: 0 <= i < j < |segs| ==> Beside(segs[i], segs[j])
  }

  /** What a segment puts at one of its addresses. */
  function SegmentByte(seg: Segment, file: bytes, a: nat): byte
    requires seg.vaddr <= a < seg.vaddr + seg.memsz && seg.filesz <= seg.memsz && seg.offset + seg.filesz <= |file|
  {
    if a < seg.vaddr + seg.filesz then file[seg.offset + (a - seg.vaddr)] else 0
  }

  lemma {:induction false} LoadedByte(mem: bytes, file: bytes, segs: seq<Segment>, n: nat, a: nat)
    requires AllSound(segs, file, |mem|) && (forall i :: 0 <= i < |segs| ==> segs[i].paddr == segs[i].vaddr)
    requires Disjoint(segs) && n < |segs| && segs[n].vaddr <= a < segs[n].vaddr + segs[n].memsz
    ensures Loaded(mem, file, segs)[a] == SegmentByte(segs[n], file, a)
    decreases |segs|
  {
    var init, last := segs[..|segs| - 1], segs[|segs| - 1];
    PatchAt(Loaded(mem, file, init), last.paddr, SegmentBytes(last, file), a);
    hide Patch, SegmentBytes;
    if n < |segs| - 1 {
      assert Beside(segs[n], last);
      LoadedByte(mem, file, init, n, a);
    } else {
      SegmentBytesAt(last, file, a);
    }
  }

  /** Bytes outside all segments keep their old values. */
  lemma {:induction false} LoadedElsewhere(mem: bytes, file: bytes, segs: seq<Segment>, a: nat)
    requires AllSound(segs, file, |mem|) && a < |mem|
    requires forall i :: 0 <= i < |segs| ==> !(segs[i].paddr <= a < segs[i].paddr + segs[i].memsz)
    ensures Loaded(mem, file, segs)[a] == mem[a]
    decreases |segs|
  {
    if segs != [] {
      var init, last := segs[..|segs| - 1], segs[|segs| - 1];
      PatchAt(Loaded(mem, file, init), last.paddr, SegmentBytes(last, file), a);
      hide Patch, SegmentBytes;
      LoadedElsewhere(mem, file, init, a);
    }
  }

  lemma PatchAt(s: bytes, o: nat, w: bytes, a: nat)
    requires o + |w| <= |s| && a < |s|
    ensures Patch(s, o, w)[a] == if o <= a < o + |w| then w[a - o] else s[a]
  {
  }

  lemma SegmentBytesAt(seg: Segment, file: bytes, a: nat)
    requires seg.vaddr <= a < seg.vaddr + seg.memsz && seg.filesz <= seg.memsz && seg.offset + seg.filesz <= |file|
    ensures |SegmentBytes(seg, file)| == seg.memsz && SegmentBytes(seg, file)[a - seg.vaddr] == SegmentByte(seg, file, a)
  {
  }

  lemma {:induction false} ImageByte(file: bytes, segs: seq<Segment>, n: nat, a: nat, size: nat)
    requires AllSound(segs, file, size) && Disjoint(segs)
    requires n < |segs| && segs[n].vaddr <= a < segs[n].vaddr + segs[n].memsz
    ensures Image(segs, file, a) == SegmentByte(segs[n], file, a)
    decreases |segs|
  {
    var init, last := segs[..|segs| - 1], segs[|segs| - 1];
    DataIs(last, file, a, size);
    hide Data;
    if n < |segs| - 1 {
      assert Beside(segs[n], last);
      ImageByte(file, init, n, a, size);
    } else if a >= last.vaddr + last.filesz {
      ImageElsewhere(file, init, last, a, size);
    }
  }

  lemma DataIs(seg: Segment, file: bytes, a: nat, size: nat)
    requires Sound(seg, file, size)
    ensures |Data(seg, file)| == seg.filesz
    ensures seg.vaddr <= a < seg.vaddr + seg.filesz ==> Data(seg, file)[a - seg.vaddr] == file[seg.offset + (a - seg.vaddr)]
  {
  }

  lemma {:induction false} ImageElsewhere(file: bytes, segs: seq<Segment>, last: Segment, a: nat, size: nat)
    requires AllSound(segs, file, size) && last.vaddr <= a < last.vaddr + last.memsz
    requires forall i :: 0 <= i < |segs| ==> Beside(segs[i], last)
    ensures Image(segs, file, a) == 0
    decreases |segs|
  {
    if segs != [] {
      var s := segs[|segs| - 1];
      DataIs(s, file, a, size);
      hide Data;
      assert Beside(s, last);
      ImageElsewhere(file, segs[..|segs| - 1], last, a, size);
    }
  }

  /**
   The loaders agree: at every address of every segment, target memory holds the
   byte that the dictionary shows, whatever the order of the segments and even
   where segments share a word.
   */
  method LoadBoth(memif: MemIf, file: bytes, segs: seq<Segment>) returns (memory: Dict)
    requires memif.cmemif.Valid() && Disjoint(segs) && AllSound(segs, file, |memif.cmemif.mem|)
    requires forall i :: 0 <= i < |segs| ==> segs[i].paddr == segs[i].vaddr
    modifies memif.cmemif
    ensures |memif.cmemif.mem| == |old(memif.cmemif.mem)| && ExactWords(memory, segs, file)
    ensures forall a: nat :: a < |memif.cmemif.mem| && (forall i :: 0 <= i < |segs| ==> !(segs[i].vaddr <= a < segs[i].vaddr + segs[i].memsz)) ==>
              memif.cmemif.mem[a] == old(memif.cmemif.mem)[a]
    ensures forall n, a: nat :: 0 <= n < |segs| && segs[n].vaddr <= a < segs[n].vaddr + segs[n].memsz ==>
              && Base(a) in memory
              && memif.cmemif.mem[a] == Byte(memory[Base(a)], a % 8) == SegmentByte(segs[n], file, a)
  {
    hide Loaded, Image, Byte, Data, Base, Shows, SegmentByte, ExactWords;
    ghost var was := memif.cmemif.mem;
    LoadElf(memif, file, segs);
    memory := ElfToMemoryDict(file, segs);
    forall a: nat | a < |was| && (forall i :: 0 <= i < |segs| ==> !(segs[i].vaddr <= a < segs[i].vaddr + segs[i].memsz))
      ensures memif.cmemif.mem[a] == was[a]
    {
      LoadedElsewhere(was, file, segs, a);
    }
    forall n, a: nat | 0 <= n < |segs| && segs[n].vaddr <= a < segs[n].vaddr + segs[n].memsz
      ensures Base(a) in memory && memif.cmemif.mem[a] == Byte(memory[Base(a)], a % 8) == SegmentByte(segs[n], file, a)
    {
      LoadedByte(was, file, segs, n, a);
      ImageByte(file, segs, n, a, |was|);
      assert Covers(memory, segs[n]);
      ShownByte(memory, segs, file, a);
    }
  }

  lemma ShownByte(memory: Dict, segs: seq<Segment>, file: bytes, a: nat)
    requires Shows(memory, segs, file) && Base(a) in memory
    ensures Byte(memory[Base(a)], a % 8) == Image(segs, file, a)
  {
    hide Image, Byte, Base, Aligned;
    BaseFacts(a);
    assert Base(a) + (a - Base(a)) == a;
  }
}
