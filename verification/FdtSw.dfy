/**
 fdt_sw.c: writing a tree sequentially. Tokens are appended to the structure
 block, which grows up, and names are put in front of the string table, which
 grows down from the end of the buffer; fdt_finish moves the strings down
 behind the structure and patches every name offset.
 */
module FdtSw {
  import opened Bytes
  import opened FdtFormat
  import opened FdtBlob
  import opened FdtReserve
  import opened FdtCore

  const HDRSIZE := 48
  const FDT_CREATE_FLAG_NO_NAME_DEDUP := 1
  const FIRST_SUPPORTED_VERSION := 2

  /** ts with one more token. */
  function Snoc(ts: Tokens, t: Token): Tokens {
    if ts.Nil? then Cons(t, Nil) else Cons(ts.head, Snoc(ts.tail, t))
  }

  /** A tree being written: the strings end the buffer, and do not meet the structure. */
  ghost predicate Writing(fdt: Blob)
    reads fdt
  {
    && fdt.magic == FDT_SW_MAGIC && fdt.version == 17 && fdt.lastComp <= 1
    && fdt.offRsv == HDRSIZE <= fdt.offStruct && (fdt.offStruct - HDRSIZE) % RSV_ENTRY == 0
    && fdt.Bounds() && fdt.offStruct + fdt.sizeStruct <= fdt.StrStart()
  }

  /** The state between fdt_create and fdt_finish_reservemap. */
  ghost predicate MemRsvState(fdt: Blob)
    reads fdt
  {
    Writing(fdt) && fdt.offStrings == 0 && fdt.sizeStruct == 0 && fdt.sizeStrings == 0
  }

  /** The state in which nodes and properties are written: the tokens so far are in the structure block. */
  ghost predicate StructState(fdt: Blob)
    reads fdt, fdt.buf
  {
    && Writing(fdt) && fdt.offStrings == fdt.totalsize && HDRSIZE + RSV_ENTRY <= fdt.offStruct
    && fdt.At(0, fdt.toks) && Open(fdt.toks)
  }

  /** No FDT_END yet. */
  predicate Open(ts: Tokens) {
    ts.Nil? || (!ts.head.End? && Open(ts.tail))
  }

  lemma {:induction false} SnocOpen(ts: Tokens, t: Token)
    requires Open(ts)
    ensures !t.End? ==> Open(Snoc(ts, t))
    ensures t.End? ==> Complete(Snoc(ts, t))
    decreases ts
  {
    if ts.Cons? {
      SnocOpen(ts.tail, t);
    }
  }

  /** Any state of the sequential interface, finished trees included. */
  ghost predicate SwValid(fdt: Blob)
    reads fdt, fdt.buf
  {
    fdt.magic == FDT_SW_MAGIC ==> MemRsvState(fdt) || StructState(fdt)
  }

  /** fdt_sw_probe_ and its two refinements. */
  function Probe(fdt: Blob): int
    reads fdt
  {
    if fdt.magic == FDT_MAGIC then -ERR_BADSTATE
    else if fdt.magic != FDT_SW_MAGIC then -ERR_BADMAGIC
    else 0
  }

  function ProbeMemRsv(fdt: Blob): int
    reads fdt
  {
    if Probe(fdt) != 0 then Probe(fdt) else if fdt.offStrings != 0 then -ERR_BADSTATE else 0
  }

  function ProbeStruct(fdt: Blob): int
    reads fdt
  {
    if Probe(fdt) != 0 then Probe(fdt) else if fdt.offStrings != fdt.totalsize then -ERR_BADSTATE else 0
  }

  // -------------------------------------------------- reservation state

  /** fdt_create_with_flags on a buffer of bufsize bytes. */
  method Create(fdt: Blob, bufsize: nat, flags: nat) returns (r: int)
    requires bufsize <= fdt.buf.Length && bufsize < INT32_MAX
    modifies fdt, fdt.buf
    ensures fdt.buf == old(fdt.buf)
    ensures r == if bufsize < HDRSIZE then -ERR_NOSPACE else if flags > FDT_CREATE_FLAG_NO_NAME_DEDUP then -ERR_BADFLAGS else 0
    ensures r == 0 ==> MemRsvState(fdt) && fdt.totalsize == bufsize && fdt.lastComp == flags && RsvMap(fdt) == [] && fdt.toks == Nil
    ensures r != 0 ==> unchanged(fdt) && fdt.buf[..] == old(fdt.buf[..])
  {
    if bufsize < HDRSIZE {
      return -ERR_NOSPACE;
    }
    if flags > FDT_CREATE_FLAG_NO_NAME_DEDUP {
      return -ERR_BADFLAGS;
    }
    CopyIn(fdt.buf, 0, seq(bufsize, _ => 0));
    fdt.magic := FDT_SW_MAGIC;
    fdt.version := 17;
    fdt.lastComp := flags;
    fdt.totalsize := bufsize;
    fdt.offRsv := HDRSIZE;
    fdt.offStruct := fdt.offRsv;
    fdt.offStrings := 0;
    fdt.sizeStruct := 0;
    fdt.sizeStrings := 0;
    fdt.toks := Nil;
    r := 0;
  }

  /** fdt_add_reservemap_entry: one more entry, behind the others. */
  method AddReservemapEntry(fdt: Blob, addr: nat, size: nat) returns (r: int)
    requires SwValid(fdt) && addr < U64_LIMIT && size < U64_LIMIT
    modifies fdt`offStruct, fdt.buf
    ensures SwValid(fdt)
    ensures old(ProbeMemRsv(fdt)) != 0 ==> r == old(ProbeMemRsv(fdt))
    ensures old(ProbeMemRsv(fdt)) == 0 ==>
              && MemRsvState(fdt)
              && (r == if old(fdt.offStruct) + RSV_ENTRY > fdt.totalsize then -ERR_NOSPACE else 0)
              && fdt.offStruct == old(fdt.offStruct) + (if r == 0 then RSV_ENTRY else 0)
              && (r == 0 ==> RsvMap(fdt) == old(RsvMap(fdt)) + Reserved(addr, size).Bytes())
              && (r == 0 ==> Entries(RsvMap(fdt)) == old(Entries(RsvMap(fdt))) + [Reserved(addr, size)])
    ensures r != 0 ==> fdt.offStruct == old(fdt.offStruct) && fdt.buf[..] == old(fdt.buf[..])
  {
    hide Word32, Patch, Entries, Reserved.Bytes, EntryAt;
    if ProbeMemRsv(fdt) != 0 {
      return ProbeMemRsv(fdt);
    }
    var offset := fdt.offStruct;
    if offset + RSV_ENTRY > fdt.totalsize {
      return -ERR_NOSPACE;
    }
    ghost var was := fdt.buf[..];
    var re := Reserved(addr, size);
    EntryAdded(RsvMap(fdt), re);
    CopyIn(fdt.buf, offset, re.Bytes());
    fdt.offStruct := offset + RSV_ENTRY;
    AppendedMap(was, fdt.buf[..], fdt.offRsv, offset, re.Bytes());
    r := 0;
  }

  lemma AppendedMap(was: bytes, now: bytes, a: nat, b: nat, w: bytes)
    requires a <= b && b + |w| <= |was| && now == Patch(was, b, w)
    ensures now[..b + |w|][a..] == was[..b][a..] + w
  {
    assert now[..b + |w|][a..] == now[a..b + |w|] && was[..b][a..] == was[a..b];
    PatchInside(was, b, w, a, b - a + |w|);
    assert was[a..b + |w|][..b - a] == was[a..b];
  }

  /** fdt_finish_reservemap: the terminator. */
  method FinishReservemap(fdt: Blob) returns (r: int)
    requires SwValid(fdt)
    modifies fdt`offStruct, fdt`offStrings, fdt`toks, fdt.buf
    ensures SwValid(fdt)
    ensures old(ProbeMemRsv(fdt)) != 0 ==> r == old(ProbeMemRsv(fdt))
    ensures old(ProbeMemRsv(fdt)) == 0 ==>
              && (r == if old(fdt.offStruct) + RSV_ENTRY > fdt.totalsize then -ERR_NOSPACE else 0)
              && (r != 0 ==> MemRsvState(fdt))
              && (r == 0 ==> StructState(fdt) && fdt.toks == Nil)
              && (r == 0 ==> RsvMap(fdt) == old(RsvMap(fdt)) + TERMINATOR.Bytes())
              && (r == 0 ==> Entries(RsvMap(fdt)) == old(Entries(RsvMap(fdt))) + [TERMINATOR])
    ensures r != 0 ==> unchanged(fdt) && fdt.buf[..] == old(fdt.buf[..])
  {
    hide Entries, Reserved.Bytes, RsvMap, EncAt, Open, Blob.Bounds, Blob.At;
    r := AddReservemapEntry(fdt, 0, 0);
    if r == 0 {
      EnterStruct(fdt);
    }
  }

  /** The state changes once the terminator is there. */
  method EnterStruct(fdt: Blob)
    requires MemRsvState(fdt) && HDRSIZE + RSV_ENTRY <= fdt.offStruct
    modifies fdt`offStrings, fdt`toks
    ensures StructState(fdt) && fdt.toks == Nil && RsvMap(fdt) == old(RsvMap(fdt))
  {
    hide RsvMap;
    fdt.offStrings := fdt.totalsize;
    fdt.toks := Nil;
  }

  // --------------------------------------------------- structure state

  /** Room for one more token at the end of the structure block. */
  method GrabSpace(fdt: Blob, len: nat) returns (ok: bool, off: nat)
    requires Writing(fdt)
    modifies fdt`sizeStruct
    ensures Writing(fdt) && fdt.Tab() == old(fdt.Tab()) && off == old(fdt.sizeStruct)
    ensures ok <==> off + len <= fdt.totalsize - fdt.offStruct - fdt.sizeStrings
    ensures fdt.sizeStruct == off + (if ok then len else 0)
    ensures fdt.Block()[..off] == old(fdt.Block())
  {
    off := fdt.sizeStruct;
    var spaceleft := fdt.totalsize - fdt.offStruct - fdt.sizeStrings;
    if off + len > spaceleft {
      return false, off;
    }
    fdt.sizeStruct := off + len;
    assert fdt.buf[..][fdt.offStruct..fdt.offStruct + off + len][..off] == fdt.buf[..][fdt.offStruct..fdt.offStruct + off];
    ok := true;
  }

  /** Bytes of a token that has been given room. */
  method Store(fdt: Blob, off: nat, w: bytes)
    requires Writing(fdt) && off + |w| <= fdt.sizeStruct
    modifies fdt.buf
    ensures fdt.Block() == Patch(old(fdt.Block()), off, w)
    ensures fdt.Tab() == old(fdt.Tab()) && RsvMap(fdt) == old(RsvMap(fdt))
  {
    hide Patch;
    WriteBytes(fdt, off, w);
  }

  /** The tokens so far and one more. */
  lemma {:induction false} EncSnoc(s: bytes, s': bytes, off: nat, ns: Names, ns': Names, ts: Tokens, t: Token)
    requires EncAt(s, off, ns, ts) && EncTok(s', |s|, ns', t) && |s'| == |s| + TokLen(t) && s'[..|s|] == s
    requires forall o: nat, name :: ns.Is(o, name) ==> ns'.Is(o, name)
    ensures EncAt(s', off, ns', Snoc(ts, t))
    decreases ts
  {
    hide EncTok, TokLen;
    if ts.Cons? {
      var n := TokLen(ts.head);
      EncTokIn(s, off, ns, ts.head);
      EncWithin(s, off, ns, ts);
      SamePart(s', s, off, n);
      EncTokCopy(s, off, ns, ts.head, s', off, ns');
      EncSnoc(s, s', off + n, ns, ns', ts.tail, t);
    }
  }

  lemma SamePart(s': bytes, s: bytes, off: nat, n: nat)
    requires off + n <= |s| <= |s'| && s'[..|s|] == s
    ensures s'[off..off + n] == s[off..off + n]
  {
    SliceSlice(s', 0, |s|, off, n);
  }

  lemma EncWithin(s: bytes, off: nat, ns: Names, ts: Tokens)
    requires EncAt(s, off, ns, ts)
    ensures off <= |s|
  {
    EncLen(s, off, ns, ts);
  }

  /** fdt_begin_node */
  method BeginNode(fdt: Blob, name: bytes) returns (r: int)
    requires SwValid(fdt) && CStr(name) && |name| < INT32_MAX
    modifies fdt`sizeStruct, fdt`toks, fdt.buf
    ensures SwValid(fdt)
    ensures old(ProbeStruct(fdt)) != 0 ==> r == old(ProbeStruct(fdt)) && unchanged(fdt, fdt.buf)
    ensures old(ProbeStruct(fdt)) == 0 ==>
              && StructState(fdt) && RsvMap(fdt) == old(RsvMap(fdt))
              && (r == if old(fdt.sizeStruct) + 4 + Align4(|name| + 1) <= fdt.totalsize - fdt.offStruct - fdt.sizeStrings then 0 else -ERR_NOSPACE)
              && fdt.toks == if r == 0 then Snoc(old(fdt.toks), Begin(name)) else old(fdt.toks)
  {
    hide Word, Word32, EncAt, EncTok, TokLen, Align4, Patch, CStr, Blob.Block, Blob.Tab, Snoc, Open;
    if ProbeStruct(fdt) != 0 {
      return ProbeStruct(fdt);
    }
    ghost var was, ns, ts := fdt.Block(), fdt.Tab(), fdt.toks;
    EncLen(was, 0, ns, ts);
    var ok, off := GrabSpace(fdt, 4 + Align4(|name| + 1));
    if !ok {
      return -ERR_NOSPACE;
    }
    ghost var mid := fdt.Block();
    Store(fdt, off, Word32(FDT_BEGIN_NODE));
    Store(fdt, off + 4, name + [0]);
    BeginWritten(was, mid, fdt.Block(), ns, ts, name);
    SnocOpen(ts, Begin(name));
    fdt.toks := Snoc(ts, Begin(name));
    r := 0;
  }

  lemma EncEndsAligned(s: bytes, off: nat, ns: Names, ts: Tokens)
    requires EncAt(s, off, ns, ts) && off % 4 == 0
    ensures |s| % 4 == 0
    decreases ts
  {
    hide TokLen;
    if ts.Cons? {
      TokLenAligned(ts.head);
      EncEndsAligned(s, off + TokLen(ts.head), ns, ts.tail);
    }
  }

  lemma BeginWritten(was: bytes, mid: bytes, now: bytes, ns: Names, ts: Tokens, name: bytes)
    requires EncAt(was, 0, ns, ts) && CStr(name) && |mid| == |was| + 4 + Align4(|name| + 1) && mid[..|was|] == was
    requires now == Patch(Patch(mid, |was|, Word32(FDT_BEGIN_NODE)), |was| + 4, name + [0])
    ensures EncAt(now, 0, ns, Snoc(ts, Begin(name)))
  {
    hide Word, Word32, Align4, Patch, EncAt, Snoc;
    var o, w, v := |was|, Word32(FDT_BEGIN_NODE), name + [0];
    var c := Patch(mid, o, w);
    WordPatched(mid, o, FDT_BEGIN_NODE);
    WordPatch(c, o + 4, v, o);
    PatchParts(c, o + 4, v);
    WrittenString(now, o + 4, name);
    EncEndsAligned(was, 0, ns, ts);
    PatchFront(mid, o, w, o);
    PatchFront(c, o + 4, v, o);
    EncSnoc(was, now, 0, ns, ns, ts, Begin(name));
  }

  /** fdt_end_node */
  method EndNode_(fdt: Blob) returns (r: int)
    requires SwValid(fdt)
    modifies fdt`sizeStruct, fdt`toks, fdt.buf
    ensures SwValid(fdt)
    ensures old(ProbeStruct(fdt)) != 0 ==> r == old(ProbeStruct(fdt)) && unchanged(fdt, fdt.buf)
    ensures old(ProbeStruct(fdt)) == 0 ==>
              && StructState(fdt) && RsvMap(fdt) == old(RsvMap(fdt))
              && (r == if old(fdt.sizeStruct) + 4 <= fdt.totalsize - fdt.offStruct - fdt.sizeStrings then 0 else -ERR_NOSPACE)
              && fdt.toks == if r == 0 then Snoc(old(fdt.toks), EndNode) else old(fdt.toks)
  {
    if ProbeStruct(fdt) != 0 {
      return ProbeStruct(fdt);
    }
    r := AppendTag(fdt, FDT_END_NODE, EndNode);
  }

  /** A token that is a tag alone. */
  method AppendTag(fdt: Blob, tag: nat, ghost t: Token) returns (r: int)
    requires StructState(fdt) && tag == TagOf(t) && !t.Begin? && !t.Prop?
    modifies fdt`sizeStruct, fdt`toks, fdt.buf
    ensures Writing(fdt) && fdt.At(0, fdt.toks) && (r != 0 || !t.End? ==> StructState(fdt))
    ensures RsvMap(fdt) == old(RsvMap(fdt)) && fdt.Tab() == old(fdt.Tab())
    ensures r == if old(fdt.sizeStruct) + 4 <= fdt.totalsize - fdt.offStruct - fdt.sizeStrings then 0 else -ERR_NOSPACE
    ensures fdt.toks == if r == 0 then Snoc(old(fdt.toks), t) else old(fdt.toks)
  {
    hide Word, Word32, EncAt, EncTok, TokLen, Align4, Patch, Blob.Block, Blob.Tab, Snoc, Open;
    ghost var was, ns, ts := fdt.Block(), fdt.Tab(), fdt.toks;
    EncLen(was, 0, ns, ts);
    var ok, off := GrabSpace(fdt, 4);
    if !ok {
      return -ERR_NOSPACE;
    }
    ghost var mid := fdt.Block();
    Store(fdt, off, Word32(tag));
    TagWritten(was, mid, fdt.Block(), ns, ts, t);
    SnocOpen(ts, t);
    fdt.toks := Snoc(ts, t);
    r := 0;
  }

  lemma TagWritten(was: bytes, mid: bytes, now: bytes, ns: Names, ts: Tokens, t: Token)
    requires EncAt(was, 0, ns, ts) && !t.Begin? && !t.Prop? && |mid| == |was| + 4 && mid[..|was|] == was
    requires now == Patch(mid, |was|, Word32(TagOf(t)))
    ensures EncAt(now, 0, ns, Snoc(ts, t))
  {
    hide Word, Word32, Patch, EncAt, Snoc;
    WordPatched(mid, |was|, TagOf(t));
    EncEndsAligned(was, 0, ns, ts);
    PatchFront(mid, |was|, Word32(TagOf(t)), |was|);
    EncSnoc(was, now, 0, ns, ns, ts, t);
  }

  // ------------------------------------------------------------- names

  /** Putting a string in front of the table keeps what every offset from its end means. */
  lemma TableGrowsDown(t: bytes, w: bytes, o: nat, name: bytes)
    requires Names(t, true).Is(o, name)
    ensures Names(w + t, true).Is(o, name)
  {
    var i := Names(t, true).Index(o);
    assert (w + t)[|w| + i..|w| + i + |name|] == t[i..i + |name|];
    assert (w + t)[|w| + i + |name|] == t[i + |name|];
  }

  lemma TableGrowsDownAll(t: bytes, w: bytes)
    ensures forall o: nat, name :: Names(t, true).Is(o, name) ==> Names(w + t, true).Is(o, name)
  {
    forall o: nat, name | Names(t, true).Is(o, name)
      ensures Names(w + t, true).Is(o, name)
    {
      TableGrowsDown(t, w, o, name);
    }
  }

  /**
   The test by which fdt_add_string_ refuses a string of len bytes, NUL
   included. The size of the buffer is unsigned, so the sum has 32 bits.
   */
  predicate Refused(totalsize: nat, strtabsize: nat, structTop: nat, len: nat) {
    (totalsize - strtabsize - len) % U32_LIMIT < structTop
  }

  /** It refuses exactly the strings that do not fit, exactly if the string and the table do not outgrow the whole buffer. */
  lemma RefusedExactly(totalsize: nat, strtabsize: nat, structTop: nat, len: nat)
    requires 0 < structTop && structTop + strtabsize <= totalsize < INT32_MAX && len <= INT32_MAX
    ensures Refused(totalsize, strtabsize, structTop, len) <==> totalsize - structTop < strtabsize + len <= totalsize
    ensures (Refused(totalsize, strtabsize, structTop, len) <==> structTop + strtabsize + len > totalsize) <==>
            strtabsize + len <= totalsize
  {
    var d := totalsize - strtabsize - len;
    assert d >= 0 ==> d % U32_LIMIT == d;
    assert d < 0 ==> d % U32_LIMIT == d + U32_LIMIT;
  }

  /** A string that is longer than all that is left of the buffer: what fdt_add_string_ copies starts in front of it. */
  predicate Outgrows(table: bytes, totalsize: nat, s: bytes) {
    |table| + |s| + 1 > totalsize
  }

  /** Such a name, where it is not in the table already or is not looked for there. */
  ghost predicate NewOutgrows(table: bytes, totalsize: nat, flags: nat, name: bytes) {
    && Outgrows(table, totalsize, name)
    && (flags == FDT_CREATE_FLAG_NO_NAME_DEDUP || forall i :: !StringAt(table, i, name))
  }

  ghost predicate RunsOver(fdt: Blob, name: bytes)
    requires fdt.Bounds()
    reads fdt, fdt.buf
  {
    NewOutgrows(fdt.Tab().strs, fdt.totalsize, fdt.lastComp, name)
  }

  /**
   fdt_add_string_ (sw): a new string below the others; its offset from the end
   of the buffer, or 0. None stands for a copy that starts in front of the
   buffer, after which nothing is known.
   */
  method AddString(fdt: Blob, s: bytes) returns (r: Option<int>)
    requires Writing(fdt) && CStr(s) && |s| < INT32_MAX
    modifies fdt`sizeStrings, fdt.buf
    ensures Writing(fdt) && fdt.Block() == old(fdt.Block()) && RsvMap(fdt) == old(RsvMap(fdt))
    ensures r.None? <==> Outgrows(old(fdt.Tab().strs), fdt.totalsize, s)
    ensures r.Some? ==>
              r.value == if fdt.offStruct + fdt.sizeStruct + old(fdt.sizeStrings) + |s| + 1 > fdt.totalsize then 0
                         else 0 - old(fdt.sizeStrings) - |s| - 1
    ensures r.None? || r.value == 0 ==> fdt.Tab() == old(fdt.Tab())
    ensures r.Some? && r.value != 0 ==> fdt.Tab() == Names((s + [0]) + old(fdt.Tab().strs), true)
  {
    hide Blob.Block, Blob.Tab, RsvMap, Refused, Blob.Front;
    var strtabsize := fdt.sizeStrings;
    var len := |s| + 1;
    var offset := 0 - strtabsize - len;
    var structTop := fdt.offStruct + fdt.sizeStruct;
    RefusedExactly(fdt.totalsize, strtabsize, structTop, len);
    TabIsSw(fdt);
    if Refused(fdt.totalsize, strtabsize, structTop, len) {
      return Some(0);
    }
    if fdt.totalsize + offset < 0 {
      return None;
    }
    CopyString(fdt, s);
    r := Some(offset);
  }

  /** The part of it after the test. */
  method CopyString(fdt: Blob, s: bytes)
    requires Writing(fdt) && fdt.offStruct + fdt.sizeStruct + fdt.sizeStrings + |s| + 1 <= fdt.totalsize
    modifies fdt`sizeStrings, fdt.buf
    ensures Writing(fdt) && fdt.Block() == old(fdt.Block()) && RsvMap(fdt) == old(RsvMap(fdt))
    ensures fdt.Tab() == Names((s + [0]) + old(fdt.Tab().strs), true)
  {
    hide Patch, Blob.Block, Blob.Tab, RsvMap;
    var strtabsize := fdt.sizeStrings;
    var start := fdt.totalsize - strtabsize - (|s| + 1);
    ghost var was := fdt.buf[..];
    SwWindows(fdt, fdt.totalsize - strtabsize, was);
    CopyIn(fdt.buf, start, s + [0]);
    ghost var now := fdt.buf[..];
    fdt.sizeStrings := strtabsize + |s| + 1;
    SwWindows(fdt, start, now);
    PrependWindow(was, now, start, s + [0], strtabsize);
    PatchBeside(was, start, s + [0], fdt.offStruct, fdt.sizeStruct);
    PatchFront(was, start, s + [0], fdt.offStruct);
  }

  lemma PrependWindow(was: bytes, now: bytes, i: nat, w: bytes, m: nat)
    requires i + |w| + m <= |was| && now == Patch(was, i, w)
    ensures now[i..i + (m + |w|)] == w + was[i + |w|..i + |w| + m]
  {
    hide Patch;
    PatchParts(was, i, w);
    PatchBeside(was, i, w, i + |w|, m);
    assert now[i..i + (m + |w|)] == now[i..i + |w|] + now[i + |w|..i + |w| + m];
  }

  /** fdt_del_last_string_ (sw) */
  method DelLastString(fdt: Blob, s: bytes)
    requires Writing(fdt) && |s| + 1 <= fdt.sizeStrings
    modifies fdt`sizeStrings
    ensures fdt.sizeStrings == old(fdt.sizeStrings) - (|s| + 1)
    ensures Writing(fdt) && fdt.Block() == old(fdt.Block()) && RsvMap(fdt) == old(RsvMap(fdt))
    ensures fdt.Tab() == Names(old(fdt.Tab().strs)[|s| + 1..], true)
  {
    ghost var i, m := fdt.StrStart(), fdt.sizeStrings;
    fdt.sizeStrings := fdt.sizeStrings - (|s| + 1);
    assert fdt.buf[..][i..i + m][|s| + 1..] == fdt.buf[..][fdt.StrStart()..fdt.StrStart() + fdt.sizeStrings];
  }

  /** fdt_find_add_string_ (sw), or fdt_add_string_ alone when de-duplication is off. */
  method NameOffset(fdt: Blob, s: bytes) returns (r: Option<int>, added: bool)
    requires Writing(fdt) && CStr(s) && |s| < INT32_MAX
    modifies fdt`sizeStrings, fdt.buf
    ensures Writing(fdt) && fdt.Block() == old(fdt.Block()) && RsvMap(fdt) == old(RsvMap(fdt))
    ensures r.None? <==> old(RunsOver(fdt, s))
    ensures r.None? || r.value == 0 ==> fdt.Tab() == old(fdt.Tab())
    ensures r == Some(0) ==> old(fdt.sizeStrings) + |s| + 1 > fdt.totalsize - fdt.offStruct - fdt.sizeStruct
    ensures r.Some? && r.value != 0 ==>
              && fdt.Tab() == (if added then Names((s + [0]) + old(fdt.Tab().strs), true) else old(fdt.Tab()))
              && -INT32_MAX < r.value < 0 && fdt.Tab().Is(U32_LIMIT + r.value, s)
    ensures fdt.sizeStrings == old(fdt.sizeStrings) + if r.Some? && r.value != 0 && added then |s| + 1 else 0
    ensures fdt.lastComp == FDT_CREATE_FLAG_NO_NAME_DEDUP ==> added
  {
    hide Patch, CStr, Blob.Block;
    if fdt.lastComp == FDT_CREATE_FLAG_NO_NAME_DEDUP {
      added := true;
    } else {
      added := false;
      var p := FindString(fdt, s);
      if p >= 0 {
        return Some(p - fdt.sizeStrings), added;
      }
      added := true;
    }
    ghost var t := fdt.Tab().strs;
    r := AddString(fdt, s);
    StringInFront(s, t);
  }

  lemma StringInFront(s: bytes, t: bytes)
    ensures StringAt((s + [0]) + t, 0, s)
  {
    assert ((s + [0]) + t)[0..|s|] == s;
  }

  /**
   fdt_property: one property token, or, on error, the tree so far as it was.
   None is for names that run over, which are not refused.
   */
  method Property(fdt: Blob, name: bytes, val: bytes) returns (r: Option<int>)
    requires SwValid(fdt) && CStr(name) && |name| < INT32_MAX && |val| < INT32_MAX
    modifies fdt`sizeStruct, fdt`sizeStrings, fdt`toks, fdt.buf
    ensures SwValid(fdt)
    ensures old(ProbeStruct(fdt)) != 0 ==> r == Some(old(ProbeStruct(fdt))) && unchanged(fdt, fdt.buf)
    ensures old(ProbeStruct(fdt)) == 0 ==> StructState(fdt) && RsvMap(fdt) == old(RsvMap(fdt))
    ensures old(ProbeStruct(fdt)) == 0 ==> (r.None? <==> old(RunsOver(fdt, name)))
    ensures r.None? ==> RunsOver(fdt, name)
    ensures old(ProbeStruct(fdt)) == 0 && r != Some(0) ==>
              && (r == None || r == Some(-ERR_NOSPACE))
              && fdt.toks == old(fdt.toks) && fdt.Tab() == old(fdt.Tab())
              && old(fdt.sizeStruct + fdt.sizeStrings) + 12 + Align4(|val|) + |name| + 1 > fdt.totalsize - fdt.offStruct
    ensures r == Some(0) ==> fdt.toks == Snoc(old(fdt.toks), Prop(name, val))
    ensures fdt.sizeStrings <= old(fdt.sizeStrings) + |name| + 1
  {
    hide Word, Word32, EncAt, EncTok, TokLen, Align4, Patch, CStr, Blob.Block, Blob.Tab, Snoc, Open, Names.Is,
         NewOutgrows;
    if ProbeStruct(fdt) != 0 {
      return Some(ProbeStruct(fdt));
    }
    ghost var ns := fdt.Tab();
    TabIsSw(fdt);
    RunsOverRoom(fdt, name);
    var nameoff, added := NameOffset(fdt, name);
    if nameoff == None {
      return None;
    }
    if nameoff == Some(0) {
      return Some(-ERR_NOSPACE);
    }
    TableGrowsDownAll(ns.strs, name + [0]);
    SnocOpen(fdt.toks, Prop(name, val));
    var ok := WriteProperty(fdt, name, U32_LIMIT + nameoff.value, val, ns);
    if !ok {
      if added {
        DelLastString(fdt, name);
        assert ((name + [0]) + ns.strs)[|name| + 1..] == ns.strs;
      }
      return Some(-ERR_NOSPACE);
    }
    r := Some(0);
  }

  lemma RunsOverRoom(fdt: Blob, name: bytes)
    requires Writing(fdt)
    ensures RunsOver(fdt, name) ==> fdt.sizeStrings + |name| + 1 > fdt.totalsize
  {
  }

  /** In a buffer of 128 bytes whose structure ends at 72, a name of 200 bytes does not fit and is not refused. */
  lemma LongNameTaken()
    ensures 72 + 0 + 201 > 128 && !Refused(128, 0, 72, 201)
  {
    RefusedExactly(128, 0, 72, 201);
  }

  /** The calls that lead there: fdt_property takes a name that alone is longer than the buffer. */
  method LongName(fdt: Blob) returns (r: Option<int>)
    requires fdt.buf.Length == 128
    modifies fdt, fdt.buf
    ensures r == None
  {
    hide Word, EncAt, TokLen, Patch, Blob.Block, Snoc, Open;
    var name: bytes := seq(200, i => 97);
    var err := Create(fdt, 128, 0);
    assert fdt.offStruct == HDRSIZE;
    err := FinishReservemap(fdt);
    err := BeginNode(fdt, []);
    assert fdt.sizeStrings == 0;
    r := Property(fdt, name, []);
  }

  /** The part of fdt_property after its name is in the table. */
  method WriteProperty(fdt: Blob, name: bytes, nameoff: nat, val: bytes, ghost ns: Names) returns (ok: bool)
    requires Writing(fdt) && nameoff < U32_LIMIT && |val| < INT32_MAX
    requires EncAt(fdt.Block(), 0, ns, fdt.toks) && fdt.Tab().Is(nameoff, name)
    requires forall o: nat, nm :: ns.Is(o, nm) ==> fdt.Tab().Is(o, nm)
    modifies fdt`sizeStruct, fdt`toks, fdt.buf
    ensures Writing(fdt) && fdt.Tab() == old(fdt.Tab()) && RsvMap(fdt) == old(RsvMap(fdt))
    ensures ok <==> old(fdt.sizeStruct) + 12 + Align4(|val|) <= fdt.totalsize - fdt.offStruct - fdt.sizeStrings
    ensures !ok ==> fdt.Block() == old(fdt.Block()) && fdt.toks == old(fdt.toks)
    ensures ok ==> fdt.toks == Snoc(old(fdt.toks), Prop(name, val)) && EncAt(fdt.Block(), 0, fdt.Tab(), fdt.toks)
  {
    hide Word, Word32, EncAt, EncTok, TokLen, Align4, Patch, CStr, Blob.Block, Blob.Tab, Snoc, Open, Names.Is;
    ghost var was, ns', ts := fdt.Block(), fdt.Tab(), fdt.toks;
    var off;
    ok, off := GrabSpace(fdt, 12 + Align4(|val|));
    if !ok {
      SameBlock(fdt.Block(), was, off);
      return;
    }
    ghost var mid := fdt.Block();
    Store(fdt, off, Word32(FDT_PROP));
    Store(fdt, off + 8, Word32(nameoff));
    Store(fdt, off + 4, Word32(|val|));
    Store(fdt, off + 12, val);
    PropWritten(was, mid, fdt.Block(), ns, ns', ts, name, nameoff, val);
    fdt.toks := Snoc(ts, Prop(name, val));
  }

  lemma SameBlock(b: bytes, was: bytes, n: nat)
    requires |b| == n == |was| && b[..n] == was
    ensures b == was
  {
  }

  lemma TabIsSw(fdt: Blob)
    requires Writing(fdt)
    ensures fdt.Tab().sw && |fdt.Tab().strs| == fdt.sizeStrings
  {
  }

  lemma PropWritten(was: bytes, mid: bytes, now: bytes, ns: Names, ns': Names, ts: Tokens, name: bytes, nameoff: nat, val: bytes)
    requires EncAt(was, 0, ns, ts) && |mid| == |was| + 12 + Align4(|val|) && mid[..|was|] == was
    requires nameoff < U32_LIMIT && |val| < U32_LIMIT && ns'.Is(nameoff, name)
    requires now == Patch(Patch(Patch(Patch(mid, |was|, Word32(FDT_PROP)), |was| + 8, Word32(nameoff)), |was| + 4, Word32(|val|)), |was| + 12, val)
    requires forall o: nat, nm :: ns.Is(o, nm) ==> ns'.Is(o, nm)
    ensures EncAt(now, 0, ns', Snoc(ts, Prop(name, val)))
  {
    hide Word, Word32, Patch, EncAt, Snoc, Names.Is, Align4, EncTok, TokLen;
    var o, w0, w1, w2 := |was|, Word32(FDT_PROP), Word32(nameoff), Word32(|val|);
    var c0 := Patch(mid, o, w0);
    var c1 := Patch(c0, o + 8, w1);
    var c2 := Patch(c1, o + 4, w2);
    EncEndsAligned(was, 0, ns, ts);
    PropLen(name, val);
    WordPatched(mid, o, FDT_PROP);
    WordPatch(c0, o + 8, w1, o);
    WordPatch(c1, o + 4, w2, o);
    WordPatch(c2, o + 12, val, o);
    WordPatched(c0, o + 8, nameoff);
    WordPatch(c1, o + 4, w2, o + 8);
    WordPatch(c2, o + 12, val, o + 8);
    WordPatched(c1, o + 4, |val|);
    WordPatch(c2, o + 12, val, o + 4);
    PatchParts(c2, o + 12, val);
    PropToken(now, o, ns', name, val);
    PatchFront(mid, o, w0, o);
    PatchFront(c0, o + 8, w1, o);
    PatchFront(c1, o + 4, w2, o);
    PatchFront(c2, o + 12, val, o);
    EncSnoc(was, now, 0, ns, ns', ts, Prop(name, val));
  }

  // -------------------------------------------------- resize and finish

  /** fdt_resize: move a tree that is being written to another buffer, or make room in the same one. */
  method Resize(fdt: Blob, newbuf: array<byte>, bufsize: nat) returns (r: int)
    requires SwValid(fdt) && bufsize <= newbuf.Length && bufsize < INT32_MAX
    modifies fdt`buf, fdt`totalsize, fdt`offStrings, newbuf
    ensures SwValid(fdt)
    ensures old(Probe(fdt)) != 0 ==> r == old(Probe(fdt))
    ensures old(Probe(fdt)) == 0 ==>
              && (r == if old(fdt.offStruct + fdt.sizeStruct + fdt.sizeStrings) > bufsize then -ERR_NOSPACE else 0)
              && RsvMap(fdt) == old(RsvMap(fdt)) && fdt.Tab() == old(fdt.Tab()) && fdt.Block() == old(fdt.Block())
    ensures r == 0 ==> fdt.buf == newbuf && fdt.totalsize == bufsize
    ensures r != 0 ==> fdt.buf == old(fdt.buf) && fdt.totalsize == old(fdt.totalsize) && fdt.buf[..] == old(fdt.buf[..])
    ensures old(MemRsvState(fdt)) ==> MemRsvState(fdt)
    ensures old(StructState(fdt)) ==> StructState(fdt)
  {
    hide EncAt, Blob.Block, Blob.Tab, RsvMap, Open;
    if Probe(fdt) != 0 {
      return Probe(fdt);
    }
    var headsize := fdt.offStruct + fdt.sizeStruct;
    var tailsize := fdt.sizeStrings;
    if headsize + tailsize > fdt.totalsize {
      return -ERR_INTERNAL;
    }
    if headsize + tailsize > bufsize {
      return -ERR_NOSPACE;
    }
    MoveTree(fdt, newbuf, bufsize);
    r := 0;
  }

  /** The part of fdt_resize after the tests. */
  method MoveTree(fdt: Blob, newbuf: array<byte>, bufsize: nat)
    requires Writing(fdt) && fdt.offStruct + fdt.sizeStruct + fdt.sizeStrings <= bufsize <= newbuf.Length && bufsize < INT32_MAX
    modifies fdt`buf, fdt`totalsize, fdt`offStrings, newbuf
    ensures Writing(fdt) && fdt.buf == newbuf && fdt.totalsize == bufsize
    ensures fdt.offStrings == if old(fdt.offStrings) != 0 then bufsize else 0
    ensures RsvMap(fdt) == old(RsvMap(fdt)) && fdt.Tab() == old(fdt.Tab()) && fdt.Block() == old(fdt.Block())
  {
    hide Blob.Block, Blob.Tab, RsvMap;
    var headsize, tailsize := fdt.offStruct + fdt.sizeStruct, fdt.sizeStrings;
    ghost var blk, tab, map_ := fdt.Block(), fdt.Tab(), RsvMap(fdt);
    ghost var was := fdt.buf[..];
    SwWindows(fdt, fdt.totalsize - tailsize, was);
    MoveParts(fdt.buf, newbuf, headsize, fdt.totalsize - tailsize, bufsize - tailsize, tailsize, fdt.offStruct, fdt.sizeStruct);
    Rebase(fdt, newbuf, bufsize, blk, tab, map_);
  }

  /** The header updates of fdt_resize, after the parts have moved. */
  method Rebase(fdt: Blob, newbuf: array<byte>, bufsize: nat, ghost blk: bytes, ghost tab: Names, ghost map_: bytes)
    requires Writing(fdt) && fdt.offStruct + fdt.sizeStruct + fdt.sizeStrings <= bufsize <= newbuf.Length && bufsize < INT32_MAX
    requires newbuf[..][fdt.offStruct..fdt.offStruct + fdt.sizeStruct] == blk
    requires Names(newbuf[..][bufsize - fdt.sizeStrings..bufsize - fdt.sizeStrings + fdt.sizeStrings], true) == tab
    requires newbuf[..][..fdt.offStruct][fdt.offRsv..] == map_
    modifies fdt`buf, fdt`totalsize, fdt`offStrings
    ensures Writing(fdt) && fdt.buf == newbuf && fdt.totalsize == bufsize
    ensures fdt.offStrings == if old(fdt.offStrings) != 0 then bufsize else 0
    ensures fdt.Block() == blk && fdt.Tab() == tab && RsvMap(fdt) == map_
  {
    hide Blob.Block, Blob.Tab, RsvMap;
    fdt.buf := newbuf;
    fdt.totalsize := bufsize;
    if fdt.offStrings != 0 {
      fdt.offStrings := bufsize;
    }
    SwWindows(fdt, bufsize - fdt.sizeStrings, newbuf[..]);
  }

  /** The parts of a tree being written as windows on its buffer. */
  lemma SwWindows(fdt: Blob, i: nat, s: bytes)
    requires Writing(fdt) && i == fdt.totalsize - fdt.sizeStrings && fdt.buf[..] == s
    ensures fdt.Block() == s[fdt.offStruct..fdt.offStruct + fdt.sizeStruct]
    ensures fdt.Tab() == Names(s[i..i + fdt.sizeStrings], true)
    ensures RsvMap(fdt) == s[..fdt.offStruct][fdt.offRsv..]
  {
  }

  /** The two memmoves of fdt_resize: the head in front, then the tail to its new end. */
  method MoveParts(src: array<byte>, dst: array<byte>, head: nat, from_: nat, to_: nat, n: nat, ghost a: nat, ghost m: nat)
    requires head <= from_ && from_ + n <= src.Length && head <= to_ && to_ + n <= dst.Length && a + m <= head
    modifies dst
    ensures dst[..][..a] == old(src[..][..a])
    ensures dst[..][a..a + m] == old(src[..][a..a + m])
    ensures dst[..][to_..to_ + n] == old(src[..][from_..from_ + n])
  {
    hide Patch;
    ghost var s := src[..];
    var w := src[..][..head];
    MoveHead(src, dst, w, from_, n);
    ghost var mid := dst[..];
    var t := src[..][from_..from_ + n];
    CopyIn(dst, to_, t);
    PatchParts(mid, to_, t);
    PatchFront(mid, to_, t, head);
    SameRange(dst[..], s, head, 0, a);
    SameRange(dst[..], s, head, a, a + m);
    assert dst[..][..a] == dst[..][0..a] && s[..a] == s[0..a];
  }

  /** The first memmove of fdt_resize; it leaves the tail of its source alone. */
  method MoveHead(src: array<byte>, dst: array<byte>, w: bytes, ghost from_: nat, ghost n: nat)
    requires |w| <= from_ && from_ + n <= src.Length && |w| <= dst.Length
    modifies dst
    ensures dst[..][..|w|] == w
    ensures src[..][from_..from_ + n] == old(src[..][from_..from_ + n])
  {
    hide Patch;
    ghost var was := dst[..];
    CopyIn(dst, 0, w);
    PatchParts(was, 0, w);
    assert dst[..][0..0 + |w|] == dst[..][..|w|];
    if src == dst {
      PatchBeside(was, 0, w, from_, n);
    }
  }

  function Cat(a: Tokens, b: Tokens): Tokens {
    if a.Nil? then b else Cons(a.head, Cat(a.tail, b))
  }

  lemma {:induction false} CatSnoc(a: Tokens, t: Token, b: Tokens)
    ensures Cat(Snoc(a, t), b) == Cat(a, Cons(t, b))
    ensures Cat(a, Cons(t, Nil)) == Snoc(a, t)
    decreases a
  {
    if a.Cons? {
      CatSnoc(a.tail, t, b);
    }
  }

  /** A token that does not name a string reads the same under any table. */
  lemma EncTake(s: bytes, off: nat, ns: Names, ns': Names, t: Token)
    requires EncTok(s, off, ns, t)
    requires t.Prop? ==> ns == ns'
    ensures EncTok(s[..off + TokLen(t)], off, ns', t)
  {
    hide TokLen, Word, Align4, Names.Is;
    var n := TokLen(t);
    TokLenFields(t);
    WordPrefix(s, s[..off + n], off + n, off);
    if t.Begin? {
      SameRange(s, s[..off + n], off + n, off + 4, off + 4 + |t.name|);
      assert s[..off + n][off + 4 + |t.name|] == s[off + 4 + |t.name|];
    } else if t.Prop? {
      WordPrefix(s, s[..off + n], off + n, off + 4);
      WordPrefix(s, s[..off + n], off + n, off + 8);
      SameRange(s, s[..off + n], off + n, off + 12, off + 12 + |t.value|);
    }
  }

  /** One more token of a block read up to off. */
  lemma PrefixGrows(s: bytes, off: nat, ns: Names, done: Tokens, t: Token)
    requires off <= |s| && EncAt(s[..off], 0, ns, done) && EncTok(s, off, ns, t)
    ensures off + TokLen(t) <= |s| && EncAt(s[..off + TokLen(t)], 0, ns, Snoc(done, t))
  {
    hide TokLen, EncTok, EncAt, Snoc;
    EncTokIn(s, off, ns, t);
    EncTake(s, off, ns, ns, t);
    assert s[..off + TokLen(t)][..off] == s[..off];
    EncSnoc(s[..off], s[..off + TokLen(t)], 0, ns, ns, done, t);
  }

  /** Patching one name offset from the end of the table to one from its start. */
  lemma OffsetPatched(s: bytes, off: nat, tab: bytes, done: Tokens, rest: Tokens)
    requires rest.Cons? && rest.head.Prop? && off + 12 <= |s| && |tab| < INT32_MAX
    requires EncAt(s[..off], 0, Names(tab, false), done) && EncAt(s, off, Names(tab, true), rest)
    ensures var idx, n := (Word(s, off + 8) + |tab|) % U32_LIMIT, TokLen(rest.head);
            var s' := Patch(s, off + 8, Word32(idx));
            && off + n <= |s|
            && EncAt(s'[..off + n], 0, Names(tab, false), Snoc(done, rest.head)) && EncAt(s', off + n, Names(tab, true), rest.tail)
  {
    hide TokLen, EncAt, Word, Word32, Patch, Snoc, Align4;
    var t, n := rest.head, TokLen(rest.head);
    PropHead(s, off, Names(tab, true), rest);
    var idx := (Word(s, off + 8) + |tab|) % U32_LIMIT;
    var w := Word32(idx);
    var s' := Patch(s, off + 8, w);
    TokLenFields(t);
    TokLenAligned(t);
    PatchTail(s, off + 8, w, off + n);
    EncCopy(s, off + n, Names(tab, true), rest.tail, s', off + n, Names(tab, true));
    WordPatch(s, off + 8, w, off);
    WordPatch(s, off + 8, w, off + 4);
    WordPatched(s, off + 8, idx);
    PatchBeside(s, off + 8, w, off + 12, |t.value|);
    PropLen(t.name, t.value);
    PropToken(s', off, Names(tab, false), t.name, t.value);
    PatchFront(s, off + 8, w, off);
    PrefixGrows(s', off, Names(tab, false), done, t);
  }

  lemma PropHead(s: bytes, off: nat, ns: Names, rest: Tokens)
    requires rest.Cons? && rest.head.Prop? && EncAt(s, off, ns, rest)
    ensures var t := rest.head;
            && off % 4 == 0 && off + TokLen(t) <= |s| && 12 + |t.value| <= TokLen(t)
            && Word(s, off) == FDT_PROP && Word(s, off + 4) == |t.value|
            && s[off + 12..off + 12 + |t.value|] == t.value && ns.Is(Word(s, off + 8), t.name)
            && EncAt(s, off + TokLen(t), ns, rest.tail)
  {
    hide Word, Names.Is;
  }

  /** One round of the walk of fdt_finish. */
  method PatchToken(fdt: Blob, offset: nat, tag: nat, ghost tab: bytes, ghost done: Tokens, ghost rest: Tokens)
    requires fdt.Bounds() && fdt.magic == FDT_SW_MAGIC && |tab| == fdt.sizeStrings
    requires fdt.offStruct + fdt.sizeStruct <= fdt.StrStart() && fdt.offStruct + fdt.sizeStruct + |tab| <= fdt.totalsize
    requires rest.Cons? && tag == TagOf(rest.head) != FDT_END && Complete(rest) && offset <= fdt.sizeStruct
    requires EncAt(fdt.Block()[..offset], 0, Names(tab, false), done) && EncAt(fdt.Block(), offset, Names(tab, true), rest)
    modifies fdt.buf
    ensures rest.tail.Cons? && Complete(rest.tail) && offset + TokLen(rest.head) <= fdt.sizeStruct
    ensures EncAt(fdt.Block()[..offset + TokLen(rest.head)], 0, Names(tab, false), Snoc(done, rest.head))
    ensures EncAt(fdt.Block(), offset + TokLen(rest.head), Names(tab, true), rest.tail)
    ensures fdt.buf[..][..fdt.offStruct] == old(fdt.buf[..][..fdt.offStruct])
    ensures fdt.buf[..][fdt.offStruct + fdt.sizeStruct..] == old(fdt.buf[..][fdt.offStruct + fdt.sizeStruct..])
  {
    hide Word, Word32, EncAt, EncTok, TokLen, Align4, Patch, Blob.Block, Blob.Tab, Snoc;
    StepFacts(fdt.Block(), offset, tab, done, rest);
    if tag == FDT_PROP {
      OffsetPatched(fdt.Block(), offset, tab, done, rest);
      var nameoff := fdt.Load(offset + 8);
      nameoff := (nameoff + fdt.sizeStrings) % U32_LIMIT;
      PatchWord(fdt, offset + 8, nameoff);
    }
  }

  /**
   The walk of fdt_finish: every property's name offset is made to count from the
   start of the string table instead of its end. During the walk the block reads
   one way before the current offset and the other way after it.
   */
  method PatchOffsets(fdt: Blob, ghost tab: bytes) returns (r: int)
    requires fdt.Bounds() && fdt.magic == FDT_SW_MAGIC && |tab| == fdt.sizeStrings
    requires fdt.offStruct + fdt.sizeStruct <= fdt.StrStart() && fdt.offStruct + fdt.sizeStruct + |tab| <= fdt.totalsize
    requires EncAt(fdt.Block(), 0, Names(tab, true), fdt.toks) && Complete(fdt.toks)
    modifies fdt.buf
    ensures r == 0 && EncAt(fdt.Block(), 0, Names(tab, false), fdt.toks)
    ensures fdt.buf[..][..fdt.offStruct] == old(fdt.buf[..][..fdt.offStruct])
    ensures fdt.buf[..][fdt.offStruct + fdt.sizeStruct..] == old(fdt.buf[..][fdt.offStruct + fdt.sizeStruct..])
  {
    hide Word, Word32, EncAt, EncTok, TokLen, Align4, Patch, Blob.Block, Blob.Tab, Snoc, Complete;
    ghost var was, done, rest := fdt.buf[..], Nil, fdt.toks;
    var offset := 0;
    EmptyPrefix(fdt.Block(), Names(tab, false));
    var tag, next := NextTagOn(fdt, offset, Names(tab, true), rest);
    while tag != FDT_END
      invariant rest.Cons? && 0 <= offset <= fdt.sizeStruct && offset + TokLen(rest.head) == next
      invariant Complete(rest) && tag == TagOf(rest.head) && Cat(done, rest) == fdt.toks
      invariant EncAt(fdt.Block()[..offset], 0, Names(tab, false), done)
      invariant EncAt(fdt.Block(), offset, Names(tab, true), rest)
      invariant fdt.buf[..][..fdt.offStruct] == was[..fdt.offStruct]
      invariant fdt.buf[..][fdt.offStruct + fdt.sizeStruct..] == was[fdt.offStruct + fdt.sizeStruct..]
      decreases rest
    {
      PatchToken(fdt, offset, tag, tab, done, rest);
      CatSnoc(done, rest.head, rest.tail);
      done := Snoc(done, rest.head);
      rest := rest.tail;
      offset := next;
      tag, next := NextTagOn(fdt, offset, Names(tab, true), rest);
    }
    LastStep(fdt.Block(), offset, tab, done, rest);
    CatSnoc(done, End, Nil);
    r := 0;
  }

  /** fdt_next_tag on a block whose names are read with the table ns. */
  method NextTagOn(fdt: Blob, off: nat, ghost ns: Names, ghost ts: Tokens) returns (tag: nat, next: nat)
    requires fdt.Bounds() && EncAt(fdt.Block(), off, ns, ts) && Complete(ts)
    ensures ts.Cons? && tag == TagOf(ts.head) && next == off + TokLen(ts.head) && off <= fdt.sizeStruct
  {
    hide EncTok, TokLen, Align4, Word;
    EncTokIn(fdt.Block(), off, ns, ts.head);
    var n;
    tag, n := NextTag(fdt, off);
    TagAtToken(fdt.Block(), off, ns, ts.head);
    next := n;
  }

  method PatchWord(fdt: Blob, off: nat, v: nat)
    requires fdt.Bounds() && off + 4 <= fdt.sizeStruct && v < U32_LIMIT
    requires fdt.offStruct + fdt.sizeStruct <= fdt.StrStart()
    modifies fdt.buf
    ensures fdt.Block() == Patch(old(fdt.Block()), off, Word32(v))
    ensures fdt.buf[..][..fdt.offStruct] == old(fdt.buf[..][..fdt.offStruct])
    ensures fdt.buf[..][fdt.offStruct + fdt.sizeStruct..] == old(fdt.buf[..][fdt.offStruct + fdt.sizeStruct..])
  {
    hide Patch, Word32;
    ghost var was := fdt.buf[..];
    WriteBytes(fdt, off, Word32(v));
    PatchTail(was, fdt.offStruct + off, Word32(v), fdt.offStruct + fdt.sizeStruct);
  }

  lemma EmptyPrefix(s: bytes, ns: Names)
    ensures EncAt(s[..0], 0, ns, Nil)
  {
  }

  /** The walk's step over a token that names no string, and what it needs over one that does. */
  lemma StepFacts(s: bytes, off: nat, tab: bytes, done: Tokens, rest: Tokens)
    requires Complete(rest) && !rest.head.End? && off <= |s|
    requires EncAt(s[..off], 0, Names(tab, false), done) && EncAt(s, off, Names(tab, true), rest)
    ensures off + TokLen(rest.head) <= |s| && Complete(rest.tail) && (rest.head.Prop? ==> off + 12 <= |s|)
    ensures !rest.head.Prop? ==>
              && EncAt(s[..off + TokLen(rest.head)], 0, Names(tab, false), Snoc(done, rest.head))
              && EncAt(s, off + TokLen(rest.head), Names(tab, true), rest.tail)
  {
    hide TokLen, Align4, Word, EncTok, Snoc;
    EncTokIn(s, off, Names(tab, true), rest.head);
    TokLenFields(rest.head);
    if !rest.head.Prop? {
      OtherTable(s, off, Names(tab, true), Names(tab, false), rest.head);
      PrefixGrows(s, off, Names(tab, false), done, rest.head);
    }
  }

  lemma OtherTable(s: bytes, off: nat, ns: Names, ns': Names, t: Token)
    requires EncTok(s, off, ns, t) && !t.Prop?
    ensures EncTok(s, off, ns', t)
  {
  }

  lemma LastStep(s: bytes, off: nat, tab: bytes, done: Tokens, rest: Tokens)
    requires rest.Cons? && rest.head.End? && Complete(rest) && off <= |s|
    requires EncAt(s[..off], 0, Names(tab, false), done) && EncAt(s, off, Names(tab, true), rest)
    ensures rest == Cons(End, Nil) && EncAt(s, 0, Names(tab, false), Snoc(done, End))
  {
    hide TokLen, Word, EncTok, Snoc;
    OtherTable(s, off, Names(tab, true), Names(tab, false), End);
    PrefixGrows(s, off, Names(tab, false), done, End);
    assert s[..off + TokLen(End)] == s;
  }

  /** fdt_finish: the tokens written so far and FDT_END, as a finished tree. */
  method Finish(fdt: Blob) returns (r: int)
    requires SwValid(fdt)
    modifies fdt`totalsize, fdt`offStrings, fdt`lastComp, fdt`magic, fdt`sizeStruct, fdt`toks, fdt.buf
    ensures fdt.buf == old(fdt.buf) && SwValid(fdt)
    ensures old(ProbeStruct(fdt)) != 0 ==> r == old(ProbeStruct(fdt)) && unchanged(fdt, fdt.buf)
    ensures old(ProbeStruct(fdt)) == 0 ==>
              r == if old(fdt.sizeStruct) + 4 <= old(fdt.totalsize) - fdt.offStruct - fdt.sizeStrings then 0 else -ERR_NOSPACE
    ensures r == -ERR_NOSPACE ==> StructState(fdt) && fdt.toks == old(fdt.toks)
    ensures r == 0 ==>
              && fdt.Header() && fdt.lastComp == FIRST_SUPPORTED_VERSION && fdt.At(0, fdt.toks) && Complete(fdt.toks)
              && fdt.toks == Snoc(old(fdt.toks), End)
              && fdt.totalsize == fdt.offStrings + fdt.sizeStrings && fdt.offStrings == fdt.offStruct + fdt.sizeStruct
              && fdt.Strings() == old(fdt.Tab().strs) && RsvMap(fdt) == old(RsvMap(fdt))
  {
    hide Word, Word32, EncAt, EncTok, TokLen, Align4, Patch, Snoc, Complete, Open;
    if ProbeStruct(fdt) != 0 {
      return ProbeStruct(fdt);
    }
    SnocOpen(fdt.toks, End);
    r := AppendTag(fdt, FDT_END, End);
    if r != 0 {
      return;
    }
    r := Relocate(fdt);
  }

  /** fdt_finish after the terminator is in place. */
  method Relocate(fdt: Blob) returns (r: int)
    requires Writing(fdt) && HDRSIZE + RSV_ENTRY <= fdt.offStruct && fdt.At(0, fdt.toks) && Complete(fdt.toks)
    modifies fdt`totalsize, fdt`offStrings, fdt`lastComp, fdt`magic, fdt.buf
    ensures fdt.buf == old(fdt.buf) && fdt.toks == old(fdt.toks)
    ensures fdt.offStruct == old(fdt.offStruct) && fdt.sizeStrings == old(fdt.sizeStrings)
    ensures r == 0 && fdt.Header() && fdt.At(0, fdt.toks) && fdt.lastComp == FIRST_SUPPORTED_VERSION
    ensures fdt.totalsize == fdt.offStrings + fdt.sizeStrings && fdt.offStrings == fdt.offStruct + fdt.sizeStruct
    ensures fdt.Strings() == old(fdt.Tab().strs) && RsvMap(fdt) == old(RsvMap(fdt))
  {
    hide Word, Word32, EncAt, EncTok, TokLen, Align4, Patch, Complete, Blob.Block, Blob.Tab, Blob.Strings;
    ghost var tab := fdt.Tab().strs;
    TabIsSw(fdt);
    MoveStrings(fdt, tab);
    r := WalkAndFinish(fdt, tab);
  }

  /** The walk and the header updates, once the strings are in their new place. */
  method WalkAndFinish(fdt: Blob, ghost tab: bytes) returns (r: int)
    requires Writing(fdt) && HDRSIZE + RSV_ENTRY <= fdt.offStruct && |tab| == fdt.sizeStrings
    requires fdt.offStrings == fdt.offStruct + fdt.sizeStruct
    requires fdt.buf[..][fdt.offStrings..fdt.offStrings + |tab|] == tab
    requires EncAt(fdt.Block(), 0, Names(tab, true), fdt.toks) && Complete(fdt.toks)
    modifies fdt`totalsize, fdt`lastComp, fdt`magic, fdt.buf
    ensures r == 0 && fdt.Header() && fdt.At(0, fdt.toks)
    ensures fdt.totalsize == fdt.offStrings + fdt.sizeStrings && fdt.lastComp == FIRST_SUPPORTED_VERSION
    ensures fdt.Strings() == tab && fdt.buf[..][..fdt.offStruct] == old(fdt.buf[..][..fdt.offStruct])
  {
    hide Word, Word32, EncAt, EncTok, TokLen, Align4, Patch, Complete, Blob.Block, Blob.Tab, Blob.Strings;
    ghost var mid := fdt.buf[..];
    r := PatchOffsets(fdt, tab);
    TailWindow(mid, fdt.buf[..], fdt.offStruct + fdt.sizeStruct, fdt.sizeStrings);
    SetFinished(fdt);
  }

  lemma TailWindow(s: bytes, s': bytes, i: nat, m: nat)
    requires i + m <= |s| && i <= |s'| && s'[i..] == s[i..]
    ensures |s'| == |s| && s'[i..i + m] == s[i..i + m]
  {
    assert s'[i..i + m] == s'[i..][..m] && s[i..i + m] == s[i..][..m];
  }

  /** The memmove that puts the strings behind the structure block. */
  method MoveStrings(fdt: Blob, ghost tab: bytes)
    requires Writing(fdt) && tab == fdt.Tab().strs
    modifies fdt.buf, fdt`offStrings
    ensures Writing(fdt) && fdt.offStrings == fdt.offStruct + fdt.sizeStruct
    ensures fdt.buf[..][..fdt.offStruct] == old(fdt.buf[..][..fdt.offStruct]) && fdt.Block() == old(fdt.Block())
    ensures fdt.buf[..][fdt.offStrings..fdt.offStrings + fdt.sizeStrings] == tab
  {
    hide Patch, Blob.Block, Blob.Tab;
    ghost var was := fdt.buf[..];
    var oldstroffset := fdt.totalsize - fdt.sizeStrings;
    var newstroffset := fdt.offStruct + fdt.sizeStruct;
    SwWindows(fdt, oldstroffset, was);
    var w := fdt.buf[..][oldstroffset..oldstroffset + fdt.sizeStrings];
    CopyIn(fdt.buf, newstroffset, w);
    PatchFront(was, newstroffset, w, fdt.offStruct);
    PatchBeside(was, newstroffset, w, fdt.offStruct, fdt.sizeStruct);
    PatchParts(was, newstroffset, w);
    fdt.offStrings := newstroffset;
    SwWindows(fdt, oldstroffset, fdt.buf[..]);
  }

  /** The last header updates of fdt_finish. */
  method SetFinished(fdt: Blob)
    requires Writing(fdt) && HDRSIZE + RSV_ENTRY <= fdt.offStruct && fdt.offStrings == fdt.offStruct + fdt.sizeStruct
    modifies fdt`totalsize, fdt`lastComp, fdt`magic
    ensures fdt.Header() && fdt.totalsize == fdt.offStrings + fdt.sizeStrings && fdt.lastComp == FIRST_SUPPORTED_VERSION
    ensures fdt.Block() == old(fdt.Block())
    ensures fdt.Strings() == fdt.buf[..][fdt.offStrings..fdt.offStrings + fdt.sizeStrings]
    ensures fdt.Tab() == Names(fdt.Strings(), false)
  {
    fdt.totalsize := fdt.offStrings + fdt.sizeStrings;
    fdt.lastComp := FIRST_SUPPORTED_VERSION;
    fdt.magic := FDT_MAGIC;
  }
}
