/**
 fdt_rw.c: editing a finished tree in place. Every edit is a memmove of all
 the bytes after a point, followed by header updates and a few writes; each is
 proved to be one edit of the decoded tree, or to change nothing on error.
 */
module FdtRw {
  import opened Bytes
  import opened FdtFormat
  import opened FdtTree
  import opened FdtBlob
  import opened FdtCore
  import opened FdtRo
  import opened FdtWip

  /** Where the data of the blob ends (fdt_data_size_). */
  function DataSize(fdt: Blob): nat
    reads fdt
  {
    fdt.offStrings + fdt.sizeStrings
  }

  /** A property, or a node, whose name and token have sizes that a C int holds. */
  predicate PropFits(name: bytes, len: nat) {
    |name| < INT32_MAX && 12 + Align4(len) <= INT32_MAX
  }

  predicate NodeFits(name: bytes) {
    NodeRoom(name) <= INT32_MAX
  }

  /** fdt_splice_: replace oldlen bytes at the absolute index p by room for newlen bytes. */
  method Splice(fdt: Blob, p: nat, oldlen: nat, newlen: nat) returns (r: int)
    requires fdt.Header() && p + oldlen <= DataSize(fdt) && newlen <= INT32_MAX
    modifies fdt.buf
    ensures r == if DataSize(fdt) - oldlen + newlen > fdt.totalsize then -ERR_NOSPACE else 0
    ensures r != 0 ==> fdt.buf[..] == old(fdt.buf[..])
    ensures r == 0 ==> fdt.buf[..] == Patch(old(fdt.buf[..]), p + newlen, old(fdt.buf[..][p + oldlen..DataSize(fdt)]))
  {
    hide Patch;
    var end := DataSize(fdt);
    if end - oldlen + newlen > fdt.totalsize {
      return -ERR_NOSPACE;
    }
    var moved := fdt.buf[..][p + oldlen..end];
    CopyIn(fdt.buf, p + newlen, moved);
    r := 0;
  }

  /** fdt_splice_struct_: the same at an offset into the structure block, with the header adjusted. */
  method SpliceStruct(fdt: Blob, off: nat, oldlen: nat, newlen: nat) returns (r: int)
    requires fdt.Header() && off + oldlen <= fdt.sizeStruct && newlen <= INT32_MAX
    modifies fdt.buf, fdt`sizeStruct, fdt`offStrings
    ensures fdt.Front() == old(fdt.Front())
    ensures fdt.Header() && fdt.Tab() == old(fdt.Tab())
    ensures r == if old(DataSize(fdt)) - oldlen + newlen > fdt.totalsize then -ERR_NOSPACE else 0
    ensures r != 0 ==> fdt.Block() == old(fdt.Block()) && fdt.sizeStruct == old(fdt.sizeStruct) && fdt.offStrings == old(fdt.offStrings)
    ensures r == 0 ==>
              && fdt.sizeStruct == old(fdt.sizeStruct) - oldlen + newlen
              && fdt.offStrings == old(fdt.offStrings) - oldlen + newlen
              && Spliced(old(fdt.Block()), fdt.Block(), off, oldlen, newlen)
  {
    hide Patch, Spliced, Blob.Block, Blob.Tab, Blob.Strings, Blob.Front, Cut;
    ghost var was := fdt.buf[..];
    WindowsAre(fdt, was);
    r := Splice(fdt, fdt.offStruct + off, oldlen, newlen);
    if r == 0 {
      Reheader(fdt, off, oldlen, newlen, was);
    } else {
      WindowsAre(fdt, was);
    }
  }

  /** The header updates of fdt_splice_struct_, after the bytes have moved. */
  method Reheader(fdt: Blob, off: nat, oldlen: nat, newlen: nat, ghost was: bytes)
    requires fdt.Header() && off + oldlen <= fdt.sizeStruct && DataSize(fdt) - oldlen + newlen <= fdt.totalsize
    requires |was| == fdt.buf.Length
    requires fdt.buf[..] == Patch(was, fdt.offStruct + off + newlen, was[fdt.offStruct + off + oldlen..DataSize(fdt)])
    modifies fdt`sizeStruct, fdt`offStrings
    ensures fdt.Front() == (fdt.offRsv, fdt.offStruct, Cut(was, 0, fdt.offStruct))
    ensures fdt.Header()
    ensures fdt.sizeStruct == old(fdt.sizeStruct) - oldlen + newlen && fdt.offStrings == old(fdt.offStrings) - oldlen + newlen
    ensures Spliced(Cut(was, fdt.offStruct, old(fdt.sizeStruct)), fdt.Block(), off, oldlen, newlen)
    ensures fdt.Tab() == Names(Cut(was, old(fdt.offStrings), fdt.sizeStrings), false)
  {
    hide Patch, Spliced, Blob.Block, Blob.Tab, Blob.Strings, Blob.Front, Cut;
    ghost var n, b, now := fdt.sizeStruct, fdt.offStrings, fdt.buf[..];
    fdt.sizeStruct := fdt.sizeStruct - oldlen + newlen;
    fdt.offStrings := fdt.offStrings - oldlen + newlen;
    WindowsAre(fdt, now);
    SplicedWindows(was, now, off, oldlen, newlen, fdt.offStruct, n, fdt.sizeStruct, b, fdt.offStrings, fdt.sizeStrings);
  }

  /** The blocks of a finished tree, and what is in front of them, as windows on its buffer. */
  lemma WindowsAre(fdt: Blob, s: bytes)
    requires fdt.Bounds() && fdt.magic == FDT_MAGIC && fdt.buf[..] == s
    ensures fdt.Block() == Cut(s, fdt.offStruct, fdt.sizeStruct)
    ensures fdt.Tab() == Names(Cut(s, fdt.offStrings, fdt.sizeStrings), false)
    ensures fdt.Front() == (fdt.offRsv, fdt.offStruct, Cut(s, 0, fdt.offStruct))
  {
  }

  /** c is b with oldlen bytes at off replaced by newlen others; the bytes that were there stay as far as they fit. */
  predicate Spliced(b: bytes, c: bytes, off: nat, oldlen: nat, newlen: nat) {
    && off + oldlen <= |b| && |c| == |b| - oldlen + newlen
    && c[..off] == b[..off]
    && c[off + newlen..] == b[off + oldlen..]
    && (var m := if oldlen < newlen then oldlen else newlen; c[off..off + m] == b[off..off + m])
  }

  lemma SplicedWindow(was: bytes, now: bytes, p: nat, oldlen: nat, newlen: nat, end: nat, a: nat, n: nat, n': nat)
    requires n' == n - oldlen + newlen && a <= p && p + oldlen <= a + n <= end <= |was| && end - oldlen + newlen <= |was|
    requires now == Patch(was, p + newlen, was[p + oldlen..end])
    ensures Spliced(was[a..a + n], now[a..a + n'], p - a, oldlen, newlen)
  {
    hide Patch, Spliced;
    PatchParts(was, p + newlen, was[p + oldlen..end]);
    var off := p - a;
    var m := if oldlen < newlen then oldlen else newlen;
    WindowFront(was, now, p + newlen, a, n, n', 0, off);
    WindowFront(was, now, p + newlen, a, n, n', off, m);
    WindowTail(was, now, p, oldlen, newlen, end, a, n, n');
    SplicedIs(was[a..a + n], now[a..a + n'], off, oldlen, newlen, m);
  }

  lemma SplicedIs(b: bytes, c: bytes, off: nat, oldlen: nat, newlen: nat, m: nat)
    requires off + oldlen <= |b| && |c| == |b| - oldlen + newlen && m == if oldlen < newlen then oldlen else newlen
    requires c[0..off] == b[0..off] && c[off..off + m] == b[off..off + m] && c[off + newlen..] == b[off + oldlen..]
    ensures Spliced(b, c, off, oldlen, newlen)
  {
    assert c[..off] == c[0..off] && b[..off] == b[0..off];
  }

  lemma SplicedWindows(was: bytes, now: bytes, off: nat, oldlen: nat, newlen: nat, a: nat, n: nat, n': nat, b: nat, b': nat, m: nat)
    requires n' == n - oldlen + newlen && b' == b - oldlen + newlen && off + oldlen <= n && a + n <= b && b' + m <= |was| && b + m <= |was|
    requires now == Patch(was, a + off + newlen, was[a + off + oldlen..b + m])
    ensures Spliced(Cut(was, a, n), Cut(now, a, n'), off, oldlen, newlen) && Cut(now, b', m) == Cut(was, b, m)
    ensures Cut(now, 0, a) == Cut(was, 0, a)
  {
    hide Patch, Spliced;
    PatchFront(was, a + off + newlen, was[a + off + oldlen..b + m], a);
    SplicedWindow(was, now, a + off, oldlen, newlen, b + m, a, n, n');
    SplicedAfter(was, now, a + off, oldlen, newlen, b + m, b, b', m);
  }

  lemma WindowFront(was: bytes, now: bytes, q: nat, a: nat, n: nat, n': nat, i: nat, m: nat)
    requires a + n <= |was| && a + n' <= |now| && i + m <= n && i + m <= n' && a + i + m <= q <= |was| && q <= |now|
    requires was[..q] == now[..q]
    ensures now[a..a + n'][i..i + m] == was[a..a + n][i..i + m]
  {
    SliceSlice(was, a, n, i, m);
    SliceSlice(now, a, n', i, m);
    SameRange(was, now, q, a + i, a + i + m);
  }

  lemma WindowTail(was: bytes, now: bytes, p: nat, oldlen: nat, newlen: nat, end: nat, a: nat, n: nat, n': nat)
    requires n' == n - oldlen + newlen && a <= p && p + oldlen <= a + n <= end <= |was| && |now| == |was| && end - oldlen + newlen <= |was|
    requires now[p + newlen..end - oldlen + newlen] == was[p + oldlen..end]
    ensures now[a..a + n'][p - a + newlen..] == was[a..a + n][p - a + oldlen..]
  {
    var t := a + n - p - oldlen;
    SliceSlice(was, a, n, p - a + oldlen, t);
    SliceSlice(now, a, n', p - a + newlen, t);
    SliceSlice(now, p + newlen, end - p - oldlen, 0, t);
    SliceSlice(was, p + oldlen, end - p - oldlen, 0, t);
  }

  lemma SplicedAfter(was: bytes, now: bytes, p: nat, oldlen: nat, newlen: nat, end: nat, b: nat, b': nat, m: nat)
    requires b' == b - oldlen + newlen && p + oldlen <= b && b + m <= end <= |was| && end - oldlen + newlen <= |was|
    requires now == Patch(was, p + newlen, was[p + oldlen..end])
    ensures now[b'..b' + m] == was[b..b + m]
  {
    hide Patch;
    var w := was[p + oldlen..end];
    PatchParts(was, p + newlen, w);
    SliceSlice(now, p + newlen, |w|, b - p - oldlen, m);
    SliceSlice(was, p + oldlen, |w|, b - p - oldlen, m);
  }

  // ------------------------------------------------------------- strings

  /** Appending to the string table keeps the meaning of every name offset. */
  lemma TableGrows(t: bytes, u: bytes, off: nat, name: bytes)
    requires |t| <= |u| && u[..|t|] == t && Names(t, false).Is(off, name)
    ensures Names(u, false).Is(off, name)
  {
    SliceSlice(u, 0, |t|, off, |name|);
    assert u[off + |name|] == u[..|t|][off + |name|];
  }

  /** fdt_find_add_string_ (rw): find s in the string table or append it. */
  method FindAddString(fdt: Blob, s: bytes) returns (r: int, added: bool)
    requires fdt.Header() && CStr(s) && |s| < INT32_MAX
    modifies fdt.buf, fdt`sizeStrings
    ensures fdt.Front() == old(fdt.Front())
    ensures fdt.Header() && fdt.Block() == old(fdt.Block())
    ensures r < 0 ==> r == -ERR_NOSPACE && DataSize(fdt) + |s| + 1 > fdt.totalsize && !added
    ensures 0 <= r ==> r < INT32_MAX && fdt.Tab().Is(r, s)
    ensures fdt.sizeStrings == old(fdt.sizeStrings) + (if added then |s| + 1 else 0)
    ensures fdt.Tab() == if added then Names(old(fdt.Tab().strs) + (s + [0]), false) else old(fdt.Tab())
  {
    hide Patch, StringAt, Blob.Block, Blob.Front;
    r := FindString(fdt, s);
    if r >= 0 {
      StringInside(fdt.Strings(), r, s);
      return r, false;
    }
    r := AppendString(fdt, s);
    added := r >= 0;
  }

  lemma TableGrowsAll(t: bytes, u: bytes)
    requires |t| <= |u| && u[..|t|] == t
    ensures forall o: nat, n :: Names(t, false).Is(o, n) ==> Names(u, false).Is(o, n)
  {
    forall o: nat, n | Names(t, false).Is(o, n)
      ensures Names(u, false).Is(o, n)
    {
      TableGrows(t, u, o, n);
    }
  }

  lemma StringInside(t: bytes, i: int, s: bytes)
    requires StringAt(t, i, s)
    ensures 0 <= i < |t|
  {
  }

  /** fdt_splice_string_ and the memcpy that fills the room it makes. */
  method AppendString(fdt: Blob, s: bytes) returns (r: int)
    requires fdt.Header() && CStr(s) && |s| < INT32_MAX
    modifies fdt.buf, fdt`sizeStrings
    ensures fdt.Front() == old(fdt.Front())
    ensures fdt.Header() && fdt.Block() == old(fdt.Block())
    ensures r < 0 ==> r == -ERR_NOSPACE && DataSize(fdt) + |s| + 1 > fdt.totalsize && fdt.Tab() == old(fdt.Tab())
    ensures 0 <= r ==> r < INT32_MAX && StringAt(fdt.Tab().strs, r, s)
    ensures 0 <= r ==> fdt.Tab() == Names(old(fdt.Tab().strs) + (s + [0]), false)
    ensures fdt.sizeStrings == old(fdt.sizeStrings) + (if 0 <= r then |s| + 1 else 0)
  {
    hide Patch, CStr, Blob.Block, Blob.Tab, Blob.Strings, StringAt, Blob.Front;
    TabIsFinished(fdt);
    ghost var t := fdt.Tab().strs;
    r := SpliceAtEnd(fdt, |s| + 1);
    if r == 0 {
      StringAtEnd(t, s);
      r := fdt.sizeStrings;
      FillString(fdt, s);
    }
  }

  /** The splice of fdt_splice_string_, which moves nothing. */
  method SpliceAtEnd(fdt: Blob, n: nat) returns (r: int)
    requires fdt.Header() && n <= INT32_MAX
    modifies fdt.buf
    ensures fdt.Front() == old(fdt.Front())
    ensures fdt.Header() && fdt.Block() == old(fdt.Block()) && fdt.Tab() == old(fdt.Tab())
    ensures r == if DataSize(fdt) + n > fdt.totalsize then -ERR_NOSPACE else 0
  {
    hide Patch, Blob.Block, Blob.Tab, Blob.Front, Cut;
    ghost var was := fdt.buf[..];
    WindowsAre(fdt, was);
    var end := DataSize(fdt);
    r := Splice(fdt, end, 0, n);
    if r == 0 {
      PatchNothing(was, end + n, was[end..end]);
    }
    WindowsAre(fdt, was);
  }

  lemma TabIsFinished(fdt: Blob)
    requires fdt.Header()
    ensures !fdt.Tab().sw && |fdt.Tab().strs| == fdt.sizeStrings
  {
  }

  method FillString(fdt: Blob, s: bytes)
    requires fdt.Header() && DataSize(fdt) + |s| + 1 <= fdt.totalsize
    modifies fdt.buf, fdt`sizeStrings
    ensures fdt.Front() == old(fdt.Front())
    ensures fdt.Header() && fdt.Block() == old(fdt.Block())
    ensures fdt.sizeStrings == old(fdt.sizeStrings) + |s| + 1
    ensures fdt.Tab() == Names(old(fdt.Tab().strs) + (s + [0]), false)
  {
    hide Patch, Blob.Block, Blob.Tab, Blob.Strings, Blob.Front, Cut;
    ghost var was, m := fdt.buf[..], fdt.sizeStrings;
    WindowsAre(fdt, was);
    CopyIn(fdt.buf, DataSize(fdt), s + [0]);
    ghost var now := fdt.buf[..];
    fdt.sizeStrings := fdt.sizeStrings + |s| + 1;
    WindowsAre(fdt, now);
    AppendWindow(was, now, fdt.offStruct, fdt.sizeStruct, fdt.offStrings, m, s + [0]);
  }

  lemma StringAtEnd(t: bytes, s: bytes)
    ensures t + (s + [0]) == t + s + [0] && StringAt(t + s + [0], |t|, s)
  {
    assert (t + s + [0])[|t|..|t| + |s|] == s;
  }

  lemma PatchNothing(s: bytes, i: nat, w: bytes)
    requires i <= |s| && |w| == 0
    ensures Patch(s, i, w) == s
  {
  }

  lemma AppendWindow(was: bytes, now: bytes, a: nat, n: nat, b: nat, m: nat, w: bytes)
    requires a + n <= b && b + m + |w| <= |was| && now == Patch(was, b + m, w)
    ensures Cut(now, a, n) == Cut(was, a, n) && Cut(now, 0, a) == Cut(was, 0, a)
    ensures Cut(now, b, m + |w|) == Cut(was, b, m) + w
  {
    PatchFront(was, b + m, w, a);
    PatchBeside(was, b + m, w, a, n);
    PatchInside(was, b + m, w, b, m + |w|);
    assert was[b..b + m + |w|][..m] == was[b..b + m];
  }

  /** fdt_del_last_string_: only to undo an insertion. */
  method DelLastString(fdt: Blob, s: bytes)
    requires fdt.Header() && |s| + 1 <= fdt.sizeStrings
    modifies fdt`sizeStrings
    ensures fdt.Front() == old(fdt.Front())
    ensures fdt.Header() && fdt.Block() == old(fdt.Block())
    ensures fdt.sizeStrings == old(fdt.sizeStrings) - |s| - 1
    ensures fdt.Tab() == Names(old(fdt.Tab().strs)[..fdt.sizeStrings], false)
  {
    hide Blob.Front;
    fdt.sizeStrings := fdt.sizeStrings - (|s| + 1);
  }

  // --------------------------------------------------- edits of the tree

  /** c is b with m bytes at o replaced by n others. */
  predicate SameAround(b: bytes, c: bytes, o: nat, m: nat, n: nat) {
    o + m <= |b| && |c| == |b| - m + n && c[..o] == b[..o] && c[o + n..] == b[o + m..]
  }

  lemma AroundPatch(b: bytes, c: bytes, o: nat, m: nat, n: nat, i: nat, w: bytes)
    requires SameAround(b, c, o, m, n) && o <= i && i + |w| <= o + n
    ensures SameAround(b, Patch(c, i, w), o, m, n)
  {
    PatchFront(c, i, w, o);
    PatchTail(c, i, w, o + n);
  }

  /** The tokens after the replaced bytes are still there. */
  lemma TailKept(b: bytes, c: bytes, o: nat, m: nat, n: nat, ns: Names, ns': Names, ts: Tokens)
    requires SameAround(b, c, o, m, n) && EncAt(b, o + m, ns, ts) && (o + n) % 4 == 0
    requires forall k: nat, name :: ns.Is(k, name) ==> ns'.Is(k, name)
    ensures EncAt(c, o + n, ns', ts)
  {
    hide EncAt;
    EncCopy(b, o + m, ns, ts, c, o + n, ns');
  }

  /** A property token written over the replaced bytes makes the tree's edit. */
  lemma CommitProp(s: bytes, s': bytes, ns: Names, ns': Names, tree: Items, p: Pos, m: nat, name: bytes, v: bytes, z: Items)
    requires Has(tree, p) && EncAt(s, 0, ns, Flat(tree, LAST))
    requires var o, n := Off(tree, p), TokLen(Prop(name, v));
             && SameAround(s, s', o, m, n) && EncTok(s', o, ns', Prop(name, v))
             && EncAt(s, o + m, ns, Flat(z, Post(tree, p, LAST)))
    requires forall k: nat, nm :: ns.Is(k, nm) ==> ns'.Is(k, nm)
    ensures EncAt(s', 0, ns', Flat(Put(tree, p, PropItem(name, v, z)), LAST))
  {
    hide EncAt, EncTok, TokLen, Off, Post, Put;
    var o, n, post := Off(tree, p), TokLen(Prop(name, v)), Post(tree, p, LAST);
    EncTokIn(s', o, ns', Prop(name, v));
    TokLenAligned(Prop(name, v));
    TailKept(s, s', o, m, n, ns, ns', Flat(z, post));
    EncCons(s', o, ns', Prop(name, v), Flat(z, post));
    CommitEdit(s, ns, s', ns', tree, p, PropItem(name, v, z));
  }

  /**
   fdt_resize_property_, once the property at p is found: its value gets a new
   length, and keeps its bytes as far as they fit.
   */
  method ResizeValue(fdt: Blob, off: nat, oldlen: nat, len: nat, ghost p: Pos) returns (r: int, ghost v: bytes)
    requires fdt.ValidTree() && Has(fdt.tree, p) && Get(fdt.tree, p).PropItem?
    requires off == Off(fdt.tree, p) && oldlen == |Get(fdt.tree, p).value| && Align4(len) <= INT32_MAX
    modifies fdt`sizeStruct, fdt`offStrings, fdt`sizeStrings, fdt`tree, fdt.buf
    ensures fdt.Front() == old(fdt.Front())
    ensures fdt.buf == old(fdt.buf)
    ensures fdt.ValidTree() && fdt.Tab() == old(fdt.Tab())
    ensures r == if old(DataSize(fdt)) - Align4(oldlen) + Align4(len) > fdt.totalsize then -ERR_NOSPACE else 0
    ensures r != 0 ==> fdt.tree == old(fdt.tree)
    ensures DataSize(fdt) == if r == 0 then old(DataSize(fdt)) - Align4(oldlen) + Align4(len) else old(DataSize(fdt))
    ensures r == 0 ==>
              var x := old(Get(fdt.tree, p));
              && fdt.tree == Put(old(fdt.tree), p, x.(value := v)) && |v| == len
              && forall k :: 0 <= k < |v| && k < |x.value| ==> v[k] == x.value[k]
  {
    hide Word, Word32, EncAt, EncTok, Flat, Off, Post, TokLen, Align4, Size, HeadSize, Put, Patch, Names.Is,
         Blob.Block, Blob.Strings, Blob.Tab, Spliced, SameAround, Blob.Front;
    ghost var tree, was, ns := fdt.tree, fdt.Block(), fdt.Tab();
    ghost var x, post := Get(tree, p), Post(tree, p, LAST);
    v := [];
    PlaceAt(fdt, p);
    PropTokens(was, off, ns, x, post);
    EncTokIn(was, off, ns, Prop(x.name, x.value));
    PropSize(x);
    r := SpliceStruct(fdt, off + 12, Align4(oldlen), Align4(len));
    if r != 0 {
      return;
    }
    ghost var mid := fdt.Block();
    WriteBlock(fdt, off + 4, Word32(len));
    v := ResizedToken(was, mid, fdt.Block(), off, ns, x.name, x.value, len);
    PropSize(x.(value := v));
    CommitProp(was, fdt.Block(), ns, ns, tree, p, 12 + Align4(oldlen), x.name, v, x.rest);
    fdt.tree := Put(tree, p, x.(value := v));
  }

  lemma PropSize(x: Items)
    requires x.PropItem?
    ensures HeadSize(x) == 12 + Align4(|x.value|) == TokLen(Prop(x.name, x.value))
  {
  }

  lemma ResizedToken(was: bytes, mid: bytes, now: bytes, o: nat, ns: Names, name: bytes, old_: bytes, len: nat) returns (v: bytes)
    requires EncTok(was, o, ns, Prop(name, old_)) && len < INT32_MAX
    requires Spliced(was, mid, o + 12, Align4(|old_|), Align4(len))
    requires o + 8 <= |mid| && now == Patch(mid, o + 4, Word32(len))
    ensures |v| == len && EncTok(now, o, ns, Prop(name, v))
    ensures forall k :: 0 <= k < len && k < |old_| ==> v[k] == old_[k]
    ensures SameAround(was, now, o, 12 + Align4(|old_|), 12 + Align4(len))
  {
    hide Word, Word32, Names.Is, Align4, TokLen, Patch;
    var oldA, newA := Align4(|old_|), Align4(len);
    var m := if oldA < newA then oldA else newA;
    TokLenFields(Prop(name, old_));
    v := now[o + 12..o + 12 + len];
    WordPrefix(was, mid, o + 12, o);
    WordPrefix(was, mid, o + 12, o + 8);
    WordPatch(mid, o + 4, Word32(len), o);
    WordPatch(mid, o + 4, Word32(len), o + 8);
    WordPatched(mid, o + 4, len);
    PatchBeside(mid, o + 4, Word32(len), o + 12, len);
    PropToken(now, o, ns, name, v);
    ResizedBytes(was, mid, v, o, m, len, old_);
    PatchFront(mid, o + 4, Word32(len), o);
    PatchTail(mid, o + 4, Word32(len), o + 12 + newA);
    PrefixOf(mid, was, o, o + 12);
  }

  lemma ResizedBytes(was: bytes, mid: bytes, v: bytes, o: nat, m: nat, len: nat, old_: bytes)
    requires o + 12 + m <= |was| && o + 12 + m <= |mid| && o + 12 + len <= |mid| && o + 12 + |old_| <= |was|
    requires mid[o + 12..o + 12 + m] == was[o + 12..o + 12 + m]
    requires v == mid[o + 12..o + 12 + len] && old_ == was[o + 12..o + 12 + |old_|]
    requires len <= m || |old_| <= m
    ensures forall k :: 0 <= k < len && k < |old_| ==> v[k] == old_[k]
  {
    forall k | 0 <= k < len && k < |old_|
      ensures v[k] == old_[k]
    {
      assert v[k] == mid[o + 12 + k] == mid[o + 12..o + 12 + m][k] == was[o + 12 + k];
    }
  }

  // ---------------------------------------------------------- properties

  /** A new property goes in front of everything else in its node. */
  function SetProp(kids: Items, name: bytes, val: bytes): Items {
    match FindProp(kids, name)
    case Some(q) => Put(kids, q, PropItem(name, val, Get(kids, q).rest))
    case None => PropItem(name, val, kids)
  }

  function AppendProp(kids: Items, name: bytes, val: bytes): Items {
    match FindProp(kids, name)
    case Some(q) => Put(kids, q, PropItem(name, Get(kids, q).value + val, Get(kids, q).rest))
    case None => PropItem(name, val, kids)
  }

  function DelProp(kids: Items, name: bytes): Items {
    match FindProp(kids, name)
    case Some(q) => Put(kids, q, Get(kids, q).rest)
    case None => kids
  }

  /** The most bytes that a property can add: its token, and its name if it is new. */
  function PropRoom(name: bytes, len: nat): nat {
    |name| + 1 + 12 + Align4(len)
  }

  /** fdt_add_property_: a property with room for a value of len bytes, in front of the node's items. */
  method AddProperty(fdt: Blob, off: nat, name: bytes, len: nat, ghost p: Pos) returns (r: int, poff: nat, ghost v: bytes)
    requires fdt.ValidTree() && Has(fdt.tree, p) && off == Off(fdt.tree, p)
    requires CStr(name) && PropFits(name, len)
    modifies fdt`sizeStruct, fdt`offStrings, fdt`sizeStrings, fdt`tree, fdt.buf
    ensures fdt.Front() == old(fdt.Front())
    ensures fdt.ValidTree()
    ensures !old(Get(fdt.tree, p)).NodeItem? ==> r == -ERR_BADOFFSET
    ensures old(Get(fdt.tree, p)).NodeItem? && r != 0 ==>
              r == -ERR_NOSPACE && old(DataSize(fdt)) + PropRoom(name, len) > fdt.totalsize
    ensures r != 0 ==> fdt.tree == old(fdt.tree) && fdt.Tab() == old(fdt.Tab()) && DataSize(fdt) == old(DataSize(fdt))
    ensures DataSize(fdt) <= old(DataSize(fdt)) + PropRoom(name, len)
    ensures r == 0 ==>
              var x := old(Get(fdt.tree, p));
              && fdt.tree == Put(old(fdt.tree), p, x.(kids := PropItem(name, v, x.kids))) && |v| == len
              && poff == off + TokLen(Begin(x.name))
  {
    hide Word, Word32, EncAt, EncTok, Flat, Off, Post, TokLen, Align4, Size, HeadSize, Put, Patch, Names.Is,
         Blob.Block, Blob.Tab, Spliced, SameAround, CStr, Blob.Front;
    ghost var tree, was, ns := fdt.tree, fdt.Block(), fdt.Tab();
    ghost var x := Get(tree, p);
    v := [];
    poff := off;
    TabIsFinished(fdt);
    PlaceAt(fdt, p);
    LastCloses(tree, p);
    ClosesFacts(x, Post(tree, p, LAST));
    var tag, next := NextToken(fdt, off, Flat(x, Post(tree, p, LAST)));
    if tag != FDT_BEGIN_NODE {
      return -ERR_BADOFFSET, poff, v;
    }
    poff := next;
    ghost var pk := Then(p, Down(Here));
    KidsPlace(tree, p);
    var nameoff, added := FindAddString(fdt, name);
    if nameoff < 0 {
      r := nameoff;
      return;
    }
    NewTable(was, ns, fdt.Tab(), if added then name + [0] else [], tree);
    r, v := InsertProp(fdt, next, nameoff, len, name, Then(p, Down(Here)));
    if r != 0 {
      if added {
        DelLastString(fdt, name);
        assert (ns.strs + (name + [0]))[..|ns.strs|] == ns.strs;
      }
      assert fdt.Tab() == ns;
      NewTable(was, ns, fdt.Tab(), [], tree);
    }
  }

  lemma NewTable(b: bytes, ns: Names, ns': Names, w: bytes, tree: Items)
    requires EncAt(b, 0, ns, Flat(tree, LAST)) && !ns.sw && (ns' == Names(ns.strs + w, false) || ns' == ns)
    ensures EncAt(b, 0, ns', Flat(tree, LAST))
  {
    hide EncAt, Names.Is;
    TableGrowsAll(ns.strs, ns.strs + w);
    EncCopy(b, 0, ns, Flat(tree, LAST), b, 0, ns');
  }

  /** The second half of fdt_add_property_: the splice and the three header words. */
  method InsertProp(fdt: Blob, off: nat, nameoff: nat, len: nat, ghost name: bytes, ghost p: Pos) returns (r: int, ghost v: bytes)
    requires fdt.ValidTree() && Has(fdt.tree, p) && off == Off(fdt.tree, p)
    requires fdt.Tab().Is(nameoff, name) && nameoff < U32_LIMIT && 12 + Align4(len) <= INT32_MAX
    modifies fdt`sizeStruct, fdt`offStrings, fdt`sizeStrings, fdt`tree, fdt.buf
    ensures fdt.Front() == old(fdt.Front())
    ensures fdt.sizeStrings == old(fdt.sizeStrings)
    ensures fdt.ValidTree() && fdt.Tab() == old(fdt.Tab())
    ensures r == if old(DataSize(fdt)) + 12 + Align4(len) > fdt.totalsize then -ERR_NOSPACE else 0
    ensures r != 0 ==> fdt.tree == old(fdt.tree) && fdt.Block() == old(fdt.Block()) && DataSize(fdt) == old(DataSize(fdt))
    ensures r == 0 ==> fdt.tree == Put(old(fdt.tree), p, PropItem(name, v, old(Get(fdt.tree, p)))) && |v| == len
    ensures r == 0 ==> DataSize(fdt) == old(DataSize(fdt)) + 12 + Align4(len)
  {
    hide Word, Word32, EncAt, EncTok, Flat, Off, Post, TokLen, Align4, Size, HeadSize, Put, Patch, Names.Is,
         Blob.Block, Blob.Tab, Spliced, SameAround, Blob.Front;
    ghost var tree, was, ns := fdt.tree, fdt.Block(), fdt.Tab();
    v := [];
    PlaceAt(fdt, p);
    EncLen(was, off, ns, Flat(Get(tree, p), Post(tree, p, LAST)));
    r := SpliceStruct(fdt, off, 0, 12 + Align4(len));
    if r != 0 {
      return;
    }
    ghost var mid := fdt.Block();
    WriteBlock(fdt, off, Word32(FDT_PROP));
    WriteBlock(fdt, off + 8, Word32(nameoff));
    WriteBlock(fdt, off + 4, Word32(len));
    OffAligned(was, ns, tree, p);
    v := NewToken(was, mid, fdt.Block(), off, ns, name, nameoff, len);
    PropSize(PropItem(name, v, Done));
    CommitProp(was, fdt.Block(), ns, ns, tree, p, 0, name, v, Get(tree, p));
    fdt.tree := Put(tree, p, PropItem(name, v, Get(tree, p)));
  }

  lemma OffAligned(s: bytes, ns: Names, tree: Items, p: Pos)
    requires Has(tree, p) && EncAt(s, 0, ns, Flat(tree, LAST))
    ensures Off(tree, p) % 4 == 0
  {
    hide EncAt, EncTok;
    EncGet(s, 0, ns, tree, p, LAST);
    LastCloses(tree, p);
    FlatIsCons(Get(tree, p), Post(tree, p, LAST));
    ConsAligned(s, Off(tree, p), ns, Flat(Get(tree, p), Post(tree, p, LAST)));
  }

  lemma FlatIsCons(x: Items, post: Tokens)
    requires post.Cons?
    ensures Flat(x, post).Cons?
  {
  }

  lemma ConsAligned(s: bytes, off: nat, ns: Names, ts: Tokens)
    requires ts.Cons? && EncAt(s, off, ns, ts)
    ensures off % 4 == 0
  {
  }

  lemma NewToken(was: bytes, mid: bytes, now: bytes, o: nat, ns: Names, name: bytes, nameoff: nat, len: nat) returns (v: bytes)
    requires Spliced(was, mid, o, 0, 12 + Align4(len)) && o % 4 == 0 && len < INT32_MAX && nameoff < U32_LIMIT
    requires now == Patch(Patch(Patch(mid, o, Word32(FDT_PROP)), o + 8, Word32(nameoff)), o + 4, Word32(len))
    requires ns.Is(nameoff, name)
    ensures |v| == len && EncTok(now, o, ns, Prop(name, v))
    ensures SameAround(was, now, o, 0, 12 + Align4(len))
  {
    hide Word, Word32, Names.Is, Align4, TokLen, Patch;
    var n, w0, w1, w2 := 12 + Align4(len), Word32(FDT_PROP), Word32(nameoff), Word32(len);
    var c0 := Patch(mid, o, w0);
    var c1 := Patch(c0, o + 8, w1);
    AroundPatch(was, mid, o, 0, n, o, w0);
    AroundPatch(was, c0, o, 0, n, o + 8, w1);
    AroundPatch(was, c1, o, 0, n, o + 4, w2);
    WordPatched(mid, o, FDT_PROP);
    WordPatch(c0, o + 8, w1, o);
    WordPatch(c1, o + 4, w2, o);
    WordPatched(c0, o + 8, nameoff);
    WordPatch(c1, o + 4, w2, o + 8);
    WordPatched(c1, o + 4, len);
    v := now[o + 12..o + 12 + len];
    PropToken(now, o, ns, name, v);
  }

  lemma KidsPlace(tree: Items, p: Pos)
    requires Has(tree, p) && Get(tree, p).NodeItem?
    ensures var x, pk := Get(tree, p), Then(p, Down(Here));
            && Has(tree, pk) && Get(tree, pk) == x.kids && Off(tree, pk) == Off(tree, p) + TokLen(Begin(x.name))
            && Post(tree, pk, LAST) == Cons(EndNode, Flat(x.rest, Post(tree, p, LAST)))
            && forall y :: Put(tree, pk, y) == Put(tree, p, x.(kids := y))
  {
    hide Off, Post, Put, Get, Has, Then, Flat, TokLen;
    DownHere(Get(tree, p), Post(tree, p, LAST));
    ThenAt(tree, p, Down(Here), LAST);
  }

  lemma DownHere(x: Items, post: Tokens)
    requires x.NodeItem?
    ensures Has(x, Down(Here)) && Get(x, Down(Here)) == x.kids && forall y :: Put(x, Down(Here), y) == x.(kids := y)
    ensures Off(x, Down(Here)) == TokLen(Begin(x.name)) && Post(x, Down(Here), post) == Cons(EndNode, Flat(x.rest, post))
  {
  }

  /** fdt_setprop: the node at p gets the property, and nothing else changes; on error nothing changes. */
  method Setprop(fdt: Blob, off: nat, name: bytes, val: bytes, ghost p: Pos) returns (r: int)
    requires fdt.ValidTree() && Has(fdt.tree, p) && off == Off(fdt.tree, p)
    requires CStr(name) && PropFits(name, |val|)
    modifies fdt`sizeStruct, fdt`offStrings, fdt`sizeStrings, fdt`tree, fdt.buf
    ensures fdt.Front() == old(fdt.Front())
    ensures fdt.ValidTree()
    ensures !old(Get(fdt.tree, p)).NodeItem? ==> r == -ERR_BADOFFSET
    ensures old(Get(fdt.tree, p)).NodeItem? && r != 0 ==>
              r == -ERR_NOSPACE && old(DataSize(fdt)) + PropRoom(name, |val|) > fdt.totalsize
    ensures r != 0 ==> fdt.tree == old(fdt.tree) && fdt.Tab() == old(fdt.Tab()) && DataSize(fdt) == old(DataSize(fdt))
    ensures DataSize(fdt) <= old(DataSize(fdt)) + PropRoom(name, |val|)
    ensures r == 0 ==>
              var x := old(Get(fdt.tree, p));
              fdt.tree == Put(old(fdt.tree), p, x.(kids := SetProp(x.kids, name, val)))
  {
    hide Word, EncAt, EncTok, Flat, Off, Post, TokLen, Align4, Size, HeadSize, Patch, Names.Is, Blob.Block,
         Blob.Tab, CStr, Complete, Closes, Put, Get, FindProp, Blob.Front;
    ghost var tree := fdt.tree;
    ghost var x := Get(tree, p);
    PlaceAt(fdt, p);
    LastCloses(tree, p);
    var poff, oldlen := GetProperty(fdt, off, name, x, Post(tree, p, LAST));
    ghost var v, pq;
    if poff >= 0 {
      pq := FoundPlace(tree, p, name, val);
      r, v := ResizeValue(fdt, poff, oldlen, |val|, pq);
      if r != 0 {
        return;
      }
      PutAt(tree, pq, Get(tree, pq).(value := v), LAST);
    } else if poff == -ERR_NOTFOUND {
      r, poff, v := AddProperty(fdt, off, name, |val|, p);
      if r != 0 {
        return;
      }
      pq := AddedPlace(tree, p, name, v, val);
    } else {
      return poff;
    }
    WriteValue(fdt, poff, 0, val, pq);
    PatchAll(v, val);
  }

  lemma PatchAll(v: bytes, w: bytes)
    requires |v| == |w|
    ensures Patch(v, 0, w) == w
  {
  }

  /** The place of a property that is there, and what writing it makes of the tree. */
  lemma FoundPlace(tree: Items, p: Pos, name: bytes, val: bytes) returns (pq: Pos)
    requires Has(tree, p) && Get(tree, p).NodeItem? && FindProp(Get(tree, p).kids, name).Some?
    ensures Has(tree, pq) && Get(tree, pq).PropItem? && Get(tree, pq).name == name
    ensures var x := Get(tree, p);
            var q := FindProp(x.kids, name).value;
            && Get(tree, pq) == Get(x.kids, q) && Off(tree, pq) == Off(tree, p) + Off(x, Down(q))
            && forall y :: Put(tree, pq, y) == Put(tree, p, x.(kids := Put(x.kids, q, y)))
  {
    hide Off, Post;
    var x := Get(tree, p);
    var q := FindProp(x.kids, name).value;
    pq := Then(p, Down(q));
    ThenAt(tree, p, Down(q), LAST);
  }

  lemma AddedPlace(tree: Items, p: Pos, name: bytes, v: bytes, val: bytes) returns (pq: Pos)
    requires Has(tree, p) && Get(tree, p).NodeItem?
    ensures var x := Get(tree, p);
            var new_ := Put(tree, p, x.(kids := PropItem(name, v, x.kids)));
            && Has(new_, pq) && Get(new_, pq) == PropItem(name, v, x.kids)
            && Off(new_, pq) == Off(tree, p) + TokLen(Begin(x.name))
            && forall y :: Put(new_, pq, y) == Put(tree, p, x.(kids := y))
  {
    hide Off, Post;
    var x := Get(tree, p);
    var new_ := Put(tree, p, x.(kids := PropItem(name, v, x.kids)));
    pq := Then(p, Down(Here));
    PutAt(tree, p, x.(kids := PropItem(name, v, x.kids)), LAST);
    KidsPlace(new_, p);
  }

  /** fdt_appendprop */
  method Appendprop(fdt: Blob, off: nat, name: bytes, val: bytes, ghost p: Pos) returns (r: int)
    requires fdt.ValidTree() && Has(fdt.tree, p) && off == Off(fdt.tree, p)
    requires CStr(name) && PropFits(name, |val|)
    requires Get(fdt.tree, p).NodeItem? && FindProp(Get(fdt.tree, p).kids, name).Some? ==>
               Align4(|Get(Get(fdt.tree, p).kids, FindProp(Get(fdt.tree, p).kids, name).value).value| + |val|) <= INT32_MAX
    modifies fdt`sizeStruct, fdt`offStrings, fdt`sizeStrings, fdt`tree, fdt.buf
    ensures fdt.Front() == old(fdt.Front())
    ensures fdt.ValidTree()
    ensures !old(Get(fdt.tree, p)).NodeItem? ==> r == -ERR_BADOFFSET
    ensures old(Get(fdt.tree, p)).NodeItem? && r != 0 ==>
              r == -ERR_NOSPACE && old(DataSize(fdt)) + PropRoom(name, |val|) > fdt.totalsize
    ensures r != 0 ==> fdt.tree == old(fdt.tree) && fdt.Tab() == old(fdt.Tab()) && DataSize(fdt) == old(DataSize(fdt))
    ensures r == 0 ==>
              var x := old(Get(fdt.tree, p));
              fdt.tree == Put(old(fdt.tree), p, x.(kids := AppendProp(x.kids, name, val)))
  {
    hide Word, EncAt, EncTok, Flat, Off, Post, TokLen, Align4, Size, HeadSize, Patch, Names.Is, Blob.Block,
         Blob.Tab, CStr, Complete, Closes, Put, Get, FindProp, Blob.Front;
    ghost var tree := fdt.tree;
    ghost var x := Get(tree, p);
    PlaceAt(fdt, p);
    LastCloses(tree, p);
    var poff, oldlen := GetProperty(fdt, off, name, x, Post(tree, p, LAST));
    ghost var v, pq;
    if poff >= 0 {
      pq := FoundPlace(tree, p, name, val);
      ghost var was := Get(tree, pq).value;
      r, v := ResizeValue(fdt, poff, oldlen, |val| + oldlen, pq);
      if r != 0 {
        return;
      }
      PutAt(tree, pq, Get(tree, pq).(value := v), LAST);
      WriteValue(fdt, poff, oldlen, val, pq);
      PatchEnd(was, v, val);
    } else {
      r, poff, v := AddProperty(fdt, off, name, |val|, p);
      if r != 0 {
        return;
      }
      pq := AddedPlace(tree, p, name, v, val);
      WriteValue(fdt, poff, 0, val, pq);
      PatchAll(v, val);
    }
  }

  lemma PatchEnd(was: bytes, v: bytes, w: bytes)
    requires |v| == |was| + |w| && forall k :: 0 <= k < |v| && k < |was| ==> v[k] == was[k]
    ensures Patch(v, |was|, w) == was + w
  {
  }

  /** Removing the first item at p. */
  method CutItem(fdt: Blob, off: nat, len: nat, ghost p: Pos) returns (r: int)
    requires fdt.ValidTree() && Has(fdt.tree, p) && !Get(fdt.tree, p).Done?
    requires off == Off(fdt.tree, p) && len == HeadSize(Get(fdt.tree, p))
    modifies fdt`sizeStruct, fdt`offStrings, fdt`sizeStrings, fdt`tree, fdt.buf
    ensures fdt.Front() == old(fdt.Front())
    ensures fdt.ValidTree() && fdt.Tab() == old(fdt.Tab())
    ensures r == 0 && fdt.tree == old(Put(fdt.tree, p, Get(fdt.tree, p).rest))
  {
    hide Word, EncAt, EncTok, Flat, Off, Post, TokLen, Align4, Size, HeadSize, Put, Get, Blob.Block, Blob.Tab,
         Spliced, Blob.Front;
    ghost var tree, was, ns := fdt.tree, fdt.Block(), fdt.Tab();
    ghost var x, post := Get(tree, p), Post(tree, p, LAST);
    ItemInside(was, ns, tree, p);
    r := SpliceStruct(fdt, off, len, 0);
    CutEnc(was, fdt.Block(), ns, tree, p);
    fdt.tree := Put(tree, p, x.rest);
  }

  lemma CutEnc(s: bytes, s': bytes, ns: Names, tree: Items, p: Pos)
    requires Has(tree, p) && !Get(tree, p).Done? && EncAt(s, 0, ns, Flat(tree, LAST))
    requires Spliced(s, s', Off(tree, p), HeadSize(Get(tree, p)), 0)
    ensures EncAt(s', 0, ns, Flat(Put(tree, p, Get(tree, p).rest), LAST))
  {
    hide EncAt, EncTok, Flat, Off, Post, HeadSize, Put, Get;
    var x, o, post := Get(tree, p), Off(tree, p), Post(tree, p, LAST);
    EncGet(s, 0, ns, tree, p, LAST);
    EncSkipHead(s, o, ns, x, post);
    OffAligned(s, ns, tree, p);
    TailKept(s, s', o, HeadSize(x), 0, ns, ns, Flat(x.rest, post));
    CommitEdit(s, ns, s', ns, tree, p, x.rest);
  }

  /** fdt_delprop */
  method Delprop(fdt: Blob, off: nat, name: bytes, ghost p: Pos) returns (r: int)
    requires fdt.ValidTree() && Has(fdt.tree, p) && off == Off(fdt.tree, p)
    modifies fdt`sizeStruct, fdt`offStrings, fdt`sizeStrings, fdt`tree, fdt.buf
    ensures fdt.Front() == old(fdt.Front())
    ensures fdt.ValidTree() && fdt.Tab() == old(fdt.Tab())
    ensures var x := old(Get(fdt.tree, p));
            if !x.NodeItem? then r == -ERR_BADOFFSET && fdt.tree == old(fdt.tree)
            else if FindProp(x.kids, name).None? then r == -ERR_NOTFOUND && fdt.tree == old(fdt.tree)
            else r == 0 && fdt.tree == Put(old(fdt.tree), p, x.(kids := DelProp(x.kids, name)))
  {
    hide Word, EncAt, EncTok, Flat, Off, Post, TokLen, Align4, Size, HeadSize, Names.Is, Blob.Block, Blob.Tab,
         Complete, Closes, Put, Get, FindProp, Blob.Front;
    ghost var tree := fdt.tree;
    ghost var x := Get(tree, p);
    PlaceAt(fdt, p);
    LastCloses(tree, p);
    var poff, len := GetProperty(fdt, off, name, x, Post(tree, p, LAST));
    if poff < 0 {
      return poff;
    }
    ghost var pq := FoundPlace(tree, p, name, []);
    PropSize(Get(tree, pq));
    r := CutItem(fdt, poff, 12 + Align4(len), pq);
  }

  /** fdt_del_node */
  method DelNode(fdt: Blob, off: nat, ghost p: Pos) returns (r: int)
    requires fdt.ValidTree() && Has(fdt.tree, p) && off == Off(fdt.tree, p)
    modifies fdt`sizeStruct, fdt`offStrings, fdt`sizeStrings, fdt`tree, fdt.buf
    ensures fdt.Front() == old(fdt.Front())
    ensures fdt.ValidTree() && fdt.Tab() == old(fdt.Tab())
    ensures var x := old(Get(fdt.tree, p));
            if !x.NodeItem? then r == -ERR_BADOFFSET && fdt.tree == old(fdt.tree)
            else r == 0 && fdt.tree == Put(old(fdt.tree), p, x.rest)
  {
    hide Word, EncAt, EncTok, Flat, Off, Post, TokLen, Size, HeadSize, Blob.Block, Blob.Tab, Complete, Closes, Put,
         Get, Blob.Front;
    PlaceAt(fdt, p);
    LastCloses(fdt.tree, p);
    var endoffset := NodeEndOffset(fdt, off, Get(fdt.tree, p), Post(fdt.tree, p, LAST));
    if endoffset < 0 {
      return endoffset;
    }
    r := CutItem(fdt, off, endoffset - off, p);
  }

  /** fdt_set_name */
  method SetName(fdt: Blob, off: nat, name: bytes, ghost p: Pos) returns (r: int)
    requires fdt.ValidTree() && Has(fdt.tree, p) && off == Off(fdt.tree, p) && CStr(name) && Align4(|name| + 1) <= INT32_MAX
    modifies fdt`sizeStruct, fdt`offStrings, fdt`sizeStrings, fdt`tree, fdt.buf
    ensures fdt.Front() == old(fdt.Front())
    ensures fdt.ValidTree() && fdt.Tab() == old(fdt.Tab())
    ensures var x := old(Get(fdt.tree, p));
            if !x.NodeItem? then r == -ERR_BADOFFSET && fdt.tree == old(fdt.tree)
            else if old(DataSize(fdt)) - Align4(|x.name| + 1) + Align4(|name| + 1) > fdt.totalsize then
              r == -ERR_NOSPACE && fdt.tree == old(fdt.tree)
            else r == 0 && fdt.tree == Put(old(fdt.tree), p, NodeItem(name, x.kids, x.rest))
  {
    hide Word, EncAt, EncTok, Flat, Off, Post, TokLen, Align4, Size, HeadSize, Blob.Block, Blob.Tab, Put, Get,
         Spliced, Patch, CStr, StringAt, Closes, Complete, Blob.Front;
    ghost var tree, was, ns := fdt.tree, fdt.Block(), fdt.Tab();
    ghost var x, post := Get(tree, p), Post(tree, p, LAST);
    PlaceAt(fdt, p);
    LastCloses(tree, p);
    ClosesFacts(x, post);
    var oldlen := GetName(fdt, off, Flat(x, post));
    if oldlen < 0 {
      return oldlen;
    }
    EncEnterNode(was, off, ns, x, post);
    EncTokIn(was, off, ns, Begin(x.name));
    NodeLen(x.name);
    NodeLen(name);
    r := SpliceStruct(fdt, off + 4, Align4(oldlen + 1), Align4(|name| + 1));
    if r != 0 {
      return;
    }
    ghost var mid := fdt.Block();
    WriteBlock(fdt, off + 4, name + [0]);
    RenameEnc(was, mid, fdt.Block(), ns, tree, p, name);
    fdt.tree := Put(tree, p, NodeItem(name, x.kids, x.rest));
  }

  lemma NodeLen(name: bytes)
    ensures TokLen(Begin(name)) == 4 + Align4(|name| + 1) && TokLen(EndNode) == 4
  {
  }

  lemma RenameEnc(s: bytes, mid: bytes, s': bytes, ns: Names, tree: Items, p: Pos, name: bytes)
    requires Has(tree, p) && Get(tree, p).NodeItem? && EncAt(s, 0, ns, Flat(tree, LAST)) && CStr(name)
    requires var o, m, n := Off(tree, p), Align4(|Get(tree, p).name| + 1), Align4(|name| + 1);
             Spliced(s, mid, o + 4, m, n) && s' == Patch(mid, o + 4, name + [0])
    ensures EncAt(s', 0, ns, Flat(Put(tree, p, NodeItem(name, Get(tree, p).kids, Get(tree, p).rest)), LAST))
  {
    hide EncAt, Flat, Off, Post, HeadSize, Put, Get, Patch, Align4, Word, EncTok, TokLen;
    var x, o, post := Get(tree, p), Off(tree, p), Post(tree, p, LAST);
    var m, n := Align4(|x.name| + 1), Align4(|name| + 1);
    NodeLen(x.name);
    NodeLen(name);
    EncGet(s, 0, ns, tree, p, LAST);
    EncEnterNode(s, o, ns, x, post);
    OffAligned(s, ns, tree, p);
    TokLenAligned(Begin(name));
    AroundPatch(s, mid, o + 4, m, n, o + 4, name + [0]);
    var inner := Flat(x.kids, Cons(EndNode, Flat(x.rest, post)));
    TailKept(s, s', o + 4, m, n, ns, ns, inner);
    BeginToken(s, mid, s', o, ns, x.name, name, m, n);
    NodeTokensBack(s', o, ns, NodeItem(name, x.kids, x.rest), post);
    PrefixOf(s', s, o, o + 4);
    CommitEdit(s, ns, s', ns, tree, p, NodeItem(name, x.kids, x.rest));
  }

  lemma NodeTokensBack(s: bytes, off: nat, ns: Names, x: Items, post: Tokens)
    requires x.NodeItem? && EncTok(s, off, ns, Begin(x.name))
    requires EncAt(s, off + TokLen(Begin(x.name)), ns, Flat(x.kids, Cons(EndNode, Flat(x.rest, post))))
    ensures EncAt(s, off, ns, Flat(x, post))
  {
    hide EncTok, TokLen, Align4;
  }

  lemma BeginToken(s: bytes, mid: bytes, s': bytes, o: nat, ns: Names, was: bytes, name: bytes, m: nat, n: nat)
    requires EncTok(s, o, ns, Begin(was)) && CStr(name) && n == Align4(|name| + 1)
    requires Spliced(s, mid, o + 4, m, n) && s' == Patch(mid, o + 4, name + [0])
    ensures EncTok(s', o, ns, Begin(name))
  {
    hide Word, Align4, Patch;
    var w := name + [0];
    WordPrefix(s, mid, o + 4, o);
    WordPatch(mid, o + 4, w, o);
    PatchParts(mid, o + 4, w);
    WrittenString(s', o + 4, name);
  }

  // --------------------------------------------------------- new children

  /** The place in a node after its leading properties and NOPs. */
  function AfterProps(kids: Items): (q: Pos)
    ensures Has(kids, q)
  {
    if kids.PropItem? || kids.NopItem? then Next(AfterProps(kids.rest)) else Here
  }

  /** The bytes of an empty node. */
  function NodeRoom(name: bytes): nat {
    8 + Align4(|name| + 1)
  }

  function AddKid(kids: Items, name: bytes): Items {
    Put(kids, AfterProps(kids), NodeItem(name, Done, Get(kids, AfterProps(kids))))
  }

  /** The loop of fdt_add_subnode_namelen: the offset after the leading properties and NOPs. */
  method SkipProps(fdt: Blob, off: nat, ghost kids: Items, ghost post: Tokens) returns (r: nat)
    requires fdt.At(off, Flat(kids, post)) && Closes(post)
    ensures r == off + Off(kids, AfterProps(kids))
  {
    hide EncAt, EncTok, TokLen, Size, Blob.Block, Blob.Tab;
    ghost var x := kids;
    r := off;
    while true
      invariant fdt.At(r, Flat(x, post))
      invariant off + Off(kids, AfterProps(kids)) == r + Off(x, AfterProps(x))
      decreases x
    {
      var tag, next := NextToken(fdt, r, Flat(x, post));
      if tag != FDT_PROP && tag != FDT_NOP {
        return;
      }
      r := next;
      x := x.rest;
    }
  }

  /** fdt_add_subnode_namelen: a new empty node, in front of the other children of the node at p. */
  method AddSubnode(fdt: Blob, off: nat, name: bytes, ghost p: Pos) returns (r: int)
    requires fdt.ValidTree() && Has(fdt.tree, p) && off == Off(fdt.tree, p) && CStr(name) && NodeFits(name)
    modifies fdt`sizeStruct, fdt`offStrings, fdt`sizeStrings, fdt`tree, fdt.buf
    ensures fdt.Front() == old(fdt.Front())
    ensures fdt.ValidTree() && fdt.Tab() == old(fdt.Tab())
    ensures r < 0 ==> fdt.tree == old(fdt.tree)
    ensures DataSize(fdt) == old(DataSize(fdt)) + (if r < 0 then 0 else NodeRoom(name))
    ensures var x := old(Get(fdt.tree, p));
            if !x.NodeItem? then r == -ERR_BADOFFSET
            else if FindNode(x.kids, Named(name)).Some? then r == -ERR_EXISTS
            else if old(DataSize(fdt)) + NodeRoom(name) > fdt.totalsize then r == -ERR_NOSPACE
            else
              && r == off + Off(x, Down(AfterProps(x.kids)))
              && fdt.tree == Put(old(fdt.tree), p, x.(kids := AddKid(x.kids, name)))
  {
    hide Word, Word32, EncAt, EncTok, Flat, Off, Post, TokLen, Align4, Size, HeadSize, Blob.Block, Blob.Tab, Put,
         Get, Patch, CStr, Closes, Complete, FindNode, Want.Ok, AfterProps, Blob.Front;
    ghost var tree := fdt.tree;
    ghost var x, post := Get(tree, p), Post(tree, p, LAST);
    PlaceAt(fdt, p);
    LastCloses(tree, p);
    ClosesFacts(x, post);
    r := SubnodeOffset(fdt, off, name, x, post);
    if r >= 0 {
      return -ERR_EXISTS;
    } else if r != -ERR_NOTFOUND {
      return;
    }
    var _, next := NextToken(fdt, off, Flat(x, post));
    var offset := SkipProps(fdt, next, x.kids, Cons(EndNode, Flat(x.rest, post)));
    KidPlace(tree, p);
    r := InsertNode(fdt, offset, name, Then(p, Down(AfterProps(x.kids))));
    if r == 0 {
      r := offset;
    }
  }

  lemma KidPlace(tree: Items, p: Pos)
    requires Has(tree, p) && Get(tree, p).NodeItem?
    ensures var x, q := Get(tree, p), AfterProps(Get(tree, p).kids);
            var pk := Then(p, Down(q));
            && Has(tree, pk) && Get(tree, pk) == Get(x.kids, q)
            && Off(tree, pk) == Off(tree, p) + Off(x, Down(q))
            && Off(x, Down(q)) == TokLen(Begin(x.name)) + Off(x.kids, q)
            && forall y :: Put(tree, pk, y) == Put(tree, p, x.(kids := Put(x.kids, q, y)))
  {
    hide Post, TokLen;
    ThenAt(tree, p, Down(AfterProps(Get(tree, p).kids)), LAST);
  }

  /** The splice and the writes that make a new empty node at p. */
  method InsertNode(fdt: Blob, off: nat, name: bytes, ghost p: Pos) returns (r: int)
    requires fdt.ValidTree() && Has(fdt.tree, p) && off == Off(fdt.tree, p) && CStr(name) && NodeFits(name)
    modifies fdt`sizeStruct, fdt`offStrings, fdt`sizeStrings, fdt`tree, fdt.buf
    ensures fdt.Front() == old(fdt.Front())
    ensures fdt.ValidTree() && fdt.Tab() == old(fdt.Tab())
    ensures r == if old(DataSize(fdt)) + NodeRoom(name) > fdt.totalsize then -ERR_NOSPACE else 0
    ensures DataSize(fdt) == old(DataSize(fdt)) + (if r == 0 then NodeRoom(name) else 0)
    ensures fdt.tree == if r == 0 then Put(old(fdt.tree), p, NodeItem(name, Done, old(Get(fdt.tree, p)))) else old(fdt.tree)
  {
    hide Word, Word32, EncAt, EncTok, Flat, Off, Post, TokLen, Align4, Size, HeadSize, Put, Get, Patch, Blob.Block,
         Blob.Tab, Spliced, CStr, Zeros, Blob.Front;
    ghost var tree, was, ns := fdt.tree, fdt.Block(), fdt.Tab();
    PlaceAt(fdt, p);
    EncLen(was, off, ns, Flat(Get(tree, p), Post(tree, p, LAST)));
    var n := Align4(|name| + 1);
    r := SpliceStruct(fdt, off, 0, 4 + n + 4);
    if r != 0 {
      return;
    }
    ghost var mid := fdt.Block();
    WriteNode(fdt, off, name, n);
    InsertEnc(was, mid, fdt.Block(), ns, tree, p, name);
    fdt.tree := Put(tree, p, NodeItem(name, Done, Get(tree, p)));
  }

  function Zeros(n: nat): (z: bytes)
    ensures |z| == n && forall k :: 0 <= k < n ==> z[k] == 0
  {
    seq(n, _ => 0)
  }

  /** The bytes of an empty node. */
  method WriteNode(fdt: Blob, off: nat, name: bytes, n: nat)
    requires fdt.Header() && |name| <= n && off + 8 + n <= fdt.sizeStruct
    modifies fdt.buf
    ensures fdt.Front() == old(fdt.Front())
    ensures fdt.Block() == NodeWritten(old(fdt.Block()), off, name, n) && fdt.Tab() == old(fdt.Tab())
  {
    hide Word32, Zeros, Patch, Blob.Block, Blob.Tab, Blob.Front;
    WriteBlock(fdt, off, Word32(FDT_BEGIN_NODE));
    WriteBlock(fdt, off + 4, Zeros(n));
    WriteBlock(fdt, off + 4, name);
    WriteBlock(fdt, off + 4 + n, Word32(FDT_END_NODE));
  }

  function NodeWritten(mid: bytes, o: nat, name: bytes, n: nat): bytes
    requires |name| <= n && o + 8 + n <= |mid|
  {
    Patch(Patch(Patch(Patch(mid, o, Word32(FDT_BEGIN_NODE)), o + 4, Zeros(n)), o + 4, name), o + 4 + n, Word32(FDT_END_NODE))
  }

  lemma NodeAround(s: bytes, mid: bytes, o: nat, name: bytes, n: nat)
    requires |name| <= n && o + 8 + n <= |mid| && SameAround(s, mid, o, 0, 8 + n)
    ensures SameAround(s, NodeWritten(mid, o, name, n), o, 0, 8 + n)
  {
    hide Patch, Word32, Zeros, SameAround;
    var c0 := Patch(mid, o, Word32(FDT_BEGIN_NODE));
    var c1 := Patch(c0, o + 4, Zeros(n));
    var c2 := Patch(c1, o + 4, name);
    AroundPatch(s, mid, o, 0, 8 + n, o, Word32(FDT_BEGIN_NODE));
    AroundPatch(s, c0, o, 0, 8 + n, o + 4, Zeros(n));
    AroundPatch(s, c1, o, 0, 8 + n, o + 4, name);
    AroundPatch(s, c2, o, 0, 8 + n, o + 4 + n, Word32(FDT_END_NODE));
  }

  lemma InsertEnc(s: bytes, mid: bytes, s': bytes, ns: Names, tree: Items, p: Pos, name: bytes)
    requires Has(tree, p) && EncAt(s, 0, ns, Flat(tree, LAST)) && CStr(name)
    requires var o, n := Off(tree, p), Align4(|name| + 1);
             && Spliced(s, mid, o, 0, 4 + n + 4)
             && s' == NodeWritten(mid, o, name, n)
    ensures EncAt(s', 0, ns, Flat(Put(tree, p, NodeItem(name, Done, Get(tree, p))), LAST))
  {
    hide EncAt, Flat, Off, Post, HeadSize, Put, Get, Align4, EncTok, TokLen, NodeWritten;
    var x, o, post, n := Get(tree, p), Off(tree, p), Post(tree, p, LAST), Align4(|name| + 1);
    NodeAround(s, mid, o, name, n);
    EncGet(s, 0, ns, tree, p, LAST);
    OffAligned(s, ns, tree, p);
    Align4Mult(|name| + 1);
    TailKept(s, s', o, 0, 8 + n, ns, ns, Flat(x, post));
    NewNodeTokens(mid, s', o, ns, name, n);
    NewNodeEnc(s', o, ns, name, x, post);
    CommitEdit(s, ns, s', ns, tree, p, NodeItem(name, Done, x));
  }

  lemma NewNodeEnc(s: bytes, o: nat, ns: Names, name: bytes, x: Items, post: Tokens)
    requires EncTok(s, o, ns, Begin(name)) && EncTok(s, o + 4 + Align4(|name| + 1), ns, EndNode)
    requires EncAt(s, o + 8 + Align4(|name| + 1), ns, Flat(x, post))
    ensures EncAt(s, o, ns, Flat(NodeItem(name, Done, x), post))
  {
    hide EncTok, Align4, EncAt, TokLen;
    NodeLen(name);
    EncCons(s, o + 4 + Align4(|name| + 1), ns, EndNode, Flat(x, post));
    EncCons(s, o, ns, Begin(name), Cons(EndNode, Flat(x, post)));
  }

  lemma NewNodeTokens(mid: bytes, s': bytes, o: nat, ns: Names, name: bytes, n: nat)
    requires n == Align4(|name| + 1) && o % 4 == 0 && o + 8 + n <= |mid| && CStr(name)
    requires s' == NodeWritten(mid, o, name, n)
    ensures EncTok(s', o, ns, Begin(name)) && EncTok(s', o + 4 + n, ns, EndNode)
  {
    hide Patch, Align4, Word, Word32, Zeros;
    var w0, z, w3 := Word32(FDT_BEGIN_NODE), Zeros(n), Word32(FDT_END_NODE);
    var c0 := Patch(mid, o, w0);
    var c1 := Patch(c0, o + 4, z);
    var c2 := Patch(c1, o + 4, name);
    WordPatched(mid, o, FDT_BEGIN_NODE);
    WordPatch(c0, o + 4, z, o);
    WordPatch(c1, o + 4, name, o);
    WordPatch(c2, o + 4 + n, w3, o);
    WordPatched(c2, o + 4 + n, FDT_END_NODE);
    Align4Mult(|name| + 1);
    PatchBeside(c2, o + 4 + n, w3, o + 4, n);
    PatchParts(c1, o + 4, name);
    PatchParts(c0, o + 4, z);
    NameOverZeros(c1, c2, s', o + 4, n, name);
  }

  lemma NameOverZeros(c1: bytes, c2: bytes, s': bytes, i: nat, n: nat, name: bytes)
    requires |name| < n && i + n <= |c1| == |c2| == |s'| && c2 == Patch(c1, i, name)
    requires c1[i..i + n] == Zeros(n) && s'[i..i + n] == c2[i..i + n]
    ensures StringAt(s', i, name)
  {
    SliceSlice(s', i, n, 0, |name|);
    SliceSlice(c2, i, n, 0, |name|);
    assert c2[i..i + |name|] == name;
    assert s'[i + |name|] == s'[i..i + n][|name|] == c2[i + |name|] == c1[i + |name|] == c1[i..i + n][|name|];
  }
}
