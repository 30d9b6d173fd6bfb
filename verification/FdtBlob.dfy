/**
 The memory that holds a flattened device tree. The header words (Devicetree
 Specification, section 5.2) are fields; the reservation map, the structure
 block and the string table are regions of buf. The tokens and the tree that
 the structure block encodes are kept as ghost state.
 */
module FdtBlob {
  import opened Bytes
  import opened FdtFormat
  import opened FdtTree

  const FDT_MAGIC := 0xd00dfeed
  const FDT_SW_MAGIC := 0x2ff20112
  const INT32_MAX := 0x7fff_ffff
  /** FDT_ALIGN(sizeof(struct fdt_header), 8) */
  const HEADER_SIZE := 40

  class Blob {
    var buf: array<byte>
    var magic: nat
    var totalsize: nat
    var offStruct: nat
    var offStrings: nat
    var offRsv: nat
    var version: nat
    var lastComp: nat
    var sizeStrings: nat
    var sizeStruct: nat
    ghost var toks: Tokens
    ghost var tree: Items

    /** Where the string table starts: in a tree being written it ends the buffer. */
    function StrStart(): int
      reads `magic, `totalsize, `offStrings, `sizeStrings
    {
      if magic == FDT_SW_MAGIC then totalsize - sizeStrings else offStrings
    }

    /** Every block lies inside the buffer, and sizes fit a C int. */
    ghost predicate Bounds()
      reads `buf, `magic, `totalsize, `offStruct, `offStrings, `sizeStrings, `sizeStruct
    {
      && totalsize <= buf.Length && totalsize < INT32_MAX
      && offStruct + sizeStruct <= totalsize
      && 0 <= StrStart() && StrStart() + sizeStrings <= totalsize
    }

    function Block(): (s: bytes)
      requires Bounds()
      reads `buf, `magic, `totalsize, `offStruct, `offStrings, `sizeStrings, `sizeStruct, buf
      ensures |s| == sizeStruct
    {
      buf[..][offStruct..offStruct + sizeStruct]
    }

    function Strings(): (s: bytes)
      requires Bounds()
      reads `buf, `magic, `totalsize, `offStruct, `offStrings, `sizeStrings, `sizeStruct, buf
      ensures |s| == sizeStrings
    {
      buf[..][StrStart()..StrStart() + sizeStrings]
    }

    function Tab(): Names
      requires Bounds()
      reads `buf, `magic, `totalsize, `offStruct, `offStrings, `sizeStrings, `sizeStruct, buf
    {
      Names(Strings(), magic == FDT_SW_MAGIC)
    }

    /** The structure block holds exactly ts from off on. */
    ghost predicate At(off: nat, ts: Tokens)
      reads `buf, `magic, `totalsize, `offStruct, `offStrings, `sizeStrings, `sizeStruct, buf
    {
      Bounds() && EncAt(Block(), off, Tab(), ts)
    }

    /** Where the reservation map starts and the structure block after it, with the bytes in front of that block. */
    function Front(): (nat, nat, bytes)
      reads `buf, `offRsv, `offStruct, buf
    {
      (offRsv, offStruct, buf[..][..if offStruct <= buf.Length then offStruct else 0])
    }

    /** The header of a finished version 17 tree, with its blocks in order. */
    ghost predicate Header()
      reads this
    {
      && magic == FDT_MAGIC && version == 17 && lastComp <= 17
      && HEADER_SIZE <= offRsv && offRsv + 16 <= offStruct
      && offStruct + sizeStruct <= offStrings
      && Bounds()
    }

    /** A finished version 17 tree whose structure block encodes `tree`. */
    ghost predicate ValidTree()
      reads this, buf
    {
      Header() && At(0, Flat(tree, LAST))
    }

    /** The big-endian word at an offset into the structure block. */
    function Load(off: nat): (v: nat)
      requires Bounds() && off + 4 <= sizeStruct
      reads this, buf
      ensures v == Word(Block(), off) && v < U32_LIMIT
    {
      var i := offStruct + off;
      Join4(buf[i], buf[i + 1], buf[i + 2], buf[i + 3])
    }
  }

  /** Overwriting part of the structure block, which does not overlap the strings. */
  method WriteBlock(fdt: Blob, off: nat, w: bytes)
    requires fdt.Bounds() && off + |w| <= fdt.sizeStruct
    requires fdt.offStruct + fdt.sizeStruct <= fdt.StrStart()
    modifies fdt.buf
    ensures fdt.Block() == Patch(old(fdt.Block()), off, w)
    ensures fdt.Tab() == old(fdt.Tab()) && fdt.Front() == old(fdt.Front())
  {
    WriteBytes(fdt, off, w);
  }

  /** The same, with what it does to the rest of the buffer. */
  method WriteBytes(fdt: Blob, off: nat, w: bytes)
    requires fdt.Bounds() && off + |w| <= fdt.sizeStruct
    requires fdt.offStruct + fdt.sizeStruct <= fdt.StrStart()
    modifies fdt.buf
    ensures fdt.Block() == Patch(old(fdt.Block()), off, w)
    ensures fdt.Tab() == old(fdt.Tab()) && fdt.Front() == old(fdt.Front())
    ensures fdt.buf[..] == Patch(old(fdt.buf[..]), fdt.offStruct + off, w)
    ensures fdt.buf[..][..fdt.offStruct] == old(fdt.buf[..][..fdt.offStruct])
  {
    hide Patch;
    ghost var was := fdt.buf[..];
    ghost var a, n, b, m := fdt.offStruct, fdt.sizeStruct, fdt.StrStart(), fdt.sizeStrings;
    CopyIn(fdt.buf, fdt.offStruct + off, w);
    PatchInside(was, a + off, w, a, n);
    PatchBeside(was, a + off, w, b, m);
    PatchFront(was, a + off, w, a);
  }

  /** A blob whose bytes from a place on hold y there, and were not changed before it, holds the edited tree. */
  lemma CommitEdit(s: bytes, ns: Names, s': bytes, ns': Names, tree: Items, p: Pos, y: Items)
    requires EncAt(s, 0, ns, Flat(tree, LAST)) && Has(tree, p)
    requires forall o: nat, name :: ns.Is(o, name) ==> ns'.Is(o, name)
    requires Off(tree, p) <= |s| && Off(tree, p) <= |s'| && s[..Off(tree, p)] == s'[..Off(tree, p)]
    requires EncAt(s', Off(tree, p), ns', Flat(y, Post(tree, p, LAST)))
    ensures EncAt(s', 0, ns', Flat(Put(tree, p, y), LAST))
  {
    hide *;
    EncCopy(s, 0, ns, Flat(tree, LAST), s, 0, ns');
    EncPut(s, s', 0, ns', tree, p, y, LAST);
  }

  /** The place p of a valid tree is found at its offset. */
  lemma PlaceAt(fdt: Blob, p: Pos)
    requires fdt.ValidTree() && Has(fdt.tree, p)
    ensures fdt.magic == FDT_MAGIC && fdt.At(Off(fdt.tree, p), Flat(Get(fdt.tree, p), Post(fdt.tree, p, LAST)))
  {
    hide EncAt, Flat, Off, Get, Post;
    EncGet(fdt.Block(), 0, fdt.Tab(), fdt.tree, p, LAST);
  }

  /** What the bytes of a node or property token say. */
  lemma TokenFacts(fdt: Blob, off: nat, ts: Tokens)
    requires fdt.At(off, ts) && ts.Cons?
    ensures off % 4 == 0 && off + TokLen(ts.head) <= fdt.sizeStruct
    ensures Word(fdt.Block(), off) == TagOf(ts.head)
    ensures ts.head.Begin? ==>
              && off + 4 + |ts.head.name| < fdt.sizeStruct
              && CStr(ts.head.name) && StringAt(fdt.Block(), off + 4, ts.head.name)
    ensures ts.head.Prop? ==>
              && off + 12 + |ts.head.value| <= fdt.sizeStruct
              && Word(fdt.Block(), off + 4) == |ts.head.value|
              && fdt.Block()[off + 12..off + 12 + |ts.head.value|] == ts.head.value
              && fdt.Tab().Is(Word(fdt.Block(), off + 8), ts.head.name)
  {
    hide Word, TokLen, Align4, Names.Is;
    TokLenFields(ts.head);
  }

  /** The token list goes on to the end of the structure block. */
  predicate Complete(ts: Tokens) {
    ts.Cons? && (if ts.head.End? then ts.tail.Nil? else Complete(ts.tail))
  }

  lemma {:induction false} FlatComplete(x: Items, post: Tokens)
    requires Complete(post)
    ensures Complete(Flat(x, post))
    decreases x
  {
    match x
    case Done =>
    case NopItem(r) => FlatComplete(r, post);
    case PropItem(_, _, r) => FlatComplete(r, post);
    case NodeItem(_, k, r) =>
      FlatComplete(r, post);
      FlatComplete(k, Cons(EndNode, Flat(r, post)));
  }

  lemma {:induction false} PostCloses(x: Items, p: Pos, post: Tokens)
    requires Has(x, p) && Complete(post) && Closes(post)
    ensures Complete(Post(x, p, post)) && Closes(Post(x, p, post))
    decreases p
  {
    match p
    case Here =>
    case Next(q) => PostCloses(x.rest, q, post);
    case Down(q) =>
      FlatComplete(x.rest, post);
      PostCloses(x.kids, q, Cons(EndNode, Flat(x.rest, post)));
  }
}
