/** fdt_ro.c: names, strings, properties and children of one node. */
module FdtRo {
  import opened Bytes
  import opened FdtFormat
  import opened FdtTree
  import opened FdtBlob
  import opened FdtCore

  /** strlen at an offset into the structure block. */
  method StrLen(fdt: Blob, off: nat) returns (n: nat)
    requires fdt.Bounds() && off <= fdt.sizeStruct && FirstNul(fdt.Block(), off) < fdt.sizeStruct
    ensures off + n == FirstNul(fdt.Block(), off)
  {
    n := 0;
    ghost var s := fdt.Block();
    while fdt.buf[fdt.offStruct + off + n] != 0
      invariant off + n < |s| && FirstNul(s, off + n) == FirstNul(s, off)
      decreases |s| - n
    {
      assert s[off + n] == fdt.buf[fdt.offStruct + off + n];
      n := n + 1;
    }
    assert s[off + n] == fdt.buf[fdt.offStruct + off + n];
  }

  /** fdt_get_name, at any offset: the length of the name that follows the tag there, or BADOFFSET. */
  method NameLength(fdt: Blob, off: nat) returns (len: int)
    requires fdt.Bounds()
    ensures var s := fdt.Block();
            len == if off % 4 != 0 || TagAt(s, off).0 != FDT_BEGIN_NODE then -ERR_BADOFFSET else FirstNul(s, off + 4) - (off + 4)
  {
    hide FirstNul, TagAt;
    if off % 4 != 0 {
      return -ERR_BADOFFSET;
    }
    var tag, _ := NextTag(fdt, off);
    if tag != FDT_BEGIN_NODE {
      return -ERR_BADOFFSET;
    }
    NameEnds(fdt.Block(), off);
    len := StrLen(fdt, off + 4);
  }

  /** The same where a token is stored. */
  method GetName(fdt: Blob, off: nat, ghost ts: Tokens) returns (len: int)
    requires fdt.At(off, ts) && ts.Cons?
    ensures ts.head.Begin? ==> len == |ts.head.name| && StringAt(fdt.Block(), off + 4, ts.head.name)
    ensures !ts.head.Begin? ==> len == -ERR_BADOFFSET
  {
    NameHere(fdt, off, ts);
    hide TokLen, Align4, Word, EncAt, EncTok, FirstNul, CStr, StringAt, TagAt;
    len := NameLength(fdt, off);
  }

  lemma NameEnds(s: bytes, off: nat)
    requires TagAt(s, off).0 == FDT_BEGIN_NODE
    ensures off + 4 <= |s| && FirstNul(s, off + 4) < |s|
  {
    hide Word, Align4;
  }

  lemma NameHere(fdt: Blob, off: nat, ts: Tokens)
    requires fdt.At(off, ts) && ts.Cons?
    ensures off % 4 == 0 && TagAt(fdt.Block(), off).0 == TagOf(ts.head)
    ensures ts.head.Begin? ==>
              && StringAt(fdt.Block(), off + 4, ts.head.name)
              && FirstNul(fdt.Block(), off + 4) == off + 4 + |ts.head.name|
  {
    hide TokLen, Align4, Word, TagAt, FirstNul;
    TagAtToken(fdt.Block(), off, fdt.Tab(), ts.head);
    if ts.head.Begin? {
      StringEndsAtNul(fdt.Block(), off + 4, ts.head.name);
    }
  }

  /** The bytes of the structure block at an offset. */
  function Chars(fdt: Blob, off: nat, len: nat): (r: bytes)
    requires fdt.Bounds() && off + len <= fdt.sizeStruct
    reads fdt, fdt.buf
    ensures r == fdt.Block()[off..off + len]
  {
    var r := fdt.buf[fdt.offStruct + off..fdt.offStruct + off + len];
    SliceSlice(fdt.buf[..], fdt.offStruct, fdt.sizeStruct, off, len);
    r
  }

  /** fdt_nodename_eq_ */
  method NodenameEq(fdt: Blob, off: nat, s: bytes, ghost ts: Tokens) returns (b: bool)
    requires fdt.At(off, ts) && ts.Cons? && ts.head.Begin?
    ensures b == NameEq(ts.head.name, s)
  {
    hide TokLen, Align4, Word, EncTok, EncAt, CStr, StringAt, NameEq, Blob.Block;
    ghost var name, blk := ts.head.name, fdt.Block();
    TokenFacts(fdt, off, ts);
    NameBytes(blk, off + 4, name);
    var olen := GetName(fdt, off, ts);
    if olen < |s| {
      NameShorter(name, s);
      return false;
    }
    NameStart(blk, off + 4, name, s);
    if Chars(fdt, off + 4, |s|) != s {
      return false;
    }
    var c := ByteAt(fdt, off + 4 + |s|);
    b := c == 0 || ('@' as int !in s && c == '@' as int);
  }

  /** One byte of the structure block. */
  function ByteAt(fdt: Blob, off: nat): (b: byte)
    requires fdt.Bounds() && off < fdt.sizeStruct
    reads fdt, fdt.buf
    ensures b == fdt.Block()[off]
  {
    fdt.buf[fdt.offStruct + off]
  }

  lemma NameBytes(blk: bytes, i: nat, name: bytes)
    requires StringAt(blk, i, name)
    ensures i + |name| < |blk| && blk[i..i + |name|] == name && blk[i + |name|] == 0
  {
  }

  lemma NameShorter(name: bytes, s: bytes)
    requires |name| < |s|
    ensures !NameEq(name, s)
  {
  }

  /** How a name at i compares, told from the bytes there. */
  lemma NameStart(blk: bytes, i: nat, name: bytes, s: bytes)
    requires StringAt(blk, i, name) && CStr(name) && |s| <= |name|
    ensures i + |s| < |blk|
    ensures NameEq(name, s) <==>
            blk[i..i + |s|] == s && (blk[i + |s|] == 0 || ('@' as int !in s && blk[i + |s|] == '@' as int))
  {
    NameBytes(blk, i, name);
    SliceSlice(blk, i, |name|, 0, |s|);
    if |s| < |name| {
      assert blk[i + |s|] == blk[i..i + |name|][|s|] == name[|s|];
    }
  }

  /** fdt_subnode_offset_namelen: the first child of the node x at off whose name matches. */
  method SubnodeOffset(fdt: Blob, off: nat, name: bytes, ghost x: Items, ghost post: Tokens) returns (r: int)
    requires fdt.At(off, Flat(x, post)) && Complete(post) && Closes(post)
    ensures x.NodeItem? ==>
              match FindNode(x.kids, Named(name))
              case Some(q) => r == off + Off(x, Down(q))
              case None => r == -ERR_NOTFOUND
    ensures !x.NodeItem? ==> r == -ERR_BADOFFSET
  {
    hide EncAt, Seek, EndOf, TokLen, Size, HeadSize, Complete, Off, NameEq, Blob.Block, Blob.Tab;
    FlatComplete(x, post);
    ghost var w := Named(name);
    ghost var ts := Flat(x, post);
    ghost var goal := if x.NodeItem? then Seek(ts.tail, off + TokLen(ts.head), 0, w) else None;
    if x.NodeItem? {
      SeekChild(x, post, off, w);
    }
    var depth := 0;
    r := off;
    hide Scan, Flat;
    while 0 <= r && 0 <= depth
      invariant ts.Cons? && (ts.head.Begin? || !x.NodeItem?)
      invariant 0 <= r && 0 <= depth ==> fdt.At(r, ts) && Complete(ts)
      invariant 0 <= r && 0 <= depth && x.NodeItem? ==>
                  goal == if depth == 1 && w.Ok(ts.head.name) then Some((r as nat, ts))
                          else Seek(ts.tail, r + TokLen(ts.head), depth, w)
      invariant !x.NodeItem? ==> depth == 0 && (r == -ERR_BADOFFSET || (r == off && ts == Flat(x, post)))
      invariant x.NodeItem? && depth < 0 ==> goal == None
      invariant x.NodeItem? && r < 0 ==> goal == None && (depth >= 0 ==> r == -ERR_NOTFOUND)
      decreases 0 <= r && 0 <= depth, ts
    {
      if depth == 1 {
        var eq := NodenameEq(fdt, r, name, ts);
        if eq {
          return;
        }
      }
      if ts.head.Begin? {
        SeekScan(ts.tail, r + TokLen(ts.head), depth, w);
        ScanDepth(ts.tail, r + TokLen(ts.head), depth);
        ScanShrinks(ts.tail, r + TokLen(ts.head), depth);
      }
      ghost var stop := Scan(ts.tail, r + TokLen(ts.head), true, depth);
      r, depth := NextNode(fdt, r, true, depth, ts);
      if stop.AtNode? && x.NodeItem? {
        ts := stop.ts;
      }
    }
    if depth < 0 {
      return -ERR_NOTFOUND;
    }
  }

  lemma SeekChild(x: Items, post: Tokens, off: nat, w: Want)
    requires x.NodeItem?
    ensures Flat(x, post).Cons? && Flat(x, post).head == Begin(x.name)
    ensures Seek(Flat(x, post).tail, off + TokLen(Begin(x.name)), 0, w) ==
            match FindNode(x.kids, w)
            case Some(q) => Some((off + Off(x, Down(q)), Flat(Get(x.kids, q), Post(x, Down(q), post))))
            case None => None
  {
    hide Seek, EndOf, TokLen, Size, HeadSize, Want.Ok;
    var inner := Cons(EndNode, Flat(x.rest, post));
    var i := off + TokLen(Begin(x.name));
    SeekFinds(x.kids, inner, i, w);
    SeekEnds(inner, i + Size(x.kids), w);
  }

  // ------------------------------------------------------- string table

  /** A name offset as a C int. */
  function ToInt(w: nat): int {
    if w > INT32_MAX then w - U32_LIMIT else w
  }

  /** A finished tree, or one that is being written, whose strings end the buffer. */
  predicate Readable(fdt: Blob)
    reads fdt
  {
    fdt.magic == FDT_MAGIC || (fdt.magic == FDT_SW_MAGIC && fdt.offStrings == fdt.totalsize)
  }

  /** Where in the string table an offset points: it counts back from the end of the table while a tree is written. */
  function StrIndex(fdt: Blob, stroffset: int): int
    reads fdt
  {
    if fdt.magic == FDT_SW_MAGIC then stroffset + fdt.sizeStrings else stroffset
  }

  lemma {:induction false} FirstNulFrom(s: bytes, i: nat, k: nat)
    requires i + k <= |s|
    ensures FirstNul(s, i + k) == i + FirstNul(s[i..], k)
    decreases |s| - k
  {
    if i + k < |s| && s[i + k] != 0 {
      FirstNulFrom(s, i, k + 1);
    }
  }

  /** Comparing a and b as unsigned numbers of 32 bits. */
  predicate Below(a: int, b: int) {
    a % U32_LIMIT < b % U32_LIMIT
  }

  lemma BelowMeans(a: int, n: nat)
    requires -U32_LIMIT < a < 0 && n < U32_LIMIT
    ensures Below(a, 0 - n) <==> n > 0 && a < 0 - n
  {
    assert a % U32_LIMIT == a + U32_LIMIT;
    assert n > 0 ==> (0 - n) % U32_LIMIT == U32_LIMIT - n;
  }

  /** The length of the string at the front of s, or TRUNCATED. */
  function TextLen(s: bytes): int {
    if FirstNul(s, 0) < |s| then FirstNul(s, 0) else -ERR_TRUNCATED
  }

  /**
   fdt_get_string: the length of the string at an offset, or an error. While a
   tree has no strings yet, every negative offset into the buffer is taken,
   because it is compared with the size 0 as an unsigned number.
   */
  method GetString(fdt: Blob, stroffset: int) returns (r: int)
    requires fdt.Bounds() && Readable(fdt)
    ensures fdt.magic == FDT_SW_MAGIC && fdt.sizeStruct == 0 ==> r == -ERR_BADSTATE
    ensures fdt.magic == FDT_SW_MAGIC && fdt.sizeStruct != 0 && fdt.sizeStrings == 0 ==>
              r == if 0 - fdt.totalsize <= stroffset < 0 then TextLen(fdt.buf[..][fdt.totalsize + stroffset..fdt.totalsize]) else -ERR_BADOFFSET
    ensures !(fdt.magic == FDT_SW_MAGIC && (fdt.sizeStruct == 0 || fdt.sizeStrings == 0)) ==>
              var i := StrIndex(fdt, stroffset);
              if 0 <= i < fdt.sizeStrings then
                var e := FirstNul(fdt.Strings(), i);
                r == if e < fdt.sizeStrings then e - i else -ERR_TRUNCATED
              else r == -ERR_BADOFFSET
  {
    hide Below, FirstNul, Blob.Strings;
    if fdt.magic == FDT_SW_MAGIC && fdt.sizeStruct == 0 {
      return -ERR_BADSTATE;
    }
    var absoffset := stroffset + fdt.offStrings;
    if absoffset < 0 || fdt.totalsize <= absoffset {
      return -ERR_BADOFFSET;
    }
    var end := fdt.totalsize;
    if stroffset < 0 {
      BelowMeans(stroffset, fdt.sizeStrings);
    }
    if fdt.magic == FDT_MAGIC {
      if stroffset < 0 || fdt.sizeStrings <= stroffset {
        return -ERR_BADOFFSET;
      }
      end := fdt.offStrings + fdt.sizeStrings;
    } else if stroffset >= 0 || Below(stroffset, 0 - fdt.sizeStrings) {
      return -ERR_BADOFFSET;
    }
    if fdt.sizeStrings > 0 {
      StringWindow(fdt, StrIndex(fdt, stroffset));
    }
    r := StringScan(fdt.buf, absoffset, end);
  }

  lemma StringWindow(fdt: Blob, i: nat)
    requires fdt.Bounds() && i < fdt.sizeStrings
    ensures var s := fdt.buf[..][fdt.StrStart() + i..fdt.StrStart() + fdt.sizeStrings]; var e := FirstNul(fdt.Strings(), i);
            TextLen(s) == if e < fdt.sizeStrings then e - i else -ERR_TRUNCATED
  {
    hide FirstNul;
    assert fdt.buf[..][fdt.StrStart() + i..fdt.StrStart() + fdt.sizeStrings] == fdt.Strings()[i..];
    FirstNulFrom(fdt.Strings(), i, 0);
  }

  /** The memchr of fdt_get_string. */
  method StringScan(buf: array<byte>, start: nat, end: nat) returns (r: int)
    requires start <= end <= buf.Length
    ensures r == TextLen(buf[..][start..end])
  {
    ghost var s := buf[..][start..end];
    r := 0;
    while start + r < end && buf[start + r] != 0
      invariant 0 <= r <= |s| && FirstNul(s, r) == FirstNul(s, 0)
      decreases |s| - r
    {
      r := r + 1;
    }
    if start + r == end {
      r := -ERR_TRUNCATED;
    }
  }

  /** A name offset that stands for a name, as an index. */
  lemma NameIndex(fdt: Blob, nameoff: nat, name: bytes)
    requires fdt.Bounds() && Readable(fdt) && nameoff < U32_LIMIT && fdt.Tab().Is(nameoff, name)
    ensures var i := StrIndex(fdt, ToInt(nameoff));
            && 0 <= i && i + |name| < fdt.sizeStrings && FirstNul(fdt.Strings(), i) == i + |name|
            && fdt.Strings()[i..i + |name|] == name && CStr(name)
  {
    hide FirstNul, CStr;
    StringEndsAtNul(fdt.Strings(), StrIndex(fdt, ToInt(nameoff)), name);
  }

  /** fdt_string_eq_: whether a name offset, which stands for name, names s. */
  method StringEq(fdt: Blob, nameoff: nat, s: bytes, ghost name: bytes) returns (b: bool)
    requires fdt.Bounds() && Readable(fdt) && fdt.sizeStruct > 0 && nameoff < U32_LIMIT && fdt.Tab().Is(nameoff, name)
    ensures b == (name == s)
  {
    hide FirstNul, Names.Is, CStr;
    NameIndex(fdt, nameoff, name);
    var slen := GetString(fdt, ToInt(nameoff));
    var i := StrIndex(fdt, ToInt(nameoff));
    b := 0 <= slen && slen == |s| && StringChars(fdt, i, slen) == s;
  }

  function StringChars(fdt: Blob, i: nat, n: nat): (r: bytes)
    requires fdt.Bounds() && i + n <= fdt.sizeStrings
    reads fdt, fdt.buf
    ensures r == fdt.Strings()[i..i + n]
  {
    var s := fdt.StrStart();
    SliceSlice(fdt.buf[..], s, fdt.sizeStrings, i, n);
    fdt.buf[s + i..s + i + n]
  }

  // --------------------------------------------------------- properties

  /** The first property before any child, NOPs skipped: its offset, and the items from there. */
  function FirstProp(x: Items, off: nat): (r: Option<(nat, Items)>)
    ensures r.Some? ==> r.value.1.PropItem?
  {
    match x
    case PropItem(_, _, _) => Some((off, x))
    case NopItem(rest) => FirstProp(rest, off + HeadSize(x))
    case _ => None
  }

  /** The first property of a name before any child, in the same form. */
  function FindFrom(x: Items, off: nat, name: bytes): Option<(nat, Items)> {
    if x.PropItem? && x.name == name then Some((off, x))
    else if x.PropItem? || x.NopItem? then FindFrom(x.rest, off + HeadSize(x), name)
    else None
  }

  /** The place of the first property of a name before any child. */
  function FindProp(x: Items, name: bytes): (r: Option<Pos>)
    ensures r.Some? ==> Has(x, r.value) && Get(x, r.value).PropItem? && Get(x, r.value).name == name
  {
    if x.PropItem? && x.name == name then Some(Here)
    else if x.PropItem? || x.NopItem? then
      match FindProp(x.rest, name) case None => None case Some(q) => Some(Next(q))
    else None
  }

  lemma {:induction false} FindFromIsFindProp(x: Items, off: nat, name: bytes)
    ensures FindFrom(x, off, name) ==
            match FindProp(x, name) case Some(q) => Some((off + Off(x, q), Get(x, q))) case None => None
    decreases x
  {
    hide HeadSize;
    if x.PropItem? || x.NopItem? {
      FindFromIsFindProp(x.rest, off + HeadSize(x), name);
    }
  }

  lemma {:induction false} FindSkipsNops(x: Items, off: nat, name: bytes)
    ensures FindFrom(x, off, name) ==
            match FirstProp(x, off) case Some(f) => FindFrom(f.1, f.0, name) case None => None
    ensures FirstProp(x, off).Some? ==> FirstProp(x, off).value.1 == x || FirstProp(x, off).value.1 < x
    decreases x
  {
    hide HeadSize;
    if x.NopItem? {
      FindSkipsNops(x.rest, off + HeadSize(x), name);
    }
  }

  /** The error when no property comes: a node or the end of one comes first, or the end of the whole. */
  function Ending(x: Items, post: Tokens): (r: int)
    requires Closes(post)
    ensures r < 0
  {
    match x
    case NopItem(rest) => Ending(rest, post)
    case Done => if post.head.End? then -ERR_BADSTRUCTURE else -ERR_NOTFOUND
    case _ => -ERR_NOTFOUND
  }

  lemma {:induction false} EndingInside(x: Items, post: Tokens)
    requires Closes(post)
    ensures post.head.EndNode? ==> Ending(x, post) == -ERR_NOTFOUND
  {
    if x.NopItem? {
      EndingInside(x.rest, post);
    }
  }

  /** nextprop_: the first property at or after off. */
  method NextProp(fdt: Blob, off: nat, ghost x: Items, ghost post: Tokens) returns (r: int)
    requires fdt.At(off, Flat(x, post)) && Closes(post)
    ensures match FirstProp(x, off)
            case Some(f) => r == f.0 && fdt.At(f.0, Flat(f.1, post))
            case None => r == Ending(x, post)
  {
    hide EncAt, TokLen, Size, EncTok;
    var offset: nat := off;
    ghost var y := x;
    while true
      invariant fdt.At(offset, Flat(y, post)) && FirstProp(x, off) == FirstProp(y, offset) && Ending(x, post) == Ending(y, post)
      decreases y
    {
      var tag, next := NextToken(fdt, offset, Flat(y, post));
      if tag == FDT_END {
        return -ERR_BADSTRUCTURE;
      } else if tag == FDT_PROP {
        return offset;
      } else if tag != FDT_NOP {
        return -ERR_NOTFOUND;
      }
      offset := next;
      y := y.rest;
    }
  }

  lemma ClosesFacts(x: Items, post: Tokens)
    requires Closes(post)
    ensures Flat(x, post).Cons? && (Flat(x, post).head.Begin? <==> x.NodeItem?) && (Flat(x, post).head.Prop? <==> x.PropItem?)
    ensures x.NodeItem? ==>
              && Flat(x, post).head == Begin(x.name)
              && Flat(x, post).tail == Flat(x.kids, Cons(EndNode, Flat(x.rest, post)))
              && Closes(Cons(EndNode, Flat(x.rest, post)))
    ensures x.PropItem? ==> Flat(x, post) == Cons(Prop(x.name, x.value), Flat(x.rest, post))
  {
  }

  /** fdt_first_property_offset */
  method FirstPropertyOffset(fdt: Blob, off: nat, ghost x: Items, ghost post: Tokens) returns (r: int)
    requires fdt.At(off, Flat(x, post)) && Closes(post)
    ensures x.NodeItem? ==>
              match FirstProp(x.kids, off + TokLen(Begin(x.name)))
              case Some(f) => r == f.0 && fdt.At(f.0, Flat(f.1, Cons(EndNode, Flat(x.rest, post))))
              case None => r == -ERR_NOTFOUND
    ensures !x.NodeItem? ==> r == -ERR_BADOFFSET
  {
    hide EncAt, TokLen, Size, EncTok, Closes, Flat, FirstProp;
    ClosesFacts(x, post);
    var tag, next := NextToken(fdt, off, Flat(x, post));
    if tag != FDT_BEGIN_NODE {
      return -ERR_BADOFFSET;
    }
    EndingInside(x.kids, Cons(EndNode, Flat(x.rest, post)));
    r := NextProp(fdt, next, x.kids, Cons(EndNode, Flat(x.rest, post)));
  }

  /** fdt_next_property_offset */
  method NextPropertyOffset(fdt: Blob, off: nat, ghost x: Items, ghost post: Tokens) returns (r: int)
    requires fdt.At(off, Flat(x, post)) && Closes(post)
    ensures x.PropItem? ==>
              match FirstProp(x.rest, off + HeadSize(x))
              case Some(f) => r == f.0 && fdt.At(f.0, Flat(f.1, post))
              case None => r == Ending(x.rest, post)
    ensures !x.PropItem? ==> r == -ERR_BADOFFSET
  {
    hide EncAt, TokLen, Size, EncTok, Closes, Flat, FirstProp;
    ClosesFacts(x, post);
    var tag, next := NextToken(fdt, off, Flat(x, post));
    if tag != FDT_PROP {
      return -ERR_BADOFFSET;
    }
    r := NextProp(fdt, next, x.rest, post);
  }

  /** fdt_get_property_by_offset_: the length and name offset of the property at off. */
  method GetPropertyByOffset(fdt: Blob, off: nat, ghost ts: Tokens) returns (len: int, nameoff: nat)
    requires fdt.At(off, ts) && ts.Cons?
    ensures !ts.head.Prop? ==> len == -ERR_BADOFFSET
    ensures ts.head.Prop? ==>
              && len == |ts.head.value| && off + 12 + len <= fdt.sizeStruct
              && Chars(fdt, off + 12, len) == ts.head.value
              && nameoff < U32_LIMIT && fdt.Tab().Is(nameoff, ts.head.name)
  {
    hide EncAt, EncTok, TokLen, Word, Names.Is;
    TokenFacts(fdt, off, ts);
    nameoff := 0;
    var tag, _ := NextToken(fdt, off, ts);
    if tag != FDT_PROP {
      return -ERR_BADOFFSET, nameoff;
    }
    len := fdt.Load(off + 4);
    nameoff := fdt.Load(off + 8);
  }

  /**
   fdt_get_property_namelen_: the offset of the first property of a name in the
   node x at off, and its length; or an error.
   */
  method GetProperty(fdt: Blob, off: nat, name: bytes, ghost x: Items, ghost post: Tokens) returns (r: int, len: int)
    requires Readable(fdt)
    requires fdt.At(off, Flat(x, post)) && Closes(post)
    ensures x.NodeItem? ==>
              match FindProp(x.kids, name)
              case Some(q) => r == off + Off(x, Down(q)) && len == |Get(x.kids, q).value|
              case None => r == -ERR_NOTFOUND
    ensures !x.NodeItem? ==> r == -ERR_BADOFFSET
  {
    hide EncAt, TokLen, Size, EncTok, HeadSize, Closes, Word, Names.Is, Flat, FirstProp, FindProp, FindFrom, Get,
         Off, Blob.Block, Blob.Tab, Blob.Strings;
    len := 0;
    r := FirstPropertyOffset(fdt, off, x, post);
    ghost var inner, goal, y := post, None, x;
    if x.NodeItem? {
      inner := Cons(EndNode, Flat(x.rest, post));
      goal := FindFrom(x.kids, off + TokLen(Begin(x.name)), name);
      GoalOfNode(x, post, off, name);
      y := if r < 0 then y else FirstProp(x.kids, off + TokLen(Begin(x.name))).value.1;
    }
    while 0 <= r
      invariant !x.NodeItem? ==> r == -ERR_BADOFFSET
      invariant x.NodeItem? && r < 0 ==> r == -ERR_NOTFOUND && goal == None
      invariant 0 <= r ==> y.PropItem? && Closes(inner) && inner.head.EndNode? && fdt.At(r, Flat(y, inner)) && goal == FindFrom(y, r, name)
      decreases 0 <= r, y
    {
      ClosesFacts(y, inner);
      var nameoff;
      len, nameoff := GetPropertyByOffset(fdt, r, Flat(y, inner));
      var eq := StringEq(fdt, nameoff, name, y.name);
      FindStep(y, r, name);
      EndingInside(y.rest, inner);
      if eq {
        return;
      }
      ghost var j := r + HeadSize(y);
      r := NextPropertyOffset(fdt, r, y, inner);
      if r >= 0 {
        y := FirstProp(y.rest, j).value.1;
      }
    }
  }

  lemma GoalOfNode(x: Items, post: Tokens, off: nat, name: bytes)
    requires x.NodeItem?
    ensures Closes(Cons(EndNode, Flat(x.rest, post)))
    ensures var i := off + TokLen(Begin(x.name));
            && FindFrom(x.kids, i, name) == (match FindProp(x.kids, name)
                                             case Some(q) => Some((off + Off(x, Down(q)), Get(x.kids, q)))
                                             case None => None)
            && FindFrom(x.kids, i, name) == (match FirstProp(x.kids, i)
                                             case Some(f) => FindFrom(f.1, f.0, name)
                                             case None => None)
  {
    hide HeadSize, TokLen;
    FindFromIsFindProp(x.kids, off + TokLen(Begin(x.name)), name);
    FindSkipsNops(x.kids, off + TokLen(Begin(x.name)), name);
  }

  lemma FindStep(y: Items, off: nat, name: bytes)
    requires y.PropItem?
    ensures y.name == name ==> FindFrom(y, off, name) == Some((off, y))
    ensures var n := FirstProp(y.rest, off + HeadSize(y));
            && (n.Some? ==> n.value.1 < y)
            && (y.name != name ==> FindFrom(y, off, name) == if n.Some? then FindFrom(n.value.1, n.value.0, name) else None)
  {
    hide HeadSize;
    FindSkipsNops(y.rest, off + HeadSize(y), name);
  }

  /** fdt_getprop_by_offset: the name and value of the property at off, or the error in place of the length. */
  method GetpropByOffset(fdt: Blob, off: nat, ghost ts: Tokens) returns (len: int, name: bytes, value: bytes)
    requires fdt.At(off, ts) && ts.Cons? && Readable(fdt)
    ensures ts.head.Prop? ==> len == |value| && name == ts.head.name && value == ts.head.value
    ensures ts.head.Prop? ==> CStr(name) && |name| < fdt.sizeStrings && 12 + Align4(|value|) <= fdt.sizeStruct
    ensures !ts.head.Prop? ==> len == -ERR_BADOFFSET
  {
    hide EncAt, EncTok, TokLen, Align4, Word, Blob.Block, Blob.Strings, Names.Is, FirstNul, CStr;
    var nameoff;
    len, nameoff := GetPropertyByOffset(fdt, off, ts);
    name, value := [], [];
    if len < 0 {
      return;
    }
    TokenFacts(fdt, off, ts);
    PropLen(ts.head.name, ts.head.value);
    value := Chars(fdt, off + 12, len);
    NameIndex(fdt, nameoff, ts.head.name);
    var slen := GetString(fdt, ToInt(nameoff));
    name := StringChars(fdt, StrIndex(fdt, ToInt(nameoff)), slen);
  }
}
