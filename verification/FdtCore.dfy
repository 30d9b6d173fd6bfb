/**
 fdt.c: reading one tag, and the walks over nodes built on it. Each walk is
 specified by a machine on token lists (Scan, Seek, EndOf); lemmas say what
 the machine finds in a tree.
 */
module FdtCore {
  import opened Bytes
  import opened FdtFormat
  import opened FdtTree
  import opened FdtBlob

  /** Whether len bytes at an offset lie inside the structure block (fdt_offset_ptr). */
  predicate OffsetPtr(fdt: Blob, off: nat, len: nat)
    reads fdt
  {
    fdt.offStruct + off + len <= fdt.totalsize && off + len <= fdt.sizeStruct
  }

  method NextTag(fdt: Blob, start: nat) returns (tag: nat, next: int)
    requires fdt.Bounds()
    ensures (tag, next) == TagAt(fdt.Block(), start)
  {
    hide Word, Align4;
    ghost var s := fdt.Block();
    var offset := start;
    if !OffsetPtr(fdt, offset, 4) {
      return FDT_END, -ERR_TRUNCATED;
    }
    tag := fdt.Load(offset);
    offset := offset + 4;
    if tag == FDT_BEGIN_NODE {
      while OffsetPtr(fdt, offset, 1) && fdt.buf[fdt.offStruct + offset] != 0
        invariant start + 4 <= offset <= |s|
        invariant FirstNul(s, start + 4) == FirstNul(s, offset)
        decreases |s| - offset
      {
        assert s[offset] == fdt.buf[fdt.offStruct + offset];
        offset := offset + 1;
      }
      if !OffsetPtr(fdt, offset, 1) {
        return FDT_END, -ERR_BADSTRUCTURE;
      }
      assert s[offset] == fdt.buf[fdt.offStruct + offset];
      offset := offset + 1;
    } else if tag == FDT_PROP {
      if !OffsetPtr(fdt, offset, 4) {
        return FDT_END, -ERR_BADSTRUCTURE;
      }
      var len := fdt.Load(offset);
      offset := start + (12 + len) % U32_LIMIT;
    } else if tag != FDT_END && tag != FDT_END_NODE && tag != FDT_NOP {
      return FDT_END, -ERR_BADSTRUCTURE;
    }
    if !OffsetPtr(fdt, start, offset - start) {
      return FDT_END, -ERR_BADSTRUCTURE;
    }
    next := Align4(offset);
  }

  /** Reading the token that is stored at an offset. */
  method NextToken(fdt: Blob, off: nat, ghost ts: Tokens) returns (tag: nat, next: nat)
    requires fdt.At(off, ts) && ts.Cons?
    ensures tag == TagOf(ts.head) && next == off + TokLen(ts.head)
    ensures fdt.At(next, ts.tail)
  {
    hide EncTok, TokLen, Align4, Word;
    var n;
    tag, n := NextTag(fdt, off);
    TagAtToken(fdt.Block(), off, fdt.Tab(), ts.head);
    next := n;
  }

  // ---------------------------------------------------------- next node

  /** Where a search for the next node stops. */
  datatype Stop =
    | AtNode(off: nat, depth: int, ts: Tokens)
    | Out(off: nat)
    | AtEnd

  /** Scan from a token list at an offset; unless track, depth does not matter. */
  function Scan(ts: Tokens, off: nat, track: bool, depth: int): (r: Stop)
    ensures r.AtNode? ==> r.ts.Cons? && r.ts.head.Begin?
    decreases ts
  {
    match ts
    case Nil => AtEnd
    case Cons(End, _) => AtEnd
    case Cons(Begin(_), _) => AtNode(off, depth + 1, ts)
    case Cons(EndNode, rest) =>
      if track && depth - 1 < 0 then Out(off + TokLen(EndNode)) else Scan(rest, off + TokLen(EndNode), track, depth - 1)
    case Cons(t, rest) => Scan(rest, off + TokLen(t), track, depth)
  }

  /**
   fdt_next_node from the node at off, or from the start if off is negative.
   Without track (a null depth) only the end of the block stops the search.
   */
  method NextNode(fdt: Blob, off: int, track: bool, depth0: int, ghost ts: Tokens)
    returns (r: int, depth: int)
    requires fdt.At(if off < 0 then 0 else off, ts) && Complete(ts)
    ensures 0 <= off && !ts.head.Begin? ==> r == -ERR_BADOFFSET && depth == depth0
    ensures off < 0 || ts.head.Begin? ==>
              match (if off < 0 then Scan(ts, 0, track, depth0) else Scan(ts.tail, off + TokLen(ts.head), track, depth0))
              case AtNode(o, d, us) => r == o && depth == d && fdt.At(o, us) && Complete(us)
              case Out(o) => r == o && depth < 0
              case AtEnd => r == -ERR_NOTFOUND
  {
    hide EncTok, TokLen, Align4, Word, EncAt;
    depth := depth0;
    var next := 0;
    ghost var us := ts;
    if off >= 0 {
      var t, n := NextToken(fdt, off, ts);
      if t != FDT_BEGIN_NODE {
        return -ERR_BADOFFSET, depth;
      }
      next := n;
      us := ts.tail;
    }
    ghost var goal := Scan(us, next, track, depth0);
    var offset := next;
    while true
      invariant fdt.At(next, us) && Complete(us)
      invariant Scan(us, next, track, depth) == goal
      decreases us
    {
      offset := next;
      var tag;
      tag, next := NextToken(fdt, offset, us);
      if tag == FDT_BEGIN_NODE {
        return offset, depth + 1;
      } else if tag == FDT_END_NODE {
        depth := depth - 1;
        if track && depth < 0 {
          return next, depth;
        }
      } else if tag == FDT_END {
        return -ERR_NOTFOUND, depth;
      }
      us := us.tail;
    }
  }

  // ------------------------------------------------------- child search

  datatype Option<T> = None | Some(value: T)

  /** Which children a search stops at: any, or those that fdt_nodename_eq_ accepts for a name. */
  datatype Want = Any | Named(s: bytes) {
    predicate Ok(name: bytes) {
      match this
      case Any => true
      case Named(s) => NameEq(name, s)
    }
  }

  /** A name matches itself, and a name without unit address matches any unit address. */
  predicate NameEq(name: bytes, s: bytes) {
    && |s| <= |name| && name[..|s|] == s
    && (name == s || ('@' as int !in s && name[|s|] == '@' as int))
  }

  /** Walking node by node until one of depth 1 that is wanted: its offset, and the tokens there. */
  function Seek(ts: Tokens, off: nat, depth: int, w: Want): Option<(nat, Tokens)>
    decreases ts
  {
    match ts
    case Nil => None
    case Cons(End, _) => None
    case Cons(Begin(n), rest) =>
      if depth + 1 == 1 && w.Ok(n) then Some((off, ts)) else Seek(rest, off + TokLen(ts.head), depth + 1, w)
    case Cons(EndNode, rest) =>
      if depth - 1 < 0 then None else Seek(rest, off + TokLen(EndNode), depth - 1, w)
    case Cons(t, rest) => Seek(rest, off + TokLen(t), depth, w)
  }

  /** Walking node by node until the depth falls below zero: the offset after that END_NODE. */
  function EndOf(ts: Tokens, off: nat, depth: int): Option<nat>
    decreases ts
  {
    match ts
    case Nil => None
    case Cons(End, _) => None
    case Cons(Begin(_), rest) => EndOf(rest, off + TokLen(ts.head), depth + 1)
    case Cons(EndNode, rest) =>
      if depth - 1 < 0 then Some(off + TokLen(EndNode)) else EndOf(rest, off + TokLen(EndNode), depth - 1)
    case Cons(t, rest) => EndOf(rest, off + TokLen(t), depth)
  }

  lemma {:induction false} SeekScan(ts: Tokens, off: nat, depth: int, w: Want)
    ensures Seek(ts, off, depth, w) ==
            match Scan(ts, off, true, depth)
            case AtNode(o, d, us) =>
              if d == 1 && w.Ok(us.head.name) then Some((o, us)) else Seek(us.tail, o + TokLen(us.head), d, w)
            case _ => None
    ensures EndOf(ts, off, depth) ==
            match Scan(ts, off, true, depth)
            case AtNode(o, d, us) => EndOf(us.tail, o + TokLen(us.head), d)
            case Out(o) => Some(o)
            case AtEnd => None
    decreases ts
  {
    hide TokLen;
    match ts
    case Cons(EndNode, rest) => SeekScan(rest, off + TokLen(EndNode), depth - 1, w);
    case Cons(Nop, rest) => SeekScan(rest, off + TokLen(Nop), depth, w);
    case Cons(Prop(n, v), rest) => SeekScan(rest, off + TokLen(Prop(n, v)), depth, w);
    case _ =>
  }

  /** The first wanted node among the items of x. */
  function FindNode(x: Items, w: Want): (r: Option<Pos>)
    ensures r.Some? ==> Has(x, r.value) && Get(x, r.value).NodeItem? && w.Ok(Get(x, r.value).name)
  {
    match x
    case Done => None
    case NodeItem(n, _, rest) =>
      if w.Ok(n) then Some(Here)
      else (match FindNode(rest, w) case None => None case Some(q) => Some(Next(q)))
    case _ => match FindNode(x.rest, w) case None => None case Some(q) => Some(Next(q))
  }

  /** A walk above depth 0 passes over whole items. */
  lemma {:induction false} WalkOver(x: Items, post: Tokens, off: nat, depth: nat, w: Want)
    ensures 1 <= depth ==> Seek(Flat(x, post), off, depth, w) == Seek(post, off + Size(x), depth, w)
    ensures EndOf(Flat(x, post), off, depth) == EndOf(post, off + Size(x), depth)
    decreases x, 1
  {
    hide Seek, EndOf, HeadSize;
    if !x.Done? {
      WalkOverHead(x, post, off, depth, w);
      WalkOver(x.rest, post, off + HeadSize(x), depth, w);
    }
  }

  lemma {:induction false} WalkOverHead(x: Items, post: Tokens, off: nat, depth: nat, w: Want)
    requires !x.Done?
    ensures 1 <= depth || (x.NodeItem? ==> !w.Ok(x.name)) ==>
              Seek(Flat(x, post), off, depth, w) == Seek(Flat(x.rest, post), off + HeadSize(x), depth, w)
    ensures EndOf(Flat(x, post), off, depth) == EndOf(Flat(x.rest, post), off + HeadSize(x), depth)
    decreases x, 0, 1
  {
    hide TokLen, Size, Want.Ok;
    if x.NodeItem? {
      WalkOverNode(x, post, off, depth, w);
    }
  }

  lemma {:induction false} WalkOverNode(x: Items, post: Tokens, off: nat, depth: nat, w: Want)
    requires x.NodeItem?
    ensures 1 <= depth || !w.Ok(x.name) ==>
              Seek(Flat(x, post), off, depth, w) == Seek(Flat(x.rest, post), off + HeadSize(x), depth, w)
    ensures EndOf(Flat(x, post), off, depth) == EndOf(Flat(x.rest, post), off + HeadSize(x), depth)
    decreases x, 0, 0
  {
    hide TokLen, Size, Want.Ok, Seek, EndOf, Flat;
    var after := Flat(x.rest, post);
    var i := off + TokLen(Begin(x.name));
    WalkInto(x, post, off, depth, w);
    WalkOver(x.kids, Cons(EndNode, after), i, depth + 1, w);
    WalkOutOf(after, i + Size(x.kids), depth, w);
  }

  lemma WalkInto(x: Items, post: Tokens, off: nat, depth: nat, w: Want)
    requires x.NodeItem?
    ensures var inside, i := Flat(x.kids, Cons(EndNode, Flat(x.rest, post))), off + TokLen(Begin(x.name));
            && (1 <= depth || !w.Ok(x.name) ==> Seek(Flat(x, post), off, depth, w) == Seek(inside, i, depth + 1, w))
            && EndOf(Flat(x, post), off, depth) == EndOf(inside, i, depth + 1)
  {
    hide TokLen, Want.Ok;
  }

  lemma WalkOutOf(after: Tokens, off: nat, depth: nat, w: Want)
    ensures Seek(Cons(EndNode, after), off, depth + 1, w) == Seek(after, off + TokLen(EndNode), depth, w)
    ensures EndOf(Cons(EndNode, after), off, depth + 1) == EndOf(after, off + TokLen(EndNode), depth)
  {
    hide TokLen;
  }

  /** A walk at depth 0 finds the first wanted child. */
  lemma {:induction false} SeekFinds(x: Items, post: Tokens, off: nat, w: Want)
    ensures match FindNode(x, w)
            case Some(q) => Seek(Flat(x, post), off, 0, w) == Some((off + Off(x, q), Flat(Get(x, q), Post(x, q, post))))
            case None => Seek(Flat(x, post), off, 0, w) == Seek(post, off + Size(x), 0, w)
    decreases x
  {
    hide HeadSize, TokLen, Want.Ok;
    if x.Done? {
    } else if x.NodeItem? && w.Ok(x.name) {
    } else {
      hide Seek, Flat;
      WalkOverHead(x, post, off, 0, w);
      SeekFinds(x.rest, post, off + HeadSize(x), w);
    }
  }

  // ---------------------------------------------------- walks over nodes

  /** fdt_first_subnode: the first node among the children of the node x at off. */
  method FirstSubnode(fdt: Blob, off: nat, ghost x: Items, ghost post: Tokens) returns (r: int)
    requires fdt.At(off, Flat(x, post)) && Complete(post) && Closes(post)
    ensures x.NodeItem? && FindNode(x.kids, Any).Some? ==> r == off + Off(x, Down(FindNode(x.kids, Any).value))
    ensures !(x.NodeItem? && FindNode(x.kids, Any).Some?) ==> r == -ERR_NOTFOUND
  {
    hide EncAt, Scan, Seek, EndOf, TokLen, Size, HeadSize;
    FlatComplete(x, post);
    ghost var ts := Flat(x, post);
    var depth;
    r, depth := NextNode(fdt, off, true, 0, ts);
    if x.NodeItem? {
      ghost var inner := Cons(EndNode, Flat(x.rest, post));
      ghost var i := off + TokLen(Begin(x.name));
      assert ts.tail == Flat(x.kids, inner);
      SeekScan(ts.tail, i, 0, Any);
      SeekFinds(x.kids, inner, i, Any);
      SeekEnds(inner, i + Size(x.kids), Any);
      ScanDepth(ts.tail, i, 0);
    }
    if r < 0 || depth != 1 {
      return -ERR_NOTFOUND;
    }
  }

  lemma {:induction false} ScanDepth(ts: Tokens, off: nat, depth: nat)
    ensures Scan(ts, off, true, depth).AtNode? ==> 1 <= Scan(ts, off, true, depth).depth <= depth + 1
    decreases ts
  {
    hide TokLen;
    match ts
    case Cons(EndNode, rest) => if depth > 0 { ScanDepth(rest, off + TokLen(EndNode), depth - 1); }
    case Cons(Nop, rest) => ScanDepth(rest, off + TokLen(Nop), depth);
    case Cons(Prop(n, v), rest) => ScanDepth(rest, off + TokLen(Prop(n, v)), depth);
    case _ =>
  }

  lemma SeekEnds(ts: Tokens, off: nat, w: Want)
    requires Closes(ts)
    ensures Seek(ts, off, 0, w) == None
  {
  }

  /** From inside a node at depth 1, the walk finds the first wanted sibling after it. */
  lemma SeekSibling(x: Items, post: Tokens, off: nat, w: Want)
    requires x.NodeItem? && Closes(post)
    ensures Flat(x, post).Cons? && Flat(x, post).head == Begin(x.name)
    ensures Seek(Flat(x, post).tail, off + TokLen(Begin(x.name)), 1, w) ==
            match FindNode(x.rest, w)
            case Some(q) => Some((off + Off(x, Next(q)), Flat(Get(x.rest, q), Post(x.rest, q, post))))
            case None => None
  {
    hide Seek, EndOf, TokLen, Size, Want.Ok;
    var after := Flat(x.rest, post);
    var i := off + TokLen(Begin(x.name));
    WalkOver(x.kids, Cons(EndNode, after), i, 1, w);
    WalkOutOf(after, i + Size(x.kids), 0, w);
    SeekFinds(x.rest, post, off + HeadSize(x), w);
    SeekEnds(post, off + HeadSize(x) + Size(x.rest), w);
  }

  /** fdt_next_subnode: the next sibling of the node x at off. */
  method NextSubnode(fdt: Blob, off: nat, ghost x: Items, ghost post: Tokens) returns (r: int)
    requires fdt.At(off, Flat(x, post)) && Complete(post) && Closes(post)
    ensures x.NodeItem? && FindNode(x.rest, Any).Some? ==> r == off + Off(x, Next(FindNode(x.rest, Any).value))
    ensures !(x.NodeItem? && FindNode(x.rest, Any).Some?) ==> r == -ERR_NOTFOUND
  {
    hide EncAt, Seek, EndOf, TokLen, Size, HeadSize, Complete, Off;
    FlatComplete(x, post);
    ghost var ts := Flat(x, post);
    if x.NodeItem? {
      SeekSibling(x, post, off, Any);
    }
    ghost var goal := if x.NodeItem? then Seek(ts.tail, off + TokLen(ts.head), 1, Any) else None;
    var depth := 1;
    r := off;
    hide Scan, Flat;
    while true
      invariant 0 <= r && fdt.At(r, ts) && Complete(ts) && ts.Cons?
      invariant depth >= 1
      invariant ts.head.Begin? == x.NodeItem?
      invariant ts.head.Begin? ==> goal == Seek(ts.tail, r + TokLen(ts.head), depth, Any)
      decreases ts
    {
      ghost var stop := Scan(ts.tail, r + TokLen(ts.head), true, depth);
      if ts.head.Begin? {
        SeekScan(ts.tail, r + TokLen(ts.head), depth, Any);
        ScanDepth(ts.tail, r + TokLen(ts.head), depth);
        ScanShrinks(ts.tail, r + TokLen(ts.head), depth);
      }
      r, depth := NextNode(fdt, r, true, depth, ts);
      if r < 0 || depth < 1 {
        return -ERR_NOTFOUND;
      }
      ts := stop.ts;
      if depth <= 1 {
        return;
      }
    }
  }

  lemma {:induction false} ScanShrinks(ts: Tokens, off: nat, depth: int)
    ensures Scan(ts, off, true, depth).AtNode? ==> Scan(ts, off, true, depth).ts == ts || Scan(ts, off, true, depth).ts < ts
    decreases ts
  {
    hide TokLen;
    match ts
    case Cons(EndNode, rest) => ScanShrinks(rest, off + TokLen(EndNode), depth - 1);
    case Cons(Nop, rest) => ScanShrinks(rest, off + TokLen(Nop), depth);
    case Cons(Prop(n, v), rest) => ScanShrinks(rest, off + TokLen(Prop(n, v)), depth);
    case _ =>
  }

  /** fdt_find_string_: an index at which the string table holds s, if there is one. */
  method FindString(fdt: Blob, s: bytes) returns (r: int)
    requires fdt.Bounds()
    ensures r == -1 || StringAt(fdt.Strings(), r, s)
    ensures r == -1 ==> forall i :: !StringAt(fdt.Strings(), i, s)
  {
    var tab := fdt.buf[fdt.StrStart()..fdt.StrStart() + fdt.sizeStrings];
    assert tab == fdt.Strings();
    var len := |s| + 1;
    r := 0;
    while r <= fdt.sizeStrings - len
      invariant 0 <= r
      invariant forall i :: 0 <= i < r ==> !StringAt(tab, i, s)
      decreases fdt.sizeStrings - r
    {
      if tab[r..r + |s|] == s && tab[r + |s|] == 0 {
        return;
      }
      r := r + 1;
    }
    r := -1;
  }
}
