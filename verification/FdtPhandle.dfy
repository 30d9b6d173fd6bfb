/** fdt_ro.c: phandles, and the searches over all nodes for one. */
module FdtPhandle {
  import opened Bytes
  import opened FdtFormat
  import opened FdtTree
  import opened FdtBlob
  import opened FdtCore
  import opened FdtRo
  import opened FdtWip
  import opened FdtCheck
  import opened FdtWalk

  /** "phandle" */
  const PHANDLE: bytes := [112, 104, 97, 110, 100, 108, 101]
  /** "linux,phandle" */
  const LINUX_PHANDLE: bytes := [108, 105, 110, 117, 120, 44, 112, 104, 97, 110, 100, 108, 101]

  function WordOf(v: Option<bytes>): Option<nat> {
    match v
    case Some(b) => if |b| == 4 then Some(Word(b, 0)) else None
    case None => None
  }

  /** The phandle of a node with these values of its two phandle properties; 0 stands for none. */
  function PhandleOf(a: Option<bytes>, b: Option<bytes>): nat {
    match WordOf(a)
    case Some(v) => v
    case None => match WordOf(b) case Some(v) => v case None => 0
  }

  function Phandle(kids: Items): nat {
    PhandleOf(ValueOf(kids, PHANDLE), ValueOf(kids, LINUX_PHANDLE))
  }

  /** fdt_getprop */
  method GetProp(fdt: Blob, off: nat, name: bytes, ghost x: Items, ghost post: Tokens) returns (v: Option<bytes>)
    requires fdt.magic == FDT_MAGIC && fdt.At(off, Flat(x, post)) && Closes(post) && x.NodeItem?
    ensures v == ValueOf(x.kids, name)
  {
    hide EncAt, EncTok, Flat, TokLen, Word, Closes, Names.Is, FindProp, Blob.Block, Blob.Tab, Blob.Strings;
    var poff, len := GetProperty(fdt, off, name, x, post);
    if poff < 0 {
      return None;
    }
    ghost var q := FindProp(x.kids, name).value;
    ValueAt(fdt.Block(), off, fdt.Tab(), x, q, post);
    v := Some(Chars(fdt, poff + 12, len));
  }

  lemma ValueAt(s: bytes, off: nat, ns: Names, x: Items, q: Pos, post: Tokens)
    requires x.NodeItem? && Has(x.kids, q) && EncAt(s, off, ns, Flat(x, post)) && Get(x.kids, q).PropItem?
    ensures var o, v := off + Off(x, Down(q)), Get(x.kids, q).value;
            o + 12 + |v| <= |s| && s[o + 12..o + 12 + |v|] == v
  {
    hide EncAt, Flat, TokLen, Word, Names.Is, Off, Post, Align4;
    var y := Get(x.kids, q);
    EncGet(s, off, ns, x, Down(q), post);
    var o := off + Off(x, Down(q));
    PropTokens(s, o, ns, y, Post(x, Down(q), post));
    TokLenFields(Prop(y.name, y.value));
  }

  /** fdt_getprop, for a value of one cell. */
  method GetCell(fdt: Blob, off: nat, name: bytes, ghost x: Items, ghost post: Tokens) returns (v: Option<nat>)
    requires fdt.magic == FDT_MAGIC && fdt.At(off, Flat(x, post)) && Closes(post) && x.NodeItem?
    ensures v == WordOf(ValueOf(x.kids, name))
  {
    hide EncAt, Flat, Closes, ValueOf, Word, Blob.Block, Blob.Tab;
    var val := GetProp(fdt, off, name, x, post);
    v := if val.None? || |val.value| != 4 then None else Some(Word(val.value, 0));
  }

  /** A value that is one cell. */
  predicate IsCell(v: Option<bytes>) {
    v.Some? && |v.value| == 4
  }

  /** The phandle of a node is its phandle property, or else its linux,phandle property, or else there is none. */
  lemma PhandleMeans(kids: Items)
    ensures var a, b := ValueOf(kids, PHANDLE), ValueOf(kids, LINUX_PHANDLE);
            Phandle(kids) == if IsCell(a) then Word(a.value, 0) else if IsCell(b) then Word(b.value, 0) else 0
  {
    hide ValueOf, Word;
  }

  /** fdt_get_phandle */
  method GetPhandle(fdt: Blob, off: nat, ghost x: Items, ghost post: Tokens) returns (r: nat)
    requires fdt.magic == FDT_MAGIC && fdt.At(off, Flat(x, post)) && Closes(post) && x.NodeItem?
    ensures r == Phandle(x.kids)
    ensures var a, b := ValueOf(x.kids, PHANDLE), ValueOf(x.kids, LINUX_PHANDLE);
            r == if IsCell(a) then Word(a.value, 0) else if IsCell(b) then Word(b.value, 0) else 0
  {
    hide EncAt, Flat, Closes, ValueOf;
    var v := GetCell(fdt, off, PHANDLE, x, post);
    if v.None? {
      v := GetCell(fdt, off, LINUX_PHANDLE, x, post);
      if v.None? {
        return 0;
      }
    }
    r := v.value;
  }

  function Max(a: nat, b: nat): nat {
    if a < b then b else a
  }

  /** The largest phandle among and inside the items of x. */
  function MaxPhandle(x: Items): nat {
    match x
    case Done => 0
    case NodeItem(_, kids, rest) => Max(Phandle(kids), Max(MaxPhandle(kids), MaxPhandle(rest)))
    case _ => MaxPhandle(x.rest)
  }

  /** No node has a larger one, and unless it is 0 some node has it. */
  lemma {:induction false} MaxPhandleBounds(x: Items, p: Pos)
    requires Has(x, p) && Get(x, p).NodeItem?
    ensures Phandle(Get(x, p).kids) <= MaxPhandle(x)
    decreases p
  {
    hide Phandle;
    match p
    case Here =>
    case Next(q) => MaxPhandleBounds(x.rest, q);
    case Down(q) => MaxPhandleBounds(x.kids, q);
  }

  lemma {:induction false} MaxPhandleTaken(x: Items) returns (p: Pos)
    requires MaxPhandle(x) > 0
    ensures Has(x, p) && Get(x, p).NodeItem? && Phandle(Get(x, p).kids) == MaxPhandle(x)
    decreases x
  {
    hide Phandle;
    var m := MaxPhandle(x);
    var q;
    if x.NodeItem? && Phandle(x.kids) == m {
      p := Here;
    } else if x.NodeItem? && MaxPhandle(x.kids) == m {
      q := MaxPhandleTaken(x.kids);
      p := Down(q);
    } else {
      q := MaxPhandleTaken(x.rest);
      p := Next(q);
    }
  }

  /** The place of the first node in preorder that has a phandle. */
  function FirstWith(x: Items, ph: nat): (r: Option<Pos>)
    ensures r.Some? ==> Has(x, r.value) && Get(x, r.value).NodeItem? && Phandle(Get(x, r.value).kids) == ph
  {
    match x
    case Done => None
    case NodeItem(_, kids, rest) =>
      if Phandle(kids) == ph then Some(Here)
      else (match FirstWith(kids, ph)
            case Some(q) => Some(Down(q))
            case None => match FirstWith(rest, ph) case Some(q) => Some(Next(q)) case None => None)
    case _ => match FirstWith(x.rest, ph) case Some(q) => Some(Next(q)) case None => None
  }

  /** q comes before p in preorder. */
  predicate Earlier(q: Pos, p: Pos) {
    match q
    case Here => !p.Here?
    case Down(a) => p.Next? || (p.Down? && Earlier(a, p.p))
    case Next(a) => p.Next? && Earlier(a, p.p)
  }

  lemma {:induction false} EarlierTotal(p: Pos, q: Pos)
    requires p != q
    ensures Earlier(p, q) || Earlier(q, p)
    decreases p
  {
    if (p.Down? && q.Down?) || (p.Next? && q.Next?) {
      EarlierTotal(p.p, q.p);
    }
  }

  /** p is the first node in preorder that has a phandle. */
  ghost predicate FirstNode(x: Items, ph: nat, p: Pos) {
    && Has(x, p) && Get(x, p).NodeItem? && Phandle(Get(x, p).kids) == ph
    && forall q :: Has(x, q) && Get(x, q).NodeItem? && Earlier(q, p) ==> Phandle(Get(x, q).kids) != ph
  }

  lemma {:induction false} FirstWithIsFirst(x: Items, ph: nat)
    requires FirstWith(x, ph).Some?
    ensures FirstNode(x, ph, FirstWith(x, ph).value)
  {
    hide Phandle;
    var p := FirstWith(x, ph).value;
    forall q | Has(x, q) && Get(x, q).NodeItem? && Earlier(q, p)
      ensures Phandle(Get(x, q).kids) != ph
    {
      NoneEarlier(x, ph, q);
    }
  }

  lemma {:induction false} NoneEarlier(x: Items, ph: nat, q: Pos)
    requires FirstWith(x, ph).Some? && Has(x, q) && Get(x, q).NodeItem? && Earlier(q, FirstWith(x, ph).value)
    ensures Phandle(Get(x, q).kids) != ph
    decreases q
  {
    hide Phandle;
    match q
    case Here =>
    case Next(a) => NoneEarlier(x.rest, ph, a);
    case Down(a) =>
      if FirstWith(x.kids, ph).Some? {
        NoneEarlier(x.kids, ph, a);
      } else {
        NoneWith(x.kids, ph, a);
      }
  }

  /** There is at most one such node, and the search finds it if there is. */
  lemma FirstWithExactly(x: Items, ph: nat, p: Pos)
    ensures FirstWith(x, ph) == Some(p) <==> FirstNode(x, ph, p)
  {
    hide Phandle, Earlier, Has, Get;
    if FirstNode(x, ph, p) {
      if FirstWith(x, ph).None? {
        NoneWith(x, ph, p);
      } else {
        FirstWithIsFirst(x, ph);
        if FirstWith(x, ph).value != p {
          EarlierTotal(FirstWith(x, ph).value, p);
        }
      }
    } else if FirstWith(x, ph) == Some(p) {
      FirstWithIsFirst(x, ph);
    }
  }

  /** If there is none, no node has it. */
  lemma {:induction false} NoneWith(x: Items, ph: nat, p: Pos)
    requires FirstWith(x, ph).None? && Has(x, p) && Get(x, p).NodeItem?
    ensures Phandle(Get(x, p).kids) != ph
    decreases p
  {
    hide Phandle;
    match p
    case Here =>
    case Next(q) => NoneWith(x.rest, ph, q);
    case Down(q) => NoneWith(x.kids, ph, q);
  }

  // ------------------------------------------------- over token lists

  function ValueT(ts: Tokens, name: bytes): Option<bytes> {
    match ts
    case Cons(Prop(n, v), rest) => if n == name then Some(v) else ValueT(rest, name)
    case Cons(Nop, rest) => ValueT(rest, name)
    case _ => None
  }

  function PhandleT(ts: Tokens): nat {
    PhandleOf(ValueT(ts, PHANDLE), ValueT(ts, LINUX_PHANDLE))
  }

  lemma {:induction false} ValueTokens(x: Items, post: Tokens, name: bytes)
    requires Closes(post)
    ensures ValueT(Flat(x, post), name) == ValueOf(x, name)
  {
    if x.PropItem? || x.NopItem? {
      ValueTokens(x.rest, post, name);
    }
  }

  lemma PhandleTokens(x: Items, post: Tokens)
    requires Closes(post)
    ensures PhandleT(Flat(x, post)) == Phandle(x)
  {
    hide ValueOf, ValueT, WordOf;
    ValueTokens(x, post, PHANDLE);
    ValueTokens(x, post, LINUX_PHANDLE);
  }

  /** The largest phandle that repeated calls of fdt_next_node without a depth come across. */
  function MaxT(ts: Tokens): nat {
    match ts
    case Nil => 0
    case Cons(End, _) => 0
    case Cons(Begin(_), rest) => Max(PhandleT(rest), MaxT(rest))
    case Cons(_, rest) => MaxT(rest)
  }

  lemma {:induction false} MaxScan(ts: Tokens, off: nat, depth: int)
    ensures MaxT(ts) ==
            match Scan(ts, off, false, depth)
            case AtNode(_, _, us) => Max(PhandleT(us.tail), MaxT(us.tail))
            case _ => 0
    decreases ts
  {
    hide TokLen, PhandleT;
    match ts
    case Cons(EndNode, rest) => MaxScan(rest, off + TokLen(EndNode), depth - 1);
    case Cons(Nop, rest) => MaxScan(rest, off + TokLen(Nop), depth);
    case Cons(Prop(n, v), rest) => MaxScan(rest, off + TokLen(Prop(n, v)), depth);
    case _ =>
  }

  lemma {:induction false} MaxTree(x: Items, post: Tokens)
    requires Closes(post)
    ensures MaxT(Flat(x, post)) == Max(MaxPhandle(x), MaxT(post))
    decreases x
  {
    hide PhandleT, Phandle;
    match x
    case Done =>
    case NodeItem(_, kids, rest) =>
      MaxTree(kids, Cons(EndNode, Flat(rest, post)));
      MaxTree(rest, post);
      PhandleTokens(kids, Cons(EndNode, Flat(rest, post)));
    case _ => MaxTree(x.rest, post);
  }

  /** The offset of the first node with a phandle that those calls come across. */
  function FirstT(ts: Tokens, off: nat, ph: nat): Option<nat> {
    match ts
    case Nil => None
    case Cons(End, _) => None
    case Cons(Begin(_), rest) => if PhandleT(rest) == ph then Some(off) else FirstT(rest, off + TokLen(ts.head), ph)
    case Cons(t, rest) => FirstT(rest, off + TokLen(t), ph)
  }

  lemma {:induction false} FirstScan(ts: Tokens, off: nat, depth: int, ph: nat)
    ensures FirstT(ts, off, ph) ==
            match Scan(ts, off, false, depth)
            case AtNode(o, _, us) => if PhandleT(us.tail) == ph then Some(o) else FirstT(us.tail, o + TokLen(us.head), ph)
            case _ => None
    decreases ts
  {
    hide TokLen, PhandleT;
    match ts
    case Cons(EndNode, rest) => FirstScan(rest, off + TokLen(EndNode), depth - 1, ph);
    case Cons(Nop, rest) => FirstScan(rest, off + TokLen(Nop), depth, ph);
    case Cons(Prop(n, v), rest) => FirstScan(rest, off + TokLen(Prop(n, v)), depth, ph);
    case _ =>
  }

  lemma {:induction false} FirstTree(x: Items, post: Tokens, off: nat, ph: nat)
    requires Closes(post)
    ensures FirstT(Flat(x, post), off, ph) ==
            match FirstWith(x, ph)
            case Some(q) => Some(off + Off(x, q))
            case None => FirstT(post, off + Size(x), ph)
    decreases x
  {
    hide PhandleT, Phandle, TokLen, HeadSize, FirstT;
    match x
    case Done =>
    case NodeItem(n, kids, rest) =>
      hide Flat, Size;
      FirstInto(x, post, off, ph);
      if Phandle(kids) != ph {
        var i := off + TokLen(Begin(n));
        FirstTree(kids, Cons(EndNode, Flat(rest, post)), i, ph);
        if FirstWith(kids, ph).None? {
          FirstTree(rest, post, off + HeadSize(x), ph);
          FirstOutOf(Flat(rest, post), i + Size(kids), ph);
          NodeSizes(x);
        }
      }
    case _ =>
      FirstTree(x.rest, post, off + HeadSize(x), ph);
      FirstOther(x, post, off, ph);
  }

  lemma FirstInto(x: Items, post: Tokens, off: nat, ph: nat)
    requires x.NodeItem? && Closes(post)
    ensures FirstT(Flat(x, post), off, ph) ==
            if Phandle(x.kids) == ph then Some(off)
            else FirstT(Flat(x.kids, Cons(EndNode, Flat(x.rest, post))), off + TokLen(Begin(x.name)), ph)
  {
    hide PhandleT, Phandle, TokLen;
    PhandleTokens(x.kids, Cons(EndNode, Flat(x.rest, post)));
  }

  lemma FirstOutOf(after: Tokens, off: nat, ph: nat)
    ensures FirstT(Cons(EndNode, after), off, ph) == FirstT(after, off + TokLen(EndNode), ph)
  {
    hide PhandleT, TokLen;
  }

  lemma FirstOther(x: Items, post: Tokens, off: nat, ph: nat)
    requires x.PropItem? || x.NopItem?
    ensures FirstT(Flat(x, post), off, ph) == FirstT(Flat(x.rest, post), off + HeadSize(x), ph)
  {
    hide PhandleT, TokLen;
  }

  // ------------------------------------------------------------ searches

  lemma {:induction false} ScanBalanced(ts: Tokens, off: nat, depth: int, level: nat) returns (l: nat)
    requires Balanced(ts, level)
    ensures var r := Scan(ts, off, false, depth);
            !r.Out? && (r.AtNode? ==> Balanced(r.ts, l) && (r.ts == ts || r.ts < ts))
    decreases ts
  {
    hide TokLen;
    l := level;
    match ts
    case Cons(EndNode, rest) => l := ScanBalanced(rest, off + TokLen(EndNode), depth - 1, level - 1);
    case Cons(Nop, rest) => l := ScanBalanced(rest, off + TokLen(Nop), depth, level);
    case Cons(Prop(n, v), rest) => l := ScanBalanced(rest, off + TokLen(Prop(n, v)), depth, level);
    case _ =>
  }

  /** The phandle of the node at which a walk has arrived. */
  method PhandleHere(fdt: Blob, off: nat, ghost ts: Tokens, ghost level: nat) returns (r: nat)
    requires fdt.magic == FDT_MAGIC && fdt.At(off, ts) && ts.Cons? && ts.head.Begin? && Balanced(ts, level)
    ensures r == PhandleT(ts.tail)
  {
    hide EncAt, PhandleT, Phandle;
    ghost var x, post := BalancedHasTree(ts, level);
    r := GetPhandle(fdt, off, x, post);
    PhandleTokens(x.kids, Cons(EndNode, Flat(x.rest, post)));
  }

  /** fdt_find_max_phandle */
  method FindMaxPhandle(fdt: Blob) returns (r: int, max: nat)
    requires fdt.ValidTree()
    ensures r == 0 && max == MaxPhandle(fdt.tree)
  {
    hide EncAt, TokLen, Scan, MaxT, MaxPhandle, PhandleT, Balanced, Blob.Block, Blob.Tab, Flat;
    ghost var ts := Flat(fdt.tree, LAST);
    FlatComplete(fdt.tree, LAST);
    LastBalanced();
    TreeIsBalanced(fdt.tree, LAST, 0);
    MaxTree(fdt.tree, LAST);
    LastMax();
    ghost var level := ScanBalanced(ts, 0, 0, 0);
    ghost var stop := Scan(ts, 0, false, 0);
    MaxScan(ts, 0, 0);
    max := 0;
    var offset, d := NextNode(fdt, -1, false, 0, ts);
    while 0 <= offset
      invariant stop.AtNode? <==> 0 <= offset
      invariant offset < 0 ==> offset == -ERR_NOTFOUND && max == MaxPhandle(fdt.tree)
      invariant 0 <= offset ==>
                  && stop.ts.Cons? && stop.ts.head.Begin?
                  && fdt.At(offset, stop.ts) && Complete(stop.ts) && Balanced(stop.ts, level)
                  && MaxPhandle(fdt.tree) == Max(max, Max(PhandleT(stop.ts.tail), MaxT(stop.ts.tail)))
      decreases 0 <= offset, if stop.AtNode? then stop.ts else Nil
    {
      var value := PhandleHere(fdt, offset, stop.ts, level);
      if value > max {
        max := value;
      }
      ts := stop.ts;
      InsideBalanced(ts, level);
      MaxScan(ts.tail, offset + TokLen(ts.head), 0);
      stop := Scan(ts.tail, offset + TokLen(ts.head), false, 0);
      level := ScanBalanced(ts.tail, offset + TokLen(ts.head), 0, level + 1);
      offset, d := NextNode(fdt, offset, false, 0, ts);
    }
    r := 0;
  }

  lemma LastBalanced()
    ensures Balanced(LAST, 0) && Closes(LAST) && Complete(LAST)
  {
  }

  lemma LastMax()
    ensures MaxT(LAST) == 0
  {
  }

  lemma InsideBalanced(ts: Tokens, level: nat)
    requires ts.Cons? && ts.head.Begin? && Balanced(ts, level)
    ensures Balanced(ts.tail, level + 1)
  {
  }

  /** fdt_node_offset_by_phandle */
  method NodeOffsetByPhandle(fdt: Blob, ph: nat) returns (r: int)
    requires fdt.ValidTree()
    ensures ph == 0 || ph == U32_LIMIT - 1 ==> r == -ERR_BADPHANDLE
    ensures ph != 0 && ph != U32_LIMIT - 1 ==>
              match FirstWith(fdt.tree, ph)
              case Some(p) => r == Off(fdt.tree, p)
              case None => r == -ERR_NOTFOUND
  {
    hide EncAt, TokLen, Scan, FirstT, FirstWith, PhandleT, Balanced, Blob.Block, Blob.Tab, Flat, Off;
    if ph == 0 || ph == U32_LIMIT - 1 {
      return -ERR_BADPHANDLE;
    }
    ghost var ts := Flat(fdt.tree, LAST);
    FlatComplete(fdt.tree, LAST);
    LastBalanced();
    TreeIsBalanced(fdt.tree, LAST, 0);
    FirstTree(fdt.tree, LAST, 0, ph);
    LastFirst(Size(fdt.tree), ph);
    ghost var goal := FirstT(ts, 0, ph);
    ghost var level := ScanBalanced(ts, 0, 0, 0);
    ghost var stop := Scan(ts, 0, false, 0);
    FirstScan(ts, 0, 0, ph);
    var d;
    r, d := NextNode(fdt, -1, false, 0, ts);
    while 0 <= r
      invariant stop.AtNode? <==> 0 <= r
      invariant r < 0 ==> r == -ERR_NOTFOUND && goal == None
      invariant 0 <= r ==>
                  && stop.ts.Cons? && stop.ts.head.Begin?
                  && fdt.At(r, stop.ts) && Complete(stop.ts) && Balanced(stop.ts, level)
                  && goal == if PhandleT(stop.ts.tail) == ph then Some(r as nat) else FirstT(stop.ts.tail, r + TokLen(stop.ts.head), ph)
      decreases 0 <= r, if stop.AtNode? then stop.ts else Nil
    {
      var value := PhandleHere(fdt, r, stop.ts, level);
      if value == ph {
        return;
      }
      ts := stop.ts;
      InsideBalanced(ts, level);
      FirstScan(ts.tail, r + TokLen(ts.head), 0, ph);
      stop := Scan(ts.tail, r + TokLen(ts.head), false, 0);
      level := ScanBalanced(ts.tail, r + TokLen(ts.head), 0, level + 1);
      r, d := NextNode(fdt, r, false, 0, ts);
    }
  }

  lemma LastFirst(off: nat, ph: nat)
    ensures FirstT(LAST, off, ph) == None
  {
  }
}
