/** fdt_wip.c: changes that move nothing. */
module FdtWip {
  import opened Bytes
  import opened FdtFormat
  import opened FdtTree
  import opened FdtBlob
  import opened FdtCore
  import opened FdtRo

  /** fdt_node_end_offset_: the offset after the END_NODE that closes the node x at off. */
  method NodeEndOffset(fdt: Blob, off: nat, ghost x: Items, ghost post: Tokens) returns (r: int)
    requires fdt.At(off, Flat(x, post)) && Complete(post) && Closes(post)
    ensures x.NodeItem? ==> r == off + HeadSize(x)
    ensures !x.NodeItem? ==> r == -ERR_BADOFFSET
  {
    hide EncAt, Seek, EndOf, TokLen, Size, HeadSize, Complete, Off, Closes, Flat;
    FlatComplete(x, post);
    ClosesFacts(x, post);
    ghost var ts := Flat(x, post);
    if x.NodeItem? {
      NodeEnds(x, post, off);
    }
    var depth := 0;
    r := off;
    hide Scan;
    while 0 <= r && 0 <= depth
      invariant ts.Cons? && ts.head.Begin? == x.NodeItem?
      invariant 0 <= r && 0 <= depth ==> fdt.At(r, ts) && Complete(ts)
      invariant x.NodeItem? ==> 0 <= r
      invariant x.NodeItem? ==> if depth < 0 then r == off + HeadSize(x)
                                else EndOf(ts.tail, r + TokLen(ts.head), depth) == Some(off + HeadSize(x))
      invariant !x.NodeItem? ==> depth == 0 && (r == -ERR_BADOFFSET || (r == off && ts == Flat(x, post)))
      decreases 0 <= r && 0 <= depth, ts
    {
      ghost var stop := Scan(ts.tail, r + TokLen(ts.head), true, depth);
      if x.NodeItem? {
        SeekScan(ts.tail, r + TokLen(ts.head), depth, Any);
        ScanDepth(ts.tail, r + TokLen(ts.head), depth);
        ScanShrinks(ts.tail, r + TokLen(ts.head), depth);
      }
      r, depth := NextNode(fdt, r, true, depth, ts);
      if x.NodeItem? && stop.AtNode? {
        ts := stop.ts;
      }
    }
  }

  lemma NodeEnds(x: Items, post: Tokens, off: nat)
    requires x.NodeItem?
    ensures EndOf(Flat(x, post).tail, off + TokLen(Begin(x.name)), 0) == Some(off + HeadSize(x))
  {
    hide TokLen, Size;
    WalkOver(x.kids, Cons(EndNode, Flat(x.rest, post)), off + TokLen(Begin(x.name)), 0, Any);
  }

  // ------------------------------------------------------------ blanking

  /** k NOPs in front of x. */
  function Nops(k: nat, x: Items): Items {
    if k == 0 then x else NopItem(Nops(k - 1, x))
  }

  /** NOP words from off to the place where x is stored are that many NOP items. */
  lemma {:induction false} NopsEnc(s: bytes, off: nat, ns: Names, k: nat, x: Items, post: Tokens)
    requires off % 4 == 0 && off + 4 * k <= |s|
    requires forall i :: 0 <= i < k ==> Word(s, off + 4 * i) == FDT_NOP
    requires EncAt(s, off + 4 * k, ns, Flat(x, post))
    ensures EncAt(s, off, ns, Flat(Nops(k, x), post))
    decreases k
  {
    hide Word, EncAt;
    if k > 0 {
      assert Word(s, off + 4 * 0) == FDT_NOP;
      forall i | 0 <= i < k - 1
        ensures Word(s, off + 4 + 4 * i) == FDT_NOP
      {
        assert Word(s, off + 4 * (i + 1)) == FDT_NOP;
      }
      NopsEnc(s, off + 4, ns, k - 1, x, post);
      EncCons(s, off, ns, Nop, Flat(Nops(k - 1, x), post));
    }
  }

  /** fdt_nop_region_: NOP words over the len bytes from off, rounded up to a word. */
  method NopRegion(fdt: Blob, off: nat, len: nat)
    requires fdt.Bounds() && off + Align4(len) <= fdt.sizeStruct
    requires fdt.offStruct + fdt.sizeStruct <= fdt.StrStart()
    modifies fdt.buf
    ensures fdt.Tab() == old(fdt.Tab()) && fdt.Front() == old(fdt.Front())
    ensures fdt.Block()[..off] == old(fdt.Block()[..off])
    ensures fdt.Block()[off + Align4(len)..] == old(fdt.Block()[off + Align4(len)..])
    ensures forall i :: 0 <= i < Align4(len) / 4 ==> Word(fdt.Block(), off + 4 * i) == FDT_NOP
  {
    hide Word, Word32, Patch, Align4, Blob.Front;
    ghost var was := fdt.Block();
    Align4Mult(len);
    ghost var n := Align4(len);
    var p := off;
    ghost var k := 0;
    while p < off + len
      invariant p == off + 4 * k && p <= off + n
      invariant fdt.Tab() == old(fdt.Tab()) && fdt.Front() == old(fdt.Front())
      invariant fdt.Block()[..off] == was[..off]
      invariant fdt.Block()[off + n..] == was[off + n..]
      invariant forall i :: 0 <= i < k ==> Word(fdt.Block(), off + 4 * i) == FDT_NOP
      decreases off + len - p
    {
      ghost var before := fdt.Block();
      WriteBlock(fdt, p, Word32(FDT_NOP));
      NopStep(before, fdt.Block(), off, n, k);
      p := p + 4;
      k := k + 1;
    }
  }

  lemma NopStep(b: bytes, c: bytes, off: nat, n: nat, k: nat)
    requires off + n <= |b| && 4 * k + 4 <= n && c == Patch(b, off + 4 * k, Word32(FDT_NOP))
    ensures c[..off] == b[..off] && c[off + n..] == b[off + n..]
    ensures Word(c, off + 4 * k) == FDT_NOP
    ensures forall i :: 0 <= i < k ==> Word(c, off + 4 * i) == Word(b, off + 4 * i)
  {
    hide Word, Word32;
    WordPatched(b, off + 4 * k, FDT_NOP);
    forall i | 0 <= i < k
      ensures Word(c, off + 4 * i) == Word(b, off + 4 * i)
    {
      WordPatch(b, off + 4 * k, Word32(FDT_NOP), off + 4 * i);
    }
  }

  /** Blanking the first item at p: the block keeps its size and every other token. */
  lemma BlankAt(s: bytes, s': bytes, ns: Names, tree: Items, p: Pos)
    requires Has(tree, p) && !Get(tree, p).Done? && EncAt(s, 0, ns, Flat(tree, LAST))
    requires var o, n := Off(tree, p), HeadSize(Get(tree, p));
             && o + n <= |s| && |s'| == |s| && s'[..o] == s[..o] && s'[o + n..] == s[o + n..]
             && forall i :: 0 <= i < n / 4 ==> Word(s', o + 4 * i) == FDT_NOP
    ensures EncAt(s', 0, ns, Flat(Put(tree, p, Blanked(Get(tree, p))), LAST))
  {
    hide Word, EncAt, Flat, Off, Get, Post, HeadSize, Put;
    var x, o, n, post := Get(tree, p), Off(tree, p), HeadSize(Get(tree, p)), Post(tree, p, LAST);
    EncGet(s, 0, ns, tree, p, LAST);
    EncSkipHead(s, o, ns, x, post);
    EncAligned(s, o, ns, x, post);
    HeadSizeAligned(x);
    EncCopy(s, o + n, ns, Flat(x.rest, post), s', o + n, ns);
    NopsEnc(s', o, ns, n / 4, x.rest, post);
    CommitEdit(s, ns, s', ns, tree, p, Blanked(x));
  }

  function Blanked(x: Items): Items
    requires !x.Done?
  {
    Nops(HeadSize(x) / 4, x.rest)
  }

  lemma EncAligned(s: bytes, off: nat, ns: Names, x: Items, post: Tokens)
    requires EncAt(s, off, ns, Flat(x, post)) && !x.Done?
    ensures off % 4 == 0
  {
  }

  lemma {:induction false} HeadSizeAligned(x: Items)
    requires !x.Done?
    ensures HeadSize(x) % 4 == 0
    decreases x, 0
  {
    hide TokLen, Size;
    match x
    case NopItem(_) => TokLenAligned(Nop);
    case PropItem(n, v, _) => TokLenAligned(Prop(n, v));
    case NodeItem(n, k, _) =>
      TokLenAligned(Begin(n));
      TokLenAligned(EndNode);
      SizeAligned(k);
  }

  lemma {:induction false} SizeAligned(x: Items)
    ensures Size(x) % 4 == 0
    decreases x, 1
  {
    hide HeadSize;
    if !x.Done? {
      HeadSizeAligned(x);
      SizeAligned(x.rest);
    }
  }

  /** Blanking len bytes, which rounded up are the first item at p. */
  method BlankItem(fdt: Blob, off: nat, len: nat, ghost p: Pos)
    requires fdt.ValidTree() && Has(fdt.tree, p) && !Get(fdt.tree, p).Done?
    requires off == Off(fdt.tree, p) && Align4(len) == HeadSize(Get(fdt.tree, p))
    modifies fdt.buf, fdt`tree
    ensures fdt.Front() == old(fdt.Front())
    ensures fdt.ValidTree()
    ensures fdt.tree == old(Put(fdt.tree, p, Blanked(Get(fdt.tree, p))))
  {
    hide Word, EncAt, EncTok, Flat, Off, Get, Post, HeadSize, Put, TokLen, Size, Align4, Blanked, Blob.Front;
    ghost var tree, ns, was := fdt.tree, fdt.Tab(), fdt.Block();
    ItemInside(was, ns, tree, p);
    NopRegion(fdt, off, len);
    BlankAt(was, fdt.Block(), ns, tree, p);
    fdt.tree := Put(tree, p, Blanked(Get(tree, p)));
  }

  lemma ItemInside(s: bytes, ns: Names, tree: Items, p: Pos)
    requires Has(tree, p) && !Get(tree, p).Done? && EncAt(s, 0, ns, Flat(tree, LAST))
    ensures Off(tree, p) + HeadSize(Get(tree, p)) <= |s|
  {
    hide *;
    var x, o, post := Get(tree, p), Off(tree, p), Post(tree, p, LAST);
    EncGet(s, 0, ns, tree, p, LAST);
    EncSkipHead(s, o, ns, x, post);
    EncLen(s, o + HeadSize(x), ns, Flat(x.rest, post));
  }

  /** fdt_nop_node: blank the node at p. */
  method NopNode(fdt: Blob, off: nat, ghost p: Pos) returns (r: int)
    requires fdt.ValidTree() && Has(fdt.tree, p) && off == Off(fdt.tree, p)
    modifies fdt.buf, fdt`tree
    ensures fdt.Front() == old(fdt.Front())
    ensures fdt.ValidTree()
    ensures var x := old(Get(fdt.tree, p));
            if x.NodeItem? then r == 0 && fdt.tree == Put(old(fdt.tree), p, Blanked(x))
            else r == -ERR_BADOFFSET && fdt.tree == old(fdt.tree)
  {
    hide Word, EncAt, EncTok, Flat, Off, Get, Post, HeadSize, Put, TokLen, Size, Align4, Blanked, Complete,
         Closes, Blob.Front;
    ghost var x := Get(fdt.tree, p);
    PlaceAt(fdt, p);
    LastCloses(fdt.tree, p);
    var endoffset := NodeEndOffset(fdt, off, x, Post(fdt.tree, p, LAST));
    if endoffset < 0 {
      return endoffset;
    }
    HeadSizeAligned(x);
    Align4Same(endoffset - off);
    BlankItem(fdt, off, endoffset - off, p);
    r := 0;
  }

  lemma Align4Same(n: nat)
    requires n % 4 == 0
    ensures Align4(n) == n
  {
    Align4Add(n, 0);
  }

  lemma LastCloses(x: Items, p: Pos)
    requires Has(x, p)
    ensures Complete(Post(x, p, LAST)) && Closes(Post(x, p, LAST))
  {
    PostCloses(x, p, LAST);
  }

  /** fdt_nop_property: blank the first property of a name in the node at p. */
  method NopProperty(fdt: Blob, off: nat, name: bytes, ghost p: Pos) returns (r: int)
    requires fdt.ValidTree() && Has(fdt.tree, p) && off == Off(fdt.tree, p)
    modifies fdt.buf, fdt`tree
    ensures fdt.Front() == old(fdt.Front())
    ensures fdt.ValidTree()
    ensures var x := old(Get(fdt.tree, p));
            if !x.NodeItem? then r == -ERR_BADOFFSET && fdt.tree == old(fdt.tree)
            else
              match FindProp(x.kids, name)
              case None => r == -ERR_NOTFOUND && fdt.tree == old(fdt.tree)
              case Some(q) => r == 0 && fdt.tree == Put(old(fdt.tree), p, x.(kids := Put(x.kids, q, Blanked(Get(x.kids, q)))))
  {
    hide Word, EncAt, EncTok, Flat, Off, Post, HeadSize, TokLen, Size, Blanked, Complete, Closes, Blob.Front;
    ghost var x := Get(fdt.tree, p);
    PlaceAt(fdt, p);
    LastCloses(fdt.tree, p);
    var poff, len := GetProperty(fdt, off, name, x, Post(fdt.tree, p, LAST));
    if poff < 0 {
      return poff;
    }
    ghost var q := FindProp(x.kids, name).value;
    PropPlace(fdt.tree, p, q, len);
    BlankItem(fdt, poff, len + 12, Then(p, Down(q)));
    r := 0;
  }

  /** The place of a property found inside the node at p. */
  lemma PropPlace(tree: Items, p: Pos, q: Pos, len: nat)
    requires Has(tree, p) && Get(tree, p).NodeItem? && Has(Get(tree, p).kids, q)
    requires Get(Get(tree, p).kids, q).PropItem? && len == |Get(Get(tree, p).kids, q).value|
    ensures var x, pq := Get(tree, p), Then(p, Down(q));
            && Has(tree, pq) && Get(tree, pq) == Get(x.kids, q)
            && Off(tree, pq) == Off(tree, p) + Off(x, Down(q))
            && Align4(len + 12) == HeadSize(Get(tree, pq))
            && forall y :: Put(tree, pq, y) == Put(tree, p, x.(kids := Put(x.kids, q, y)))
  {
    hide Off, Post, Align4;
    ThenAt(tree, p, Down(q), LAST);
    Align4Add(12, len);
  }

  // ------------------------------------------------------ in-place values

  /** Overwriting bytes of a value in place changes that property's value and nothing else. */
  lemma ValueAt(s: bytes, s': bytes, ns: Names, tree: Items, p: Pos, idx: nat, val: bytes)
    requires Has(tree, p) && Get(tree, p).PropItem? && EncAt(s, 0, ns, Flat(tree, LAST))
    requires idx + |val| <= |Get(tree, p).value|
    requires Off(tree, p) + HeadSize(Get(tree, p)) <= |s|
    requires s' == Patch(s, Off(tree, p) + 12 + idx, val)
    ensures EncAt(s', 0, ns, Flat(Put(tree, p, Get(tree, p).(value := Patch(Get(tree, p).value, idx, val))), LAST))
  {
    hide Word, EncAt, Flat, Off, Get, Post, Put, TokLen, Align4, Patch, EncTok;
    var x, o, post := Get(tree, p), Off(tree, p), Post(tree, p, LAST);
    EncGet(s, 0, ns, tree, p, LAST);
    PropTokens(s, o, ns, x, post);
    var y := x.(value := Patch(x.value, idx, val));
    var n := HeadSize(x);
    TokLenFields(Prop(x.name, x.value));
    EncAligned(s, o, ns, x, post);
    HeadSizeAligned(x);
    PatchTail(s, o + 12 + idx, val, o + n);
    EncCopy(s, o + n, ns, Flat(x.rest, post), s', o + n, ns);
    ValueToken(s, s', o, ns, x.name, x.value, idx, val);
    assert HeadSize(y) == n by { ValueSize(x, y); }
    PropTokensBack(s', o, ns, y, post);
    PatchFront(s, o + 12 + idx, val, o);
    CommitEdit(s, ns, s', ns, tree, p, y);
  }

  lemma PropTokens(s: bytes, off: nat, ns: Names, x: Items, post: Tokens)
    requires x.PropItem? && EncAt(s, off, ns, Flat(x, post))
    ensures EncTok(s, off, ns, Prop(x.name, x.value)) && EncAt(s, off + HeadSize(x), ns, Flat(x.rest, post))
    ensures HeadSize(x) == TokLen(Prop(x.name, x.value)) && off + HeadSize(x) <= |s|
  {
    hide Word, TokLen, Align4, Names.Is;
  }

  lemma ValueSize(x: Items, y: Items)
    requires x.PropItem? && y.PropItem? && |x.value| == |y.value|
    ensures HeadSize(x) == HeadSize(y)
  {
  }

  lemma PropTokensBack(s: bytes, off: nat, ns: Names, x: Items, post: Tokens)
    requires x.PropItem? && EncTok(s, off, ns, Prop(x.name, x.value)) && EncAt(s, off + HeadSize(x), ns, Flat(x.rest, post))
    ensures EncAt(s, off, ns, Flat(x, post))
  {
    hide EncTok, TokLen, Align4;
  }

  lemma ValueToken(s: bytes, s': bytes, o: nat, ns: Names, name: bytes, v: bytes, idx: nat, val: bytes)
    requires EncTok(s, o, ns, Prop(name, v)) && idx + |val| <= |v|
    requires o + 12 + idx + |val| <= |s| && s' == Patch(s, o + 12 + idx, val)
    ensures EncTok(s', o, ns, Prop(name, Patch(v, idx, val)))
  {
    hide Word, Patch, Names.Is, Align4;
    var i := o + 12 + idx;
    WordPatch(s, i, val, o);
    WordPatch(s, i, val, o + 4);
    WordPatch(s, i, val, o + 8);
    PatchInside(s, i, val, o + 12, |v|);
  }

  /** fdt_setprop_inplace_namelen_partial: overwrite part of a property's value. */
  method SetpropInplacePartial(fdt: Blob, off: nat, name: bytes, idx: nat, val: bytes, ghost p: Pos) returns (r: int)
    requires fdt.ValidTree() && Has(fdt.tree, p) && off == Off(fdt.tree, p)
    requires idx + |val| < U32_LIMIT
    modifies fdt.buf, fdt`tree
    ensures fdt.Front() == old(fdt.Front())
    ensures fdt.ValidTree()
    ensures var x := old(Get(fdt.tree, p));
            if !x.NodeItem? then r == -ERR_BADOFFSET && fdt.tree == old(fdt.tree)
            else
              match FindProp(x.kids, name)
              case None => r == -ERR_NOTFOUND && fdt.tree == old(fdt.tree)
              case Some(q) =>
                var pr := Get(x.kids, q);
                if |pr.value| < idx + |val| then r == -ERR_NOSPACE && fdt.tree == old(fdt.tree)
                else r == 0 && fdt.tree == Put(old(fdt.tree), p, x.(kids := Put(x.kids, q, pr.(value := Patch(pr.value, idx, val)))))
  {
    hide Word, EncAt, EncTok, Flat, Off, Post, TokLen, Align4, Size, Complete, Closes, Patch, Blob.Front;
    ghost var x := Get(fdt.tree, p);
    PlaceAt(fdt, p);
    LastCloses(fdt.tree, p);
    var poff, len := GetProperty(fdt, off, name, x, Post(fdt.tree, p, LAST));
    if poff < 0 {
      return poff;
    }
    if len < |val| + idx {
      return -ERR_NOSPACE;
    }
    ghost var q := FindProp(x.kids, name).value;
    PropPlace(fdt.tree, p, q, len);
    WriteValue(fdt, poff, idx, val, Then(p, Down(q)));
    r := 0;
  }

  /** memcpy into the value of the property at p. */
  method WriteValue(fdt: Blob, off: nat, idx: nat, val: bytes, ghost p: Pos)
    requires fdt.ValidTree() && Has(fdt.tree, p) && off == Off(fdt.tree, p) && Get(fdt.tree, p).PropItem?
    requires idx + |val| <= |Get(fdt.tree, p).value|
    modifies fdt.buf, fdt`tree
    ensures fdt.Front() == old(fdt.Front())
    ensures fdt.ValidTree()
    ensures var x := old(Get(fdt.tree, p));
            fdt.tree == Put(old(fdt.tree), p, x.(value := Patch(x.value, idx, val)))
  {
    hide Word, EncAt, EncTok, Flat, Off, Post, TokLen, Align4, Size, Patch, Blob.Front;
    ghost var tree, ns, was := fdt.tree, fdt.Tab(), fdt.Block();
    ghost var x := Get(tree, p);
    ItemInside(was, ns, tree, p);
    TokLenFields(Prop(x.name, x.value));
    WriteBlock(fdt, off + 12 + idx, val);
    ValueAt(was, fdt.Block(), ns, tree, p, idx, val);
    fdt.tree := Put(tree, p, x.(value := Patch(x.value, idx, val)));
  }

  // -------------------------------------------------- what blanking means

  /** x, stored at off, has the token t (not a NOP) at offset m. */
  predicate Carries(x: Items, off: nat, m: nat, t: Token)
    decreases x, 1
  {
    !x.Done? && (CarriesFirst(x, off, m, t) || Carries(x.rest, off + HeadSize(x), m, t))
  }

  predicate CarriesFirst(x: Items, off: nat, m: nat, t: Token)
    requires !x.Done?
    decreases x, 0
  {
    match x
    case NopItem(_) => false
    case PropItem(n, v, _) => m == off && t == Prop(n, v)
    case NodeItem(n, k, _) =>
      || (m == off && t == Begin(n))
      || Carries(k, off + TokLen(Begin(n)), m, t)
      || (m == off + TokLen(Begin(n)) + Size(k) && t == EndNode)
  }

  lemma {:induction false} CarriesWithin(x: Items, off: nat, m: nat, t: Token)
    requires Carries(x, off, m, t)
    ensures off <= m < off + Size(x)
    decreases x, 1
  {
    hide HeadSize, CarriesFirst;
    if CarriesFirst(x, off, m, t) {
      FirstWithin(x, off, m, t);
    } else {
      CarriesWithin(x.rest, off + HeadSize(x), m, t);
    }
  }

  lemma {:induction false} FirstWithin(x: Items, off: nat, m: nat, t: Token)
    requires !x.Done? && CarriesFirst(x, off, m, t)
    ensures off <= m < off + HeadSize(x)
    decreases x, 0
  {
    hide Size, Align4;
    if x.NodeItem? && Carries(x.kids, off + TokLen(Begin(x.name)), m, t) {
      CarriesWithin(x.kids, off + TokLen(Begin(x.name)), m, t);
    }
  }

  lemma {:induction false} NopsCarry(k: nat, x: Items, off: nat, m: nat, t: Token)
    ensures Carries(Nops(k, x), off, m, t) <==> Carries(x, off + 4 * k, m, t)
    ensures Size(Nops(k, x)) == 4 * k + Size(x)
    decreases k
  {
    if k > 0 {
      NopsCarry(k - 1, x, off + 4, m, t);
      NopCarries(Nops(k - 1, x), off, m, t);
    }
  }

  lemma NopCarries(x: Items, off: nat, m: nat, t: Token)
    ensures Carries(NopItem(x), off, m, t) <==> Carries(x, off + 4, m, t)
    ensures Size(NopItem(x)) == 4 + Size(x)
  {
    hide Carries, Size;
    FirstOrRest(NopItem(x), off, m, t);
    NopAlone(x, off, m, t);
  }

  lemma NopAlone(x: Items, off: nat, m: nat, t: Token)
    ensures HeadSize(NopItem(x)) == 4 && !CarriesFirst(NopItem(x), off, m, t)
  {
  }

  /** Blanking is removal without movement: every token outside the blanked item stays where it was. */
  lemma {:induction false} BlankingMovesNothing(x: Items, p: Pos, off: nat, m: nat, t: Token)
    requires Has(x, p) && !Get(x, p).Done?
    ensures var o := off + Off(x, p);
            Carries(Put(x, p, Blanked(Get(x, p))), off, m, t) <==>
            Carries(x, off, m, t) && !(o <= m < o + HeadSize(Get(x, p)))
    ensures Size(Put(x, p, Blanked(Get(x, p)))) == Size(x)
    decreases p
  {
    hide TokLen, Carries, HeadSize, Size, Blanked;
    match p
    case Here =>
      BlankingHere(x, off, m, t);
    case Next(q) =>
      BlankingMovesNothing(x.rest, q, off + HeadSize(x), m, t);
      BlankingAfter(x, q, Put(x.rest, q, Blanked(Get(x, p))), off, m, t);
    case Down(q) =>
      BlankingMovesNothing(x.kids, q, off + TokLen(Begin(x.name)), m, t);
      BlankingInside(x, q, Put(x.kids, q, Blanked(Get(x, p))), off, m, t);
  }

  lemma FirstOrRest(x: Items, off: nat, m: nat, t: Token)
    requires !x.Done?
    ensures Carries(x, off, m, t) <==> CarriesFirst(x, off, m, t) || Carries(x.rest, off + HeadSize(x), m, t)
    ensures Size(x) == HeadSize(x) + Size(x.rest)
  {
    hide CarriesFirst, HeadSize;
  }

  lemma BlankingHere(x: Items, off: nat, m: nat, t: Token)
    requires !x.Done?
    ensures Carries(Blanked(x), off, m, t) <==> Carries(x, off, m, t) && !(off <= m < off + HeadSize(x))
    ensures Size(Blanked(x)) == Size(x)
  {
    hide CarriesFirst, Carries, HeadSize, Size, Nops;
    HeadSizeAligned(x);
    FirstOrRest(x, off, m, t);
    NopsCarry(HeadSize(x) / 4, x.rest, off, m, t);
    if CarriesFirst(x, off, m, t) {
      FirstWithin(x, off, m, t);
    }
    if Carries(x.rest, off + HeadSize(x), m, t) {
      CarriesWithin(x.rest, off + HeadSize(x), m, t);
    }
  }

  lemma BlankingAfter(x: Items, q: Pos, rest: Items, off: nat, m: nat, t: Token)
    requires !x.Done? && Has(x.rest, q) && !Get(x.rest, q).Done? && Size(rest) == Size(x.rest)
    requires var i := off + HeadSize(x);
             var o := i + Off(x.rest, q);
             Carries(rest, i, m, t) <==> Carries(x.rest, i, m, t) && !(o <= m < o + HeadSize(Get(x.rest, q)))
    ensures var o := off + Off(x, Next(q));
            Carries(x.(rest := rest), off, m, t) <==> Carries(x, off, m, t) && !(o <= m < o + HeadSize(Get(x.rest, q)))
    ensures Size(x.(rest := rest)) == Size(x)
  {
    hide CarriesFirst, HeadSize;
    SameFirst(x, rest, off, m, t);
    if CarriesFirst(x, off, m, t) {
      FirstWithin(x, off, m, t);
    }
  }

  lemma SameFirst(x: Items, rest: Items, off: nat, m: nat, t: Token)
    requires !x.Done?
    ensures HeadSize(x.(rest := rest)) == HeadSize(x)
    ensures CarriesFirst(x.(rest := rest), off, m, t) == CarriesFirst(x, off, m, t)
  {
  }

  lemma BlankingInside(x: Items, q: Pos, kids: Items, off: nat, m: nat, t: Token)
    requires x.NodeItem? && Has(x.kids, q) && !Get(x.kids, q).Done? && Size(kids) == Size(x.kids)
    requires var i := off + TokLen(Begin(x.name));
             var o := i + Off(x.kids, q);
             Carries(kids, i, m, t) <==> Carries(x.kids, i, m, t) && !(o <= m < o + HeadSize(Get(x.kids, q)))
    ensures var o := off + Off(x, Down(q));
            Carries(x.(kids := kids), off, m, t) <==> Carries(x, off, m, t) && !(o <= m < o + HeadSize(Get(x.kids, q)))
    ensures Size(x.(kids := kids)) == Size(x)
  {
    hide Align4;
    NodeHead(x);
    NodeHead(x.(kids := kids));
    hide HeadSize, Size;
    SizeHead(x);
    SizeHead(x.(kids := kids));
    PlaceWithin(x.kids, q);
    if Carries(x.rest, off + HeadSize(x), m, t) {
      CarriesWithin(x.rest, off + HeadSize(x), m, t);
    }
  }

  lemma NodeHead(x: Items)
    requires x.NodeItem?
    ensures HeadSize(x) == TokLen(Begin(x.name)) + Size(x.kids) + 4
  {
  }

  lemma SizeHead(x: Items)
    requires !x.Done?
    ensures Size(x) == HeadSize(x) + Size(x.rest)
  {
  }

  lemma {:induction false} PlaceWithin(x: Items, p: Pos)
    requires Has(x, p) && !Get(x, p).Done?
    ensures Off(x, p) + HeadSize(Get(x, p)) <= Size(x)
    decreases p
  {
    hide TokLen, HeadSize, Size;
    SizeHead(x);
    match p
    case Here =>
    case Next(q) =>
      PlaceWithin(x.rest, q);
    case Down(q) =>
      NodeHead(x);
      PlaceWithin(x.kids, q);
  }

  /** Without its NOPs, the blanked tree is the tree with that item removed. */
  lemma {:induction false} BlankingRemoves(x: Items, p: Pos)
    requires Has(x, p) && !Get(x, p).Done?
    ensures Strip(Put(x, p, Blanked(Get(x, p)))) == Strip(Put(x, p, Get(x, p).rest))
    decreases p
  {
    match p
    case Here => NopsStrip(HeadSize(x) / 4, x.rest);
    case Next(q) => BlankingRemoves(x.rest, q);
    case Down(q) => BlankingRemoves(x.kids, q);
  }

  lemma {:induction false} NopsStrip(k: nat, x: Items)
    ensures Strip(Nops(k, x)) == Strip(x)
  {
    if k > 0 {
      NopsStrip(k - 1, x);
    }
  }

  /** After blanking, the property is not found exactly if there is no second one of its name; others are found as before. */
  lemma {:induction false} BlankedPropertyGone(kids: Items, name: bytes, other: bytes)
    requires FindProp(kids, name).Some? && other != name
    ensures var q := FindProp(kids, name).value;
            var after := Put(kids, q, Blanked(Get(kids, q)));
            && (FindProp(after, name).None? <==> FindProp(Get(kids, q).rest, name).None?)
            && ValueOf(after, other) == ValueOf(kids, other)
    decreases kids
  {
    hide HeadSize;
    if kids.PropItem? && kids.name == name {
      NopsValue(HeadSize(kids) / 4, kids.rest, other);
      NopsValue(HeadSize(kids) / 4, kids.rest, name);
    } else {
      BlankedPropertyGone(kids.rest, name, other);
    }
  }

  /** Two properties of one name, the first of them blanked: a lookup finds the second. */
  lemma BlankedButFound(kids: Items)
    requires kids == PropItem([97], [], PropItem([97], [7], Done))
    ensures FindProp(kids, [97]) == Some(Here) && ValueOf(Put(kids, Here, Blanked(kids)), [97]) == Some([7])
  {
    NopsValue(HeadSize(kids) / 4, kids.rest, [97]);
  }

  /** The value that a lookup of a property gives. */
  function ValueOf(kids: Items, name: bytes): Option<bytes> {
    match FindProp(kids, name)
    case Some(q) => Some(Get(kids, q).value)
    case None => None
  }

  lemma {:induction false} NopsValue(k: nat, x: Items, name: bytes)
    ensures ValueOf(Nops(k, x), name) == ValueOf(x, name)
  {
    if k > 0 {
      NopsValue(k - 1, x, name);
    }
  }
}
