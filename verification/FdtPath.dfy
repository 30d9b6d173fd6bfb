/**
 fdt_get_path and fdt_path_offset, and that they undo each other. Paths start
 at the root; aliases are not part of this model.
 */
module FdtPath {
  import opened Bytes
  import opened FdtFormat
  import opened FdtTree
  import opened FdtBlob
  import opened FdtCore
  import opened FdtRo
  import opened FdtWalk

  const SLASH := 47

  /** Each name followed by a slash: what fdt_get_path keeps in its buffer. */
  function Joined(names: seq<bytes>): bytes {
    if names == [] then [] else Joined(names[..|names| - 1]) + names[|names| - 1] + [SLASH]
  }

  /** The names of the nodes on the way to the node at p, itself included. */
  function Chain(x: Items, p: Pos): (r: seq<bytes>)
    requires Has(x, p) && Get(x, p).NodeItem?
    ensures |r| == Downs(p) + 1
  {
    match p
    case Here => [x.name]
    case Next(q) => Chain(x.rest, q)
    case Down(q) => [x.name] + Chain(x.kids, q)
  }

  /** The path of a node: no slash at the end, except for the root. */
  function PathOf(chain: seq<bytes>): bytes {
    var j := Joined(chain);
    if |j| > 1 then j[..|j| - 1] else j
  }

  /** The first names of a chain that fit, each with its slash, in n bytes. */
  function Fit(chain: seq<bytes>, n: nat): (r: seq<bytes>)
    ensures |r| <= |chain| && r == chain[..|r|]
  {
    if chain == [] then []
    else
      var r := Fit(chain[..|chain| - 1], n);
      if |r| == |chain| - 1 && |Joined(r)| + |chain[|chain| - 1]| + 1 <= n then r + [chain[|chain| - 1]] else r
  }

  lemma {:induction false} FitAll(chain: seq<bytes>, n: nat)
    ensures |Fit(chain, n)| == |chain| <==> |Joined(chain)| <= n
  {
    if chain != [] {
      var init := chain[..|chain| - 1];
      FitAll(init, n);
      assert Fit(init, n) == init[..|Fit(init, n)|];
      assert |Fit(init, n)| == |init| ==> Fit(init, n) == init;
    }
  }

  // ------------------------------------------------- the walk of get_path

  /** The names held after visiting a node of depth d: deeper names are dropped, and its own is added if it fits. */
  function Step(held: seq<bytes>, d: nat, name: bytes, n: nat): seq<bytes> {
    var h := if |held| > d then held[..d] else held;
    if |h| >= d && |Joined(h)| + |name| + 1 <= n then h + [name] else h
  }

  /** The loop of fdt_get_path over a token list: the target's depth and the names held there. */
  function Walk(ts: Tokens, off: nat, depth: int, target: nat, n: nat, held: seq<bytes>): Option<(int, seq<bytes>)>
    requires depth >= -1
    decreases ts
  {
    match ts
    case Nil => None
    case Cons(End, _) => None
    case Cons(Begin(name), rest) =>
      var h := Step(held, depth + 1, name, n);
      if off > target then None
      else if off == target then Some((depth + 1, h))
      else Walk(rest, off + TokLen(ts.head), depth + 1, target, n, h)
    case Cons(EndNode, rest) =>
      if depth - 1 < 0 then None else Walk(rest, off + TokLen(EndNode), depth - 1, target, n, held)
    case Cons(t, rest) => Walk(rest, off + TokLen(t), depth, target, n, held)
  }

  lemma {:induction false} WalkScan(ts: Tokens, off: nat, depth: nat, target: nat, n: nat, held: seq<bytes>)
    ensures Walk(ts, off, depth, target, n, held) ==
            match Scan(ts, off, true, depth)
            case AtNode(o, d, us) => if d >= 0 then Walk(us, o, d - 1, target, n, held) else None
            case _ => None
    decreases ts
  {
    hide TokLen, Step;
    match ts
    case Cons(EndNode, rest) => if depth > 0 { WalkScan(rest, off + TokLen(EndNode), depth - 1, target, n, held); }
    case Cons(Nop, rest) => WalkScan(rest, off + TokLen(Nop), depth, target, n, held);
    case Cons(Prop(m, v), rest) => WalkScan(rest, off + TokLen(Prop(m, v)), depth, target, n, held);
    case _ =>
  }

  /** Below the nodes whose names are pre, what is held is right once deeper names are dropped. */
  predicate Ready(held: seq<bytes>, pre: seq<bytes>, n: nat) {
    (if |held| > |pre| then held[..|pre|] else held) == Fit(pre, n)
  }

  lemma StepReady(held: seq<bytes>, pre: seq<bytes>, name: bytes, n: nat)
    requires Ready(held, pre, n)
    ensures Step(held, |pre|, name, n) == Fit(pre + [name], n) && Ready(Fit(pre + [name], n), pre + [name], n)
  {
    hide Joined;
    assert (pre + [name])[..|pre|] == pre;
  }

  lemma OutReady(held: seq<bytes>, pre: seq<bytes>, name: bytes, n: nat)
    requires Ready(held, pre + [name], n)
    ensures Ready(held, pre, n)
  {
    hide Joined;
    assert (pre + [name])[..|pre|] == pre;
    var f, g := Fit(pre + [name], n), Fit(pre, n);
    if |held| > |pre| {
      assert held[..|pre|] == f[..|pre|];
    }
  }

  /** A walk over whole items below the nodes pre leaves what is held ready. */
  lemma {:induction false} WalkPasses(x: Items, post: Tokens, off: nat, depth: nat, target: nat, n: nat, held: seq<bytes>, pre: seq<bytes>)
    returns (h: seq<bytes>)
    requires off + Size(x) <= target && |pre| == depth + 1 && Ready(held, pre, n)
    ensures Ready(h, pre, n)
    ensures Walk(Flat(x, post), off, depth, target, n, held) == Walk(post, off + Size(x), depth, target, n, h)
    decreases x, 1
  {
    hide Walk, HeadSize, Ready, Fit;
    h := held;
    if !x.Done? {
      h := WalkPassesHead(x, post, off, depth, target, n, held, pre);
      h := WalkPasses(x.rest, post, off + HeadSize(x), depth, target, n, h, pre);
    }
  }

  lemma {:induction false} WalkPassesHead(x: Items, post: Tokens, off: nat, depth: nat, target: nat, n: nat, held: seq<bytes>, pre: seq<bytes>)
    returns (h: seq<bytes>)
    requires !x.Done? && off + HeadSize(x) <= target && |pre| == depth + 1 && Ready(held, pre, n)
    ensures Ready(h, pre, n)
    ensures Walk(Flat(x, post), off, depth, target, n, held) == Walk(Flat(x.rest, post), off + HeadSize(x), depth, target, n, h)
    decreases x, 0
  {
    hide TokLen, Size, Ready, Fit, Step;
    h := held;
    if x.NodeItem? {
      hide Walk, Flat;
      var i, after := off + TokLen(Begin(x.name)), Flat(x.rest, post);
      WalkInto(x, post, off, depth, target, n, held);
      StepReady(held, pre, x.name, n);
      h := WalkPasses(x.kids, Cons(EndNode, after), i, depth + 1, target, n, Fit(pre + [x.name], n), pre + [x.name]);
      WalkOutOf(after, i + Size(x.kids), depth, target, n, h);
      OutReady(h, pre, x.name, n);
    }
  }

  lemma WalkInto(x: Items, post: Tokens, off: nat, depth: nat, target: nat, n: nat, held: seq<bytes>)
    requires x.NodeItem? && off < target
    ensures Walk(Flat(x, post), off, depth, target, n, held) ==
            Walk(Flat(x.kids, Cons(EndNode, Flat(x.rest, post))), off + TokLen(Begin(x.name)), depth + 1, target, n,
                 Step(held, depth + 1, x.name, n))
  {
    hide TokLen, Step;
  }

  lemma WalkOutOf(after: Tokens, off: nat, depth: nat, target: nat, n: nat, held: seq<bytes>)
    ensures Walk(Cons(EndNode, after), off, depth + 1, target, n, held) == Walk(after, off + TokLen(EndNode), depth, target, n, held)
  {
    hide TokLen, Step;
  }

  /** At the offset of a node, the walk holds the names of its chain that fit. */
  lemma {:induction false} WalkFinds(x: Items, p: Pos, post: Tokens, off: nat, depth: nat, n: nat, held: seq<bytes>, pre: seq<bytes>)
    requires Has(x, p) && Get(x, p).NodeItem? && |pre| == depth + 1 && Ready(held, pre, n)
    ensures Walk(Flat(x, post), off, depth, off + Off(x, p), n, held) == Some((depth + 1 + Downs(p), Fit(pre + Chain(x, p), n)))
    decreases p
  {
    hide TokLen, HeadSize, Size, Ready, Fit, Step, Walk, Flat;
    match p
    case Here => WalkArrives(x, post, off, depth, n, held, pre);
    case Next(q) =>
      var h := WalkPassesHead(x, post, off, depth, off + Off(x, p), n, held, pre);
      WalkFinds(x.rest, q, post, off + HeadSize(x), depth, n, h, pre);
    case Down(q) =>
      WalkInto(x, post, off, depth, off + Off(x, p), n, held);
      StepReady(held, pre, x.name, n);
      WalkFinds(x.kids, q, Cons(EndNode, Flat(x.rest, post)), off + TokLen(Begin(x.name)), depth + 1, n, Fit(pre + [x.name], n), pre + [x.name]);
      Regrouped(pre, x.name, Chain(x.kids, q));
  }

  lemma Regrouped(pre: seq<bytes>, name: bytes, c: seq<bytes>)
    ensures (pre + [name]) + c == pre + ([name] + c)
  {
  }

  lemma WalkArrives(x: Items, post: Tokens, off: nat, depth: nat, n: nat, held: seq<bytes>, pre: seq<bytes>)
    requires x.NodeItem? && |pre| == depth + 1 && Ready(held, pre, n)
    ensures Walk(Flat(x, post), off, depth, off, n, held) == Some((depth + 1, Fit(pre + [x.name], n)))
  {
    hide TokLen, HeadSize, Size, Ready, Fit, Step;
    StepReady(held, pre, x.name, n);
  }

  lemma RootWalk(x: Items, p: Pos, n: nat)
    requires x.NodeItem? && !p.Next? && Has(x, p) && Get(x, p).NodeItem?
    ensures Walk(Flat(x, LAST), 0, -1, Off(x, p), n, []) == Some((Downs(p) as int, Fit(Chain(x, p), n)))
  {
    hide HeadSize, Size, TokLen, Fit;
    StepRoot(x.name, n);
    if p.Down? {
      var i := TokLen(Begin(x.name));
      WalkFinds(x.kids, p.p, Cons(EndNode, Flat(x.rest, LAST)), i, 0, n, Fit([x.name], n), [x.name]);
    }
  }

  lemma StepRoot(name: bytes, n: nat)
    ensures Step([], 0, name, n) == Fit([name], n) && Ready(Fit([name], n), [name], n)
  {
    assert [name][..0] == [];
  }

  // ------------------------------------------------- the buffer of get_path

  predicate SlashFree(names: seq<bytes>) {
    forall i :: 0 <= i < |names| ==> SLASH !in names[i]
  }

  /** No node name has a slash in it. */
  predicate NamesOk(x: Items) {
    match x
    case Done => true
    case NodeItem(name, kids, rest) => SLASH !in name && NamesOk(kids) && NamesOk(rest)
    case _ => NamesOk(x.rest)
  }

  predicate NamesOkT(ts: Tokens) {
    match ts
    case Nil => true
    case Cons(Begin(name), rest) => SLASH !in name && NamesOkT(rest)
    case Cons(_, rest) => NamesOkT(rest)
  }

  lemma {:induction false} NamesOkTree(x: Items, post: Tokens)
    requires NamesOk(x) && NamesOkT(post)
    ensures NamesOkT(Flat(x, post))
    decreases x
  {
    match x
    case Done =>
    case NodeItem(_, kids, rest) =>
      NamesOkTree(rest, post);
      NamesOkTree(kids, Cons(EndNode, Flat(rest, post)));
    case _ => NamesOkTree(x.rest, post);
  }

  lemma {:induction false} NamesOkScan(ts: Tokens, off: nat, depth: int)
    requires NamesOkT(ts)
    ensures Scan(ts, off, true, depth).AtNode? ==> NamesOkT(Scan(ts, off, true, depth).ts)
    decreases ts
  {
    hide TokLen;
    match ts
    case Cons(EndNode, rest) => NamesOkScan(rest, off + TokLen(EndNode), depth - 1);
    case Cons(Nop, rest) => NamesOkScan(rest, off + TokLen(Nop), depth);
    case Cons(Prop(m, v), rest) => NamesOkScan(rest, off + TokLen(Prop(m, v)), depth);
    case _ =>
  }

  lemma JoinedIs(names: seq<bytes>)
    requires names != []
    ensures Joined(names) == Joined(names[..|names| - 1]) + names[|names| - 1] + [SLASH]
  {
  }

  lemma ThreeParts(j: bytes, name: bytes, k: bytes)
    requires k == j + name + [SLASH]
    ensures |k| == |j| + |name| + 1 && k[..|j|] == j && k[|k| - 1] == SLASH
    ensures forall i :: |j| <= i < |j| + |name| ==> k[i] == name[i - |j|]
  {
  }

  /** The inner rewinding loop of fdt_get_path: back to the slash before the last name. */
  method DropName(buf: array<byte>, p: nat, ghost held: seq<bytes>) returns (q: nat)
    requires |held| >= 2 && SlashFree(held) && p <= buf.Length && buf[..p] == Joined(held)
    ensures q < p && buf[..q] == Joined(held[..|held| - 1])
  {
    hide Joined;
    ghost var init := held[..|held| - 1];
    ghost var j := Joined(init);
    JoinedIs(held);
    ThreeParts(j, held[|held| - 1], Joined(held));
    JoinedIs(init);
    ThreeParts(Joined(init[..|init| - 1]), init[|init| - 1], j);
    assert buf[|j| - 1] == buf[..p][|j| - 1] == j[|j| - 1] == SLASH;
    forall i | |j| <= i < p - 1
      ensures buf[i] != SLASH
    {
      assert buf[i] == buf[..p][i];
    }
    q := p - 1;
    while buf[q - 1] != SLASH
      invariant |j| <= q < p
      decreases q
    {
      q := q - 1;
    }
    assert buf[..q] == buf[..p][..|j|];
  }

  /** The outer rewinding loop: back to depth names. */
  method DropTo(buf: array<byte>, p0: nat, pdepth0: nat, depth: nat, ghost held: seq<bytes>)
    returns (p: nat, pdepth: nat)
    requires 1 <= depth && pdepth0 == |held| && SlashFree(held) && p0 <= buf.Length && buf[..p0] == Joined(held)
    ensures pdepth == if |held| > depth then depth else |held|
    ensures p <= p0 && buf[..p] == Joined(held[..pdepth])
  {
    hide Joined;
    p, pdepth := p0, pdepth0;
    assert held[..|held|] == held;
    while pdepth > depth
      invariant pdepth <= |held| && (|held| > depth ==> depth <= pdepth) && (|held| <= depth ==> pdepth == |held|)
      invariant p <= p0 && buf[..p] == Joined(held[..pdepth])
    {
      ghost var h := held[..pdepth];
      assert h[..|h| - 1] == held[..pdepth - 1];
      p := DropName(buf, p, h);
      pdepth := pdepth - 1;
    }
  }

  /** Adding the name of the node at off. */
  method AddName(fdt: Blob, off: nat, buf: array<byte>, p0: nat, pdepth0: nat, ghost held: seq<bytes>, ghost ts: Tokens)
    returns (p: nat, pdepth: nat)
    requires fdt.At(off, ts) && ts.Cons? && ts.head.Begin? && buf != fdt.buf
    requires pdepth0 == |held| && p0 <= buf.Length && buf[..p0] == Joined(held)
    modifies buf
    ensures var h := if |Joined(held)| + |ts.head.name| + 1 <= buf.Length then held + [ts.head.name] else held;
            pdepth == |h| && p <= buf.Length && buf[..p] == Joined(h)
  {
    hide EncAt, EncTok, TokLen, Word, Blob.Block, Blob.Tab, StringAt, Patch;
    p, pdepth := p0, pdepth0;
    TokenFacts(fdt, off, ts);
    var namelen := GetName(fdt, off, ts);
    if p + namelen + 1 <= buf.Length {
      NameAt(fdt.Block(), off + 4, ts.head.name);
      var name := Chars(fdt, off + 4, namelen);
      ghost var was := buf[..];
      CopyIn(buf, p, name);
      PatchParts(was, p, name);
      p := p + namelen;
      buf[p] := SLASH;
      p := p + 1;
      pdepth := pdepth + 1;
      AddedName(was, buf[..], p0, held, name);
    }
  }

  lemma NameAt(s: bytes, i: nat, name: bytes)
    requires StringAt(s, i, name)
    ensures i + |name| <= |s| && s[i..i + |name|] == name
  {
  }

  lemma AddedName(was: bytes, now: bytes, p: nat, held: seq<bytes>, name: bytes)
    requires p + |name| < |was| && was[..p] == Joined(held)
    requires now == Patch(was, p, name)[p + |name| := SLASH]
    ensures now[..p + |name| + 1] == Joined(held + [name])
  {
    assert (held + [name])[..|held|] == held;
    hide Joined;
    assert now[..p + |name| + 1] == was[..p] + name + [SLASH];
    assert Joined(held + [name]) == Joined(held) + name + [SLASH] by { JoinedSnoc(held, name); }
  }

  lemma JoinedSnoc(held: seq<bytes>, name: bytes)
    ensures Joined(held + [name]) == Joined(held) + name + [SLASH]
  {
    assert (held + [name])[..|held|] == held;
  }

  /** One round of the loop of fdt_get_path: drop the names that are not above this node, and add its own. */
  method Hold(fdt: Blob, off: nat, depth: nat, buf: array<byte>, p0: nat, pdepth0: nat, ghost held: seq<bytes>, ghost ts: Tokens)
    returns (p: nat, pdepth: nat, ghost h: seq<bytes>)
    requires fdt.At(off, ts) && ts.Cons? && ts.head.Begin? && SLASH !in ts.head.name && buf != fdt.buf
    requires pdepth0 == |held| && SlashFree(held) && p0 <= buf.Length && buf[..p0] == Joined(held)
    requires depth == 0 ==> held == []
    modifies buf
    ensures h == Step(held, depth, ts.head.name, buf.Length) && SlashFree(h)
    ensures pdepth == |h| && p <= buf.Length && buf[..p] == Joined(h)
  {
    hide EncAt, Joined, Blob.Block, Blob.Tab;
    p, pdepth, h := p0, pdepth0, held;
    if pdepth > depth {
      p, pdepth := DropTo(buf, p, pdepth, depth, h);
      h := h[..depth];
    }
    if pdepth >= depth {
      p, pdepth := AddName(fdt, off, buf, p, pdepth, h, ts);
      h := Step(held, depth, ts.head.name, buf.Length);
    }
  }

  /** The end of fdt_get_path: the last slash, except the root's, becomes the NUL. */
  method ClosePath(buf: array<byte>, p0: nat, pdepth: nat, depth: nat, ghost chain: seq<bytes>) returns (r: int)
    requires |chain| == depth + 1 && 2 <= buf.Length && pdepth == |Fit(chain, buf.Length)|
    requires p0 <= buf.Length && buf[..p0] == Joined(Fit(chain, buf.Length))
    modifies buf
    ensures var path := PathOf(chain);
            && r == (if |path| + 1 <= buf.Length then 0 else -ERR_NOSPACE)
            && (r == 0 ==> buf[..|path| + 1] == path + [0])
  {
    hide Fit, Joined, PathOf;
    FitAll(chain, buf.Length);
    PathFits(chain, buf.Length);
    if pdepth < depth + 1 {
      return -ERR_NOSPACE;
    }
    assert Fit(chain, buf.Length) == chain;
    var p := p0;
    if p > 1 {
      p := p - 1;
    }
    JoinedIs(chain);
    EndPath(buf[..], chain, p);
    buf[p] := 0;
    r := 0;
  }

  /** fdt_get_path: the path of the node at p and a NUL, or NOSPACE exactly if they do not fit. */
  method GetPath(fdt: Blob, nodeoffset: nat, buf: array<byte>, ghost p: Pos) returns (r: int)
    requires fdt.ValidTree() && fdt.tree.NodeItem? && NamesOk(fdt.tree) && buf != fdt.buf && !p.Next?
    requires Has(fdt.tree, p) && Get(fdt.tree, p).NodeItem? && nodeoffset == Off(fdt.tree, p)
    modifies buf
    ensures var path := PathOf(Chain(fdt.tree, p));
            && r == (if |path| + 1 <= buf.Length then 0 else -ERR_NOSPACE)
            && (r == 0 ==> buf[..|path| + 1] == path + [0])
  {
    hide EncAt, TokLen, Scan, Walk, Step, Fit, Joined, Chain, NamesOk, NamesOkT, Blob.Block, Blob.Tab, Flat, Off,
         PathOf;
    ghost var x, ts, chain := fdt.tree, Flat(fdt.tree, LAST), Chain(fdt.tree, p);
    ghost var n := buf.Length;
    PathFits(chain, n);
    if buf.Length < 2 {
      return -ERR_NOSPACE;
    }
    FlatComplete(x, LAST);
    ClosesFacts(x, LAST);
    LastNames();
    NamesOkTree(x, LAST);
    RootWalk(x, p, n);
    NothingHeld(buf);
    ghost var held: seq<bytes> := [];
    var pdepth, len, offset, depth := 0, 0, 0, 0;
    while 0 <= offset <= nodeoffset
      invariant 0 <= offset && 0 <= depth && fdt.At(offset, ts) && Complete(ts) && ts.head.Begin? && NamesOkT(ts)
      invariant pdepth == |held| && SlashFree(held) && 0 <= len <= n && buf[..len] == Joined(held)
      invariant depth == 0 ==> held == []
      invariant Walk(ts, offset, depth - 1, nodeoffset, n, held) == Some((Downs(p) as int, Fit(chain, n)))
      decreases ts
    {
      HeadName(ts);
      WalkStep(ts, offset, depth, nodeoffset, n, held);
      len, pdepth, held := Hold(fdt, offset, depth, buf, len, pdepth, held, ts);
      if offset == nodeoffset {
        r := ClosePath(buf, len, pdepth, depth, chain);
        return;
      }
      ghost var stop := Scan(ts.tail, offset + TokLen(ts.head), true, depth);
      WalkScan(ts.tail, offset + TokLen(ts.head), depth, nodeoffset, n, held);
      ScanShrinks(ts.tail, offset + TokLen(ts.head), depth);
      ScanDepth(ts.tail, offset + TokLen(ts.head), depth);
      NamesOkScan(ts.tail, offset + TokLen(ts.head), depth);
      offset, depth := NextNode(fdt, offset, true, depth, ts);
      ts := stop.ts;
    }
    WalkPast(ts, offset, depth - 1, nodeoffset, n, held);
  }

  lemma PathFits(chain: seq<bytes>, n: nat)
    requires chain != []
    ensures |PathOf(chain)| + 1 <= n <==> 2 <= n && |Joined(chain)| <= n
  {
    hide Joined;
    JoinedIs(chain);
  }

  lemma LastNames()
    ensures NamesOkT(LAST)
  {
  }

  lemma NothingHeld(buf: array<byte>)
    ensures buf[..0] == Joined([])
  {
  }

  lemma HeadName(ts: Tokens)
    requires ts.Cons? && ts.head.Begin? && NamesOkT(ts)
    ensures SLASH !in ts.head.name && NamesOkT(ts.tail)
  {
  }

  lemma WalkStep(ts: Tokens, off: nat, depth: nat, target: nat, n: nat, held: seq<bytes>)
    requires ts.Cons? && ts.head.Begin? && Walk(ts, off, depth - 1, target, n, held).Some?
    ensures off <= target
    ensures var h := Step(held, depth, ts.head.name, n);
            Walk(ts, off, depth - 1, target, n, held) ==
            if off == target then Some((depth as int, h)) else Walk(ts.tail, off + TokLen(ts.head), depth, target, n, h)
  {
    hide TokLen, Step;
  }

  lemma WalkPast(ts: Tokens, off: nat, depth: int, target: nat, n: nat, held: seq<bytes>)
    requires depth >= -1 && ts.Cons? && ts.head.Begin? && Walk(ts, off, depth, target, n, held).Some?
    ensures off <= target
  {
  }

  lemma EndPath(was: bytes, chain: seq<bytes>, len: nat)
    requires chain != [] && len < |was|
    requires var j := Joined(chain); |j| <= |was| && was[..|j|] == j && len == if |j| > 1 then |j| - 1 else |j|
    ensures var path := PathOf(chain); |path| == len && was[len := 0][..len + 1] == path + [0]
  {
    hide Joined;
    JoinedIs(chain);
    var j := Joined(chain);
    assert was[len := 0][..len + 1] == was[..|j|][..len] + [0];
  }

  // --------------------------------------------------------- path_offset

  /** The index of the first byte from i on that is not a slash. */
  function SkipSlashes(path: bytes, i: nat): (j: nat)
    requires i <= |path|
    ensures i <= j <= |path| && (j < |path| ==> path[j] != SLASH)
    decreases |path| - i
  {
    if i < |path| && path[i] == SLASH then SkipSlashes(path, i + 1) else i
  }

  /** The index of the first slash from i on, or the end. */
  function NextSlash(path: bytes, i: nat): (j: nat)
    requires i <= |path|
    ensures i <= j <= |path| && (i < |path| && path[i] != SLASH ==> i < j)
    decreases |path| - i
  {
    if i < |path| && path[i] != SLASH then NextSlash(path, i + 1) else i
  }

  /** The names in a path from i on, empty ones left out. */
  function Parts(path: bytes, i: nat): seq<bytes>
    requires i <= |path|
    decreases |path| - i
  {
    var j := SkipSlashes(path, i);
    if j == |path| then [] else [path[j..NextSlash(path, j)]] + Parts(path, NextSlash(path, j))
  }

  /** Going down from the node x through the first child that each name matches. */
  function Resolve(x: Items, names: seq<bytes>): (r: Option<Pos>)
    requires x.NodeItem?
    ensures r.Some? ==> Has(x, r.value) && Get(x, r.value).NodeItem? && !r.value.Next?
    decreases |names|
  {
    if names == [] then Some(Here)
    else
      match FindNode(x.kids, Named(names[0]))
      case None => None
      case Some(q) =>
        match Resolve(Get(x.kids, q), names[1..])
        case None => None
        case Some(s) => ThenAt(x.kids, q, s, Nil); Some(Down(Then(q, s)))
  }

  /** memchr for a slash. */
  method FindSlash(path: bytes, i: nat) returns (q: nat)
    requires i <= |path|
    ensures q == NextSlash(path, i)
  {
    q := i;
    while q < |path| && path[q] != SLASH
      invariant i <= q <= |path| && NextSlash(path, q) == NextSlash(path, i)
      decreases |path| - q
    {
      q := q + 1;
    }
  }

  /** fdt_path_offset_namelen, for a path that starts with a slash. */
  method PathOffset(fdt: Blob, path: bytes) returns (r: int)
    requires fdt.ValidTree() && fdt.tree.NodeItem? && |path| > 0 && path[0] == SLASH
    ensures match Resolve(fdt.tree, Parts(path, 0))
            case Some(p) => Has(fdt.tree, p) && r == Off(fdt.tree, p)
            case None => r == -ERR_NOTFOUND
  {
    hide EncAt, TokLen, Blob.Block, Blob.Tab, Flat, Off, Resolve, FindNode, Complete, Closes, Get, Want.Ok;
    ghost var tree, pos := fdt.tree, Here;
    var p := 0;
    r := 0;
    AtRoot(tree);
    OnwardHere(tree, tree, Here, Parts(path, 0));
    while p < |path|
      invariant 0 <= p <= |path| && Has(tree, pos) && Get(tree, pos).NodeItem? && r == Off(tree, pos)
      invariant Onward(tree, pos, Resolve(Get(tree, pos), Parts(path, p))) == Resolve(tree, Parts(path, 0))
      decreases |path| - p
    {
      ghost var p0 := p;
      while path[p] == SLASH
        invariant p < |path| && SkipSlashes(path, p) == SkipSlashes(path, p0)
        decreases |path| - p
      {
        p := p + 1;
        if p == |path| {
          OnwardHere(tree, Get(tree, pos), pos, []);
          return;
        }
      }
      var q := FindSlash(path, p);
      PlaceAt(fdt, pos);
      PostCloses(tree, pos, LAST);
      ghost var x := Get(tree, pos);
      ResolveStep(tree, pos, path[p..q], Parts(path, q));
      r := SubnodeOffset(fdt, r, path[p..q], x, Post(tree, pos, LAST));
      if r < 0 {
        return;
      }
      pos := Then(pos, Down(FindNode(x.kids, Named(path[p..q])).value));
      p := q;
    }
    OnwardHere(tree, Get(tree, pos), pos, []);
  }

  /** A place found from pos on, as a place in the whole tree. */
  function Onward(x: Items, pos: Pos, r: Option<Pos>): Option<Pos> {
    match r
    case Some(s) => Some(Then(pos, s))
    case None => None
  }

  lemma AtRoot(x: Items)
    ensures Off(x, Here) == 0 && Get(x, Here) == x
  {
  }

  lemma OnwardHere(tree: Items, x: Items, pos: Pos, names: seq<bytes>)
    requires x.NodeItem?
    ensures names == [] ==> Onward(tree, pos, Resolve(x, names)) == Some(pos)
    ensures Onward(tree, Here, Resolve(x, names)) == Resolve(x, names)
  {
    hide Resolve;
    ThenHere(pos);
    ResolveNothing(x);
  }

  lemma ResolveNothing(x: Items)
    requires x.NodeItem?
    ensures Resolve(x, []) == Some(Here)
  {
  }

  lemma {:induction false} ThenHere(p: Pos)
    ensures Then(p, Here) == p && Then(Here, p) == p
  {
    match p
    case Here =>
    case Next(q) => ThenHere(q);
    case Down(q) => ThenHere(q);
  }

  lemma {:induction false} ThenThen(p: Pos, q: Pos, s: Pos)
    ensures Then(p, Then(q, s)) == Then(Then(p, q), s)
  {
    match p
    case Here =>
    case Next(r) => ThenThen(r, q, s);
    case Down(r) => ThenThen(r, q, s);
  }

  lemma ResolveStep(tree: Items, pos: Pos, name: bytes, rest: seq<bytes>)
    requires Has(tree, pos) && Get(tree, pos).NodeItem?
    ensures var x := Get(tree, pos);
            match FindNode(x.kids, Named(name))
            case None => Resolve(x, [name] + rest) == None
            case Some(q) =>
              var next := Then(pos, Down(q));
              && Has(tree, next) && Get(tree, next) == Get(x.kids, q) && Off(tree, next) == Off(tree, pos) + Off(x, Down(q))
              && Onward(tree, pos, Resolve(x, [name] + rest)) == Onward(tree, next, Resolve(Get(tree, next), rest))
  {
    hide FindNode, Off, Post;
    var x := Get(tree, pos);
    assert ([name] + rest)[1..] == rest;
    match FindNode(x.kids, Named(name))
    case None =>
    case Some(q) =>
      ThenAt(tree, pos, Down(q), Nil);
      match Resolve(Get(x.kids, q), rest)
      case None =>
      case Some(s) => ThenThen(pos, Down(q), s);
  }

  // ---------------------------------------------------------- round trip

  /** Neither name is found when the other is looked for. */
  predicate Apart(a: bytes, b: bytes) {
    !NameEq(a, b) && !NameEq(b, a)
  }

  /** No node among the items of x is confused with a sibling of this name. */
  predicate ApartFrom(x: Items, name: bytes) {
    match x
    case Done => true
    case NodeItem(n, _, rest) => Apart(n, name) && ApartFrom(rest, name)
    case _ => ApartFrom(x.rest, name)
  }

  /** Names are non-empty and without slashes, and siblings are not confused with each other. */
  predicate Unambiguous(x: Items) {
    match x
    case Done => true
    case NodeItem(n, kids, rest) => n != [] && SLASH !in n && ApartFrom(rest, n) && Unambiguous(kids) && Unambiguous(rest)
    case _ => Unambiguous(x.rest)
  }

  lemma {:induction false} ApartAt(x: Items, name: bytes, q: Pos)
    requires ApartFrom(x, name) && Has(x, q) && Downs(q) == 0 && Get(x, q).NodeItem?
    ensures Apart(Get(x, q).name, name)
    decreases q
  {
    hide Apart;
    if q.Next? {
      ApartAt(x.rest, name, q.p);
    }
  }

  /** Looking for a node's name finds that node. */
  lemma {:induction false} FindsItself(x: Items, q: Pos)
    requires Unambiguous(x) && Has(x, q) && Downs(q) == 0 && Get(x, q).NodeItem?
    ensures FindNode(x, Named(Get(x, q).name)) == Some(q)
    ensures Unambiguous(Get(x, q).kids) && Get(x, q).name != [] && SLASH !in Get(x, q).name
    decreases q
  {
    if q.Next? {
      FindsItself(x.rest, q.p);
      if x.NodeItem? {
        ApartAt(x.rest, x.name, q.p);
      }
    }
  }

  /** A place is a place among the items of x, followed by a place in the node there. */
  lemma {:induction false} FirstStep(x: Items, w: Pos) returns (q: Pos, s: Pos)
    requires Has(x, w) && Get(x, w).NodeItem?
    ensures Has(x, q) && Downs(q) == 0 && w == Then(q, s) && !s.Next? && Get(x, q).NodeItem?
    ensures Has(Get(x, q), s) && Get(Get(x, q), s) == Get(x, w)
    ensures Chain(x, w) == Chain(Get(x, q), s) && Downs(s) == Downs(w)
    decreases w
  {
    match w
    case Next(r) =>
      q, s := FirstStep(x.rest, r);
      q := Next(q);
    case _ =>
      q, s := Here, w;
  }

  /** The names of a node's chain, below the node x, resolve to that node. */
  lemma {:induction false} ChainResolves(x: Items, p: Pos)
    requires x.NodeItem? && Unambiguous(x.kids) && Has(x, p) && Get(x, p).NodeItem? && !p.Next?
    ensures Resolve(x, Chain(x, p)[1..]) == Some(p)
    ensures forall i :: 1 <= i < |Chain(x, p)| ==> Chain(x, p)[i] != [] && SLASH !in Chain(x, p)[i]
    decreases Downs(p)
  {
    hide FindNode, Unambiguous;
    if p.Down? {
      var q, s := FirstStep(x.kids, p.p);
      var y := Get(x.kids, q);
      FindsItself(x.kids, q);
      ChainResolves(y, s);
      var names := Chain(y, s);
      assert Chain(x, p)[1..] == names;
      assert names[0] == y.name;
      assert forall i :: 1 <= i < |Chain(x, p)| ==> Chain(x, p)[i] == names[i - 1];
    }
  }

  /** Names with a slash in front of each. */
  function Slashed(names: seq<bytes>): bytes {
    if names == [] then [] else [SLASH] + names[0] + Slashed(names[1..])
  }

  lemma {:induction false} SlashedSnoc(names: seq<bytes>, name: bytes)
    ensures Slashed(names + [name]) == Slashed(names) + [SLASH] + name
  {
    if names == [] {
      assert ([name])[1..] == [];
    } else {
      assert (names + [name])[1..] == names[1..] + [name];
      SlashedSnoc(names[1..], name);
    }
  }

  lemma {:induction false} JoinedSlashed(names: seq<bytes>)
    ensures Joined([[]] + names) == Slashed(names) + [SLASH]
  {
    if names == [] {
      assert ([[]] + names)[..0] == [];
    } else {
      var init, name := names[..|names| - 1], names[|names| - 1];
      assert names == init + [name];
      assert [[]] + names == ([[]] + init) + [name];
      JoinedSlashed(init);
      JoinedSnoc([[]] + init, name);
      SlashedSnoc(init, name);
    }
  }

  /** Splitting a printed path gives the names it was made of. */
  lemma {:induction false} PartsOfSlashed(path: bytes, i: nat, names: seq<bytes>)
    requires i <= |path| && path[i..] == Slashed(names)
    requires forall k :: 0 <= k < |names| ==> names[k] != [] && SLASH !in names[k]
    ensures Parts(path, i) == names
    decreases |names|
  {
    hide Slashed, Parts;
    if names == [] {
      NoParts(path, i);
    } else {
      SlashedStarts(names);
      FirstPart(path, i, names[0], Slashed(names[1..]));
      PartsOfSlashed(path, i + 1 + |names[0]|, names[1..]);
    }
  }

  /** The first part of a printed path, and what is left after it. */
  lemma FirstPart(path: bytes, i: nat, n: bytes, tail: bytes)
    requires i <= |path| && path[i..] == [SLASH] + n + tail && n != [] && SLASH !in n && (tail == [] || tail[0] == SLASH)
    ensures var j := i + 1 + |n|;
            j <= |path| && path[j..] == tail && Parts(path, i) == [n] + Parts(path, j)
  {
    hide Parts;
    var j := i + 1 + |n|;
    PartBytes(path, i, n, tail);
    NextByte(path, j);
    SlashAt(path, i + 1, j);
    PartsStep(path, i, j);
  }

  lemma NextByte(path: bytes, j: nat)
    requires j <= |path|
    ensures j < |path| ==> path[j..] != [] && path[j] == path[j..][0]
  {
  }

  lemma SlashedStarts(names: seq<bytes>)
    requires names != []
    ensures Slashed(names) == [SLASH] + names[0] + Slashed(names[1..])
    ensures Slashed(names[1..]) == [] || Slashed(names[1..])[0] == SLASH
  {
  }

  lemma PartsStep(path: bytes, i: nat, j: nat)
    requires i + 1 < j <= |path| && path[i] == SLASH != path[i + 1] && NextSlash(path, i + 1) == j
    ensures Parts(path, i) == [path[i + 1..j]] + Parts(path, j)
  {
    hide NextSlash;
    assert SkipSlashes(path, i) == SkipSlashes(path, i + 1) == i + 1;
  }

  lemma NoParts(path: bytes, i: nat)
    requires i <= |path| && path[i..] == Slashed([])
    ensures Parts(path, i) == []
  {
  }

  lemma PartBytes(path: bytes, i: nat, n: bytes, tail: bytes)
    requires i <= |path| && path[i..] == [SLASH] + n + tail && n != [] && SLASH !in n
    ensures var j := i + 1 + |n|;
            && j <= |path| && path[i] == SLASH && path[i + 1..j] == n && path[j..] == tail
            && (forall k :: i + 1 <= k < j ==> path[k] != SLASH)
  {
    var j := i + 1 + |n|;
    var p := path[i..];
    assert p[0] == SLASH && p[1..1 + |n|] == n && p[1 + |n|..] == tail;
    assert path[i + 1..j] == p[1..1 + |n|] && path[j..] == p[1 + |n|..];
    forall k | i + 1 <= k < j
      ensures path[k] != SLASH
    {
      assert path[k] == path[i + 1..j][k - i - 1];
    }
  }

  lemma {:induction false} SlashAt(path: bytes, i: nat, j: nat)
    requires i <= j <= |path| && (forall k :: i <= k < j ==> path[k] != SLASH) && (j < |path| ==> path[j] == SLASH)
    ensures NextSlash(path, i) == j
    decreases j - i
  {
    if i < j {
      SlashAt(path, i + 1, j);
    }
  }

  /** Parsing the printed path of a node finds the node. */
  lemma PathRoundTrip(x: Items, p: Pos)
    requires x.NodeItem? && x.name == [] && Unambiguous(x.kids)
    requires Has(x, p) && Get(x, p).NodeItem? && !p.Next?
    ensures var path := PathOf(Chain(x, p)); path != [] && path[0] == SLASH && Resolve(x, Parts(path, 0)) == Some(p)
  {
    hide Resolve, Joined, Parts;
    ChainResolves(x, p);
    var names := Chain(x, p)[1..];
    assert Chain(x, p) == [[]] + names by { ChainHead(x, p); }
    JoinedSlashed(names);
    var path := PathOf(Chain(x, p));
    if names == [] {
      RootParts();
      assert path == [SLASH];
    } else {
      assert path == Slashed(names);
      PartsOfSlashed(path, 0, names);
    }
  }

  lemma ChainHead(x: Items, p: Pos)
    requires x.NodeItem? && Has(x, p) && Get(x, p).NodeItem? && !p.Next?
    ensures Chain(x, p)[0] == x.name
  {
  }

  lemma RootParts()
    ensures Parts([SLASH], 0) == []
  {
    assert SkipSlashes([SLASH], 0) == SkipSlashes([SLASH], 1) == 1;
  }

  lemma {:induction false} UnambiguousNames(x: Items)
    requires Unambiguous(x)
    ensures NamesOk(x)
  {
    match x
    case Done =>
    case NodeItem(_, kids, rest) =>
      UnambiguousNames(kids);
      UnambiguousNames(rest);
    case _ => UnambiguousNames(x.rest);
  }

  /** fdt_path_offset of what fdt_get_path prints for a node is that node. */
  method PathThereAndBack(fdt: Blob, nodeoffset: nat, buf: array<byte>, ghost p: Pos) returns (r: int)
    requires fdt.ValidTree() && buf != fdt.buf && !p.Next?
    requires fdt.tree.NodeItem? && fdt.tree.name == [] && Unambiguous(fdt.tree.kids) && fdt.tree.rest.Done?
    requires Has(fdt.tree, p) && Get(fdt.tree, p).NodeItem? && nodeoffset == Off(fdt.tree, p)
    modifies buf
    ensures r == if |PathOf(Chain(fdt.tree, p))| + 1 <= buf.Length then nodeoffset else -ERR_NOSPACE
  {
    hide Resolve, Joined, Parts, PathOf, Unambiguous, Chain, Blob.Block, Blob.Tab, EncAt, Flat, Off;
    UnambiguousNames(fdt.tree.kids);
    PathRoundTrip(fdt.tree, p);
    ghost var path := PathOf(Chain(fdt.tree, p));
    r := GetPath(fdt, nodeoffset, buf, p);
    if r != 0 {
      return;
    }
    ChainClean(fdt.Block(), 0, fdt.Tab(), fdt.tree, p, LAST);
    JoinedClean(Chain(fdt.tree, p));
    PathClean(Chain(fdt.tree, p));
    var len := StringLength(buf, path);
    r := PathOffset(fdt, buf[..len]);
  }

  /** The names of a valid tree have no NUL in them. */
  lemma {:induction false} ChainClean(s: bytes, off: nat, ns: Names, x: Items, p: Pos, post: Tokens)
    requires Has(x, p) && Get(x, p).NodeItem? && EncAt(s, off, ns, Flat(x, post))
    ensures forall i :: 0 <= i < |Chain(x, p)| ==> 0 !in Chain(x, p)[i]
    decreases p
  {
    hide EncAt, TokLen, HeadSize, Flat, StringAt;
    match p
    case Here =>
      EncEnterNode(s, off, ns, x, post);
    case Next(q) =>
      EncSkipHead(s, off, ns, x, post);
      ChainClean(s, off + HeadSize(x), ns, x.rest, q, post);
    case Down(q) =>
      EncEnterNode(s, off, ns, x, post);
      ChainClean(s, off + TokLen(Begin(x.name)), ns, x.kids, q, Cons(EndNode, Flat(x.rest, post)));
      assert Chain(x, p) == [x.name] + Chain(x.kids, q);
  }

  lemma {:induction false} JoinedClean(names: seq<bytes>)
    requires forall i :: 0 <= i < |names| ==> 0 !in names[i]
    ensures 0 !in Joined(names)
  {
    if names != [] {
      JoinedClean(names[..|names| - 1]);
    }
  }

  lemma PathClean(names: seq<bytes>)
    requires 0 !in Joined(names)
    ensures 0 !in PathOf(names)
  {
    hide Joined;
  }

  /** strlen of what fdt_get_path wrote. */
  method StringLength(buf: array<byte>, ghost path: bytes) returns (n: nat)
    requires |path| + 1 <= buf.Length && buf[..|path| + 1] == path + [0] && 0 !in path
    ensures n <= buf.Length && buf[..n] == path
  {
    n := 0;
    assert forall i :: 0 <= i <= |path| ==> buf[i] == (path + [0])[i];
    while buf[n] != 0
      invariant n <= |path|
      decreases |path| - n
    {
      assert buf[n] == path[n];
      n := n + 1;
    }
    assert n == |path|;
    assert buf[..n] == buf[..|path| + 1][..n];
  }
}
