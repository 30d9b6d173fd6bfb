/**
 Walks over all nodes of a tree with fdt_next_node: the order and depth in
 which they are visited, ancestors (fdt_supernode_atdepth_offset and what is
 built on it), and the phandle searches of fdt_ro.c.
 */
module FdtWalk {
  import opened FdtFormat
  import opened FdtTree
  import opened FdtBlob
  import opened FdtCore
  import opened FdtRo
  import opened FdtEdits

  // ----------------------------------------------------------- preorder

  /** Nodes in the order of a walk, each with its offset and depth. */
  datatype Route = Stopped | Visit(off: nat, depth: int, next: Route)

  /** The nodes among and inside the items of x in preorder, followed by more. */
  function Preorder(x: Items, off: nat, depth: int, more: Route): Route
    decreases x
  {
    match x
    case Done => more
    case NodeItem(n, kids, rest) =>
      Visit(off, depth, Preorder(kids, off + TokLen(Begin(n)), depth + 1, Preorder(rest, off + HeadSize(x), depth, more)))
    case _ => Preorder(x.rest, off + HeadSize(x), depth, more)
  }

  /** The nodes that repeated calls of fdt_next_node reach over a token list. */
  function Visits(ts: Tokens, off: nat, depth: int): Route
    decreases ts
  {
    match ts
    case Nil => Stopped
    case Cons(End, _) => Stopped
    case Cons(Begin(_), rest) => Visit(off, depth + 1, Visits(rest, off + TokLen(ts.head), depth + 1))
    case Cons(EndNode, rest) => if depth - 1 < 0 then Stopped else Visits(rest, off + TokLen(EndNode), depth - 1)
    case Cons(t, rest) => Visits(rest, off + TokLen(t), depth)
  }

  lemma {:induction false} VisitsScan(ts: Tokens, off: nat, depth: int)
    ensures Visits(ts, off, depth) ==
            match Scan(ts, off, true, depth)
            case AtNode(o, d, us) => Visit(o, d, Visits(us.tail, o + TokLen(us.head), d))
            case _ => Stopped
    decreases ts
  {
    hide TokLen;
    match ts
    case Cons(EndNode, rest) => VisitsScan(rest, off + TokLen(EndNode), depth - 1);
    case Cons(Nop, rest) => VisitsScan(rest, off + TokLen(Nop), depth);
    case Cons(Prop(n, v), rest) => VisitsScan(rest, off + TokLen(Prop(n, v)), depth);
    case _ =>
  }

  /** Over a tree, the visits are the preorder of its nodes with their true depths. */
  lemma {:induction false} VisitsTree(x: Items, post: Tokens, off: nat, depth: nat)
    ensures Visits(Flat(x, post), off, depth) == Preorder(x, off, depth + 1, Visits(post, off + Size(x), depth))
    decreases x
  {
    hide TokLen, Visits, Flat, Size, HeadSize, Preorder;
    match x
    case Done =>
      NothingThere(post, off, depth + 1, Visits(post, off, depth));
    case NodeItem(n, kids, rest) =>
      VisitsTree(kids, Cons(EndNode, Flat(rest, post)), off + TokLen(Begin(n)), depth + 1);
      VisitsTree(rest, post, off + HeadSize(x), depth);
      VisitsNode(x, post, off, depth);
    case _ =>
      VisitsTree(x.rest, post, off + HeadSize(x), depth);
      VisitsOther(x, post, off, depth);
      PreorderOther(x, off, depth + 1, Visits(post, off + Size(x), depth));
  }

  lemma VisitsNode(x: Items, post: Tokens, off: nat, depth: nat)
    requires x.NodeItem?
    requires var i, after := off + TokLen(Begin(x.name)), Flat(x.rest, post);
             Visits(Flat(x.kids, Cons(EndNode, after)), i, depth + 1)
             == Preorder(x.kids, i, depth + 2, Visits(Cons(EndNode, after), i + Size(x.kids), depth + 1))
    requires var j := off + HeadSize(x);
             Visits(Flat(x.rest, post), j, depth) == Preorder(x.rest, j, depth + 1, Visits(post, j + Size(x.rest), depth))
    ensures Visits(Flat(x, post), off, depth) == Preorder(x, off, depth + 1, Visits(post, off + Size(x), depth))
  {
    hide TokLen, Visits, Flat, Size, HeadSize, Preorder;
    NodeSizes(x);
    PreorderNode(x, off, depth + 1, Visits(post, off + Size(x), depth));
    VisitsInto(x, post, off, depth);
    VisitsOutOf(Flat(x.rest, post), off + TokLen(Begin(x.name)) + Size(x.kids), depth);
  }

  lemma NothingThere(post: Tokens, off: nat, depth: int, more: Route)
    ensures Flat(Done, post) == post && Size(Done) == 0 && Preorder(Done, off, depth, more) == more
  {
  }

  lemma PreorderOther(x: Items, off: nat, depth: int, more: Route)
    requires x.PropItem? || x.NopItem?
    ensures Size(x) == HeadSize(x) + Size(x.rest)
    ensures Preorder(x, off, depth, more) == Preorder(x.rest, off + HeadSize(x), depth, more)
  {
  }

  lemma PreorderNode(x: Items, off: nat, depth: int, more: Route)
    requires x.NodeItem?
    ensures Preorder(x, off, depth, more) ==
            Visit(off, depth, Preorder(x.kids, off + TokLen(Begin(x.name)), depth + 1, Preorder(x.rest, off + HeadSize(x), depth, more)))
  {
  }

  lemma VisitsInto(x: Items, post: Tokens, off: nat, depth: nat)
    requires x.NodeItem?
    ensures Visits(Flat(x, post), off, depth) ==
            Visit(off, depth + 1, Visits(Flat(x.kids, Cons(EndNode, Flat(x.rest, post))), off + TokLen(Begin(x.name)), depth + 1))
  {
    hide TokLen;
  }

  lemma VisitsOutOf(after: Tokens, off: nat, depth: nat)
    ensures Visits(Cons(EndNode, after), off, depth + 1) == Visits(after, off + TokLen(EndNode), depth)
  {
    hide TokLen;
  }

  lemma VisitsOther(x: Items, post: Tokens, off: nat, depth: nat)
    requires x.PropItem? || x.NopItem?
    ensures Visits(Flat(x, post), off, depth) == Visits(Flat(x.rest, post), off + HeadSize(x), depth)
  {
    hide TokLen;
  }

  lemma NodeSizes(x: Items)
    requires x.NodeItem?
    ensures HeadSize(x) == TokLen(Begin(x.name)) + Size(x.kids) + TokLen(EndNode) && Size(x) == HeadSize(x) + Size(x.rest)
  {
  }

  /** Nodes already visited, in front of those still to come. */
  function Join(nodes: seq<(nat, int)>, more: Route): Route {
    if nodes == [] then more
    else Join(nodes[..|nodes| - 1], Visit(nodes[|nodes| - 1].0, nodes[|nodes| - 1].1, more))
  }

  /** The usual loop over all nodes: from the root, until the depth falls below zero or there is no next node. */
  method AllNodes(fdt: Blob) returns (nodes: seq<(nat, int)>)
    requires fdt.ValidTree() && fdt.tree.NodeItem?
    ensures Join(nodes, Stopped) == Visit(0, 0, Preorder(fdt.tree.kids, TokLen(Begin(fdt.tree.name)), 1, Stopped))
  {
    hide EncAt, TokLen, Scan, Visits, Preorder, Blob.Block, Blob.Tab, Flat;
    ghost var x, ts := fdt.tree, Flat(fdt.tree, LAST);
    FlatComplete(x, LAST);
    ClosesFacts(x, LAST);
    ghost var goal := Visit(0, 0, Preorder(x.kids, TokLen(Begin(x.name)), 1, Stopped));
    RootVisits(x);
    var offset, depth := 0, 0;
    nodes := [];
    while 0 <= offset && 0 <= depth
      invariant 0 <= offset && 0 <= depth ==>
                  && fdt.At(offset, ts) && Complete(ts) && ts.head.Begin?
                  && goal == Join(nodes, Visit(offset, depth, Visits(ts.tail, offset + TokLen(ts.head), depth)))
      invariant !(0 <= offset && 0 <= depth) ==> goal == Join(nodes, Stopped)
      decreases 0 <= offset && 0 <= depth, ts
    {
      assert (nodes + [(offset as nat, depth)])[..|nodes|] == nodes;
      nodes := nodes + [(offset as nat, depth)];
      ghost var stop := Scan(ts.tail, offset + TokLen(ts.head), true, depth);
      VisitsScan(ts.tail, offset + TokLen(ts.head), depth);
      ScanShrinks(ts.tail, offset + TokLen(ts.head), depth);
      ScanDepth(ts.tail, offset + TokLen(ts.head), depth);
      offset, depth := NextNode(fdt, offset, true, depth, ts);
      if stop.AtNode? {
        ts := stop.ts;
      }
    }
  }

  lemma RootVisits(x: Items)
    requires x.NodeItem?
    ensures Visits(Flat(x, LAST).tail, TokLen(Begin(x.name)), 0) == Preorder(x.kids, TokLen(Begin(x.name)), 1, Stopped)
  {
    hide TokLen;
    VisitsTree(x.kids, Cons(EndNode, Flat(x.rest, LAST)), TokLen(Begin(x.name)), 0);
  }

  /** fdt_first_subnode and fdt_next_subnode list exactly the children, in order. */
  lemma {:induction false} KidsInOrder(x: Items)
    ensures match FindNode(x, Any)
            case Some(q) => Kids(x) == [(Get(x, q).name, Get(x, q).kids)] + Kids(Get(x, q).rest)
            case None => Kids(x) == []
  {
    if x.PropItem? || x.NopItem? {
      KidsInOrder(x.rest);
    }
  }

  // ---------------------------------------------------------- ancestors

  /** The number of nodes around a place. */
  function Downs(p: Pos): nat {
    match p
    case Here => 0
    case Next(q) => Downs(q)
    case Down(q) => 1 + Downs(q)
  }

  /** The place of the node of depth k on the way to p. */
  function Above(p: Pos, k: nat): Pos {
    match p
    case Here => Here
    case Next(q) => Next(Above(q, k))
    case Down(q) => if k == 0 then Here else Down(Above(q, k - 1))
  }

  lemma {:induction false} AboveHas(x: Items, p: Pos, k: nat)
    requires Has(x, p) && k <= Downs(p)
    ensures Has(x, Above(p, k)) && Downs(Above(p, k)) == k
    ensures k < Downs(p) ==> Get(x, Above(p, k)).NodeItem?
    ensures k == Downs(p) ==> Above(p, k) == p
    decreases p
  {
    match p
    case Here =>
    case Next(q) => AboveHas(x.rest, q, k);
    case Down(q) => if k > 0 { AboveHas(x.kids, q, k - 1); }
  }

  /** What the loop of fdt_supernode_atdepth_offset finds over a token list: the target's depth and the last node of depth sd. */
  function Super(ts: Tokens, off: nat, depth: int, sd: int, target: nat, best: int): Option<(int, int)>
    decreases ts
  {
    match ts
    case Nil => None
    case Cons(End, _) => None
    case Cons(Begin(_), rest) =>
      var b := if depth + 1 == sd then off else best;
      if off > target then None
      else if off == target then Some((depth + 1, b))
      else Super(rest, off + TokLen(ts.head), depth + 1, sd, target, b)
    case Cons(EndNode, rest) => if depth - 1 < 0 then None else Super(rest, off + TokLen(EndNode), depth - 1, sd, target, best)
    case Cons(t, rest) => Super(rest, off + TokLen(t), depth, sd, target, best)
  }

  lemma {:induction false} SuperScan(ts: Tokens, off: nat, depth: int, sd: int, target: nat, best: int)
    ensures Super(ts, off, depth, sd, target, best) ==
            match Scan(ts, off, true, depth)
            case AtNode(o, d, us) => Super(us, o, d - 1, sd, target, best)
            case _ => None
    decreases ts
  {
    hide Super, Scan, TokLen;
    SuperScanStep(ts, off, depth, sd, target, best);
    if Passed(ts, depth) {
      SuperScan(ts.tail, off + TokLen(ts.head), if ts.head.EndNode? then depth - 1 else depth, sd, target, best);
    }
  }

  /** The walk goes on behind the first token. */
  predicate Passed(ts: Tokens, depth: int) {
    ts.Cons? && !ts.head.Begin? && !ts.head.End? && (ts.head.EndNode? ==> depth > 0)
  }

  lemma SuperScanStep(ts: Tokens, off: nat, depth: int, sd: int, target: nat, best: int)
    ensures Passed(ts, depth) ==>
              var o, d := off + TokLen(ts.head), if ts.head.EndNode? then depth - 1 else depth;
              && Super(ts, off, depth, sd, target, best) == Super(ts.tail, o, d, sd, target, best)
              && Scan(ts, off, true, depth) == Scan(ts.tail, o, true, d)
    ensures ts.Cons? && ts.head.Begin? ==> Scan(ts, off, true, depth) == AtNode(off, depth + 1, ts)
    ensures !Passed(ts, depth) && !(ts.Cons? && ts.head.Begin?) ==>
              Super(ts, off, depth, sd, target, best) == None && !Scan(ts, off, true, depth).AtNode?
  {
    hide TokLen;
  }

  /** The last node of depth sd among and inside the items of x, whose nodes have depth `depth`. */
  function LastAt(x: Items, off: nat, depth: int, sd: int, best: int): int
    decreases x, 1
  {
    if x.Done? then best else LastAt(x.rest, off + HeadSize(x), depth, sd, LastIn(x, off, depth, sd, best))
  }

  /** The same for the first item of x. */
  function LastIn(x: Items, off: nat, depth: int, sd: int, best: int): int
    requires !x.Done?
    decreases x, 0
  {
    if x.NodeItem? then LastAt(x.kids, off + TokLen(Begin(x.name)), depth + 1, sd, if depth == sd then off else best)
    else best
  }

  lemma {:induction false} LastAtKeeps(x: Items, off: nat, depth: int, sd: int, best: int)
    requires sd < depth
    ensures LastAt(x, off, depth, sd, best) == best
    ensures !x.Done? ==> LastIn(x, off, depth, sd, best) == best
    decreases x
  {
    hide HeadSize, TokLen;
    if x.NodeItem? {
      LastAtKeeps(x.kids, off + TokLen(Begin(x.name)), depth + 1, sd, best);
    }
    if !x.Done? {
      LastAtKeeps(x.rest, off + HeadSize(x), depth, sd, best);
    }
  }

  lemma {:induction false} SuperPasses(x: Items, post: Tokens, off: nat, depth: nat, sd: int, target: nat, best: int)
    requires off + Size(x) <= target
    ensures Super(Flat(x, post), off, depth, sd, target, best) ==
            Super(post, off + Size(x), depth, sd, target, LastAt(x, off, depth + 1, sd, best))
    decreases x, 1
  {
    hide Super, HeadSize, LastIn;
    if !x.Done? {
      SuperPassesHead(x, post, off, depth, sd, target, best);
      SuperPasses(x.rest, post, off + HeadSize(x), depth, sd, target, LastIn(x, off, depth + 1, sd, best));
    }
  }

  lemma {:induction false} SuperPassesHead(x: Items, post: Tokens, off: nat, depth: nat, sd: int, target: nat, best: int)
    requires !x.Done? && off + HeadSize(x) <= target
    ensures Super(Flat(x, post), off, depth, sd, target, best) ==
            Super(Flat(x.rest, post), off + HeadSize(x), depth, sd, target, LastIn(x, off, depth + 1, sd, best))
    decreases x, 0, 1
  {
    hide TokLen, Size, LastAt, LastIn, HeadSize, Super, Flat;
    if x.NodeItem? {
      SuperPassesNode(x, post, off, depth, sd, target, best);
    } else {
      SuperPassesLeaf(x, post, off, depth, sd, target, best);
    }
  }

  lemma SuperPassesLeaf(x: Items, post: Tokens, off: nat, depth: nat, sd: int, target: nat, best: int)
    requires !x.Done? && !x.NodeItem? && off + HeadSize(x) <= target
    ensures Super(Flat(x, post), off, depth, sd, target, best) ==
            Super(Flat(x.rest, post), off + HeadSize(x), depth, sd, target, LastIn(x, off, depth + 1, sd, best))
  {
    hide TokLen, Size, LastAt;
  }

  lemma {:induction false} SuperPassesNode(x: Items, post: Tokens, off: nat, depth: nat, sd: int, target: nat, best: int)
    requires x.NodeItem? && off + HeadSize(x) <= target
    ensures Super(Flat(x, post), off, depth, sd, target, best) ==
            Super(Flat(x.rest, post), off + HeadSize(x), depth, sd, target, LastIn(x, off, depth + 1, sd, best))
    decreases x, 0, 0
  {
    hide TokLen, Size, LastAt, Super, Flat;
    var i, b := off + TokLen(Begin(x.name)), if depth + 1 == sd then off else best;
    var after := Flat(x.rest, post);
    SuperInto(x, post, off, depth, sd, target, best);
    SuperPasses(x.kids, Cons(EndNode, after), i, depth + 1, sd, target, b);
    SuperOutOf(after, i + Size(x.kids), depth, sd, target, LastAt(x.kids, i, depth + 2, sd, b));
  }

  lemma SuperInto(x: Items, post: Tokens, off: nat, depth: nat, sd: int, target: nat, best: int)
    requires x.NodeItem? && off < target
    ensures Super(Flat(x, post), off, depth, sd, target, best) ==
            Super(Flat(x.kids, Cons(EndNode, Flat(x.rest, post))), off + TokLen(Begin(x.name)), depth + 1, sd, target,
                  if depth + 1 == sd then off else best)
  {
    hide TokLen;
  }

  lemma SuperOutOf(after: Tokens, off: nat, depth: nat, sd: int, target: nat, best: int)
    ensures Super(Cons(EndNode, after), off, depth + 1, sd, target, best) == Super(after, off + TokLen(EndNode), depth, sd, target, best)
  {
    hide TokLen;
  }

  lemma SuperHere(x: Items, post: Tokens, off: nat, depth: nat, sd: int, best: int)
    requires x.NodeItem?
    ensures Super(Flat(x, post), off, depth, sd, off, best) == Some((depth + 1, if depth + 1 == sd then off else best))
  {
    hide TokLen;
  }

  /** At the offset of a node, the walk knows its depth and the offsets of all its ancestors. */
  lemma {:induction false} SuperFinds(x: Items, p: Pos, post: Tokens, off: nat, depth: nat, sd: int, best: int)
    requires Has(x, p) && Get(x, p).NodeItem?
    ensures var r := Super(Flat(x, post), off, depth, sd, off + Off(x, p), best);
            && r.Some? && r.value.0 == depth + 1 + Downs(p)
            && (sd <= depth ==> r.value.1 == best)
            && (depth < sd <= depth + 1 + Downs(p) ==>
                  Has(x, Above(p, sd - depth - 1)) && r.value.1 == off + Off(x, Above(p, sd - depth - 1)))
    decreases p
  {
    hide TokLen, HeadSize, Size, LastAt, LastIn, Super, Flat;
    match p
    case Here =>
      SuperHere(x, post, off, depth, sd, best);
    case Next(q) =>
      SuperPassesHead(x, post, off, depth, sd, off + Off(x, p), best);
      if sd <= depth {
        LastAtKeeps(x, off, depth + 1, sd, best);
      }
      SuperFinds(x.rest, q, post, off + HeadSize(x), depth, sd, LastIn(x, off, depth + 1, sd, best));
      AboveHas(x.rest, q, if depth < sd <= depth + 1 + Downs(p) then sd - depth - 1 else 0);
    case Down(q) =>
      SuperInto(x, post, off, depth, sd, off + Off(x, p), best);
      SuperFinds(x.kids, q, Cons(EndNode, Flat(x.rest, post)), off + TokLen(Begin(x.name)), depth + 1, sd,
                 if depth + 1 == sd then off else best);
      AboveHas(x.kids, q, if depth + 1 < sd <= depth + 1 + Downs(p) then sd - depth - 2 else 0);
  }

  /** fdt_supernode_atdepth_offset, for the node at p: the offset of its ancestor of that depth, and its own depth. */
  method SupernodeAtDepth(fdt: Blob, nodeoffset: nat, sd: int, ghost p: Pos) returns (r: int, nodedepth: int)
    requires fdt.ValidTree() && fdt.tree.NodeItem? && !p.Next?
    requires Has(fdt.tree, p) && Get(fdt.tree, p).NodeItem? && nodeoffset == Off(fdt.tree, p)
    ensures sd < 0 ==> r == -ERR_NOTFOUND
    ensures 0 <= sd ==> nodedepth == Downs(p)
    ensures 0 <= sd <= Downs(p) ==> Has(fdt.tree, Above(p, sd)) && r == Off(fdt.tree, Above(p, sd))
    ensures Downs(p) < sd ==> r == -ERR_NOTFOUND
  {
    hide EncAt, TokLen, Scan, Super, Blob.Block, Blob.Tab, Flat, Off;
    ghost var x, ts := fdt.tree, Flat(fdt.tree, LAST);
    FlatComplete(x, LAST);
    ClosesFacts(x, LAST);
    nodedepth := 0;
    if sd < 0 {
      return -ERR_NOTFOUND, nodedepth;
    }
    RootFinds(x, p, sd);
    var supernodeoffset, offset, depth := -ERR_INTERNAL, 0, 0;
    while 0 <= offset <= nodeoffset
      invariant 0 <= offset && 0 <= depth && fdt.At(offset, ts) && Complete(ts) && ts.head.Begin?
      invariant Super(ts, offset, depth - 1, sd, nodeoffset, supernodeoffset) == Super(Flat(x, LAST), 0, -1, sd, nodeoffset, -ERR_INTERNAL)
      invariant Super(ts, offset, depth - 1, sd, nodeoffset, supernodeoffset).Some?
      decreases ts
    {
      SuperStep(ts, offset, depth, sd, nodeoffset, supernodeoffset);
      if depth == sd {
        supernodeoffset := offset;
      }
      if offset == nodeoffset {
        nodedepth := depth;
        if sd > depth {
          return -ERR_NOTFOUND, nodedepth;
        } else {
          return supernodeoffset, nodedepth;
        }
      }
      ghost var stop := Scan(ts.tail, offset + TokLen(ts.head), true, depth);
      SuperScan(ts.tail, offset + TokLen(ts.head), depth, sd, nodeoffset, supernodeoffset);
      ScanShrinks(ts.tail, offset + TokLen(ts.head), depth);
      ScanDepth(ts.tail, offset + TokLen(ts.head), depth);
      offset, depth := NextNode(fdt, offset, true, depth, ts);
      ts := stop.ts;
    }
    SuperPast(ts, offset, depth - 1, sd, nodeoffset, supernodeoffset);
  }

  lemma SuperStep(ts: Tokens, off: nat, depth: nat, sd: int, target: nat, best: int)
    requires ts.Cons? && ts.head.Begin? && Super(ts, off, depth - 1, sd, target, best).Some?
    ensures off <= target
    ensures var b := if depth == sd then off else best;
            Super(ts, off, depth - 1, sd, target, best) ==
            if off == target then Some((depth as int, b)) else Super(ts.tail, off + TokLen(ts.head), depth, sd, target, b)
  {
  }

  lemma SuperPast(ts: Tokens, off: nat, depth: int, sd: int, target: nat, best: int)
    requires ts.Cons? && ts.head.Begin? && Super(ts, off, depth, sd, target, best).Some?
    ensures off <= target
  {
  }

  lemma RootFinds(x: Items, p: Pos, sd: nat)
    requires x.NodeItem? && !p.Next? && Has(x, p) && Get(x, p).NodeItem?
    ensures Has(x, Above(p, sd)) || sd > Downs(p)
    ensures var r := Super(Flat(x, LAST), 0, -1, sd, Off(x, p), -ERR_INTERNAL);
            && r.Some? && r.value.0 == Downs(p)
            && (sd <= Downs(p) ==> r.value.1 == Off(x, Above(p, sd)))
  {
    hide HeadSize, Size;
    if sd <= Downs(p) {
      AboveHas(x, p, sd);
    }
    if p.Down? {
      var i := TokLen(Begin(x.name));
      SuperFinds(x.kids, p.p, Cons(EndNode, Flat(x.rest, LAST)), i, 0, sd, if sd == 0 then 0 else -ERR_INTERNAL);
    }
  }

  /** fdt_node_depth */
  method NodeDepth(fdt: Blob, nodeoffset: nat, ghost p: Pos) returns (r: int)
    requires fdt.ValidTree() && fdt.tree.NodeItem? && !p.Next?
    requires Has(fdt.tree, p) && Get(fdt.tree, p).NodeItem? && nodeoffset == Off(fdt.tree, p)
    ensures r == Downs(p)
  {
    var err, nodedepth := SupernodeAtDepth(fdt, nodeoffset, 0, p);
    RootAbove(fdt.tree, p);
    if err != 0 {
      return if err < 0 then err else -ERR_INTERNAL;
    }
    r := nodedepth;
  }

  lemma RootAbove(x: Items, p: Pos)
    requires Has(x, p) && !p.Next?
    ensures Above(p, 0) == Here && Off(x, Here) == 0
  {
  }

  /** fdt_parent_offset: the node around p; the root has none. */
  method ParentOffset(fdt: Blob, nodeoffset: nat, ghost p: Pos) returns (r: int)
    requires fdt.ValidTree() && fdt.tree.NodeItem? && !p.Next?
    requires Has(fdt.tree, p) && Get(fdt.tree, p).NodeItem? && nodeoffset == Off(fdt.tree, p)
    ensures p.Here? ==> r == -ERR_NOTFOUND
    ensures p.Down? ==> Has(fdt.tree, Above(p, Downs(p) - 1)) && r == Off(fdt.tree, Above(p, Downs(p) - 1))
  {
    hide EncAt, Flat, Off, Get, Has, Above, Blob.Block, Blob.Tab;
    var nodedepth := NodeDepth(fdt, nodeoffset, p);
    if nodedepth < 0 {
      return nodedepth;
    }
    r, nodedepth := SupernodeAtDepth(fdt, nodeoffset, nodedepth - 1, p);
  }

  /** That place is the parent: p is one of the items inside it. */
  lemma {:induction false} AboveIsParent(p: Pos) returns (q: Pos)
    requires Downs(p) > 0
    ensures p == Then(Above(p, Downs(p) - 1), Down(q)) && Downs(q) == 0
    decreases p
  {
    match p
    case Next(r) => q := AboveIsParent(r);
    case Down(r) =>
      if Downs(r) == 0 {
        q := r;
      } else {
        q := AboveIsParent(r);
      }
  }
}
