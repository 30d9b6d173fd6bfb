/**
 fdt_overlay.c, merging: a node of an overlay is applied to a node of the base
 tree by fdt_setprop and fdt_add_subnode, recursively. The result is proved to
 be a recursive merge of the two trees, and lemmas say what that merge means.
 */
module FdtOverlay {
  import opened Bytes
  import opened FdtFormat
  import opened FdtTree
  import opened FdtBlob
  import opened FdtCore
  import opened FdtRo
  import opened FdtWip
  import opened FdtRw
  import opened FdtEdits
  import opened FdtWalk
  import opened FdtPath

  // -------------------------------------------------------- the merged tree

  /** The overlay's leading properties, set one after the other. */
  function ApplyProps(kids: Items, over: Items): Items
    decreases over
  {
    match over
    case PropItem(name, value, rest) => ApplyProps(SetProp(kids, name, value), rest)
    case NopItem(rest) => ApplyProps(kids, rest)
    case _ => kids
  }

  /** The child that matches a name, made first if there is none. */
  function Placed(kids: Items, name: bytes): (r: (Items, Pos))
    ensures Has(r.0, r.1) && Get(r.0, r.1).NodeItem?
  {
    match FindNode(kids, Named(name))
    case Some(q) => (kids, q)
    case None =>
      PutAt(kids, AfterProps(kids), NodeItem(name, Done, Get(kids, AfterProps(kids))), Nil);
      (AddKid(kids, name), AfterProps(kids))
  }

  /** A child of the overlay merged into the child that its name matches. */
  function ApplyKid(kids: Items, name: bytes, over: Items): Items
    decreases over, 2
  {
    var (k, q) := Placed(kids, name);
    var child := Get(k, q);
    Put(k, q, NodeItem(child.name, Merge(child.kids, over), child.rest))
  }

  function ApplyKids(kids: Items, over: Items): Items
    decreases over, 0
  {
    match over
    case Done => kids
    case NodeItem(name, inner, rest) => ApplyKids(ApplyKid(kids, name, inner), rest)
    case _ => ApplyKids(kids, over.rest)
  }

  /** The contents of a base node after the contents of an overlay node are applied to it. */
  function Merge(kids: Items, over: Items): Items
    decreases over, 1
  {
    ApplyKids(ApplyProps(kids, over), over)
  }

  lemma {:induction false} PropsSkipNops(kids: Items, over: Items, off: nat)
    ensures ApplyProps(kids, over) ==
            match FirstProp(over, off) case Some(f) => ApplyProps(kids, f.1) case None => kids
  {
    hide HeadSize;
    if over.NopItem? {
      PropsSkipNops(kids, over.rest, off + HeadSize(over));
    }
  }

  lemma {:induction false} KidsSkipOthers(kids: Items, over: Items)
    ensures ApplyKids(kids, over) ==
            match FindNode(over, Any) case Some(q) => ApplyKids(kids, Get(over, q)) case None => kids
  {
    hide ApplyKid;
    if over.PropItem? || over.NopItem? {
      KidsSkipOthers(kids, over.rest);
    }
  }

  // ------------------------------------------------------------ what it means

  /** The name and contents of the child that a lookup finds. */
  function Child(kids: Items, s: bytes): Option<(bytes, Items)> {
    match FindNode(kids, Named(s))
    case Some(q) => Some((Get(kids, q).name, Get(kids, q).kids))
    case None => None
  }

  /** A child with the contents of an overlay node of some name merged in, or a new child. */
  function Merged(child: Option<(bytes, Items)>, name: bytes, over: Items): Option<(bytes, Items)> {
    match child
    case Some(c) => Some((c.0, Merge(c.1, over)))
    case None => Some((name, Merge(Done, over)))
  }

  /** A lookup depends on the list of children alone. */
  function ChildIn(list: seq<(bytes, Items)>, s: bytes): Option<(bytes, Items)> {
    if list == [] then None else if NameEq(list[0].0, s) then Some(list[0]) else ChildIn(list[1..], s)
  }

  lemma {:induction false} ChildIsChildIn(kids: Items, s: bytes)
    ensures Child(kids, s) == ChildIn(Kids(kids), s)
  {
    hide NameEq;
    match kids
    case Done =>
    case NodeItem(name, inner, rest) =>
      ChildIsChildIn(rest, s);
      assert Kids(kids)[1..] == Kids(rest);
    case _ => ChildIsChildIn(kids.rest, s);
  }

  /** A name cannot be matched by two names that are apart. */
  lemma MatchedOnce(m: bytes, a: bytes, b: bytes)
    requires NameEq(m, a) && NameEq(m, b)
    ensures !Apart(a, b)
  {
    assert |a| < |b| ==> b[|a|] == m[..|b|][|a|] == m[|a|];
    assert |b| < |a| ==> a[|b|] == m[..|a|][|b|] == m[|b|];
  }

  /** Merging into one child does not change what is found under a name apart from it. */
  lemma KidAppliedElsewhere(kids: Items, name: bytes, over: Items, s: bytes)
    requires Apart(name, s)
    ensures Child(ApplyKid(kids, name, over), s) == Child(kids, s)
  {
    hide Merge, NameEq;
    match FindNode(kids, Named(name))
    case Some(q) =>
      var child := Get(kids, q);
      ChangedElsewhere(kids, name, q, Merge(child.kids, over), s);
    case None =>
      var k, q := AddKid(kids, name), AfterProps(kids);
      PutAt(kids, q, NodeItem(name, Done, Get(kids, q)), Nil);
      ChildAddedElsewhere(kids, name, Merge(Done, over), s);
  }

  lemma {:induction false} ChangedElsewhere(kids: Items, name: bytes, q: Pos, inner: Items, s: bytes)
    requires FindNode(kids, Named(name)) == Some(q) && Apart(name, s)
    ensures Child(Put(kids, q, NodeItem(Get(kids, q).name, inner, Get(kids, q).rest)), s) == Child(kids, s)
    decreases q
  {
    hide NameEq;
    if q.Here? {
      if NameEq(kids.name, s) {
        MatchedOnce(kids.name, name, s);
      }
    } else {
      ChangedElsewhere(kids.rest, name, q.p, inner, s);
    }
  }

  lemma {:induction false} ChildAddedElsewhere(kids: Items, name: bytes, inner: Items, s: bytes)
    requires !NameEq(name, s)
    ensures Child(Put(kids, AfterProps(kids), NodeItem(name, inner, Get(kids, AfterProps(kids)))), s) == Child(kids, s)
  {
    hide NameEq;
    if kids.PropItem? || kids.NopItem? {
      ChildAddedElsewhere(kids.rest, name, inner, s);
    }
  }

  /** Merging into one child: a lookup of that name finds it, under its old name if it was there. */
  lemma KidApplied(kids: Items, name: bytes, over: Items)
    ensures Child(ApplyKid(kids, name, over), name) == Merged(Child(kids, name), name, over)
  {
    hide Merge;
    match FindNode(kids, Named(name))
    case Some(q) =>
      ChangedHere(kids, name, q, Merge(Get(kids, q).kids, over));
    case None =>
      var q := AfterProps(kids);
      PutAt(kids, q, NodeItem(name, Done, Get(kids, q)), Nil);
      ChildAddedHere(kids, name, Merge(Done, over));
  }

  lemma {:induction false} ChangedHere(kids: Items, name: bytes, q: Pos, inner: Items)
    requires FindNode(kids, Named(name)) == Some(q)
    ensures Child(Put(kids, q, NodeItem(Get(kids, q).name, inner, Get(kids, q).rest)), name) == Some((Get(kids, q).name, inner))
    decreases q
  {
    hide NameEq;
    if !q.Here? {
      ChangedHere(kids.rest, name, q.p, inner);
    }
  }

  lemma {:induction false} ChildAddedHere(kids: Items, name: bytes, inner: Items)
    ensures Child(Put(kids, AfterProps(kids), NodeItem(name, inner, Get(kids, AfterProps(kids)))), name) == Some((name, inner))
  {
    if kids.PropItem? || kids.NopItem? {
      ChildAddedHere(kids.rest, name, inner);
    }
  }

  /** A child whose name is apart from those of the overlay's children stays as it was. */
  lemma {:induction false} OtherChildren(kids: Items, over: Items, s: bytes)
    requires ApartFrom(over, s)
    ensures Child(ApplyKids(kids, over), s) == Child(kids, s)
    decreases over
  {
    hide ApplyKid, Apart, Child;
    match over
    case Done =>
    case NodeItem(name, inner, rest) =>
      OtherChildren(ApplyKid(kids, name, inner), rest, s);
      KidAppliedElsewhere(kids, name, inner, s);
    case _ => OtherChildren(kids, over.rest, s);
  }

  /** No two children among the items of x are confused with each other. */
  predicate SiblingsApart(x: Items) {
    match x
    case Done => true
    case NodeItem(name, _, rest) => ApartFrom(rest, name) && SiblingsApart(rest)
    case _ => SiblingsApart(x.rest)
  }

  lemma ApartSym(a: bytes, b: bytes)
    ensures Apart(a, b) == Apart(b, a)
  {
  }

  /** Each child of the overlay is merged into the base child that its name matches, or added. */
  lemma {:induction false} MergedChildren(kids: Items, over: Items, q: Pos)
    requires SiblingsApart(over) && Has(over, q) && Downs(q) == 0 && Get(over, q).NodeItem?
    ensures var o := Get(over, q);
            Child(ApplyKids(kids, over), o.name) == Merged(Child(kids, o.name), o.name, o.kids)
    decreases over
  {
    hide ApplyKid, Apart, Child, Merge;
    match q
    case Here =>
      KidApplied(kids, over.name, over.kids);
      OtherChildren(ApplyKid(kids, over.name, over.kids), over.rest, over.name);
    case Next(r) =>
      if over.NodeItem? {
        MergedChildren(ApplyKid(kids, over.name, over.kids), over.rest, r);
        ApartAt(over.rest, over.name, r);
        ApartSym(Get(over, q).name, over.name);
        KidAppliedElsewhere(kids, over.name, over.kids, Get(over, q).name);
      } else {
        MergedChildren(kids, over.rest, r);
      }
  }

  /** The last of the leading properties of a name, which is the one that stays when all are set. */
  function LastValue(over: Items, name: bytes): Option<bytes> {
    match over
    case PropItem(n, v, rest) =>
      if LastValue(rest, name).Some? then LastValue(rest, name) else if n == name then Some(v) else None
    case NopItem(rest) => LastValue(rest, name)
    case _ => None
  }

  lemma {:induction false} PropsApplied(kids: Items, over: Items, name: bytes)
    ensures ValueOf(ApplyProps(kids, over), name) ==
            match LastValue(over, name) case Some(v) => Some(v) case None => ValueOf(kids, name)
    ensures Kids(ApplyProps(kids, over)) == Kids(kids)
    decreases over
  {
    hide ValueOf, SetProp, Kids;
    match over
    case PropItem(n, v, rest) =>
      PropsApplied(SetProp(kids, n, v), rest, name);
      SetPropMeans(kids, n, v, if n == name then n + [0] else name);
    case NopItem(rest) => PropsApplied(kids, rest, name);
    case _ =>
  }

  /** Applying children does not touch the node's own properties. */
  lemma {:induction false} KidsKeepProps(kids: Items, over: Items, name: bytes)
    ensures ValueOf(ApplyKids(kids, over), name) == ValueOf(kids, name)
    decreases over
  {
    hide ApplyKid, ValueOf;
    match over
    case Done =>
    case NodeItem(n, inner, rest) =>
      KidsKeepProps(ApplyKid(kids, n, inner), rest, name);
      KidKeepsProps(kids, n, inner, name);
    case _ => KidsKeepProps(kids, over.rest, name);
  }

  lemma KidKeepsProps(kids: Items, n: bytes, inner: Items, name: bytes)
    ensures ValueOf(ApplyKid(kids, n, inner), name) == ValueOf(kids, name)
  {
    hide Merge;
    var (k, q) := Placed(kids, n);
    if FindNode(kids, Named(n)).None? {
      AddKidMeans(kids, n, name);
    }
    NodeKeepsProps(k, q, NodeItem(Get(k, q).name, Merge(Get(k, q).kids, inner), Get(k, q).rest), name);
  }

  lemma {:induction false} NodeKeepsProps(k: Items, q: Pos, y: Items, name: bytes)
    requires Has(k, q) && Get(k, q).NodeItem? && y.NodeItem?
    ensures ValueOf(Put(k, q, y), name) == ValueOf(k, name)
    decreases q
  {
    match q
    case Here =>
    case Next(r) => NodeKeepsProps(k.rest, r, y, name);
    case Down(r) =>
  }

  /**
   What merging means: the overlay's values win over the base's; each of its
   children is merged into the child its name matches, or added; and
   everything else in the base node stays.
   */
  lemma MergeMeans(kids: Items, over: Items, prop: bytes, q: Pos, s: bytes)
    ensures ValueOf(Merge(kids, over), prop) ==
            match LastValue(over, prop) case Some(v) => Some(v) case None => ValueOf(kids, prop)
    ensures SiblingsApart(over) && Has(over, q) && Downs(q) == 0 && Get(over, q).NodeItem? ==>
              var o := Get(over, q);
              Child(Merge(kids, over), o.name) == Merged(Child(kids, o.name), o.name, o.kids)
    ensures ApartFrom(over, s) ==> Child(Merge(kids, over), s) == Child(kids, s)
  {
    var k := ApplyProps(kids, over);
    assert Merge(kids, over) == ApplyKids(k, over);
    hide ApplyProps, ApplyKids, Child, Apart, ApartFrom, ValueOf, Merge;
    PropsApplied(kids, over, prop);
    KidsKeepProps(k, over, prop);
    ChildIsChildIn(k, s);
    ChildIsChildIn(kids, s);
    if ApartFrom(over, s) {
      OtherChildren(k, over, s);
    }
    if SiblingsApart(over) && Has(over, q) && Downs(q) == 0 && Get(over, q).NodeItem? {
      MergedChildren(k, over, q);
      ChildIsChildIn(k, Get(over, q).name);
      ChildIsChildIn(kids, Get(over, q).name);
    }
  }

  // ------------------------------------------------------------- the code

  /** The matched or added child as a place of the edited tree. */
  lemma PlacedAt(tree: Items, p: Pos, name: bytes)
    requires Has(tree, p) && Get(tree, p).NodeItem?
    ensures var x := Get(tree, p);
            var (k, q) := Placed(x.kids, name);
            var after, pq := Put(tree, p, x.(kids := k)), Then(p, Down(q));
            && Has(after, p) && Get(after, p) == x.(kids := k)
            && Has(after, pq) && Get(after, pq) == Get(k, q)
            && Off(after, pq) == Off(tree, p) + (TokLen(Begin(x.name)) + Off(k, q))
            && (FindNode(x.kids, Named(name)).Some? ==> after == tree)
            && (FindNode(x.kids, Named(name)).None? ==> Off(k, q) == Off(x.kids, q))
            && forall y :: Put(after, pq, y) == Put(tree, p, x.(kids := Put(k, q, y)))
  {
    hide Off, Post, FindNode;
    var x := Get(tree, p);
    var (k, q) := Placed(x.kids, name);
    var after := Put(tree, p, x.(kids := k));
    PutAt(tree, p, x.(kids := k), LAST);
    ThenAt(after, p, Down(q), LAST);
    OffDown(x.(kids := k), q);
    PutAt(x.kids, AfterProps(x.kids), NodeItem(name, Done, Get(x.kids, AfterProps(x.kids))), Nil);
  }

  lemma OffDown(x: Items, q: Pos)
    requires x.NodeItem? && Has(x.kids, q)
    ensures Off(x, Down(q)) == TokLen(Begin(x.name)) + Off(x.kids, q)
  {
  }

  // ------------------------------------------------------- enough space

  /** The most bytes that the properties before any child can add to the base. */
  function PropsRoom(x: Items): nat {
    match x
    case PropItem(name, v, rest) => PropRoom(name, |v|) + PropsRoom(rest)
    case NopItem(rest) => PropsRoom(rest)
    case _ => 0
  }

  /** The most bytes that the children can add. */
  function KidsRoom(x: Items): nat
    decreases x, 0
  {
    match x
    case Done => 0
    case NodeItem(name, kids, rest) => NodeRoom(name) + MergeRoom(kids) + KidsRoom(rest)
    case _ => KidsRoom(x.rest)
  }

  /** The most bytes that merging a node's contents can add. */
  function MergeRoom(over: Items): nat
    decreases over, 1
  {
    PropsRoom(over) + KidsRoom(over)
  }

  /** A step that may add room bytes to was: it fails only for want of space, and then they do not all fit. */
  predicate Charged(was: nat, now: nat, room: nat, total: nat, r: int) {
    now <= was + room && (r != 0 ==> r == -ERR_NOSPACE && was + room > total)
  }

  lemma {:induction false} PropsRoomSkips(x: Items, off: nat)
    ensures PropsRoom(x) == match FirstProp(x, off) case Some(f) => PropsRoom(f.1) case None => 0
  {
    hide HeadSize, PropRoom;
    if x.NopItem? {
      PropsRoomSkips(x.rest, off + HeadSize(x));
    }
  }

  /** The room of one property and of those after it. */
  lemma PropsRoomStep(y: Items, off: nat)
    requires y.PropItem?
    ensures PropsRoom(y) == PropRoom(y.name, |y.value|)
                            + (match FirstProp(y.rest, off) case Some(f) => PropsRoom(f.1) case None => 0)
  {
    hide PropRoom;
    PropsRoomSkips(y.rest, off);
  }

  /** The room of one child and of those after it. */
  lemma KidsRoomStep(z: Items)
    requires z.NodeItem?
    ensures KidsRoom(z) == NodeRoom(z.name) + MergeRoom(z.kids)
                           + (match FindNode(z.rest, Any) case Some(q) => KidsRoom(Get(z.rest, q)) case None => 0)
  {
    hide NodeRoom, MergeRoom;
    KidsRoomSkips(z.rest);
  }

  lemma {:induction false} KidsRoomSkips(x: Items)
    ensures KidsRoom(x) == match FindNode(x, Any) case Some(q) => KidsRoom(Get(x, q)) case None => 0
  {
    hide NodeRoom;
    if !x.Done? && !x.NodeItem? {
      KidsRoomSkips(x.rest);
    }
  }

  /** fdt_add_subnode, or fdt_subnode_offset if the child exists. */
  method FindOrAdd(fdt: Blob, target: nat, name: bytes, ghost p: Pos) returns (nnode: int)
    requires fdt.ValidTree() && Has(fdt.tree, p) && Get(fdt.tree, p).NodeItem? && target == Off(fdt.tree, p) && CStr(name) && NodeFits(name)
    modifies fdt`sizeStruct, fdt`offStrings, fdt`sizeStrings, fdt`tree, fdt.buf
    ensures fdt.Front() == old(fdt.Front())
    ensures fdt.ValidTree()
    ensures Charged(old(DataSize(fdt)), DataSize(fdt), NodeRoom(name), fdt.totalsize, if nnode < 0 then nnode else 0)
    ensures nnode < 0 ==> fdt.tree == old(fdt.tree)
    ensures nnode >= 0 ==>
              var x := old(Get(fdt.tree, p));
              var (k, q) := Placed(x.kids, name);
              && fdt.tree == Put(old(fdt.tree), p, x.(kids := k))
              && Has(fdt.tree, Then(p, Down(q))) && nnode == Off(fdt.tree, Then(p, Down(q)))
  {
    hide EncAt, Flat, Off, Post, Put, TokLen, Size, HeadSize, Blob.Block, Blob.Tab, Complete, Closes, FindNode,
         Want.Ok, AfterProps, Blob.Front;
    ghost var tree := fdt.tree;
    ghost var x := Get(tree, p);
    PlacedAt(tree, p, name);
    OffDown(x, Placed(x.kids, name).1);
    nnode := AddSubnode(fdt, target, name, p);
    if nnode == -ERR_EXISTS {
      PlaceAt(fdt, p);
      LastCloses(tree, p);
      nnode := SubnodeOffset(fdt, target, name, x, Post(tree, p, LAST));
      if nnode == -ERR_NOTFOUND {
        return -ERR_INTERNAL;
      }
    }
  }

  /** One round of the first loop of overlay_apply_node. */
  method ApplyProperty(fdt: Blob, target: nat, fdto: Blob, property: nat, ghost p: Pos, ghost y: Items, ghost inner: Tokens) returns (r: int)
    requires fdt != fdto && fdt.buf != fdto.buf && fdt.ValidTree()
    requires Has(fdt.tree, p) && Get(fdt.tree, p).NodeItem? && target == Off(fdt.tree, p)
    requires y.PropItem? && fdto.magic == FDT_MAGIC && fdto.At(property, Flat(y, inner)) && Closes(inner)
    modifies fdt`sizeStruct, fdt`offStrings, fdt`sizeStrings, fdt`tree, fdt.buf
    ensures fdt.Front() == old(fdt.Front())
    ensures fdt.ValidTree()
    ensures Charged(old(DataSize(fdt)), DataSize(fdt), PropRoom(y.name, |y.value|), fdt.totalsize, r)
    ensures Has(fdt.tree, p) && target == Off(fdt.tree, p)
    ensures var x := old(Get(fdt.tree, p));
            if r != 0 then fdt.tree == old(fdt.tree)
            else
              && Get(fdt.tree, p) == x.(kids := SetProp(x.kids, y.name, y.value))
              && fdt.tree == Put(old(fdt.tree), p, Get(fdt.tree, p))
  {
    hide EncAt, Flat, Off, Post, Put, Get, TokLen, Size, HeadSize, Blob.Block, Blob.Tab, Closes, SetProp, CStr,
         Blob.Front;
    ghost var tree, x := fdt.tree, Get(fdt.tree, p);
    ClosesFacts(y, inner);
    var _, name, prop := GetpropByOffset(fdto, property, Flat(y, inner));
    r := Setprop(fdt, target, name, prop, p);
    PutAt(tree, p, x.(kids := SetProp(x.kids, y.name, y.value)), LAST);
  }

  /** The first loop of overlay_apply_node. */
  method ApplyProperties(fdt: Blob, target: nat, fdto: Blob, node: nat, ghost p: Pos, ghost po: Pos) returns (r: int, ghost k: Items)
    requires fdt != fdto && fdt.buf != fdto.buf && fdt.ValidTree() && fdto.ValidTree()
    requires Has(fdt.tree, p) && Get(fdt.tree, p).NodeItem? && target == Off(fdt.tree, p)
    requires Has(fdto.tree, po) && Get(fdto.tree, po).NodeItem? && node == Off(fdto.tree, po)
    modifies fdt`sizeStruct, fdt`offStrings, fdt`sizeStrings, fdt`tree, fdt.buf
    ensures fdt.Front() == old(fdt.Front())
    ensures fdt.ValidTree()
    ensures Charged(old(DataSize(fdt)), DataSize(fdt), PropsRoom(Get(fdto.tree, po).kids), fdt.totalsize, r)
    ensures fdt.tree == old(Put(fdt.tree, p, Get(fdt.tree, p).(kids := k)))
    ensures r == 0 ==> k == ApplyProps(old(Get(fdt.tree, p).kids), Get(fdto.tree, po).kids)
  {
    hide EncAt, Flat, Off, Post, Put, Get, TokLen, Size, HeadSize, Blob.Block, Blob.Tab, Complete, Closes,
         FirstProp, SetProp, ApplyProps, CStr, PropsRoom, PropRoom, Blob.Front, Blob.ValidTree, Blob.At;
    ghost var tree, x, o := fdt.tree, Get(fdt.tree, p), Get(fdto.tree, po);
    ghost var goal := ApplyProps(x.kids, o.kids);
    k := x.kids;
    PutAt(tree, p, x, LAST);
    PlaceAt(fdto, po);
    LastCloses(fdto.tree, po);
    ghost var inner := Cons(EndNode, Flat(o.rest, Post(fdto.tree, po, LAST)));
    ClosesFacts(o, Post(fdto.tree, po, LAST));
    ghost var y := o;
    PropsSkipNops(k, o.kids, node + TokLen(Begin(o.name)));
    PropsRoomSkips(o.kids, node + TokLen(Begin(o.name)));
    var property := FirstPropertyOffset(fdto, node, o, Post(fdto.tree, po, LAST));
    if property >= 0 {
      y := FirstProp(o.kids, node + TokLen(Begin(o.name))).value.1;
    }
    r := 0;
    while property >= 0
      invariant fdt.Front() == old(fdt.Front())
      invariant fdt.ValidTree() && r == 0
      invariant fdt.tree == Put(tree, p, x.(kids := k)) && Has(fdt.tree, p) && Get(fdt.tree, p) == x.(kids := k) && target == Off(fdt.tree, p)
      invariant property >= 0 ==> y.PropItem? && fdto.At(property, Flat(y, inner)) && goal == ApplyProps(k, y)
      invariant property < 0 ==> goal == k
      invariant DataSize(fdt) + (if property >= 0 then PropsRoom(y) else 0) <= old(DataSize(fdt)) + PropsRoom(o.kids)
      decreases property >= 0, y
    {
      PutAt(tree, p, x.(kids := k), LAST);
      PropsRoomStep(y, property + HeadSize(y));
      ghost var y0, k0, j := y, k, property + HeadSize(y);
      r, property, y := ApplyAndNext(fdt, target, fdto, property, p, y, inner);
      if r != 0 {
        return;
      }
      PropApplied(k0, y0, j);
      k := SetProp(k0, y0.name, y0.value);
    }
  }

  /** The property after y, with the items from there. */
  method NextOf(fdto: Blob, property: nat, ghost y: Items, ghost inner: Tokens) returns (next: int, ghost z: Items)
    requires fdto.At(property, Flat(y, inner)) && Closes(inner) && y.PropItem?
    ensures match FirstProp(y.rest, property + HeadSize(y))
            case Some(f) => next == f.0 && z == f.1 && z < y && fdto.At(next, Flat(z, inner))
            case None => next < 0
  {
    hide EncAt, Flat, Closes, HeadSize, FirstProp, Blob.Block, Blob.Tab;
    z := y;
    next := NextPropertyOffset(fdto, property, y, inner);
    FindSmaller(y, property + HeadSize(y));
    if next >= 0 {
      z := FirstProp(y.rest, property + HeadSize(y)).value.1;
    }
  }

  /** The two of them, together a round of the loop. */
  method ApplyAndNext(fdt: Blob, target: nat, fdto: Blob, property: nat, ghost p: Pos, ghost y: Items, ghost inner: Tokens)
    returns (r: int, next: int, ghost z: Items)
    requires fdt != fdto && fdt.buf != fdto.buf && fdt.ValidTree()
    requires Has(fdt.tree, p) && Get(fdt.tree, p).NodeItem? && target == Off(fdt.tree, p)
    requires y.PropItem? && fdto.magic == FDT_MAGIC && fdto.At(property, Flat(y, inner)) && Closes(inner)
    modifies fdt`sizeStruct, fdt`offStrings, fdt`sizeStrings, fdt`tree, fdt.buf
    ensures fdt.Front() == old(fdt.Front())
    ensures fdt.ValidTree()
    ensures Charged(old(DataSize(fdt)), DataSize(fdt), PropRoom(y.name, |y.value|), fdt.totalsize, r)
    ensures Has(fdt.tree, p) && target == Off(fdt.tree, p)
    ensures var x := old(Get(fdt.tree, p));
            if r != 0 then fdt.tree == old(fdt.tree)
            else
              && Get(fdt.tree, p) == x.(kids := SetProp(x.kids, y.name, y.value))
              && fdt.tree == Put(old(fdt.tree), p, Get(fdt.tree, p))
    ensures r == 0 ==>
              match FirstProp(y.rest, property + HeadSize(y))
              case Some(f) => next == f.0 && z == f.1 && z < y && fdto.At(next, Flat(z, inner))
              case None => next < 0
  {
    hide EncAt, Flat, Off, Post, Put, Get, TokLen, HeadSize, Blob.Block, Blob.Tab, Closes, SetProp, FirstProp,
         Charged, PropRoom, Blob.Front;
    next, z := property, y;
    r := ApplyProperty(fdt, target, fdto, property, p, y, inner);
    if r == 0 {
      next, z := NextOf(fdto, property, y, inner);
    }
  }

  lemma FindSmaller(y: Items, off: nat)
    requires y.PropItem?
    ensures FirstProp(y.rest, off).Some? ==> FirstProp(y.rest, off).value.1 < y
  {
    FindSkipsNops(y.rest, off, []);
  }

  lemma PropApplied(k: Items, y: Items, off: nat)
    requires y.PropItem?
    ensures ApplyProps(k, y) ==
            (match FirstProp(y.rest, off)
             case Some(f) => ApplyProps(SetProp(k, y.name, y.value), f.1)
             case None => SetProp(k, y.name, y.value))
  {
    hide HeadSize, SetProp;
    PropsSkipNops(SetProp(k, y.name, y.value), y.rest, off);
  }

  lemma {:induction false} GetSmaller(x: Items, p: Pos)
    requires Has(x, p)
    ensures Get(x, p) == x || Get(x, p) < x
  {
    match p
    case Here =>
    case Next(q) => GetSmaller(x.rest, q);
    case Down(q) => GetSmaller(x.kids, q);
  }

  /** overlay_apply_node: the contents of the node at p become their merge with those of the overlay's node at po. */
  method ApplyNode(fdt: Blob, target: nat, fdto: Blob, node: nat, ghost p: Pos, ghost po: Pos) returns (r: int, ghost k: Items)
    requires fdt != fdto && fdt.buf != fdto.buf && fdt.ValidTree() && fdto.ValidTree()
    requires Has(fdt.tree, p) && Get(fdt.tree, p).NodeItem? && target == Off(fdt.tree, p)
    requires Has(fdto.tree, po) && Get(fdto.tree, po).NodeItem? && node == Off(fdto.tree, po)
    modifies fdt`sizeStruct, fdt`offStrings, fdt`sizeStrings, fdt`tree, fdt.buf
    ensures fdt.Front() == old(fdt.Front())
    ensures fdt.ValidTree()
    ensures Charged(old(DataSize(fdt)), DataSize(fdt), MergeRoom(Get(fdto.tree, po).kids), fdt.totalsize, r)
    ensures fdt.tree == old(Put(fdt.tree, p, Get(fdt.tree, p).(kids := k)))
    ensures Has(fdt.tree, p) && Off(fdt.tree, p) == target
    ensures r == 0 ==> k == Merge(old(Get(fdt.tree, p).kids), Get(fdto.tree, po).kids)
    decreases Get(fdto.tree, po), 1
  {
    hide EncAt, Flat, Off, Post, Put, Get, Blob.Block, Blob.Tab, ApplyProps, ApplyKids, Blob.Front;
    ghost var tree, x := fdt.tree, Get(fdt.tree, p);
    r, k := ApplyProperties(fdt, target, fdto, node, p, po);
    PutAt(tree, p, x.(kids := k), LAST);
    if r == 0 {
      r, k := ApplyChildren(fdt, target, fdto, node, p, po);
      PutAt(tree, p, x.(kids := k), LAST);
    }
  }

  /** The second loop of overlay_apply_node. */
  method ApplyChildren(fdt: Blob, target: nat, fdto: Blob, node: nat, ghost p: Pos, ghost po: Pos) returns (r: int, ghost k: Items)
    requires fdt != fdto && fdt.buf != fdto.buf && fdt.ValidTree() && fdto.ValidTree()
    requires Has(fdt.tree, p) && Get(fdt.tree, p).NodeItem? && target == Off(fdt.tree, p)
    requires Has(fdto.tree, po) && Get(fdto.tree, po).NodeItem? && node == Off(fdto.tree, po)
    modifies fdt`sizeStruct, fdt`offStrings, fdt`sizeStrings, fdt`tree, fdt.buf
    ensures fdt.Front() == old(fdt.Front())
    ensures fdt.ValidTree()
    ensures Charged(old(DataSize(fdt)), DataSize(fdt), KidsRoom(Get(fdto.tree, po).kids), fdt.totalsize, r)
    ensures fdt.tree == old(Put(fdt.tree, p, Get(fdt.tree, p).(kids := k)))
    ensures r == 0 ==> k == ApplyKids(old(Get(fdt.tree, p).kids), Get(fdto.tree, po).kids)
    decreases Get(fdto.tree, po), 0
  {
    hide EncAt, Flat, Off, Post, Put, Get, TokLen, Size, HeadSize, Blob.Block, Blob.Tab, Complete, Closes, FindNode,
         ApplyKids, ApplyKid, CStr, Placed, Merge, KidsRoom, NodeRoom, MergeRoom, Blob.Front, Blob.ValidTree,
         Blob.At;
    ghost var tree, x, o := fdt.tree, Get(fdt.tree, p), Get(fdto.tree, po);
    ghost var goal, at := ApplyKids(x.kids, o.kids), Then(po, Down(Here));
    k := x.kids;
    r := 0;
    PutAt(tree, p, x, LAST);
    PlaceAt(fdto, po);
    LastCloses(fdto.tree, po);
    KidsSkipOthers(k, o.kids);
    KidsRoomSkips(o.kids);
    var subnode := FirstSubnode(fdto, node, o, Post(fdto.tree, po, LAST));
    if subnode >= 0 {
      at := FirstKidPlace(fdto.tree, po);
    }
    while subnode >= 0
      invariant fdt.Front() == old(fdt.Front())
      invariant fdt.ValidTree() && r == 0
      invariant fdt.tree == Put(tree, p, x.(kids := k)) && Has(fdt.tree, p) && Get(fdt.tree, p) == x.(kids := k) && target == Off(fdt.tree, p)
      invariant subnode >= 0 ==>
                  && Has(fdto.tree, at) && subnode == Off(fdto.tree, at) && Get(fdto.tree, at).NodeItem?
                  && Get(fdto.tree, at) < o && goal == ApplyKids(k, Get(fdto.tree, at))
      invariant subnode < 0 ==> goal == k
      invariant DataSize(fdt) + (if subnode >= 0 then KidsRoom(Get(fdto.tree, at)) else 0) <= old(DataSize(fdt)) + KidsRoom(o.kids)
      decreases subnode >= 0, if Has(fdto.tree, at) then Get(fdto.tree, at) else Done
    {
      ghost var z, k0 := Get(fdto.tree, at), k;
      KidsRoomStep(z);
      r, k := ApplyOne(fdt, target, fdto, subnode, p, at);
      PutAt(tree, p, x.(kids := k0), LAST);
      PutAt(tree, p, x.(kids := k), LAST);
      if r != 0 {
        return;
      }
      KidStep(k0, z);
      subnode, at := NextKid(fdto, subnode, at);
    }
  }

  /** The sibling after the node at a place, with its place. */
  method NextKid(fdto: Blob, subnode: nat, ghost at: Pos) returns (next: int, ghost to: Pos)
    requires fdto.ValidTree() && Has(fdto.tree, at) && Get(fdto.tree, at).NodeItem? && subnode == Off(fdto.tree, at)
    ensures var z := Get(fdto.tree, at);
            match FindNode(z.rest, Any)
            case Some(q) =>
              && Has(fdto.tree, to) && Get(fdto.tree, to) == Get(z.rest, q) && Get(fdto.tree, to).NodeItem?
              && Get(fdto.tree, to) < z && next == Off(fdto.tree, to)
            case None => next < 0
  {
    hide EncAt, Flat, Off, Post, Get, Has, Blob.Block, Blob.Tab, Complete, Closes, FindNode;
    PlaceAt(fdto, at);
    LastCloses(fdto.tree, at);
    next := NextSubnode(fdto, subnode, Get(fdto.tree, at), Post(fdto.tree, at, LAST));
    to := at;
    if next >= 0 {
      to := NextKidPlace(fdto.tree, at);
    }
  }

  /** One round of that loop. */
  method ApplyOne(fdt: Blob, target: nat, fdto: Blob, subnode: nat, ghost p: Pos, ghost at: Pos) returns (r: int, ghost k: Items)
    requires fdt != fdto && fdt.buf != fdto.buf && fdt.ValidTree() && fdto.ValidTree()
    requires Has(fdt.tree, p) && Get(fdt.tree, p).NodeItem? && target == Off(fdt.tree, p)
    requires Has(fdto.tree, at) && Get(fdto.tree, at).NodeItem? && subnode == Off(fdto.tree, at)
    modifies fdt`sizeStruct, fdt`offStrings, fdt`sizeStrings, fdt`tree, fdt.buf
    ensures fdt.Front() == old(fdt.Front())
    ensures fdt.ValidTree()
    ensures Charged(old(DataSize(fdt)), DataSize(fdt), NodeRoom(Get(fdto.tree, at).name) + MergeRoom(Get(fdto.tree, at).kids), fdt.totalsize, r)
    ensures fdt.tree == old(Put(fdt.tree, p, Get(fdt.tree, p).(kids := k)))
    ensures r == 0 ==> k == ApplyKid(old(Get(fdt.tree, p).kids), Get(fdto.tree, at).name, Get(fdto.tree, at).kids)
    decreases Get(fdto.tree, at), 2
  {
    hide EncAt, Flat, Off, Post, Put, Get, TokLen, Size, HeadSize, Blob.Block, Blob.Tab, Complete, Closes, CStr,
         Merge, Placed, Blob.Front;
    ghost var tree, x, z := fdt.tree, Get(fdt.tree, p), Get(fdto.tree, at);
    PutAt(tree, p, x, LAST);
    PlaceAt(fdto, at);
    LastCloses(fdto.tree, at);
    var name := NameOf(fdto, subnode, z, Post(fdto.tree, at, LAST));
    ghost var c := Placed(x.kids, name);
    k := x.kids;
    PlacedAt(tree, p, name);
    var nnode := FindOrAdd(fdt, target, name, p);
    if nnode < 0 {
      return nnode, k;
    }
    ghost var pq, child := Then(p, Down(c.1)), Get(c.0, c.1);
    ghost var inner;
    r, inner := ApplyNode(fdt, nnode, fdto, subnode, pq, at);
    k := Put(c.0, c.1, NodeItem(child.name, inner, child.rest));
  }

  /** fdt_get_name, as the name itself. */
  method NameOf(fdt: Blob, off: nat, ghost x: Items, ghost post: Tokens) returns (name: bytes)
    requires fdt.At(off, Flat(x, post)) && Closes(post) && x.NodeItem?
    ensures name == x.name && CStr(name) && 4 + Align4(|name| + 1) <= fdt.sizeStruct
  {
    hide EncAt, EncTok, Flat, TokLen, Word, StringAt, CStr, Blob.Block, Blob.Tab;
    ClosesFacts(x, post);
    TokenFacts(fdt, off, Flat(x, post));
    NodeLen(x.name);
    var len := GetName(fdt, off, Flat(x, post));
    NameAt(fdt.Block(), off + 4, x.name);
    name := Chars(fdt, off + 4, len);
  }

  lemma KidStep(k: Items, z: Items)
    requires z.NodeItem?
    ensures var k' := ApplyKid(k, z.name, z.kids);
            ApplyKids(k, z) == match FindNode(z.rest, Any) case Some(q) => ApplyKids(k', Get(z.rest, q)) case None => k'
  {
    hide ApplyKid;
    KidsSkipOthers(ApplyKid(k, z.name, z.kids), z.rest);
  }

  lemma FirstKidPlace(tree: Items, p: Pos) returns (at: Pos)
    requires Has(tree, p) && Get(tree, p).NodeItem? && FindNode(Get(tree, p).kids, Any).Some?
    ensures var q := FindNode(Get(tree, p).kids, Any).value;
            && Has(tree, at) && Get(tree, at) == Get(Get(tree, p).kids, q) && Get(tree, at).NodeItem? && Get(tree, at) < Get(tree, p)
            && Off(tree, at) == Off(tree, p) + Off(Get(tree, p), Down(q))
  {
    hide Off, FindNode, Post, Put;
    var q := FindNode(Get(tree, p).kids, Any).value;
    ThenAt(tree, p, Down(q), Nil);
    GetSmaller(Get(tree, p).kids, q);
    at := Then(p, Down(q));
  }

  lemma NextKidPlace(tree: Items, p: Pos) returns (at: Pos)
    requires Has(tree, p) && Get(tree, p).NodeItem? && FindNode(Get(tree, p).rest, Any).Some?
    ensures var q := FindNode(Get(tree, p).rest, Any).value;
            && Has(tree, at) && Get(tree, at) == Get(Get(tree, p).rest, q) && Get(tree, at).NodeItem? && Get(tree, at) < Get(tree, p)
            && Off(tree, at) == Off(tree, p) + Off(Get(tree, p), Next(q))
  {
    hide Off, FindNode, Post, Put;
    var q := FindNode(Get(tree, p).rest, Any).value;
    ThenAt(tree, p, Next(q), Nil);
    GetSmaller(Get(tree, p).rest, q);
    at := Then(p, Next(q));
  }
}
