/**
 fdt_overlay.c, renumbering: before an overlay is merged, its phandles are
 raised above those of the base tree, and every reference that its
 __local_fixups__ node lists is raised with them.
 */
module FdtRenumber {
  import opened Bytes
  import opened FdtFormat
  import opened FdtTree
  import opened FdtBlob
  import opened FdtCore
  import opened FdtRo
  import opened FdtWip
  import opened FdtRw
  import opened FdtEdits
  import opened FdtPhandle
  import opened FdtWalk
  import opened FdtPath
  import opened FdtOverlay

  // ------------------------------------------------------------- phandles

  datatype Result = Ok(kids: Items) | Err(code: int)

  /** The contents of a node with one phandle property raised by delta. */
  function AddPhandle(kids: Items, name: bytes, delta: nat): Result {
    match ValueOf(kids, name)
    case None => Err(-ERR_NOTFOUND)
    case Some(v) =>
      if |v| != 4 then Err(-ERR_BADPHANDLE)
      else if Word(v, 0) + delta >= U32_LIMIT - 1 then Err(-ERR_NOPHANDLES)
      else Ok(SetProp(kids, name, Word32(Word(v, 0) + delta)))
  }

  /** The same, where a property that is not there is no error. */
  function Raise(kids: Items, name: bytes, delta: nat): Option<Items> {
    match AddPhandle(kids, name, delta)
    case Ok(k) => Some(k)
    case Err(c) => if c == -ERR_NOTFOUND then Some(kids) else None
  }

  /** The contents of a node with its own phandle raised. */
  function RaiseBoth(kids: Items, delta: nat): Option<Items> {
    match Raise(kids, PHANDLE, delta)
    case None => None
    case Some(k) => Raise(k, LINUX_PHANDLE, delta)
  }

  /** Items with the phandles of all nodes among and inside them raised. */
  function RaiseItems(x: Items, delta: nat): Option<Items> {
    match x
    case Done => Some(Done)
    case NopItem(rest) => (match RaiseItems(rest, delta) case None => None case Some(r) => Some(NopItem(r)))
    case PropItem(n, v, rest) => (match RaiseItems(rest, delta) case None => None case Some(r) => Some(PropItem(n, v, r)))
    case NodeItem(n, kids, rest) =>
      match RaiseItems(kids, delta)
      case None => None
      case Some(k) =>
        match RaiseBoth(k, delta)
        case None => None
        case Some(k') => match RaiseItems(rest, delta) case None => None case Some(r) => Some(NodeItem(n, k', r))
  }

  /** The contents of a node with its phandle and those of all nodes inside it raised. */
  function RaiseNode(kids: Items, delta: nat): Option<Items> {
    match RaiseItems(kids, delta)
    case None => None
    case Some(k) => RaiseBoth(k, delta)
  }

  // When phandles can be raised, told from the properties alone.

  /** A property that is not there, or is one cell whose sum with delta is below 0xffffffff. */
  predicate Raisable(v: Option<bytes>, delta: nat) {
    match v
    case None => true
    case Some(b) => |b| == 4 && Word(b, 0) + delta < U32_LIMIT - 1
  }

  /** What becomes of raising such a property, told by its value. */
  function AddCode(v: Option<bytes>, delta: nat): int {
    match v
    case None => -ERR_NOTFOUND
    case Some(b) => if |b| != 4 then -ERR_BADPHANDLE else if Word(b, 0) + delta >= U32_LIMIT - 1 then -ERR_NOPHANDLES else 0
  }

  lemma AddPhandleExactly(kids: Items, name: bytes, delta: nat)
    ensures match AddPhandle(kids, name, delta)
            case Err(c) => c == AddCode(ValueOf(kids, name), delta) && c != 0
            case Ok(k) =>
              && AddCode(ValueOf(kids, name), delta) == 0
              && ValueOf(k, name) == Some(Word32(Word(ValueOf(kids, name).value, 0) + delta)) && Kids(k) == Kids(kids)
  {
    hide Word, Word32, SetProp, ValueOf, Kids;
    if AddPhandle(kids, name, delta).Ok? {
      SetPropMeans(kids, name, Word32(Word(ValueOf(kids, name).value, 0) + delta), name + [0]);
    }
  }

  predicate NodeRaisable(kids: Items, delta: nat) {
    Raisable(ValueOf(kids, PHANDLE), delta) && Raisable(ValueOf(kids, LINUX_PHANDLE), delta)
  }

  /** All nodes among and inside the items of x. */
  ghost predicate AllRaisable(x: Items, delta: nat) {
    forall p :: Has(x, p) && Get(x, p).NodeItem? ==> NodeRaisable(Get(x, p).kids, delta)
  }

  lemma RaiseExactly(kids: Items, name: bytes, delta: nat)
    ensures Raise(kids, name, delta).Some? <==> Raisable(ValueOf(kids, name), delta)
    ensures Raise(kids, name, delta).Some? ==>
              forall other :: other != name ==> ValueOf(Raise(kids, name, delta).value, other) == ValueOf(kids, other)
  {
    hide Word, Word32, SetProp, ValueOf;
    if ValueOf(kids, name).Some? && Raise(kids, name, delta).Some? {
      forall other | other != name
        ensures ValueOf(Raise(kids, name, delta).value, other) == ValueOf(kids, other)
      {
        SetPropMeans(kids, name, Word32(Word(ValueOf(kids, name).value, 0) + delta), other);
      }
    }
  }

  lemma RaiseBothExactly(kids: Items, delta: nat)
    ensures RaiseBoth(kids, delta).Some? <==> NodeRaisable(kids, delta)
  {
    hide Raise, Raisable, ValueOf;
    RaiseExactly(kids, PHANDLE, delta);
    assert PHANDLE != LINUX_PHANDLE;
    if Raise(kids, PHANDLE, delta).Some? {
      RaiseExactly(Raise(kids, PHANDLE, delta).value, LINUX_PHANDLE, delta);
    }
  }

  /** Raising succeeds exactly if every node's phandle properties can be raised. */
  lemma {:induction false} RaisedExactly(x: Items, delta: nat)
    ensures RaiseItems(x, delta).Some? <==> AllRaisable(x, delta)
  {
    hide RaiseBoth, NodeRaisable;
    if x.NodeItem? {
      RaisedExactly(x.kids, delta);
      RaisedExactly(x.rest, delta);
      if RaiseItems(x.kids, delta).Some? {
        RaiseKeepsProps(x.kids, delta, PHANDLE);
        RaiseKeepsProps(x.kids, delta, LINUX_PHANDLE);
        RaiseBothExactly(RaiseItems(x.kids, delta).value, delta);
        SameRaisable(RaiseItems(x.kids, delta).value, x.kids, delta);
      }
      AllRaisableNode(x, delta);
    } else if !x.Done? {
      RaisedExactly(x.rest, delta);
      AllRaisableRest(x, delta);
    }
  }

  lemma SameRaisable(a: Items, b: Items, delta: nat)
    requires ValueOf(a, PHANDLE) == ValueOf(b, PHANDLE) && ValueOf(a, LINUX_PHANDLE) == ValueOf(b, LINUX_PHANDLE)
    ensures NodeRaisable(a, delta) == NodeRaisable(b, delta)
  {
  }

  lemma AllRaisableNode(x: Items, delta: nat)
    requires x.NodeItem?
    ensures AllRaisable(x, delta) <==> NodeRaisable(x.kids, delta) && AllRaisable(x.kids, delta) && AllRaisable(x.rest, delta)
  {
    hide NodeRaisable;
    if AllRaisable(x, delta) {
      assert Has(x, Here) && Get(x, Here) == x;
      forall p | Has(x.kids, p) && Get(x.kids, p).NodeItem?
        ensures NodeRaisable(Get(x.kids, p).kids, delta)
      {
        assert Has(x, Down(p)) && Get(x, Down(p)) == Get(x.kids, p);
      }
      AllRaisableRest(x, delta);
    }
    if NodeRaisable(x.kids, delta) && AllRaisable(x.kids, delta) && AllRaisable(x.rest, delta) {
      forall p | Has(x, p) && Get(x, p).NodeItem?
        ensures NodeRaisable(Get(x, p).kids, delta)
      {
        match p
        case Here =>
        case Next(q) => assert Has(x.rest, q) && Get(x.rest, q).NodeItem?;
        case Down(q) => assert Has(x.kids, q) && Get(x.kids, q).NodeItem?;
      }
    }
  }

  lemma AllRaisableRest(x: Items, delta: nat)
    requires !x.Done?
    ensures AllRaisable(x, delta) ==> AllRaisable(x.rest, delta)
    ensures !x.NodeItem? && AllRaisable(x.rest, delta) ==> AllRaisable(x, delta)
  {
    hide NodeRaisable;
    if AllRaisable(x, delta) {
      forall p | Has(x.rest, p) && Get(x.rest, p).NodeItem?
        ensures NodeRaisable(Get(x.rest, p).kids, delta)
      {
        assert Has(x, Next(p)) && Get(x, Next(p)) == Get(x.rest, p);
      }
    }
    if !x.NodeItem? && AllRaisable(x.rest, delta) {
      forall p | Has(x, p) && Get(x, p).NodeItem?
        ensures NodeRaisable(Get(x, p).kids, delta)
      {
        assert p.Next? && Has(x.rest, p.p) && Get(x.rest, p.p).NodeItem?;
      }
    }
  }

  /** The same for a node with all that is inside it. */
  lemma RaisedNodeExactly(kids: Items, delta: nat)
    ensures RaiseNode(kids, delta).Some? <==> NodeRaisable(kids, delta) && AllRaisable(kids, delta)
  {
    hide RaiseItems, RaiseBoth, NodeRaisable, AllRaisable;
    RaisedExactly(kids, delta);
    if RaiseItems(kids, delta).Some? {
      RaiseKeepsProps(kids, delta, PHANDLE);
      RaiseKeepsProps(kids, delta, LINUX_PHANDLE);
      RaiseBothExactly(RaiseItems(kids, delta).value, delta);
      SameRaisable(RaiseItems(kids, delta).value, kids, delta);
    }
  }

  // The order in which a node's own phandle and those below it are raised does not matter.

  lemma {:induction false} RaiseKeepsProps(x: Items, delta: nat, name: bytes)
    requires RaiseItems(x, delta).Some?
    ensures FindProp(RaiseItems(x, delta).value, name) == FindProp(x, name)
    ensures ValueOf(RaiseItems(x, delta).value, name) == ValueOf(x, name)
  {
    hide RaiseBoth;
    if x.PropItem? || x.NopItem? {
      RaiseKeepsProps(x.rest, delta, name);
    }
  }

  lemma {:induction false} RaiseAfterSet(x: Items, delta: nat, name: bytes, v: bytes)
    requires FindProp(x, name).Some?
    ensures RaiseItems(SetProp(x, name, v), delta) ==
            match RaiseItems(x, delta) case Some(k) => Some(SetProp(k, name, v)) case None => None
  {
    hide RaiseBoth;
    if RaiseItems(x, delta).Some? {
      RaiseKeepsProps(x, delta, name);
    }
    RaiseAfterPut(x, delta, name, v);
  }

  lemma {:induction false} RaiseAfterPut(x: Items, delta: nat, name: bytes, v: bytes)
    requires FindProp(x, name).Some?
    ensures var q := FindProp(x, name).value;
            RaiseItems(Put(x, q, PropItem(name, v, Get(x, q).rest)), delta) ==
            match RaiseItems(x, delta)
            case Some(k) => if Has(k, q) && !Get(k, q).Done? then Some(Put(k, q, PropItem(name, v, Get(k, q).rest))) else None
            case None => None
  {
    hide RaiseBoth;
    if !(x.PropItem? && x.name == name) {
      RaiseAfterPut(x.rest, delta, name, v);
    }
  }

  lemma RaiseCommutes(x: Items, delta: nat, name: bytes)
    ensures match Raise(x, name, delta)
            case Some(y) =>
              RaiseItems(y, delta) == (match RaiseItems(x, delta) case Some(k) => Raise(k, name, delta) case None => None)
            case None => RaiseItems(x, delta).Some? ==> Raise(RaiseItems(x, delta).value, name, delta) == None
  {
    hide RaiseItems, Word, Word32, SetProp;
    if RaiseItems(x, delta).Some? {
      RaiseKeepsProps(x, delta, name);
    }
    if AddPhandle(x, name, delta).Ok? {
      RaiseAfterSet(x, delta, name, Word32(Word(ValueOf(x, name).value, 0) + delta));
    }
  }

  /** Raising the node's own phandle first, as the code does, comes to the same. */
  lemma RaiseOrder(x: Items, delta: nat)
    ensures RaiseNode(x, delta) == match RaiseBoth(x, delta) case Some(y) => RaiseItems(y, delta) case None => None
  {
    hide RaiseItems, Raise;
    RaiseCommutes(x, delta, PHANDLE);
    match Raise(x, PHANDLE, delta)
    case Some(y) => RaiseCommutes(y, delta, LINUX_PHANDLE);
    case None =>
  }

  // ------------------------------------------------------------- the code

  /** The sum of two words does not fit a word: with 32 bits it is less than either. */
  predicate Wraps(a: nat, b: nat) {
    (a + b) % U32_LIMIT < a
  }

  lemma WrapsMeans(a: nat, b: nat)
    requires a < U32_LIMIT && b < U32_LIMIT
    ensures Wraps(a, b) <==> a + b >= U32_LIMIT
  {
    assert a + b < U32_LIMIT ==> (a + b) % U32_LIMIT == a + b;
    assert a + b >= U32_LIMIT ==> (a + b) % U32_LIMIT == a + b - U32_LIMIT;
  }

  /** Overwriting all of a value sets the property. */
  lemma SetIsPatch(kids: Items, name: bytes, w: bytes)
    requires FindProp(kids, name).Some? && |Get(kids, FindProp(kids, name).value).value| == |w|
    ensures var q := FindProp(kids, name).value;
            var pr := Get(kids, q);
            SetProp(kids, name, w) == Put(kids, q, pr.(value := Patch(pr.value, 0, w)))
  {
    hide Put, Patch;
    PatchAll(Get(kids, FindProp(kids, name).value).value, w);
  }

  /** overlay_phandle_add_offset */
  method PhandleAddOffset(fdto: Blob, node: nat, name: bytes, delta: nat, ghost p: Pos) returns (r: int)
    requires fdto.ValidTree() && Has(fdto.tree, p) && Get(fdto.tree, p).NodeItem? && node == Off(fdto.tree, p)
    requires delta < U32_LIMIT
    modifies fdto.buf, fdto`tree
    ensures fdto.Front() == old(fdto.Front())
    ensures fdto.ValidTree()
    ensures var x := old(Get(fdto.tree, p));
            match AddPhandle(x.kids, name, delta)
            case Ok(k) => r == 0 && fdto.tree == Put(old(fdto.tree), p, x.(kids := k))
            case Err(c) => r == c && fdto.tree == old(fdto.tree)
    ensures r == AddCode(old(ValueOf(Get(fdto.tree, p).kids, name)), delta)
  {
    hide EncAt, Flat, Off, Post, Word, Word32, Closes, Complete, FindProp, Blob.Block, Blob.Tab, Patch, SetProp,
         Put, Get, Wraps, Blob.Front;
    ghost var x := Get(fdto.tree, p);
    PlaceAt(fdto, p);
    LastCloses(fdto.tree, p);
    var val := GetProp(fdto, node, name, x, Post(fdto.tree, p, LAST));
    if val.None? {
      return -ERR_NOTFOUND;
    }
    if |val.value| != 4 {
      return -ERR_BADPHANDLE;
    }
    var adj := Word(val.value, 0);
    WrapsMeans(adj, delta);
    if Wraps(adj, delta) {
      return -ERR_NOPHANDLES;
    }
    if adj + delta == U32_LIMIT - 1 {
      return -ERR_NOPHANDLES;
    }
    SetIsPatch(x.kids, name, Word32(adj + delta));
    r := SetpropInplacePartial(fdto, node, name, 0, Word32(adj + delta), p);
  }

  /** The number of nodes among and inside items. */
  function Count(x: Items): nat {
    match x
    case Done => 0
    case NodeItem(_, kids, rest) => 1 + Count(kids) + Count(rest)
    case _ => Count(x.rest)
  }

  lemma {:induction false} CountSet(x: Items, name: bytes, v: bytes)
    requires FindProp(x, name).Some?
    ensures Count(SetProp(x, name, v)) == Count(x)
  {
    if !(x.PropItem? && x.name == name) {
      CountSet(x.rest, name, v);
    }
  }

  lemma CountRaise(x: Items, delta: nat)
    requires RaiseBoth(x, delta).Some?
    ensures Count(RaiseBoth(x, delta).value) == Count(x)
  {
    hide SetProp, Word, Word32, Count;
    if AddPhandle(x, PHANDLE, delta).Ok? {
      CountSet(x, PHANDLE, Word32(Word(ValueOf(x, PHANDLE).value, 0) + delta));
    }
    var y := Raise(x, PHANDLE, delta).value;
    if AddPhandle(y, LINUX_PHANDLE, delta).Ok? {
      CountSet(y, LINUX_PHANDLE, Word32(Word(ValueOf(y, LINUX_PHANDLE).value, 0) + delta));
    }
  }

  lemma {:induction false} CountGet(x: Items, p: Pos)
    requires Has(x, p)
    ensures Count(Get(x, p)) <= Count(x)
  {
    match p
    case Here =>
    case Next(q) => CountGet(x.rest, q);
    case Down(q) => CountGet(x.kids, q);
  }

  /** Both phandle properties of one node. */
  method RaiseOne(fdto: Blob, node: nat, delta: nat, ghost p: Pos) returns (r: int, ghost k: Items)
    requires fdto.ValidTree() && Has(fdto.tree, p) && Get(fdto.tree, p).NodeItem? && node == Off(fdto.tree, p)
    requires delta < U32_LIMIT
    modifies fdto.buf, fdto`tree
    ensures fdto.Front() == old(fdto.Front())
    ensures fdto.ValidTree() && Has(fdto.tree, p) && node == Off(fdto.tree, p)
    ensures fdto.tree == Put(old(fdto.tree), p, old(Get(fdto.tree, p)).(kids := k)) && Get(fdto.tree, p) == old(Get(fdto.tree, p)).(kids := k)
    ensures r == 0 <==> RaiseBoth(old(Get(fdto.tree, p)).kids, delta).Some?
    ensures r == 0 ==> RaiseBoth(old(Get(fdto.tree, p)).kids, delta) == Some(k)
  {
    hide EncAt, Flat, Off, Post, Put, Get, Blob.Block, Blob.Tab, SetProp, ValueOf, Word, Word32, Blob.Front;
    ghost var tree, x := fdto.tree, Get(fdto.tree, p);
    k := x.kids;
    PutAt(tree, p, x, LAST);
    r := PhandleAddOffset(fdto, node, PHANDLE, delta, p);
    if r != 0 && r != -ERR_NOTFOUND {
      return;
    }
    k := Raise(k, PHANDLE, delta).value;
    PutAt(tree, p, x.(kids := k), LAST);
    r := PhandleAddOffset(fdto, node, LINUX_PHANDLE, delta, p);
    if r != 0 && r != -ERR_NOTFOUND {
      return;
    }
    k := Raise(k, LINUX_PHANDLE, delta).value;
    PutAt(tree, p, x.(kids := k), LAST);
    r := 0;
  }

  /** overlay_adjust_node_phandles */
  method AdjustNodePhandles(fdto: Blob, node: nat, delta: nat, ghost p: Pos) returns (r: int, ghost k: Items)
    requires fdto.ValidTree() && Has(fdto.tree, p) && Get(fdto.tree, p).NodeItem? && node == Off(fdto.tree, p)
    requires delta < U32_LIMIT
    modifies fdto.buf, fdto`tree
    ensures fdto.Front() == old(fdto.Front())
    ensures fdto.ValidTree()
    ensures fdto.tree == Put(old(fdto.tree), p, old(Get(fdto.tree, p)).(kids := k))
    ensures r == 0 <==> RaiseNode(old(Get(fdto.tree, p)).kids, delta).Some?
    ensures r == 0 <==> NodeRaisable(old(Get(fdto.tree, p)).kids, delta) && AllRaisable(old(Get(fdto.tree, p)).kids, delta)
    ensures r == 0 ==> RaiseNode(old(Get(fdto.tree, p)).kids, delta) == Some(k)
    decreases Count(Get(fdto.tree, p).kids), 1
  {
    hide EncAt, Flat, Off, Post, Put, Get, Blob.Block, Blob.Tab, RaiseBoth, RaiseItems, RaiseNode, Count,
         NodeRaisable, AllRaisable, Blob.Front;
    ghost var tree, x := fdto.tree, Get(fdto.tree, p);
    RaisedNodeExactly(x.kids, delta);
    RaiseOrder(x.kids, delta);
    r, k := RaiseOne(fdto, node, delta, p);
    if r != 0 {
      return;
    }
    CountRaise(x.kids, delta);
    ghost var k0 := k;
    r, k := AdjustChildren(fdto, node, delta, p);
    PutAt(tree, p, x.(kids := k0), LAST);
  }

  /** A place among the items of a node, as a place of the tree. */
  lemma InNode(tree: Items, p: Pos, q: Pos)
    requires Has(tree, p) && Get(tree, p).NodeItem? && Has(Get(tree, p).kids, q)
    ensures var x, pq := Get(tree, p), Then(p, Down(q));
            && Has(tree, pq) && Get(tree, pq) == Get(x.kids, q) && Off(tree, pq) == Off(tree, p) + Off(x, Down(q))
            && forall y :: Put(tree, pq, y) == Put(tree, p, x.(kids := Put(x.kids, q, y)))
  {
    hide Off, Post;
    ThenAt(tree, p, Down(q), Nil);
  }

  /** A place after one of those, as a place of the tree. */
  lemma AfterPlace(tree: Items, p: Pos, done: Pos, q: Pos)
    requires Has(tree, Then(p, Down(done))) && !Get(tree, Then(p, Down(done))).Done? && Has(Get(tree, Then(p, Down(done))).rest, q)
    ensures var pc := Then(p, Down(done));
            var pn := Then(p, Down(Then(done, Next(q))));
            && Has(tree, pn) && Off(tree, pn) == Off(tree, pc) + Off(Get(tree, pc), Next(q))
  {
    hide Off, Post, Get, Put;
    ThenThen(p, Down(done), Next(q));
    ThenAt(tree, Then(p, Down(done)), Next(q), Nil);
  }

  function Onto(k: Items, p: Pos, y: Option<Items>): Option<Items>
    requires Has(k, p)
  {
    match y
    case Some(z) => Some(Put(k, p, z))
    case None => None
  }

  lemma {:induction false} SkipToNode(x: Items, delta: nat)
    ensures RaiseItems(x, delta) ==
            match FindNode(x, Any) case Some(q) => Onto(x, q, RaiseItems(Get(x, q), delta)) case None => Some(x)
  {
    hide RaiseBoth;
    if x.PropItem? || x.NopItem? {
      SkipToNode(x.rest, delta);
    }
  }

  /** One child done: what is left to do. */
  lemma NextChild(k: Items, done: Pos, delta: nat)
    requires Has(k, done) && Get(k, done).NodeItem?
    ensures var z := Get(k, done);
            match RaiseNode(z.kids, delta)
            case None => Onto(k, done, RaiseItems(z, delta)) == None
            case Some(inner) =>
              var k' := Put(k, done, z.(kids := inner));
              match FindNode(z.rest, Any)
              case None => Onto(k, done, RaiseItems(z, delta)) == Some(k')
              case Some(q) =>
                var next := Then(done, Next(q));
                && Has(k', next) && Get(k', next) == Get(z.rest, q)
                && Onto(k, done, RaiseItems(z, delta)) == Onto(k', next, RaiseItems(Get(k', next), delta))
  {
    var z := Get(k, done);
    assert RaiseItems(z, delta) ==
           match RaiseNode(z.kids, delta)
           case None => None
           case Some(inner) => match RaiseItems(z.rest, delta) case None => None case Some(r) => Some(NodeItem(z.name, inner, r));
    hide RaiseItems, RaiseNode, FindNode, Off, Post;
    SkipToNode(z.rest, delta);
    match RaiseNode(z.kids, delta)
    case None =>
    case Some(inner) =>
      var z' := z.(kids := inner);
      var k' := Put(k, done, z');
      PutAt(k, done, z', Nil);
      match FindNode(z.rest, Any) {
        case None =>
        case Some(q) =>
          ThenAt(k', done, Next(q), Nil);
      }
  }

  lemma CountKids(z: Items)
    requires z.NodeItem?
    ensures Count(z) == 1 + Count(z.kids) + Count(z.rest)
  {
  }

  /** fdt_next_subnode, from a child of the node at p to the next. */
  method NextSibling(fdt: Blob, child: nat, ghost p: Pos, ghost done: Pos) returns (r: int)
    requires fdt.ValidTree() && Has(fdt.tree, Then(p, Down(done))) && child == Off(fdt.tree, Then(p, Down(done)))
    requires Get(fdt.tree, Then(p, Down(done))).NodeItem?
    ensures match FindNode(Get(fdt.tree, Then(p, Down(done))).rest, Any)
            case Some(q) =>
              var next := Then(p, Down(Then(done, Next(q))));
              Has(fdt.tree, next) && r == Off(fdt.tree, next)
            case None => r == -ERR_NOTFOUND
  {
    hide EncAt, Flat, Off, Post, Get, Blob.Block, Blob.Tab, FindNode, Complete, Closes;
    ghost var pc := Then(p, Down(done));
    ghost var z := Get(fdt.tree, pc);
    PlaceAt(fdt, pc);
    LastCloses(fdt.tree, pc);
    r := NextSubnode(fdt, child, z, Post(fdt.tree, pc, LAST));
    if FindNode(z.rest, Any).Some? {
      AfterPlace(fdt.tree, p, done, FindNode(z.rest, Any).value);
    }
  }

  /** The loop of overlay_adjust_node_phandles. */
  method AdjustChildren(fdto: Blob, node: nat, delta: nat, ghost p: Pos) returns (r: int, ghost k: Items)
    requires fdto.ValidTree() && Has(fdto.tree, p) && Get(fdto.tree, p).NodeItem? && node == Off(fdto.tree, p)
    requires delta < U32_LIMIT
    modifies fdto.buf, fdto`tree
    ensures fdto.Front() == old(fdto.Front())
    ensures fdto.ValidTree()
    ensures fdto.tree == Put(old(fdto.tree), p, old(Get(fdto.tree, p)).(kids := k))
    ensures r == 0 <==> RaiseItems(old(Get(fdto.tree, p)).kids, delta).Some?
    ensures r == 0 ==> RaiseItems(old(Get(fdto.tree, p)).kids, delta) == Some(k)
    decreases Count(Get(fdto.tree, p).kids), 0
  {
    hide EncAt, Flat, Off, Post, Put, Get, TokLen, Size, HeadSize, Blob.Block, Blob.Tab, FindNode, RaiseItems,
         RaiseNode, Count, Complete, Closes, Blob.Front;
    ghost var tree, x := fdto.tree, Get(fdto.tree, p);
    ghost var done, goal := Here, RaiseItems(x.kids, delta);
    k := x.kids;
    r := 0;
    PutAt(tree, p, x, LAST);
    PlaceAt(fdto, p);
    LastCloses(tree, p);
    SkipToNode(k, delta);
    var child := FirstSubnode(fdto, node, x, Post(tree, p, LAST));
    if child >= 0 {
      done := FindNode(k, Any).value;
      InNode(tree, p, done);
      CountGet(k, done);
    }
    while child >= 0
      invariant fdto.Front() == old(fdto.Front())
      invariant fdto.ValidTree() && r == 0
      invariant fdto.tree == Put(tree, p, x.(kids := k))
      invariant Has(fdto.tree, p) && Get(fdto.tree, p) == x.(kids := k)
      invariant child >= 0 ==>
                  && Has(k, done) && Get(k, done).NodeItem? && Count(Get(k, done)) <= Count(x.kids)
                  && Has(fdto.tree, Then(p, Down(done))) && child == Off(fdto.tree, Then(p, Down(done)))
                  && goal == Onto(k, done, RaiseItems(Get(k, done), delta))
      invariant child < 0 ==> goal == Some(k)
      decreases child >= 0, if Has(k, done) then Get(k, done) else Done
    {
      ghost var z, inner, k0, tree0 := Get(k, done), Done, k, fdto.tree;
      NextChild(k, done, delta);
      InNode(fdto.tree, p, done);
      CountKids(z);
      r, inner := AdjustNodePhandles(fdto, child, delta, Then(p, Down(done)));
      k := Put(k, done, z.(kids := inner));
      PutAt(tree, p, x.(kids := k0), LAST);
      PutAt(tree, p, x.(kids := k), LAST);
      PutAt(tree0, Then(p, Down(done)), z.(kids := inner), LAST);
      if r != 0 {
        return;
      }
      PutAt(k0, done, z.(kids := inner), Nil);
      InNode(fdto.tree, p, done);
      child := NextSibling(fdto, child, p, done);
      if child >= 0 {
        ghost var q := FindNode(z.rest, Any).value;
        CountGet(z.rest, q);
        GetSmaller(z.rest, q);
        done := Then(done, Next(q));
      }
    }
  }

  // ------------------------------------------------------ local references

  /** The cells of a value that the entries of list from i on point at, raised by delta modulo 2^32. */
  function FixCells(v: bytes, list: bytes, i: nat, delta: nat): (r: Option<bytes>)
    ensures r.Some? ==> |r.value| == |v|
    decreases |list| - 4 * i
  {
    if 4 * i + 4 > |list| then Some(v)
    else
      var o := Word(list, 4 * i);
      if o + 4 > |v| then None
      else FixCells(Patch(v, o, Word32((Word(v, o) + delta) % U32_LIMIT)), list, i + 1, delta)
  }

  /** Every cell that a list points at lies inside a value of n bytes. */
  ghost predicate CellsFit(n: nat, list: bytes) {
    forall j: nat :: 4 * j + 4 <= |list| ==> Word(list, 4 * j) + 4 <= n
  }

  lemma {:induction false} CellsFitExactly(v: bytes, list: bytes, i: nat, delta: nat)
    ensures FixCells(v, list, i, delta).Some? <==> forall j: nat :: i <= j && 4 * j + 4 <= |list| ==> Word(list, 4 * j) + 4 <= |v|
    decreases |list| - 4 * i
  {
    hide Word, Word32;
    if 4 * i + 4 <= |list| && Word(list, 4 * i) + 4 <= |v| {
      var o := Word(list, 4 * i);
      CellsFitExactly(Patch(v, o, Word32((Word(v, o) + delta) % U32_LIMIT)), list, i + 1, delta);
    }
  }

  /** The property that a fixup names is there, and so are the cells that it lists. */
  ghost predicate ListThere(kids: Items, name: bytes, list: bytes) {
    ValueOf(kids, name).Some? && |list| % 4 == 0 && CellsFit(|ValueOf(kids, name).value|, list)
  }

  lemma ListThereExactly(kids: Items, name: bytes, list: bytes, delta: nat)
    ensures FixProp(kids, name, list, delta).Some? <==> ListThere(kids, name, list)
  {
    hide FixCells, ValueOf, SetProp, Word;
    if ValueOf(kids, name).Some? {
      CellsFitExactly(ValueOf(kids, name).value, list, 0, delta);
    }
  }

  /** One property of a fixup node applied to the contents of the node it stands for. */
  function FixProp(kids: Items, name: bytes, list: bytes, delta: nat): Option<Items> {
    match ValueOf(kids, name)
    case None => None
    case Some(v) =>
      if |list| % 4 != 0 then None
      else match FixCells(v, list, 0, delta) case None => None case Some(w) => Some(SetProp(kids, name, w))
  }

  function FixProps(kids: Items, fix: Items, delta: nat): Option<Items>
    decreases fix
  {
    match fix
    case PropItem(name, list, rest) =>
      (match FixProp(kids, name, list, delta) case None => None case Some(k) => FixProps(k, rest, delta))
    case NopItem(rest) => FixProps(kids, rest, delta)
    case _ => Some(kids)
  }

  /** The child that a fixup node's name matches, with the references it lists raised. */
  function FixKid(kids: Items, name: bytes, fix: Items, delta: nat): Option<Items>
    decreases fix, 2
  {
    match FindNode(kids, Named(name))
    case None => None
    case Some(q) =>
      var child := Get(kids, q);
      match FixNode(child.kids, fix, delta)
      case None => None
      case Some(k) => Some(Put(kids, q, NodeItem(child.name, k, child.rest)))
  }

  function FixKids(kids: Items, fix: Items, delta: nat): Option<Items>
    decreases fix, 0
  {
    match fix
    case Done => Some(kids)
    case NodeItem(name, inner, rest) =>
      (match FixKid(kids, name, inner, delta) case None => None case Some(k) => FixKids(k, rest, delta))
    case _ => FixKids(kids, fix.rest, delta)
  }

  /** The contents of a node with the references listed by its fixup node raised, and so on below. */
  function FixNode(kids: Items, fix: Items, delta: nat): Option<Items>
    decreases fix, 1
  {
    match FixProps(kids, fix, delta) case None => None case Some(k) => FixKids(k, fix, delta)
  }

  // While references are raised, the fixup nodes themselves must stay as they are.

  /** A fixup node: its place, its name and contents, and its offset. */
  datatype Fixup = Fixup(f: Pos, name: bytes, kids: Items, off: nat) {
    function Base(): nat {
      off + TokLen(Begin(name))
    }
  }

  /** That node is where it is said to be. */
  predicate FixAt(tree: Items, fx: Fixup) {
    && Has(tree, fx.f) && Get(tree, fx.f).NodeItem? && Get(tree, fx.f).name == fx.name && Get(tree, fx.f).kids == fx.kids
    && Off(tree, fx.f) == fx.off
  }

  /** The node at t is neither the node at f nor inside it. */
  predicate Clear(f: Pos, t: Pos) {
    t != f && !Inside(f, t)
  }

  lemma {:induction false} ClearChild(f: Pos, t: Pos, q: Pos)
    requires Clear(f, t) && Downs(q) == 0
    ensures !Inside(f, Then(t, Down(q)))
    ensures !Inside(t, f) ==> Clear(f, Then(t, Down(q))) && !Inside(Then(t, Down(q)), f)
    decreases t
  {
    match t
    case Here =>
      if f.Down? {
        FlatInside(f.p, q);
      }
    case Next(r) => if f.Next? { ClearChild(f.p, r, q); }
    case Down(r) => if f.Down? { ClearChild(f.p, r, q); }
  }

  lemma {:induction false} FlatInside(f: Pos, q: Pos)
    requires Downs(q) == 0
    ensures !Inside(f, q)
  {
    if f.Next? && q.Next? {
      FlatInside(f.p, q.p);
    }
  }

  lemma {:induction false} ValueChangeSize(tree: Items, p: Pos, v: bytes)
    requires Has(tree, p) && Get(tree, p).PropItem? && |v| == |Get(tree, p).value|
    ensures var after := Put(tree, p, Get(tree, p).(value := v));
            Size(after) == Size(tree) && !tree.Done? && !after.Done? && HeadSize(after) == HeadSize(tree)
    decreases p
  {
    hide Align4;
    match p
    case Here =>
    case Next(q) => ValueChangeSize(tree.rest, q, v);
    case Down(q) => ValueChangeSize(tree.kids, q, v);
  }

  /** A property's value changes to one of the same length: nodes that it is not inside keep their contents and offset. */
  lemma {:induction false} ValueChangeElsewhere(tree: Items, p: Pos, v: bytes, f: Pos)
    requires Has(tree, p) && Get(tree, p).PropItem? && |v| == |Get(tree, p).value|
    requires Has(tree, f) && Get(tree, f).NodeItem? && !Inside(f, p)
    ensures var after := Put(tree, p, Get(tree, p).(value := v));
            && Has(after, f) && Get(after, f).NodeItem? && Off(after, f) == Off(tree, f)
            && Get(after, f).name == Get(tree, f).name && Get(after, f).kids == Get(tree, f).kids
    decreases p
  {
    ValueChangeSize(tree, p, v);
    hide HeadSize, Size, TokLen;
    match p
    case Here =>
    case Next(q) => if f.Next? { ValueChangeElsewhere(tree.rest, q, v, f.p); }
    case Down(q) => if f.Down? { ValueChangeElsewhere(tree.kids, q, v, f.p); }
  }

  ghost predicate Cells(list: bytes) {
    forall i :: 0 <= i && 4 * i + 4 <= |list| ==> Word(list, 4 * i) + 4 < U32_LIMIT
  }

  /** The offsets that fixup properties hold leave room for a cell below 2^32. */
  ghost predicate AllCells(x: Items) {
    match x
    case Done => true
    case NopItem(rest) => AllCells(rest)
    case PropItem(_, v, rest) => Cells(v) && AllCells(rest)
    case NodeItem(_, kids, rest) => AllCells(kids) && AllCells(rest)
  }

  /** Setting a value twice. */
  lemma {:induction false} SetTwice(kids: Items, name: bytes, a: bytes, b: bytes)
    requires FindProp(kids, name).Some?
    ensures SetProp(SetProp(kids, name, a), name, b) == SetProp(kids, name, b)
    ensures FindProp(SetProp(kids, name, a), name) == FindProp(kids, name) && ValueOf(SetProp(kids, name, a), name) == Some(a)
    ensures ValueOf(kids, name) == Some(a) ==> SetProp(kids, name, a) == kids
  {
    if !(kids.PropItem? && kids.name == name) {
      SetTwice(kids.rest, name, a, b);
    }
  }

  lemma {:induction false} FindPropFlat(kids: Items, name: bytes)
    requires FindProp(kids, name).Some?
    ensures Downs(FindProp(kids, name).value) == 0
  {
    if !(kids.PropItem? && kids.name == name) {
      FindPropFlat(kids.rest, name);
    }
  }

  /** The cell of a property's value at an index. */
  method LoadCell(fdt: Blob, off: nat, poff: nat, o: nat, ghost x: Items, ghost q: Pos, ghost post: Tokens) returns (v: nat)
    requires fdt.At(off, Flat(x, post)) && x.NodeItem? && Has(x.kids, q) && Get(x.kids, q).PropItem?
    requires poff == off + Off(x, Down(q)) && o + 4 <= |Get(x.kids, q).value|
    ensures v == Word(Get(x.kids, q).value, o) && v < U32_LIMIT
  {
    hide EncAt, EncTok, Flat, Off, Word, Get, Blob.Block, Blob.Tab;
    CellInside(fdt.Block(), off, fdt.Tab(), x, q, post, o);
    v := fdt.Load(poff + 12 + o);
  }

  lemma CellInside(s: bytes, off: nat, ns: Names, x: Items, q: Pos, post: Tokens, o: nat)
    requires x.NodeItem? && Has(x.kids, q) && EncAt(s, off, ns, Flat(x, post))
    requires Get(x.kids, q).PropItem? && o + 4 <= |Get(x.kids, q).value|
    ensures var i := off + Off(x, Down(q)) + 12 + o; i + 4 <= |s| && Word(s, i) == Word(Get(x.kids, q).value, o)
  {
    hide EncAt, Flat, TokLen, Word, Names.Is, Off, Post, Align4;
    var y := Get(x.kids, q);
    EncGet(s, off, ns, x, Down(q), post);
    var i := off + Off(x, Down(q));
    PropTokens(s, i, ns, y, Post(x, Down(q), post));
    TokLenFields(Prop(y.name, y.value));
    WordSlice(s, i + 12, |y.value|, o);
  }

  lemma SetOff(x: Items, name: bytes, v: bytes)
    requires x.NodeItem? && FindProp(x.kids, name).Some?
    ensures var q := FindProp(x.kids, name).value;
            Has(SetProp(x.kids, name, v), q) && Off(x.(kids := SetProp(x.kids, name, v)), Down(q)) == Off(x, Down(q))
  {
    hide TokLen;
    var q := FindProp(x.kids, name).value;
    PutAt(x.kids, q, PropItem(name, v, Get(x.kids, q).rest), Nil);
  }

  /** Raising one cell of a property's value; a cell outside the value is not read, and refused. */
  method RaiseCell(fdto: Blob, tnode: nat, poff: nat, len: nat, name: bytes, o: nat, delta: nat,
                   ghost t: Pos, ghost fx: Fixup) returns (r: int)
    requires fdto.ValidTree() && Has(fdto.tree, t) && Get(fdto.tree, t).NodeItem? && tnode == Off(fdto.tree, t)
    requires var x := Get(fdto.tree, t);
             FindProp(x.kids, name).Some? &&
             var q := FindProp(x.kids, name).value;
             poff == tnode + Off(x, Down(q)) && len == |Get(x.kids, q).value|
    requires o + 4 < U32_LIMIT && FixAt(fdto.tree, fx) && Clear(fx.f, t)
    modifies fdto.buf, fdto`tree
    ensures fdto.Front() == old(fdto.Front())
    ensures fdto.ValidTree() && FixAt(fdto.tree, fx)
    ensures var x := old(Get(fdto.tree, t));
            var w := ValueOf(x.kids, name).value;
            if o + 4 > |w| then r == -ERR_NOSPACE && fdto.tree == old(fdto.tree)
            else
              && r == 0
              && fdto.tree == Put(old(fdto.tree), t, x.(kids := SetProp(x.kids, name, Patch(w, o, Word32((Word(w, o) + delta) % U32_LIMIT)))))
  {
    hide EncAt, EncTok, Flat, Off, Post, Put, Get, TokLen, Word, Word32, Closes, Complete, FindProp, Blob.Block,
         Blob.Tab, Patch, Inside, FixAt, Blob.Front;
    ghost var tree, x := fdto.tree, Get(fdto.tree, t);
    ghost var q := FindProp(x.kids, name).value;
    var adj := 0;
    if o + 4 <= len {
      PlaceAt(fdto, t);
      adj := LoadCell(fdto, tnode, poff, o, x, q, Post(tree, t, LAST));
    }
    var w := Word32((adj + delta) % U32_LIMIT);
    r := SetpropInplacePartial(fdto, tnode, name, o, w, t);
    if r == 0 {
      CellElsewhere(tree, t, name, Patch(Get(x.kids, q).value, o, w), fx);
    }
  }

  lemma CellElsewhere(tree: Items, t: Pos, name: bytes, v: bytes, fx: Fixup)
    requires Has(tree, t) && Get(tree, t).NodeItem? && FindProp(Get(tree, t).kids, name).Some?
    requires |v| == |ValueOf(Get(tree, t).kids, name).value| && FixAt(tree, fx) && Clear(fx.f, t)
    ensures FixAt(Put(tree, t, Get(tree, t).(kids := SetProp(Get(tree, t).kids, name, v))), fx)
  {
    hide Off, Post, Inside;
    var x := Get(tree, t);
    var q := FindProp(x.kids, name).value;
    InNode(tree, t, q);
    FindPropFlat(x.kids, name);
    ClearChild(fx.f, t, q);
    ValueChangeElsewhere(tree, Then(t, Down(q)), v, fx.f);
  }

  /** The cells that one fixup property lists. */
  method FixOne(fdto: Blob, tnode: nat, name: bytes, list: bytes, delta: nat,
                ghost t: Pos, ghost fx: Fixup) returns (r: int, ghost k: Items)
    requires fdto.ValidTree() && Has(fdto.tree, t) && Get(fdto.tree, t).NodeItem? && tnode == Off(fdto.tree, t)
    requires delta < U32_LIMIT && Cells(list) && FixAt(fdto.tree, fx) && Clear(fx.f, t)
    modifies fdto.buf, fdto`tree
    ensures fdto.Front() == old(fdto.Front())
    ensures fdto.ValidTree() && FixAt(fdto.tree, fx)
    ensures Has(fdto.tree, t) && tnode == Off(fdto.tree, t)
    ensures fdto.tree == Put(old(fdto.tree), t, Get(fdto.tree, t)) && Get(fdto.tree, t) == old(Get(fdto.tree, t)).(kids := k)
    ensures r == 0 <==> FixProp(old(Get(fdto.tree, t)).kids, name, list, delta).Some?
    ensures r == 0 <==> ListThere(old(Get(fdto.tree, t)).kids, name, list)
    ensures r == 0 ==> FixProp(old(Get(fdto.tree, t)).kids, name, list, delta) == Some(k)
  {
    hide EncAt, EncTok, Flat, Off, Post, Put, Get, TokLen, Word, Word32, Closes, Complete, Names.Is, FindProp,
         SetProp, Blob.Block, Blob.Tab, Blob.Strings, Patch, FixAt, Inside, Blob.Front;
    ghost var tree, x := fdto.tree, Get(fdto.tree, t);
    k := x.kids;
    PutAt(tree, t, x, LAST);
    ListThereExactly(x.kids, name, list, delta);
    hide ListThere;
    if |list| % 4 != 0 {
      return -ERR_BADOVERLAY, k;
    }
    PlaceAt(fdto, t);
    LastCloses(tree, t);
    var poff, len := GetProperty(fdto, tnode, name, x, Post(tree, t, LAST));
    if poff < 0 {
      return if poff == -ERR_NOTFOUND then -ERR_BADOVERLAY else poff, k;
    }
    ghost var v := ValueOf(x.kids, name).value;
    SetTwice(k, name, v, v);
    for i := 0 to |list| / 4
      invariant fdto.Front() == old(fdto.Front())
      invariant fdto.ValidTree() && FixAt(fdto.tree, fx)
      invariant FindProp(x.kids, name).Some? && |v| == len && k == SetProp(x.kids, name, v)
      invariant fdto.tree == Put(tree, t, x.(kids := k))
      invariant FixCells(ValueOf(x.kids, name).value, list, 0, delta) == FixCells(v, list, i, delta)
    {
      var o := Word(list, 4 * i);
      PutAt(tree, t, x.(kids := k), LAST);
      SetTwice(x.kids, name, v, v);
      SetOff(x, name, v);
      r := RaiseCell(fdto, tnode, poff, len, name, o, delta, t, fx);
      if r != 0 {
        return if r == -ERR_NOSPACE then -ERR_BADOVERLAY else r, k;
      }
      v := Patch(v, o, Word32((Word(v, o) + delta) % U32_LIMIT));
      SetTwice(x.kids, name, ValueOf(k, name).value, v);
      k := SetProp(x.kids, name, v);
    }
    PutAt(tree, t, x.(kids := k), LAST);
    r := 0;
  }

  // The fixup nodes themselves: the top one, or one inside it.

  predicate FixChild(fx: Fixup, c: Option<Pos>) {
    c.Some? ==> Has(fx.kids, c.value) && Get(fx.kids, c.value).NodeItem?
  }

  /** The place of its items, from the top one's items. */
  function ListPlace(c: Option<Pos>): Pos {
    match c case None => Here case Some(q) => Then(q, Down(Here))
  }

  function FixPlace(fx: Fixup, c: Option<Pos>): Pos {
    match c case None => fx.f case Some(q) => Then(fx.f, Down(q))
  }

  function FixOff(fx: Fixup, c: Option<Pos>): nat
    requires FixChild(fx, c)
  {
    match c case None => fx.off case Some(q) => fx.Base() + Off(fx.kids, q)
  }

  lemma FixItem(tree: Items, fx: Fixup, g: Pos)
    requires FixAt(tree, fx) && Has(fx.kids, g)
    ensures var p := Then(fx.f, Down(g)); Has(tree, p) && Get(tree, p) == Get(fx.kids, g) && Off(tree, p) == fx.Base() + Off(fx.kids, g)
  {
    InNode(tree, fx.f, g);
    OffDown(Get(tree, fx.f), g);
  }

  lemma FixNodeHere(tree: Items, fx: Fixup, c: Option<Pos>)
    requires FixAt(tree, fx) && FixChild(fx, c)
    ensures var p := FixPlace(fx, c);
            && Has(tree, p) && Get(tree, p).NodeItem? && Off(tree, p) == FixOff(fx, c)
            && Has(fx.kids, ListPlace(c)) && Get(tree, p).kids == Get(fx.kids, ListPlace(c))
            && FixOff(fx, c) + TokLen(Begin(Get(tree, p).name)) == fx.Base() + Off(fx.kids, ListPlace(c))
  {
    hide TokLen;
    match c
    case None =>
    case Some(q) =>
      FixItem(tree, fx, q);
      ThenAt(fx.kids, q, Down(Here), Nil);
      OffDown(Get(fx.kids, q), Here);
  }

  /** The place of the first property before any child. */
  function FirstPropPos(x: Items): (r: Option<Pos>)
    ensures r.Some? ==> Has(x, r.value) && Get(x, r.value).PropItem?
  {
    match x
    case PropItem(_, _, _) => Some(Here)
    case NopItem(rest) => (match FirstPropPos(rest) case Some(q) => Some(Next(q)) case None => None)
    case _ => None
  }

  lemma {:induction false} FirstPropPlace(x: Items, off: nat)
    ensures FirstProp(x, off) ==
            match FirstPropPos(x) case Some(q) => Some((off + Off(x, q), Get(x, q))) case None => None
  {
    hide HeadSize;
    if x.NopItem? {
      FirstPropPlace(x.rest, off + HeadSize(x));
    }
  }

  lemma {:induction false} FixPropsSkip(kids: Items, fix: Items, delta: nat)
    ensures FixProps(kids, fix, delta) ==
            match FirstPropPos(fix) case Some(q) => FixProps(kids, Get(fix, q), delta) case None => Some(kids)
    ensures FirstPropPos(fix).Some? ==> Get(fix, FirstPropPos(fix).value) == fix || Get(fix, FirstPropPos(fix).value) < fix
  {
    hide FixProp;
    if fix.NopItem? {
      FixPropsSkip(kids, fix.rest, delta);
    }
  }

  lemma {:induction false} AllCellsGet(x: Items, p: Pos)
    requires Has(x, p) && AllCells(x)
    ensures AllCells(Get(x, p))
  {
    hide Cells;
    match p
    case Here =>
    case Next(q) => AllCellsGet(x.rest, q);
    case Down(q) => AllCellsGet(x.kids, q);
  }

  /** The first loop of overlay_update_local_node_references. */
  method FixProperties(fdto: Blob, tnode: nat, fixoff: nat, delta: nat, ghost t: Pos, ghost fx: Fixup, ghost c: Option<Pos>)
    returns (r: int, ghost k: Items)
    requires fdto.ValidTree() && Has(fdto.tree, t) && Get(fdto.tree, t).NodeItem? && tnode == Off(fdto.tree, t)
    requires delta < U32_LIMIT && AllCells(fx.kids) && FixAt(fdto.tree, fx) && Clear(fx.f, t)
    requires FixChild(fx, c) && Has(fx.kids, ListPlace(c)) && fixoff == FixOff(fx, c)
    modifies fdto.buf, fdto`tree
    ensures fdto.Front() == old(fdto.Front())
    ensures fdto.ValidTree() && FixAt(fdto.tree, fx)
    ensures Has(fdto.tree, t) && tnode == Off(fdto.tree, t)
    ensures fdto.tree == Put(old(fdto.tree), t, Get(fdto.tree, t)) && Get(fdto.tree, t) == old(Get(fdto.tree, t)).(kids := k)
    ensures r == 0 <==> FixProps(old(Get(fdto.tree, t)).kids, Get(fx.kids, ListPlace(c)), delta).Some?
    ensures r == 0 ==> FixProps(old(Get(fdto.tree, t)).kids, Get(fx.kids, ListPlace(c)), delta) == Some(k)
  {
    hide EncAt, Flat, Off, Post, Put, Get, TokLen, Size, HeadSize, Closes, Complete, FirstProp, FirstPropPos,
         FixProps, FixProp, Blob.Block, Blob.Tab, FixAt, Inside, AllCells, Cells, ListPlace, FixOff, FixPlace,
         FixChild, Blob.Front;
    ghost var tree, x, g := fdto.tree, Get(fdto.tree, t), ListPlace(c);
    ghost var goal := FixProps(x.kids, Get(fx.kids, g), delta);
    k := x.kids;
    r := 0;
    PutAt(tree, t, x, LAST);
    var property := FirstFixProp(fdto, fixoff, fx, c);
    FixPropsSkip(k, Get(fx.kids, g), delta);
    ghost var gy := g;
    if property >= 0 {
      gy := Then(g, FirstPropPos(Get(fx.kids, g)).value);
      ThenAt(fx.kids, g, FirstPropPos(Get(fx.kids, g)).value, Nil);
    }
    while property >= 0
      invariant fdto.Front() == old(fdto.Front())
      invariant fdto.ValidTree() && FixAt(fdto.tree, fx) && r == 0
      invariant fdto.tree == Put(tree, t, x.(kids := k)) && Has(fdto.tree, t) && Get(fdto.tree, t) == x.(kids := k) && tnode == Off(fdto.tree, t)
      invariant property >= 0 ==>
                  && Has(fx.kids, gy) && Get(fx.kids, gy).PropItem? && property == fx.Base() + Off(fx.kids, gy)
                  && goal == FixProps(k, Get(fx.kids, gy), delta)
      invariant property < 0 ==> goal == Some(k)
      decreases property >= 0, if Has(fx.kids, gy) then Get(fx.kids, gy) else Done
    {
      ghost var y := Get(fx.kids, gy);
      ghost var k0 := k;
      AllCellsGet(fx.kids, gy);
      FixPropsStep(k0, y, delta);
      var name, list := ReadFixProp(fdto, property, fx, gy);
      PutAt(tree, t, x.(kids := k0), LAST);
      r, k := FixOne(fdto, tnode, name, list, delta, t, fx);
      PutAt(tree, t, x.(kids := k), LAST);
      if r != 0 {
        return;
      }
      FixPropsSkip(k, y.rest, delta);
      property := NextFixProp(fdto, property, fx, gy);
      if property >= 0 {
        ghost var q := FirstPropPos(y.rest).value;
        NextIs(y, q);
        ThenAt(fx.kids, gy, Next(q), Nil);
        gy := Then(gy, Next(q));
      }
    }
  }

  lemma NextIs(y: Items, q: Pos)
    requires !y.Done? && Has(y.rest, q)
    ensures Has(y, Next(q)) && Get(y, Next(q)) == Get(y.rest, q)
  {
  }

  lemma FixPropsStep(k: Items, y: Items, delta: nat)
    requires y.PropItem? && AllCells(y)
    ensures FixProps(k, y, delta) ==
            match FixProp(k, y.name, y.value, delta) case None => None case Some(k') => FixProps(k', y.rest, delta)
    ensures Cells(y.value)
  {
    hide FixProp;
  }

  method FirstFixProp(fdto: Blob, fixoff: nat, ghost fx: Fixup, ghost c: Option<Pos>) returns (r: int)
    requires fdto.ValidTree() && FixAt(fdto.tree, fx) && FixChild(fx, c) && Has(fx.kids, ListPlace(c)) && fixoff == FixOff(fx, c)
    ensures match FirstPropPos(Get(fx.kids, ListPlace(c)))
            case Some(q) => r == fx.Base() + Off(fx.kids, ListPlace(c)) + Off(Get(fx.kids, ListPlace(c)), q)
            case None => r < 0
  {
    hide EncAt, Flat, Off, Post, Get, TokLen, FirstProp, FirstPropPos, FixAt, FixPlace, FixOff, ListPlace, Closes,
         Complete, FixChild, Blob.Block, Blob.Tab;
    ghost var p := FixPlace(fx, c);
    FixNodeHere(fdto.tree, fx, c);
    PlaceAt(fdto, p);
    LastCloses(fdto.tree, p);
    FirstPropPlace(Get(fx.kids, ListPlace(c)), fx.Base() + Off(fx.kids, ListPlace(c)));
    r := FirstPropertyOffset(fdto, fixoff, Get(fdto.tree, p), Post(fdto.tree, p, LAST));
  }

  method ReadFixProp(fdto: Blob, property: nat, ghost fx: Fixup, ghost g: Pos) returns (name: bytes, list: bytes)
    requires fdto.ValidTree() && FixAt(fdto.tree, fx) && Has(fx.kids, g) && Get(fx.kids, g).PropItem?
    requires property == fx.Base() + Off(fx.kids, g)
    ensures name == Get(fx.kids, g).name && list == Get(fx.kids, g).value
  {
    hide EncAt, Flat, Off, Post, Get, TokLen, FixAt, Closes, Complete, Blob.Block, Blob.Tab;
    ghost var p := Then(fx.f, Down(g));
    FixItem(fdto.tree, fx, g);
    PlaceAt(fdto, p);
    LastCloses(fdto.tree, p);
    ClosesFacts(Get(fdto.tree, p), Post(fdto.tree, p, LAST));
    var len;
    len, name, list := GetpropByOffset(fdto, property, Flat(Get(fdto.tree, p), Post(fdto.tree, p, LAST)));
  }

  method NextFixProp(fdto: Blob, property: nat, ghost fx: Fixup, ghost g: Pos) returns (r: int)
    requires fdto.ValidTree() && FixAt(fdto.tree, fx) && Has(fx.kids, g) && Get(fx.kids, g).PropItem?
    requires property == fx.Base() + Off(fx.kids, g)
    ensures match FirstPropPos(Get(fx.kids, g).rest)
            case Some(q) => r == fx.Base() + Off(fx.kids, g) + Off(Get(fx.kids, g), Next(q))
            case None => r < 0
  {
    hide EncAt, Flat, Post, Get, TokLen, FixAt, Closes, Complete, Blob.Block, Blob.Tab, FirstProp, FirstPropPos;
    ghost var p := Then(fx.f, Down(g));
    FixItem(fdto.tree, fx, g);
    PlaceAt(fdto, p);
    LastCloses(fdto.tree, p);
    FirstPropPlace(Get(fx.kids, g).rest, property + HeadSize(Get(fx.kids, g)));
    r := NextPropertyOffset(fdto, property, Get(fdto.tree, p), Post(fdto.tree, p, LAST));
  }

  // What lookups of children give does not change.

  lemma {:induction false} FindAfterSet(kids: Items, name: bytes, v: bytes, w: Want)
    requires FindProp(kids, name).Some?
    ensures FindNode(SetProp(kids, name, v), w) == FindNode(kids, w)
  {
    if !(kids.PropItem? && kids.name == name) {
      FindAfterSet(kids.rest, name, v, w);
    }
  }

  lemma {:induction false} FindAfterFixProps(kids: Items, fix: Items, delta: nat, w: Want)
    requires FixProps(kids, fix, delta).Some?
    ensures FindNode(FixProps(kids, fix, delta).value, w) == FindNode(kids, w)
    decreases fix
  {
    hide FindNode, SetProp, FixCells;
    match fix
    case PropItem(name, list, rest) =>
      var k := FixProp(kids, name, list, delta).value;
      FindAfterSet(kids, name, FixCells(ValueOf(kids, name).value, list, 0, delta).value, w);
      FindAfterFixProps(k, rest, delta, w);
    case NopItem(rest) => FindAfterFixProps(kids, rest, delta, w);
    case _ =>
  }

  lemma {:induction false} FindAfterKid(kids: Items, q: Pos, inner: Items, w: Want)
    requires Has(kids, q) && Get(kids, q).NodeItem? && Downs(q) == 0
    ensures FindNode(Put(kids, q, Get(kids, q).(kids := inner)), w) == FindNode(kids, w)
    decreases q
  {
    match q
    case Here =>
    case Next(r) => FindAfterKid(kids.rest, r, inner, w);
    case Down(r) =>
  }

  lemma {:induction false} FindNodeFlat(x: Items, w: Want)
    requires FindNode(x, w).Some?
    ensures Downs(FindNode(x, w).value) == 0
  {
    if !(x.NodeItem? && w.Ok(x.name)) {
      FindNodeFlat(x.rest, w);
    }
  }

  /** No fixup among the items of fix stands for the child at q. */
  predicate NoSelf(kids: Items, fix: Items, q: Pos) {
    match fix
    case Done => true
    case NodeItem(name, _, rest) => FindNode(kids, Named(name)) != Some(q) && NoSelf(kids, rest, q)
    case _ => NoSelf(kids, fix.rest, q)
  }

  lemma {:induction false} NoSelfSame(kids: Items, after: Items, fix: Items, q: Pos)
    requires NoSelf(kids, fix, q) && forall w :: FindNode(after, w) == FindNode(kids, w)
    ensures NoSelf(after, fix, q)
    decreases fix
  {
    hide FindNode;
    if !fix.Done? {
      NoSelfSame(kids, after, fix.rest, q);
    }
  }

  lemma {:induction false} NoSelfGet(kids: Items, fix: Items, q: Pos, c: Pos)
    requires NoSelf(kids, fix, q) && Has(fix, c) && Downs(c) == 0
    ensures NoSelf(kids, Get(fix, c), q)
    decreases c
  {
    hide FindNode;
    if c.Next? {
      NoSelfGet(kids, fix.rest, q, c.p);
    }
  }

  /** A node around the top fixup node may only be the root, and its fixups may not stand for the fixup node itself. */
  predicate Safe(t: Pos, fx: Fixup, kids: Items, fix: Items) {
    Inside(t, fx.f) ==> t.Here? && fx.f.Down? && Downs(fx.f.p) == 0 && NoSelf(kids, fix, fx.f.p)
  }

  lemma SafeChild(t: Pos, fx: Fixup, kids: Items, z: Items, q: Pos)
    requires Safe(t, fx, kids, z) && Clear(fx.f, t) && z.NodeItem? && FindNode(kids, Named(z.name)) == Some(q)
    ensures Clear(fx.f, Then(t, Down(q))) && !Inside(Then(t, Down(q)), fx.f)
  {
    hide FindNode;
    FindNodeFlat(kids, Named(z.name));
    ClearChild(fx.f, t, q);
    if Inside(t, fx.f) {
      FlatInside(fx.f.p, q);
      FlatInside(q, fx.f.p);
    }
  }

  lemma {:induction false} FixKidsSkip(kids: Items, fix: Items, delta: nat)
    ensures FixKids(kids, fix, delta) ==
            match FindNode(fix, Any) case Some(q) => FixKids(kids, Get(fix, q), delta) case None => Some(kids)
  {
    hide FixKid;
    if fix.PropItem? || fix.NopItem? {
      FixKidsSkip(kids, fix.rest, delta);
    }
  }

  /** overlay_update_local_node_references */
  method UpdateReferences(fdto: Blob, tnode: nat, fixoff: nat, delta: nat, ghost t: Pos, ghost fx: Fixup, ghost c: Option<Pos>)
    returns (r: int, ghost k: Items)
    requires fdto.ValidTree() && Has(fdto.tree, t) && Get(fdto.tree, t).NodeItem? && tnode == Off(fdto.tree, t)
    requires delta < U32_LIMIT && AllCells(fx.kids) && FixAt(fdto.tree, fx) && Clear(fx.f, t)
    requires FixChild(fx, c) && Has(fx.kids, ListPlace(c)) && fixoff == FixOff(fx, c)
    requires Safe(t, fx, Get(fdto.tree, t).kids, Get(fx.kids, ListPlace(c)))
    modifies fdto.buf, fdto`tree
    ensures fdto.Front() == old(fdto.Front())
    ensures fdto.ValidTree() && FixAt(fdto.tree, fx)
    ensures fdto.tree == Put(old(fdto.tree), t, old(Get(fdto.tree, t)).(kids := k))
    ensures r == 0 <==> FixNode(old(Get(fdto.tree, t)).kids, Get(fx.kids, ListPlace(c)), delta).Some?
    ensures r == 0 ==> FixNode(old(Get(fdto.tree, t)).kids, Get(fx.kids, ListPlace(c)), delta) == Some(k)
    decreases Get(fx.kids, ListPlace(c)), 1
  {
    hide EncAt, Flat, Off, Post, Put, Get, TokLen, FixProps, FixKids, FixAt, AllCells, FixOff, FixChild, ListPlace,
         Clear, Blob.Block, Blob.Tab, NoSelf, FindNode, Blob.Front;
    ghost var tree, x, fix := fdto.tree, Get(fdto.tree, t), Get(fx.kids, ListPlace(c));
    r, k := FixProperties(fdto, tnode, fixoff, delta, t, fx, c);
    if r != 0 {
      return;
    }
    SafeAfterProps(t, fx, x.kids, fix, delta);
    r, k := FixChildren(fdto, tnode, fixoff, delta, t, fx, c);
    PutAt(tree, t, x.(kids := FixProps(x.kids, fix, delta).value), LAST);
  }

  lemma SafeAfterProps(t: Pos, fx: Fixup, kids: Items, fix: Items, delta: nat)
    requires Safe(t, fx, kids, fix) && FixProps(kids, fix, delta).Some?
    ensures Safe(t, fx, FixProps(kids, fix, delta).value, fix)
  {
    hide FixProps, FindNode, NoSelf;
    var after := FixProps(kids, fix, delta).value;
    forall w
      ensures FindNode(after, w) == FindNode(kids, w)
    {
      FindAfterFixProps(kids, fix, delta, w);
    }
    if Inside(t, fx.f) {
      NoSelfSame(kids, after, fix, fx.f.p);
    }
  }

  /** The second loop of overlay_update_local_node_references. */
  method FixChildren(fdto: Blob, tnode: nat, fixoff: nat, delta: nat, ghost t: Pos, ghost fx: Fixup, ghost c: Option<Pos>)
    returns (r: int, ghost k: Items)
    requires fdto.ValidTree() && Has(fdto.tree, t) && Get(fdto.tree, t).NodeItem? && tnode == Off(fdto.tree, t)
    requires delta < U32_LIMIT && AllCells(fx.kids) && FixAt(fdto.tree, fx) && Clear(fx.f, t)
    requires FixChild(fx, c) && Has(fx.kids, ListPlace(c)) && fixoff == FixOff(fx, c)
    requires Safe(t, fx, Get(fdto.tree, t).kids, Get(fx.kids, ListPlace(c)))
    modifies fdto.buf, fdto`tree
    ensures fdto.Front() == old(fdto.Front())
    ensures fdto.ValidTree() && FixAt(fdto.tree, fx)
    ensures fdto.tree == Put(old(fdto.tree), t, old(Get(fdto.tree, t)).(kids := k))
    ensures r == 0 <==> FixKids(old(Get(fdto.tree, t)).kids, Get(fx.kids, ListPlace(c)), delta).Some?
    ensures r == 0 ==> FixKids(old(Get(fdto.tree, t)).kids, Get(fx.kids, ListPlace(c)), delta) == Some(k)
    decreases Get(fx.kids, ListPlace(c)), 0
  {
    hide EncAt, Flat, Off, Post, Put, Get, TokLen, Size, HeadSize, Closes, Complete, FixKids, FixKid, FixAt,
         AllCells, FixOff, FixChild, ListPlace, Clear, Safe, Blob.Block, Blob.Tab, FindNode, Blob.Front;
    ghost var tree, x, fix := fdto.tree, Get(fdto.tree, t), Get(fx.kids, ListPlace(c));
    ghost var goal := FixKids(x.kids, fix, delta);
    k := x.kids;
    r := 0;
    PutAt(tree, t, x, LAST);
    FixKidsSkip(k, fix, delta);
    var child := FirstFixChild(fdto, fixoff, fx, c);
    ghost var cc := ListPlace(c);
    if child >= 0 {
      cc := FirstFixPlace(fx, c, t, k);
    }
    while child >= 0
      invariant fdto.Front() == old(fdto.Front())
      invariant fdto.ValidTree() && FixAt(fdto.tree, fx) && r == 0
      invariant fdto.tree == Put(tree, t, x.(kids := k)) && Has(fdto.tree, t) && Get(fdto.tree, t) == x.(kids := k) && tnode == Off(fdto.tree, t)
      invariant child >= 0 ==>
                  && Has(fx.kids, cc) && Get(fx.kids, cc).NodeItem? && child == fx.Base() + Off(fx.kids, cc)
                  && (Get(fx.kids, cc) == fix || Get(fx.kids, cc) < fix) && Safe(t, fx, k, Get(fx.kids, cc))
                  && goal == FixKids(k, Get(fx.kids, cc), delta)
      invariant child < 0 ==> goal == Some(k)
      decreases child >= 0, if Has(fx.kids, cc) then Get(fx.kids, cc) else Done
    {
      ghost var z, k0 := Get(fx.kids, cc), k;
      FixKidsStep(k0, z, delta);
      r, k := FixChildOne(fdto, tnode, child, delta, t, fx, cc);
      PutAt(tree, t, x.(kids := k0), LAST);
      PutAt(tree, t, x.(kids := k), LAST);
      if r != 0 {
        return;
      }
      FixKidsSkip(k, z.rest, delta);
      SafeAfterKid(t, fx, k0, z, delta);
      child := NextFixChild(fdto, child, fx, cc);
      if child >= 0 {
        cc := NextFixPlace(fx, cc, t, k);
      }
    }
  }

  lemma FixKidsStep(k: Items, z: Items, delta: nat)
    requires z.NodeItem?
    ensures FixKids(k, z, delta) ==
            match FixKid(k, z.name, z.kids, delta) case None => None case Some(k') => FixKids(k', z.rest, delta)
  {
    hide FixKid;
  }

  lemma SafeAfterKid(t: Pos, fx: Fixup, k: Items, z: Items, delta: nat)
    requires z.NodeItem? && Safe(t, fx, k, z) && FixKid(k, z.name, z.kids, delta).Some?
    ensures Safe(t, fx, FixKid(k, z.name, z.kids, delta).value, z.rest)
  {
    hide FindNode, FixNode;
    var q := FindNode(k, Named(z.name)).value;
    var inner := FixNode(Get(k, q).kids, z.kids, delta).value;
    var after := FixKid(k, z.name, z.kids, delta).value;
    FindNodeFlat(k, Named(z.name));
    forall w
      ensures FindNode(after, w) == FindNode(k, w)
    {
      FindAfterKid(k, q, inner, w);
    }
    if Inside(t, fx.f) {
      NoSelfSame(k, after, z.rest, fx.f.p);
    }
  }

  lemma FirstFixPlace(fx: Fixup, c: Option<Pos>, t: Pos, k: Items) returns (cc: Pos)
    requires Has(fx.kids, ListPlace(c)) && FindNode(Get(fx.kids, ListPlace(c)), Any).Some?
    requires Safe(t, fx, k, Get(fx.kids, ListPlace(c)))
    ensures var fix := Get(fx.kids, ListPlace(c));
            var q := FindNode(fix, Any).value;
            && Has(fx.kids, cc) && Get(fx.kids, cc) == Get(fix, q) && Get(fx.kids, cc).NodeItem?
            && (Get(fx.kids, cc) == fix || Get(fx.kids, cc) < fix)
            && Off(fx.kids, cc) == Off(fx.kids, ListPlace(c)) + Off(fix, q) && Safe(t, fx, k, Get(fx.kids, cc))
  {
    hide FindNode, Off, Post, Put, NoSelf;
    var fix := Get(fx.kids, ListPlace(c));
    var q := FindNode(fix, Any).value;
    cc := Then(ListPlace(c), q);
    ThenAt(fx.kids, ListPlace(c), q, Nil);
    GetSmaller(fix, q);
    FindNodeFlat(fix, Any);
    if Inside(t, fx.f) {
      NoSelfGet(k, fix, fx.f.p, q);
    }
  }

  lemma NextFixPlace(fx: Fixup, c: Pos, t: Pos, k: Items) returns (cc: Pos)
    requires Has(fx.kids, c) && Get(fx.kids, c).NodeItem? && FindNode(Get(fx.kids, c).rest, Any).Some?
    requires Safe(t, fx, k, Get(fx.kids, c).rest)
    ensures var z := Get(fx.kids, c);
            var q := FindNode(z.rest, Any).value;
            && Has(fx.kids, cc) && Get(fx.kids, cc) == Get(z.rest, q) && Get(fx.kids, cc).NodeItem? && Get(fx.kids, cc) < z
            && Off(fx.kids, cc) == Off(fx.kids, c) + Off(z, Next(q)) && Safe(t, fx, k, Get(fx.kids, cc))
  {
    hide FindNode, Off, Post, Put, NoSelf;
    var z := Get(fx.kids, c);
    var q := FindNode(z.rest, Any).value;
    cc := Then(c, Next(q));
    ThenAt(fx.kids, c, Next(q), Nil);
    GetSmaller(z.rest, q);
    FindNodeFlat(z.rest, Any);
    if Inside(t, fx.f) {
      NoSelfGet(k, z.rest, fx.f.p, q);
    }
  }

  method FirstFixChild(fdto: Blob, fixoff: nat, ghost fx: Fixup, ghost c: Option<Pos>) returns (r: int)
    requires fdto.ValidTree() && FixAt(fdto.tree, fx) && FixChild(fx, c) && Has(fx.kids, ListPlace(c)) && fixoff == FixOff(fx, c)
    ensures match FindNode(Get(fx.kids, ListPlace(c)), Any)
            case Some(q) => r == fx.Base() + Off(fx.kids, ListPlace(c)) + Off(Get(fx.kids, ListPlace(c)), q)
            case None => r < 0
  {
    hide EncAt, Flat, Off, Post, Get, TokLen, FindNode, FixAt, FixPlace, FixOff, ListPlace, Closes, Complete,
         FixChild, Blob.Block, Blob.Tab;
    ghost var p := FixPlace(fx, c);
    FixNodeHere(fdto.tree, fx, c);
    PlaceAt(fdto, p);
    LastCloses(fdto.tree, p);
    if FindNode(Get(fx.kids, ListPlace(c)), Any).Some? {
      OffDown(Get(fdto.tree, p), FindNode(Get(fx.kids, ListPlace(c)), Any).value);
    }
    r := FirstSubnode(fdto, fixoff, Get(fdto.tree, p), Post(fdto.tree, p, LAST));
  }

  method NextFixChild(fdto: Blob, child: nat, ghost fx: Fixup, ghost c: Pos) returns (r: int)
    requires fdto.ValidTree() && FixAt(fdto.tree, fx) && Has(fx.kids, c) && Get(fx.kids, c).NodeItem?
    requires child == fx.Base() + Off(fx.kids, c)
    ensures match FindNode(Get(fx.kids, c).rest, Any)
            case Some(q) => r == fx.Base() + Off(fx.kids, c) + Off(Get(fx.kids, c), Next(q))
            case None => r < 0
  {
    hide EncAt, Flat, Off, Post, Get, TokLen, FixAt, Closes, Complete, Blob.Block, Blob.Tab, FindNode;
    ghost var p := Then(fx.f, Down(c));
    FixItem(fdto.tree, fx, c);
    PlaceAt(fdto, p);
    LastCloses(fdto.tree, p);
    r := NextSubnode(fdto, child, Get(fdto.tree, p), Post(fdto.tree, p, LAST));
  }

  /** One round of that loop. */
  method FixChildOne(fdto: Blob, tnode: nat, child: nat, delta: nat, ghost t: Pos, ghost fx: Fixup, ghost c: Pos)
    returns (r: int, ghost k: Items)
    requires fdto.ValidTree() && Has(fdto.tree, t) && Get(fdto.tree, t).NodeItem? && tnode == Off(fdto.tree, t)
    requires delta < U32_LIMIT && AllCells(fx.kids) && FixAt(fdto.tree, fx) && Clear(fx.f, t)
    requires Has(fx.kids, c) && Get(fx.kids, c).NodeItem? && child == fx.Base() + Off(fx.kids, c)
    requires Safe(t, fx, Get(fdto.tree, t).kids, Get(fx.kids, c))
    modifies fdto.buf, fdto`tree
    ensures fdto.Front() == old(fdto.Front())
    ensures fdto.ValidTree() && FixAt(fdto.tree, fx)
    ensures fdto.tree == Put(old(fdto.tree), t, old(Get(fdto.tree, t)).(kids := k))
    ensures var o := FixKid(old(Get(fdto.tree, t)).kids, Get(fx.kids, c).name, Get(fx.kids, c).kids, delta);
            (r == 0 <==> o.Some?) && (r == 0 ==> o == Some(k))
    decreases Get(fx.kids, c).kids, 2
  {
    hide EncAt, Flat, Off, Post, Put, Get, TokLen, Size, HeadSize, Closes, Complete, FixNode, FixAt, AllCells,
         FixOff, FixChild, Clear, Safe, Blob.Block, Blob.Tab, FindNode, CStr, Blob.Front;
    ghost var tree, x, z := fdto.tree, Get(fdto.tree, t), Get(fx.kids, c);
    ghost var p := Then(fx.f, Down(c));
    k := x.kids;
    PutAt(tree, t, x, LAST);
    FixItem(tree, fx, c);
    PlaceAt(fdto, p);
    LastCloses(tree, p);
    var name := NameOf(fdto, child, z, Post(tree, p, LAST));
    PlaceAt(fdto, t);
    LastCloses(tree, t);
    var tchild := SubnodeOffset(fdto, tnode, name, x, Post(tree, t, LAST));
    if tchild < 0 {
      return if tchild == -ERR_NOTFOUND then -ERR_BADOVERLAY else tchild, k;
    }
    ghost var q := FindNode(x.kids, Named(name)).value;
    InNode(tree, t, q);
    SafeChild(t, fx, x.kids, z, q);
    ChildOff(fx, c);
    ghost var inner;
    r, inner := UpdateReferences(fdto, tchild, child, delta, Then(t, Down(q)), fx, Some(c));
    k := Put(x.kids, q, Get(x.kids, q).(kids := inner));
  }

  lemma ChildOff(fx: Fixup, c: Pos)
    requires Has(fx.kids, c) && Get(fx.kids, c).NodeItem?
    ensures FixChild(fx, Some(c)) && FixOff(fx, Some(c)) == fx.Base() + Off(fx.kids, c)
    ensures Has(fx.kids, ListPlace(Some(c))) && Get(fx.kids, ListPlace(Some(c))) == Get(fx.kids, c).kids
    ensures forall t, kids, fix :: !Inside(t, fx.f) ==> Safe(t, fx, kids, fix)
  {
    hide Off;
    ThenAt(fx.kids, c, Down(Here), Nil);
  }
}
