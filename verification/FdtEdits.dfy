/**
 What the edits of fdt_rw.c mean: lookups after an edit, and everything an
 edit leaves alone.
 */
module FdtEdits {
  import opened Bytes
  import opened FdtTree
  import opened FdtCore
  import opened FdtRo
  import opened FdtWip
  import opened FdtRw

  /** The children among the items of a node, in order. */
  function Kids(x: Items): seq<(bytes, Items)> {
    match x
    case Done => []
    case NodeItem(name, kids, rest) => [(name, kids)] + Kids(rest)
    case _ => Kids(x.rest)
  }

  /** After fdt_setprop a lookup gives the new value; other properties and all children are as they were. */
  lemma {:induction false} SetPropMeans(kids: Items, name: bytes, val: bytes, other: bytes)
    requires other != name
    ensures ValueOf(SetProp(kids, name, val), name) == Some(val)
    ensures ValueOf(SetProp(kids, name, val), other) == ValueOf(kids, other)
    ensures Kids(SetProp(kids, name, val)) == Kids(kids)
  {
    if FindProp(kids, name).Some? {
      ReplacedProp(kids, name, val, other);
    }
  }

  /** Replacing the first property of a name by one with another value. */
  lemma {:induction false} ReplacedProp(kids: Items, name: bytes, val: bytes, other: bytes)
    requires other != name && FindProp(kids, name).Some?
    ensures var q := FindProp(kids, name).value;
            var new_ := Put(kids, q, PropItem(name, val, Get(kids, q).rest));
            && ValueOf(new_, name) == Some(val) && ValueOf(new_, other) == ValueOf(kids, other)
            && Kids(new_) == Kids(kids)
  {
    if !(kids.PropItem? && kids.name == name) {
      ReplacedProp(kids.rest, name, val, other);
    }
  }

  /** fdt_appendprop extends the value a lookup gives, or creates it. */
  lemma AppendPropMeans(kids: Items, name: bytes, val: bytes, other: bytes)
    requires other != name
    ensures ValueOf(AppendProp(kids, name, val), name) ==
            Some(match ValueOf(kids, name) case Some(v) => v + val case None => val)
    ensures ValueOf(AppendProp(kids, name, val), other) == ValueOf(kids, other)
    ensures Kids(AppendProp(kids, name, val)) == Kids(kids)
  {
    match FindProp(kids, name)
    case Some(q) => ReplacedProp(kids, name, Get(kids, q).value + val, other);
    case None =>
  }

  /** fdt_delprop makes a lookup give the next property of that name, if there is one. */
  lemma {:induction false} DelPropMeans(kids: Items, name: bytes, other: bytes)
    requires other != name && FindProp(kids, name).Some?
    ensures ValueOf(DelProp(kids, name), name) == ValueOf(Get(kids, FindProp(kids, name).value).rest, name)
    ensures ValueOf(DelProp(kids, name), other) == ValueOf(kids, other)
    ensures Kids(DelProp(kids, name)) == Kids(kids)
  {
    if !(kids.PropItem? && kids.name == name) {
      DelPropMeans(kids.rest, name, other);
    }
  }

  /** fdt_add_subnode puts an empty child in front of the others and touches no property. */
  lemma {:induction false} AddKidMeans(kids: Items, name: bytes, prop: bytes)
    ensures Kids(AddKid(kids, name)) == [(name, Done)] + Kids(kids)
    ensures ValueOf(AddKid(kids, name), prop) == ValueOf(kids, prop)
    ensures FindNode(kids, Named(name)) == None ==> FindNode(AddKid(kids, name), Named(name)) == Some(AfterProps(kids))
  {
    if kids.PropItem? || kids.NopItem? {
      AddKidMeans(kids.rest, name, prop);
    }
  }

  // ------------------------------------------- everything else in the tree

  /** What an item is, apart from what is inside and after it. */
  datatype Label = NoItem | NopLabel | PropLabel(name: bytes, value: bytes) | NodeLabel(name: bytes)

  function LabelOf(x: Items): Label {
    match x
    case Done => NoItem
    case NopItem(_) => NopLabel
    case PropItem(n, v, _) => PropLabel(n, v)
    case NodeItem(n, _, _) => NodeLabel(n)
  }

  /** r is a place inside the node at p. */
  predicate Inside(p: Pos, r: Pos) {
    match p
    case Here => r.Down?
    case Next(q) => r.Next? && Inside(q, r.p)
    case Down(q) => r.Down? && Inside(q, r.p)
  }

  /**
   An edit of the contents of the node at p leaves every item that is not inside
   that node in its place, with its name and value.
   */
  lemma {:induction false} EditLeavesOthers(tree: Items, p: Pos, kids: Items, r: Pos)
    requires Has(tree, p) && Get(tree, p).NodeItem? && !Inside(p, r)
    ensures var after := Put(tree, p, Get(tree, p).(kids := kids));
            && (Has(after, r) <==> Has(tree, r))
            && (Has(tree, r) ==> LabelOf(Get(after, r)) == LabelOf(Get(tree, r)))
    decreases p
  {
    match p
    case Here =>
      if r.Next? {
        assert Put(tree, p, tree.(kids := kids)).rest == tree.rest;
      }
    case Next(q) => if r.Next? { EditLeavesOthers(tree.rest, q, kids, r.p); }
    case Down(q) => if r.Down? { EditLeavesOthers(tree.kids, q, kids, r.p); }
  }

  /** Removing the node at p leaves what is outside and before it in place, and moves what followed it up by one. */
  lemma {:induction false} RemovalLeavesOthers(tree: Items, p: Pos, r: Pos)
    requires Has(tree, p) && !Get(tree, p).Done? && !Within(p, r)
    ensures var after := Put(tree, p, Get(tree, p).rest);
            && (Has(after, r) <==> Has(tree, r))
            && (Has(tree, r) ==> LabelOf(Get(after, r)) == LabelOf(Get(tree, r)))
    decreases p
  {
    match p
    case Here =>
    case Next(q) => if r.Next? { RemovalLeavesOthers(tree.rest, q, r.p); }
    case Down(q) => if r.Down? { RemovalLeavesOthers(tree.kids, q, r.p); }
  }

  /** r is the place p, or inside or after what starts there. */
  predicate Within(p: Pos, r: Pos) {
    match p
    case Here => true
    case Next(q) => r.Next? && Within(q, r.p)
    case Down(q) => r.Down? && Within(q, r.p)
  }

  lemma {:induction false} RemovalMovesUp(tree: Items, p: Pos, r: Pos)
    requires Has(tree, p) && !Get(tree, p).Done?
    ensures var after := Put(tree, p, Get(tree, p).rest);
            && (Has(after, Then(p, r)) <==> Has(tree, Then(p, Next(r))))
            && (Has(after, Then(p, r)) ==> Get(after, Then(p, r)) == Get(tree, Then(p, Next(r))))
    decreases p
  {
    match p
    case Here =>
    case Next(q) => RemovalMovesUp(tree.rest, q, r);
    case Down(q) => RemovalMovesUp(tree.kids, q, r);
  }
}
