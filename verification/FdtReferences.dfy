/**
 Renumbering an overlay is sound: its phandles end above those of the base
 tree and stay distinct, and every local reference that is listed once still
 designates the same node.
 */
module FdtReferences {
  import opened Bytes
  import opened FdtFormat
  import opened FdtTree
  import opened FdtBlob
  import opened FdtCore
  import opened FdtRo
  import opened FdtWip
  import opened FdtRw
  import opened FdtEdits
  import opened FdtWalk
  import opened FdtPath
  import opened FdtPhandle
  import opened FdtOverlay
  import opened FdtRenumber

  // ------------------------------------------------------ raised phandles

  /** A node's phandle after it is raised; a phandle of 0 with its property present would become delta. */
  lemma RaisedPhandle(kids: Items, delta: nat)
    requires RaiseBoth(kids, delta).Some?
    ensures Phandle(kids) >= 1 ==> Phandle(RaiseBoth(kids, delta).value) == Phandle(kids) + delta < U32_LIMIT - 1
    ensures forall name :: name != PHANDLE && name != LINUX_PHANDLE ==> ValueOf(RaiseBoth(kids, delta).value, name) == ValueOf(kids, name)
    ensures Kids(RaiseBoth(kids, delta).value) == Kids(kids)
  {
    hide Word, Word32, SetProp, ValueOf, Kids;
    var a := Raise(kids, PHANDLE, delta).value;
    RaisedValue(kids, PHANDLE, delta);
    RaisedValue(a, LINUX_PHANDLE, delta);
    assert PHANDLE != LINUX_PHANDLE;
  }

  lemma RaisedValue(kids: Items, name: bytes, delta: nat)
    requires Raise(kids, name, delta).Some?
    ensures var k := Raise(kids, name, delta).value;
            && WordOf(ValueOf(k, name)) == (match ValueOf(kids, name) case Some(v) => Some(Word(v, 0) + delta) case None => None)
            && (ValueOf(kids, name).Some? ==> |ValueOf(kids, name).value| == 4 && Word(ValueOf(kids, name).value, 0) + delta < U32_LIMIT - 1)
            && (forall other :: other != name ==> ValueOf(k, other) == ValueOf(kids, other))
            && Kids(k) == Kids(kids)
  {
    hide Word, Word32, SetProp, ValueOf, Kids;
    var k := Raise(kids, name, delta).value;
    if ValueOf(kids, name).Some? {
      var v := Word32(Word(ValueOf(kids, name).value, 0) + delta);
      SetPropMeans(kids, name, v, name + [0]);
      forall other | other != name
        ensures ValueOf(k, other) == ValueOf(kids, other)
      {
        SetPropMeans(kids, name, v, other);
      }
    }
  }

  lemma {:induction false} SetKeepsPlaces(kids: Items, name: bytes, v: bytes, p: Pos)
    requires FindProp(kids, name).Some? && Has(kids, p) && Get(kids, p).NodeItem?
    ensures var k := SetProp(kids, name, v); Has(k, p) && Get(k, p).NodeItem? && Get(k, p).kids == Get(kids, p).kids
  {
    if !(kids.PropItem? && kids.name == name) && p.Next? {
      SetKeepsPlaces(kids.rest, name, v, p.p);
    }
  }

  lemma RaiseBothKeepsPlaces(kids: Items, delta: nat, p: Pos)
    requires RaiseBoth(kids, delta).Some? && Has(kids, p) && Get(kids, p).NodeItem?
    ensures var k := RaiseBoth(kids, delta).value; Has(k, p) && Get(k, p).NodeItem? && Get(k, p).kids == Get(kids, p).kids
  {
    hide Word, Word32, SetProp, Has, Get;
    var a := Raise(kids, PHANDLE, delta).value;
    if AddPhandle(kids, PHANDLE, delta).Ok? {
      SetKeepsPlaces(kids, PHANDLE, Word32(Word(ValueOf(kids, PHANDLE).value, 0) + delta), p);
    }
    if AddPhandle(a, LINUX_PHANDLE, delta).Ok? {
      SetKeepsPlaces(a, LINUX_PHANDLE, Word32(Word(ValueOf(a, LINUX_PHANDLE).value, 0) + delta), p);
    }
  }

  /** Every node of the overlay is still in its place, with its phandle raised. */
  lemma {:induction false} RaisedPlace(x: Items, delta: nat, p: Pos)
    requires RaiseItems(x, delta).Some? && Has(x, p) && Get(x, p).NodeItem?
    ensures var y := RaiseItems(x, delta).value;
            Has(y, p) && Get(y, p).NodeItem? && RaiseNode(Get(x, p).kids, delta) == Some(Get(y, p).kids)
    decreases p
  {
    hide RaiseBoth;
    match p
    case Here =>
    case Next(q) => RaisedPlace(x.rest, delta, q);
    case Down(q) =>
      RaisedPlace(x.kids, delta, q);
      RaiseBothKeepsPlaces(RaiseItems(x.kids, delta).value, delta, q);
  }

  /** After renumbering, an overlay node's phandle is its old one plus delta. */
  lemma RaisedNode(kids: Items, delta: nat)
    requires RaiseNode(kids, delta).Some?
    ensures Phandle(kids) >= 1 ==> Phandle(RaiseNode(kids, delta).value) == Phandle(kids) + delta < U32_LIMIT - 1
    ensures forall name :: name != PHANDLE && name != LINUX_PHANDLE ==> ValueOf(RaiseNode(kids, delta).value, name) == ValueOf(kids, name)
  {
    hide RaiseItems, RaiseBoth, ValueOf, WordOf;
    var k := RaiseItems(kids, delta).value;
    RaisedPhandle(k, delta);
    RaiseKeepsProps(kids, delta, PHANDLE);
    RaiseKeepsProps(kids, delta, LINUX_PHANDLE);
    forall name
      ensures ValueOf(k, name) == ValueOf(kids, name)
    {
      RaiseKeepsProps(kids, delta, name);
    }
  }

  /**
   Raised by the base's maximum, every overlay phandle exceeds every base phandle,
   and distinct phandles stay distinct.
   */
  lemma RenumberedApart(base: Items, b: Pos, over: Items, d: Pos, e: Pos)
    requires Has(base, b) && Get(base, b).NodeItem?
    requires Has(over, d) && Get(over, d).NodeItem? && Phandle(Get(over, d).kids) >= 1
    requires Has(over, e) && Get(over, e).NodeItem? && Phandle(Get(over, e).kids) >= 1
    requires RaiseItems(over, MaxPhandle(base)).Some?
    ensures var after := RaiseItems(over, MaxPhandle(base)).value;
            && Has(after, d) && Get(after, d).NodeItem? && Has(after, e) && Get(after, e).NodeItem?
            && Phandle(Get(base, b).kids) < Phandle(Get(after, d).kids)
            && (Phandle(Get(over, d).kids) == Phandle(Get(over, e).kids) <==> Phandle(Get(after, d).kids) == Phandle(Get(after, e).kids))
  {
    hide RaiseItems, RaiseNode, Phandle, MaxPhandle, Has, Get;
    var delta := MaxPhandle(base);
    MaxPhandleBounds(base, b);
    RaisedPlace(over, delta, d);
    RaisedPlace(over, delta, e);
    RaisedNode(Get(over, d).kids, delta);
    RaisedNode(Get(over, e).kids, delta);
  }

  // ------------------------------------------------------- paths of names

  /** The contents of the node that a list of names leads to. */
  function Descend(kids: Items, names: seq<bytes>): Option<Items>
    decreases |names|
  {
    if names == [] then Some(kids)
    else match Child(kids, names[0]) case None => None case Some(c) => Descend(c.1, names[1..])
  }

  /** The names are exactly those of the nodes they lead through. */
  predicate Exact(kids: Items, names: seq<bytes>)
    decreases |names|
  {
    names == [] || match Child(kids, names[0]) case None => false case Some(c) => c.0 == names[0] && Exact(c.1, names[1..])
  }

  function RaisedChild(c: Option<(bytes, Items)>, delta: nat): Option<(bytes, Items)> {
    match c
    case None => None
    case Some(p) => match RaiseNode(p.1, delta) case None => None case Some(k) => Some((p.0, k))
  }

  lemma {:induction false} RaisedItemsChild(x: Items, delta: nat, s: bytes)
    requires RaiseItems(x, delta).Some?
    ensures Child(RaiseItems(x, delta).value, s) == RaisedChild(Child(x, s), delta)
    ensures Child(x, s).Some? ==> RaiseNode(Child(x, s).value.1, delta).Some?
    decreases x
  {
    hide RaiseBoth, NameEq;
    if !x.Done? {
      RaisedItemsChild(x.rest, delta, s);
    }
  }

  lemma RaisedNodeChild(kids: Items, delta: nat, s: bytes)
    requires RaiseNode(kids, delta).Some?
    ensures Child(RaiseNode(kids, delta).value, s) == RaisedChild(Child(kids, s), delta)
    ensures Child(kids, s).Some? ==> RaiseNode(Child(kids, s).value.1, delta).Some?
  {
    var k := RaiseItems(kids, delta).value;
    assert RaiseNode(kids, delta) == RaiseBoth(k, delta);
    hide RaiseItems, RaiseBoth, Child, RaiseNode;
    RaisedItemsChild(kids, delta, s);
    RaisedPhandle(k, delta);
    ChildIsChildIn(k, s);
    ChildIsChildIn(RaiseBoth(k, delta).value, s);
  }

  lemma {:induction false} RaisedDescend(kids: Items, delta: nat, names: seq<bytes>)
    requires RaiseNode(kids, delta).Some?
    ensures match Descend(kids, names)
            case None => Descend(RaiseNode(kids, delta).value, names) == None
            case Some(x) => RaiseNode(x, delta).Some? && Descend(RaiseNode(kids, delta).value, names) == RaiseNode(x, delta)
    decreases |names|
  {
    hide RaiseNode, Child;
    if names != [] {
      RaisedNodeChild(kids, delta, names[0]);
      if Child(kids, names[0]).Some? {
        RaisedDescend(Child(kids, names[0]).value.1, delta, names[1..]);
      }
    }
  }

  // -------------------------------------------------------- listed cells

  /** The cells that a list points at do not overlap. */
  ghost predicate Spread(list: bytes) {
    forall i, j :: 0 <= i < j && 4 * j + 4 <= |list| ==>
      var a, b := Word(list, 4 * i), Word(list, 4 * j); a + 4 <= b || b + 4 <= a
  }

  /** Each listed cell is raised exactly once. */
  lemma {:induction false} CellsRaised(v: bytes, list: bytes, i: nat, delta: nat, j: nat)
    requires Spread(list) && FixCells(v, list, i, delta).Some? && 4 * j + 4 <= |list|
    ensures var w, o := FixCells(v, list, i, delta).value, Word(list, 4 * j);
            && (i <= j ==> o + 4 <= |v| && Word(w, o) == (Word(v, o) + delta) % U32_LIMIT)
            && (j < i && o + 4 <= |v| ==> Word(w, o) == Word(v, o))
    decreases |list| - 4 * i
  {
    hide Word, Word32, Patch;
    if 4 * i + 4 <= |list| {
      var a, o := Word(list, 4 * i), Word(list, 4 * j);
      var u := Word32((Word(v, a) + delta) % U32_LIMIT);
      CellsRaised(Patch(v, a, u), list, i + 1, delta, j);
      if i == j {
        WordPatched(v, a, (Word(v, a) + delta) % U32_LIMIT);
      } else if o + 4 <= |v| {
        WordPatch(v, a, u, o);
      }
    }
  }

  /** Bytes outside the listed cells stay. */
  lemma {:induction false} OtherBytes(v: bytes, list: bytes, i: nat, delta: nat, b: nat)
    requires FixCells(v, list, i, delta).Some? && b < |v|
    requires forall j :: i <= j && 4 * j + 4 <= |list| ==> !(Word(list, 4 * j) <= b < Word(list, 4 * j) + 4)
    ensures FixCells(v, list, i, delta).value[b] == v[b]
    decreases |list| - 4 * i
  {
    hide Word, Word32;
    if 4 * i + 4 <= |list| {
      var a := Word(list, 4 * i);
      OtherBytes(Patch(v, a, Word32((Word(v, a) + delta) % U32_LIMIT)), list, i + 1, delta, b);
    }
  }

  // ------------------------------------- when the fixups can be followed

  /** The same items, except for values, which keep their lengths. */
  predicate SameShape(x: Items, y: Items) {
    match x
    case Done => y.Done?
    case NopItem(rest) => y.NopItem? && SameShape(rest, y.rest)
    case PropItem(n, v, rest) => y.PropItem? && y.name == n && |y.value| == |v| && SameShape(rest, y.rest)
    case NodeItem(n, kids, rest) => y.NodeItem? && y.name == n && SameShape(kids, y.kids) && SameShape(rest, y.rest)
  }

  lemma {:induction false} ShapeSelf(x: Items)
    ensures SameShape(x, x)
  {
    match x
    case Done =>
    case NodeItem(_, kids, rest) =>
      ShapeSelf(kids);
      ShapeSelf(rest);
    case _ => ShapeSelf(x.rest);
  }

  lemma {:induction false} ShapeTrans(x: Items, y: Items, z: Items)
    requires SameShape(x, y) && SameShape(y, z)
    ensures SameShape(x, z)
  {
    match x
    case Done =>
    case NodeItem(_, kids, rest) =>
      ShapeTrans(kids, y.kids, z.kids);
      ShapeTrans(rest, y.rest, z.rest);
    case _ => ShapeTrans(x.rest, y.rest, z.rest);
  }

  lemma {:induction false} ShapeSet(kids: Items, name: bytes, v: bytes)
    requires FindProp(kids, name).Some? && |v| == |ValueOf(kids, name).value|
    ensures SameShape(kids, SetProp(kids, name, v))
  {
    if kids.PropItem? && kids.name == name {
      ShapeSelf(kids.rest);
    } else {
      ShapeSet(kids.rest, name, v);
    }
  }

  lemma {:induction false} ShapePut(x: Items, q: Pos, inner: Items)
    requires Has(x, q) && Get(x, q).NodeItem? && SameShape(Get(x, q).kids, inner)
    ensures SameShape(x, Put(x, q, Get(x, q).(kids := inner)))
  {
    match q
    case Here => ShapeSelf(x.rest);
    case Next(r) =>
      ShapePut(x.rest, r, inner);
      if x.NodeItem? {
        ShapeSelf(x.kids);
      }
    case Down(r) =>
      ShapePut(x.kids, r, inner);
      ShapeSelf(x.rest);
  }

  lemma {:induction false} ShapeValue(x: Items, y: Items, name: bytes)
    requires SameShape(x, y)
    ensures ValueOf(x, name).Some? <==> ValueOf(y, name).Some?
    ensures ValueOf(x, name).Some? ==> |ValueOf(x, name).value| == |ValueOf(y, name).value|
  {
    if x.PropItem? || x.NopItem? {
      ShapeValue(x.rest, y.rest, name);
    }
  }

  lemma {:induction false} ShapeChild(x: Items, y: Items, s: bytes)
    requires SameShape(x, y)
    ensures Child(x, s).Some? <==> Child(y, s).Some?
    ensures Child(x, s).Some? ==> SameShape(Child(x, s).value.1, Child(y, s).value.1)
  {
    hide NameEq;
    if !x.Done? {
      ShapeChild(x.rest, y.rest, s);
    }
  }

  /** What the leading properties of a fixup node name is there. */
  ghost predicate NamedProps(kids: Items, fix: Items)
    decreases fix
  {
    match fix
    case PropItem(name, list, rest) => ListThere(kids, name, list) && NamedProps(kids, rest)
    case NopItem(rest) => NamedProps(kids, rest)
    case _ => true
  }

  /** So is what its children name, all the way down. */
  ghost predicate NamedKids(kids: Items, fix: Items)
    decreases fix, 0
  {
    match fix
    case Done => true
    case NodeItem(name, inner, rest) =>
      Child(kids, name).Some? && NodeNamed(Child(kids, name).value.1, inner) && NamedKids(kids, rest)
    case _ => NamedKids(kids, fix.rest)
  }

  ghost predicate NodeNamed(kids: Items, fix: Items)
    decreases fix, 1
  {
    NamedProps(kids, fix) && NamedKids(kids, fix)
  }

  lemma {:induction false} NamedPropsShape(x: Items, y: Items, fix: Items)
    requires SameShape(x, y)
    ensures NamedProps(x, fix) <==> NamedProps(y, fix)
  {
    hide SameShape, ValueOf, CellsFit;
    if fix.PropItem? {
      ShapeValue(x, y, fix.name);
    }
    if fix.PropItem? || fix.NopItem? {
      NamedPropsShape(x, y, fix.rest);
    }
  }

  lemma {:induction false} NamedKidsShape(x: Items, y: Items, fix: Items)
    requires SameShape(x, y)
    ensures NamedKids(x, fix) <==> NamedKids(y, fix)
    decreases fix, 0
  {
    hide SameShape, Child, NamedProps;
    if fix.NodeItem? {
      ShapeChild(x, y, fix.name);
      if Child(x, fix.name).Some? {
        var a, b := Child(x, fix.name).value.1, Child(y, fix.name).value.1;
        NamedPropsShape(a, b, fix.kids);
        NamedKidsShape(a, b, fix.kids);
      }
    }
    if !fix.Done? {
      NamedKidsShape(x, y, fix.rest);
    }
  }

  lemma {:induction false} FixPropsExactly(kids: Items, fix: Items, delta: nat)
    ensures FixProps(kids, fix, delta).Some? <==> NamedProps(kids, fix)
    ensures FixProps(kids, fix, delta).Some? ==> SameShape(kids, FixProps(kids, fix, delta).value)
    decreases fix
  {
    hide FixCells, SetProp, SameShape, ListThere, ValueOf;
    match fix
    case PropItem(n, list, rest) =>
      ListThereExactly(kids, n, list, delta);
      if FixProp(kids, n, list, delta).Some? {
        var k := FixProp(kids, n, list, delta).value;
        FixPropShape(kids, n, list, delta);
        FixPropsExactly(k, rest, delta);
        NamedPropsShape(kids, k, rest);
        if FixProps(k, rest, delta).Some? {
          ShapeTrans(kids, k, FixProps(k, rest, delta).value);
        }
      }
    case NopItem(rest) => FixPropsExactly(kids, rest, delta);
    case _ => ShapeSelf(kids);
  }

  lemma FixPropShape(kids: Items, name: bytes, list: bytes, delta: nat)
    requires FixProp(kids, name, list, delta).Some?
    ensures SameShape(kids, FixProp(kids, name, list, delta).value)
  {
    hide FixCells, SameShape, SetProp;
    ShapeSet(kids, name, FixCells(ValueOf(kids, name).value, list, 0, delta).value);
  }

  lemma {:induction false} FixKidsExactly(kids: Items, fix: Items, delta: nat)
    ensures FixKids(kids, fix, delta).Some? <==> NamedKids(kids, fix)
    ensures FixKids(kids, fix, delta).Some? ==> SameShape(kids, FixKids(kids, fix, delta).value)
    decreases fix, 0
  {
    hide SameShape, Child, FixNode, FindNode, NamedProps;
    match fix
    case Done => ShapeSelf(kids);
    case NodeItem(n, inner, rest) =>
      ChildIsFound(kids, n);
      if FindNode(kids, Named(n)).Some? {
        var q := FindNode(kids, Named(n)).value;
        FixNodeExactly(Get(kids, q).kids, inner, delta);
        if FixKid(kids, n, inner, delta).Some? {
          var k := FixKid(kids, n, inner, delta).value;
          ShapePut(kids, q, FixNode(Get(kids, q).kids, inner, delta).value);
          FixKidsExactly(k, rest, delta);
          NamedKidsShape(kids, k, rest);
          if FixKids(k, rest, delta).Some? {
            ShapeTrans(kids, k, FixKids(k, rest, delta).value);
          }
        }
      }
    case _ => FixKidsExactly(kids, fix.rest, delta);
  }

  lemma ChildIsFound(kids: Items, s: bytes)
    ensures Child(kids, s) == match FindNode(kids, Named(s)) case Some(q) => Some((Get(kids, q).name, Get(kids, q).kids)) case None => None
  {
  }

  /** The references below a node can be raised exactly if all that its fixups name is there. */
  lemma {:induction false} FixNodeExactly(kids: Items, fix: Items, delta: nat)
    ensures FixNode(kids, fix, delta).Some? <==> NodeNamed(kids, fix)
    ensures FixNode(kids, fix, delta).Some? ==> SameShape(kids, FixNode(kids, fix, delta).value)
    decreases fix, 1
  {
    hide SameShape, FixProps, FixKids, NamedProps, NamedKids;
    FixPropsExactly(kids, fix, delta);
    if FixProps(kids, fix, delta).Some? {
      var k := FixProps(kids, fix, delta).value;
      FixKidsExactly(k, fix, delta);
      NamedKidsShape(kids, k, fix);
      if FixKids(k, fix, delta).Some? {
        ShapeTrans(kids, k, FixKids(k, fix, delta).value);
      }
    }
  }

  // The same, over the places of the fixups.

  /** The names of the nodes around a place. */
  function Around(x: Items, g: Pos): seq<bytes>
    requires Has(x, g)
  {
    match g
    case Here => []
    case Next(q) => Around(x.rest, q)
    case Down(q) => [x.name] + Around(x.kids, q)
  }

  /** No sibling in front of a place is a node: what the property loop of libfdt reaches. */
  predicate Leading(x: Items, g: Pos)
    requires Has(x, g)
  {
    match g
    case Here => true
    case Next(q) => (Downs(q) == 0 ==> !x.NodeItem?) && Leading(x.rest, q)
    case Down(q) => Leading(x.kids, q)
  }

  /** What one item of the fixups names is there: a property with all listed cells, or a child. */
  ghost predicate NamedAt(kids: Items, fix: Items, g: Pos)
    requires Has(fix, g)
  {
    match Get(fix, g)
    case PropItem(name, list, _) =>
      (Leading(fix, g) ==>
         match Descend(kids, Around(fix, g)) case Some(k) => ListThere(k, name, list) case None => false)
    case NodeItem(name, _, _) =>
      (match Descend(kids, Around(fix, g)) case Some(k) => Child(k, name).Some? case None => false)
    case _ => true
  }

  ghost predicate AllNamed(kids: Items, fix: Items) {
    forall g :: Has(fix, g) ==> NamedAt(kids, fix, g)
  }

  lemma {:induction false} NamedPropAt(kids: Items, fix: Items, g: Pos)
    requires Has(fix, g) && Downs(g) == 0 && Get(fix, g).PropItem? && Leading(fix, g) && NamedProps(kids, fix)
    ensures Around(fix, g) == [] && ListThere(kids, Get(fix, g).name, Get(fix, g).value)
    decreases g
  {
    hide ListThere;
    if g.Next? {
      NamedPropAt(kids, fix.rest, g.p);
    }
  }

  lemma {:induction false} NamedKidAt(kids: Items, fix: Items, g: Pos)
    requires Has(fix, g) && NamedKids(kids, fix)
    ensures Downs(g) == 0 && Get(fix, g).NodeItem? ==> Around(fix, g) == [] && Child(kids, Get(fix, g).name).Some?
    ensures Downs(g) > 0 ==> NamedAt(kids, fix, g)
    decreases g, 0
  {
    hide ListThere, Child, NamedProps;
    match g
    case Here =>
    case Next(q) =>
      NamedKidAt(kids, fix.rest, q);
    case Down(q) =>
      var c := Child(kids, fix.name).value.1;
      NamedPlace(c, fix.kids, q);
      assert ([fix.name] + Around(fix.kids, q))[1..] == Around(fix.kids, q);
  }

  lemma {:induction false} NamedPlace(kids: Items, fix: Items, g: Pos)
    requires Has(fix, g) && NodeNamed(kids, fix)
    ensures NamedAt(kids, fix, g)
    decreases g, 1
  {
    hide ListThere, Child, NamedProps, NamedKids;
    NamedKidAt(kids, fix, g);
    if Downs(g) == 0 && Get(fix, g).PropItem? && Leading(fix, g) {
      NamedPropAt(kids, fix, g);
    }
  }

  lemma {:induction false} PropsNamed(kids: Items, fix: Items)
    requires forall g :: Has(fix, g) && Downs(g) == 0 && Get(fix, g).PropItem? && Leading(fix, g) ==>
               ListThere(kids, Get(fix, g).name, Get(fix, g).value)
    ensures NamedProps(kids, fix)
  {
    hide ListThere;
    if fix.PropItem? || fix.NopItem? {
      assert Has(fix, Here) && Get(fix, Here) == fix && Leading(fix, Here) && Downs(Here) == 0;
      forall g | Has(fix.rest, g) && Downs(g) == 0 && Get(fix.rest, g).PropItem? && Leading(fix.rest, g)
        ensures ListThere(kids, Get(fix.rest, g).name, Get(fix.rest, g).value)
      {
        var h := Next(g);
        assert Has(fix, h) && Downs(h) == 0 && Get(fix, h) == Get(fix.rest, g) && Leading(fix, h);
      }
      PropsNamed(kids, fix.rest);
    }
  }

  lemma {:induction false} KidsNamed(kids: Items, fix: Items)
    requires forall g :: Has(fix, g) && (Downs(g) > 0 || Get(fix, g).NodeItem?) ==> NamedAt(kids, fix, g)
    ensures NamedKids(kids, fix)
    decreases fix, 0
  {
    hide ListThere, Child, NamedProps;
    if !fix.Done? {
      forall g | Has(fix.rest, g) && (Downs(g) > 0 || Get(fix.rest, g).NodeItem?)
        ensures NamedAt(kids, fix.rest, g)
      {
        var h := Next(g);
        assert Has(fix, h) && Downs(h) == Downs(g) && Get(fix, h) == Get(fix.rest, g);
        assert NamedAt(kids, fix, h);
      }
      KidsNamed(kids, fix.rest);
    }
    if fix.NodeItem? {
      assert Has(fix, Here) && Get(fix, Here) == fix && Around(fix, Here) == [];
      assert NamedAt(kids, fix, Here);
      var c := Child(kids, fix.name).value.1;
      forall g | Has(fix.kids, g)
        ensures NamedAt(c, fix.kids, g)
      {
        var h := Down(g);
        assert Has(fix, h) && Downs(h) > 0 && Get(fix, h) == Get(fix.kids, g);
        assert NamedAt(kids, fix, h);
        assert ([fix.name] + Around(fix.kids, g))[1..] == Around(fix.kids, g);
      }
      AllAreNamed(c, fix.kids);
    }
  }

  lemma {:induction false} AllAreNamed(kids: Items, fix: Items)
    requires AllNamed(kids, fix)
    ensures NodeNamed(kids, fix)
    decreases fix, 1
  {
    hide ListThere, Child, NamedProps, NamedKids;
    forall g | Has(fix, g) && Downs(g) == 0 && Get(fix, g).PropItem? && Leading(fix, g)
      ensures ListThere(kids, Get(fix, g).name, Get(fix, g).value)
    {
      assert NamedAt(kids, fix, g);
      NothingAround(fix, g);
    }
    PropsNamed(kids, fix);
    KidsNamed(kids, fix);
  }

  lemma {:induction false} NothingAround(x: Items, g: Pos)
    requires Has(x, g) && Downs(g) == 0
    ensures Around(x, g) == []
  {
    if g.Next? {
      NothingAround(x.rest, g.p);
    }
  }

  /**
   Local references can be raised exactly if every property that the fixups
   list, every cell in it, and every child is there in the tree.
   */
  lemma FixupsExactly(kids: Items, fix: Items, delta: nat)
    ensures FixNode(kids, fix, delta).Some? <==> AllNamed(kids, fix)
  {
    hide FixNode, NodeNamed, NamedAt;
    FixNodeExactly(kids, fix, delta);
    if AllNamed(kids, fix) {
      AllAreNamed(kids, fix);
    }
    if NodeNamed(kids, fix) {
      forall g | Has(fix, g)
        ensures NamedAt(kids, fix, g)
      {
        NamedPlace(kids, fix, g);
      }
    }
  }

  // --------------------------------------------------- well-formed fixups

  /** Fixups that name each reference once, none of them a phandle property, under names that are apart. */
  ghost predicate Well(x: Items) {
    match x
    case Done => true
    case NopItem(rest) => Well(rest)
    case PropItem(name, list, rest) =>
      name != PHANDLE && name != LINUX_PHANDLE && ValueOf(rest, name) == None && Spread(list) && Well(rest)
    case NodeItem(name, kids, rest) => ApartFrom(rest, name) && Well(kids) && Well(rest)
  }

  lemma {:induction false} WellValues(x: Items, name: bytes)
    requires Well(x)
    ensures ValueOf(x, PHANDLE) == None && ValueOf(x, LINUX_PHANDLE) == None
    ensures ValueOf(x, name).Some? ==> Spread(ValueOf(x, name).value)
  {
    hide Spread;
    if x.PropItem? || x.NopItem? {
      WellValues(x.rest, name);
    }
  }

  /** Well-formed fixups are not touched by the renumbering of phandles. */
  lemma {:induction false} WellNotRaised(x: Items, delta: nat)
    requires Well(x)
    ensures RaiseItems(x, delta) == Some(x) && RaiseNode(x, delta) == Some(x)
  {
    hide Spread, ApartFrom;
    match x
    case Done =>
    case NodeItem(_, kids, rest) =>
      WellNotRaised(kids, delta);
      WellNotRaised(rest, delta);
    case _ => WellNotRaised(x.rest, delta);
    WellValues(x, []);
  }

  lemma {:induction false} WellChild(x: Items, s: bytes)
    requires Well(x) && Child(x, s).Some?
    ensures Well(Child(x, s).value.1)
  {
    hide Spread, NameEq;
    if !(x.NodeItem? && NameEq(x.name, s)) {
      WellChild(x.rest, s);
    }
  }

  lemma {:induction false} WellSiblings(x: Items)
    requires Well(x)
    ensures SiblingsApart(x)
  {
    hide Spread;
    if !x.Done? {
      WellSiblings(x.rest);
    }
  }

  // ------------------------------------------------ what the fixups change

  /** The values that one node's fixups leave. */
  lemma {:induction false} FixedValue(kids: Items, fix: Items, delta: nat, name: bytes)
    requires Well(fix) && FixProps(kids, fix, delta).Some?
    ensures var k := FixProps(kids, fix, delta).value;
            && Kids(k) == Kids(kids)
            && match ValueOf(fix, name)
               case None => ValueOf(k, name) == ValueOf(kids, name)
               case Some(list) =>
                 && ValueOf(kids, name).Some?
                 && FixCells(ValueOf(kids, name).value, list, 0, delta).Some?
                 && ValueOf(k, name) == FixCells(ValueOf(kids, name).value, list, 0, delta)
    decreases fix
  {
    hide FixCells, SetProp, Kids, Spread;
    match fix
    case PropItem(n, list, rest) =>
      var w := FixCells(ValueOf(kids, n).value, list, 0, delta).value;
      SetPropMeans(kids, n, w, if n == name then n + [0] else name);
      FixedValue(SetProp(kids, n, w), rest, delta, name);
    case NopItem(rest) => FixedValue(kids, rest, delta, name);
    case _ =>
  }

  lemma {:induction false} FixKidsKeepProps(kids: Items, fix: Items, delta: nat, name: bytes)
    requires FixKids(kids, fix, delta).Some?
    ensures ValueOf(FixKids(kids, fix, delta).value, name) == ValueOf(kids, name)
    decreases fix
  {
    hide FixNode, FindNode, ValueOf;
    match fix
    case Done =>
    case NodeItem(n, inner, rest) =>
      var q := FindNode(kids, Named(n)).value;
      var k := FixKid(kids, n, inner, delta).value;
      NodeKeepsProps(kids, q, NodeItem(Get(kids, q).name, FixNode(Get(kids, q).kids, inner, delta).value, Get(kids, q).rest), name);
      FixKidsKeepProps(k, rest, delta, name);
    case _ => FixKidsKeepProps(kids, fix.rest, delta, name);
  }

  function FixedChild(c: Option<(bytes, Items)>, fix: Items, delta: nat): Option<(bytes, Items)> {
    match c
    case None => None
    case Some(p) => match FixNode(p.1, fix, delta) case None => None case Some(k) => Some((p.0, k))
  }

  lemma FixKidHere(kids: Items, name: bytes, fix: Items, delta: nat, s: bytes)
    requires FixKid(kids, name, fix, delta).Some?
    ensures Child(FixKid(kids, name, fix, delta).value, name) == FixedChild(Child(kids, name), fix, delta)
    ensures Apart(name, s) ==> Child(FixKid(kids, name, fix, delta).value, s) == Child(kids, s)
    ensures Child(kids, name).Some? && FixNode(Child(kids, name).value.1, fix, delta).Some?
  {
    hide FixNode, NameEq;
    var q := FindNode(kids, Named(name)).value;
    var inner := FixNode(Get(kids, q).kids, fix, delta).value;
    ChangedHere(kids, name, q, inner);
    if Apart(name, s) {
      ChangedElsewhere(kids, name, q, inner, s);
    }
  }

  lemma {:induction false} FixedOthers(kids: Items, fix: Items, delta: nat, s: bytes)
    requires FixKids(kids, fix, delta).Some? && ApartFrom(fix, s)
    ensures Child(FixKids(kids, fix, delta).value, s) == Child(kids, s)
    decreases fix
  {
    hide FixKid, Apart, Child;
    match fix
    case Done =>
    case NodeItem(n, inner, rest) =>
      FixKidHere(kids, n, inner, delta, s);
      FixedOthers(FixKid(kids, n, inner, delta).value, rest, delta, s);
    case _ => FixedOthers(kids, fix.rest, delta, s);
  }

  /** The child that a fixup child stands for gets that child's fixups. */
  lemma {:induction false} FixedChildren(kids: Items, fix: Items, delta: nat, s: bytes)
    requires SiblingsApart(fix) && FixKids(kids, fix, delta).Some?
    requires Child(fix, s).Some? && Child(fix, s).value.0 == s
    ensures Child(FixKids(kids, fix, delta).value, s) == FixedChild(Child(kids, s), Child(fix, s).value.1, delta)
    ensures Child(kids, s).Some? && FixNode(Child(kids, s).value.1, Child(fix, s).value.1, delta).Some?
    decreases fix
  {
    ChildOfNode(fix, s);
    hide FixKid, Apart, Child, FixNode;
    match fix
    case NodeItem(n, inner, rest) =>
      var k := FixKid(kids, n, inner, delta).value;
      if n == s {
        FixKidHere(kids, n, inner, delta, s);
        FixedOthers(k, rest, delta, s);
      } else {
        ApartChild(rest, n, s);
        ApartSym(n, s);
        FixKidHere(kids, n, inner, delta, s);
        FixedChildren(k, rest, delta, s);
      }
    case PropItem(_, _, rest) => FixedChildren(kids, rest, delta, s);
    case NopItem(rest) => FixedChildren(kids, rest, delta, s);
  }

  lemma ChildOfNode(x: Items, s: bytes)
    requires Child(x, s).Some? && Child(x, s).value.0 == s
    ensures !x.Done?
    ensures x.NodeItem? && x.name == s ==> Child(x, s).value.1 == x.kids
    ensures !(x.NodeItem? && x.name == s) ==> Child(x, s) == Child(x.rest, s)
  {
  }

  lemma {:induction false} ApartChild(x: Items, name: bytes, s: bytes)
    requires ApartFrom(x, name) && Child(x, s).Some? && Child(x, s).value.0 == s
    ensures Apart(s, name)
    decreases x
  {
    hide Apart;
    ChildOfNode(x, s);
    if !(x.NodeItem? && x.name == s) {
      ApartChild(x.rest, name, s);
    }
  }

  /** Following the fixups down a path of names. */
  lemma {:induction false} FixedDescend(kids: Items, fix: Items, delta: nat, names: seq<bytes>)
    requires Well(fix) && FixNode(kids, fix, delta).Some? && Exact(fix, names)
    ensures Descend(fix, names).Some? && Well(Descend(fix, names).value) && Descend(kids, names).Some?
    ensures FixNode(Descend(kids, names).value, Descend(fix, names).value, delta).Some?
    ensures Descend(FixNode(kids, fix, delta).value, names) == FixNode(Descend(kids, names).value, Descend(fix, names).value, delta)
    decreases |names|
  {
    if names != [] {
      var s := names[0];
      var k := FixProps(kids, fix, delta).value;
      assert FixNode(kids, fix, delta) == FixKids(k, fix, delta);
      hide FixProps, FixKids, Child, Well, FixNode;
      FixedValue(kids, fix, delta, []);
      ChildIsChildIn(k, s);
      ChildIsChildIn(kids, s);
      WellSiblings(fix);
      WellChild(fix, s);
      FixedChildren(k, fix, delta, s);
      FixedDescend(Child(kids, s).value.1, Child(fix, s).value.1, delta, names[1..]);
    }
  }

  // The phandles themselves are not among what the fixups change.

  /** The same items, except perhaps for values of properties that are no phandles. */
  predicate Alike(x: Items, y: Items) {
    match x
    case Done => y.Done?
    case NopItem(rest) => y.NopItem? && Alike(rest, y.rest)
    case PropItem(n, v, rest) =>
      y.PropItem? && y.name == n && (n == PHANDLE || n == LINUX_PHANDLE ==> y.value == v) && Alike(rest, y.rest)
    case NodeItem(n, kids, rest) => y.NodeItem? && y.name == n && Alike(kids, y.kids) && Alike(rest, y.rest)
  }

  lemma {:induction false} AlikeSelf(x: Items)
    ensures Alike(x, x)
  {
    match x
    case Done =>
    case NodeItem(_, kids, rest) =>
      AlikeSelf(kids);
      AlikeSelf(rest);
    case _ => AlikeSelf(x.rest);
  }

  lemma {:induction false} AlikeTrans(x: Items, y: Items, z: Items)
    requires Alike(x, y) && Alike(y, z)
    ensures Alike(x, z)
  {
    match x
    case Done =>
    case NodeItem(_, kids, rest) =>
      AlikeTrans(kids, y.kids, z.kids);
      AlikeTrans(rest, y.rest, z.rest);
    case _ => AlikeTrans(x.rest, y.rest, z.rest);
  }

  lemma {:induction false} AlikeSet(kids: Items, name: bytes, v: bytes)
    requires FindProp(kids, name).Some? && name != PHANDLE && name != LINUX_PHANDLE
    ensures Alike(kids, SetProp(kids, name, v))
  {
    if kids.PropItem? && kids.name == name {
      AlikeSelf(kids.rest);
    } else {
      AlikeSet(kids.rest, name, v);
    }
  }

  lemma {:induction false} AlikePut(x: Items, q: Pos, inner: Items)
    requires Has(x, q) && Get(x, q).NodeItem? && Alike(Get(x, q).kids, inner)
    ensures Alike(x, Put(x, q, Get(x, q).(kids := inner)))
  {
    match q
    case Here => AlikeSelf(x.rest);
    case Next(r) =>
      AlikePut(x.rest, r, inner);
      if x.NodeItem? {
        AlikeSelf(x.kids);
      }
    case Down(r) =>
      AlikePut(x.kids, r, inner);
      AlikeSelf(x.rest);
  }

  lemma {:induction false} AlikeFixProps(kids: Items, fix: Items, delta: nat)
    requires Well(fix) && FixProps(kids, fix, delta).Some?
    ensures Alike(kids, FixProps(kids, fix, delta).value)
    decreases fix
  {
    hide FixCells, SetProp, Spread, Alike;
    match fix
    case PropItem(n, list, rest) =>
      var w := FixCells(ValueOf(kids, n).value, list, 0, delta).value;
      AlikeSet(kids, n, w);
      AlikeFixProps(SetProp(kids, n, w), rest, delta);
      AlikeTrans(kids, SetProp(kids, n, w), FixProps(kids, fix, delta).value);
    case NopItem(rest) => AlikeFixProps(kids, rest, delta);
    case _ => AlikeSelf(kids);
  }

  lemma {:induction false} AlikeFixKids(kids: Items, fix: Items, delta: nat)
    requires Well(fix) && FixKids(kids, fix, delta).Some?
    ensures Alike(kids, FixKids(kids, fix, delta).value)
    decreases fix, 0
  {
    hide Spread, Alike, FixNode, FindNode;
    match fix
    case Done => AlikeSelf(kids);
    case NodeItem(n, inner, rest) =>
      var q := FindNode(kids, Named(n)).value;
      var k := FixKid(kids, n, inner, delta).value;
      AlikeFixNode(Get(kids, q).kids, inner, delta);
      AlikePut(kids, q, FixNode(Get(kids, q).kids, inner, delta).value);
      AlikeFixKids(k, rest, delta);
      AlikeTrans(kids, k, FixKids(k, rest, delta).value);
    case _ => AlikeFixKids(kids, fix.rest, delta);
  }

  lemma {:induction false} AlikeFixNode(kids: Items, fix: Items, delta: nat)
    requires Well(fix) && FixNode(kids, fix, delta).Some?
    ensures Alike(kids, FixNode(kids, fix, delta).value)
    decreases fix, 1
  {
    hide Well, Alike, FixProps, FixKids;
    var k := FixProps(kids, fix, delta).value;
    AlikeFixProps(kids, fix, delta);
    AlikeFixKids(k, fix, delta);
    AlikeTrans(kids, k, FixKids(k, fix, delta).value);
  }

  lemma {:induction false} AlikeValue(x: Items, y: Items, name: bytes)
    requires Alike(x, y) && (name == PHANDLE || name == LINUX_PHANDLE)
    ensures ValueOf(y, name) == ValueOf(x, name)
  {
    if x.PropItem? || x.NopItem? {
      AlikeValue(x.rest, y.rest, name);
    }
  }

  lemma {:induction false} AlikePlace(x: Items, y: Items, p: Pos)
    requires Alike(x, y) && Has(x, p) && Get(x, p).NodeItem?
    ensures Has(y, p) && Get(y, p).NodeItem? && Phandle(Get(y, p).kids) == Phandle(Get(x, p).kids)
    decreases p
  {
    hide ValueOf;
    match p
    case Here =>
      AlikeValue(x.kids, y.kids, PHANDLE);
      AlikeValue(x.kids, y.kids, LINUX_PHANDLE);
    case Next(q) => AlikePlace(x.rest, y.rest, q);
    case Down(q) => AlikePlace(x.kids, y.kids, q);
  }

  // ------------------------------------------------------ the whole of it

  /** "__local_fixups__" */
  const LOCAL_FIXUPS: bytes := [95, 95, 108, 111, 99, 97, 108, 95, 102, 105, 120, 117, 112, 115, 95, 95]

  /** The contents of the overlay's root after its phandles and local references are raised. */
  function Renumbered(kids: Items, delta: nat): Option<Items> {
    match RaiseNode(kids, delta)
    case None => None
    case Some(k) => References(k, delta)
  }

  function References(kids: Items, delta: nat): Option<Items> {
    match FindNode(kids, Named(LOCAL_FIXUPS))
    case None => Some(kids)
    case Some(q) => FixNode(kids, Get(kids, q).kids, delta)
  }

  /** What the local fixups name is there, if there are any. */
  ghost predicate ReferencesThere(kids: Items) {
    match FindNode(kids, Named(LOCAL_FIXUPS))
    case None => true
    case Some(q) => AllNamed(kids, Get(kids, q).kids)
  }

  /** Renumbering succeeds exactly if every phandle can be raised, and what the fixups then name is there. */
  lemma RenumberedExactly(kids: Items, delta: nat)
    ensures RaiseNode(kids, delta).Some? <==> NodeRaisable(kids, delta) && AllRaisable(kids, delta)
    ensures Renumbered(kids, delta).Some? <==> RaiseNode(kids, delta).Some? && ReferencesThere(RaiseNode(kids, delta).value)
  {
    hide RaiseNode, NodeRaisable, AllRaisable, FixNode, AllNamed, FindNode;
    RaisedNodeExactly(kids, delta);
    if RaiseNode(kids, delta).Some? {
      ReferencesExactly(RaiseNode(kids, delta).value, delta);
    }
  }

  lemma ReferencesExactly(kids: Items, delta: nat)
    ensures References(kids, delta).Some? <==> ReferencesThere(kids)
  {
    hide FixNode, AllNamed, FindNode;
    if FindNode(kids, Named(LOCAL_FIXUPS)).Some? {
      FixupsExactly(kids, Get(kids, FindNode(kids, Named(LOCAL_FIXUPS)).value).kids, delta);
    }
  }

  /** The fixups leave room for a cell at every offset, and do not stand for the fixup node itself. */
  ghost predicate FixupsOk(kids: Items) {
    match FindNode(kids, Named(LOCAL_FIXUPS))
    case None => true
    case Some(q) => AllCells(Get(kids, q).kids) && NoSelf(kids, Get(kids, q).kids, q)
  }

  /** What the walk of the fixups starts with. */
  ghost predicate WalkStart(tree: Items, fx: Fixup, delta: nat)
    requires tree.NodeItem?
  {
    && AllCells(fx.kids) && FixAt(tree, fx) && Clear(fx.f, Here) && FixChild(fx, None)
    && Safe(Here, fx, tree.kids, fx.kids) && FixOff(fx, None) == fx.off
    && References(tree.kids, delta) == FixNode(tree.kids, fx.kids, delta)
  }

  lemma FixupsStart(tree: Items, delta: nat, q: Pos)
    requires tree.NodeItem? && FixupsOk(tree.kids) && FindNode(tree.kids, Named(LOCAL_FIXUPS)) == Some(q)
    ensures Has(tree.kids, q) && Off(tree, Here) == 0
    ensures WalkStart(tree, Fixup(Down(q), Get(tree.kids, q).name, Get(tree.kids, q).kids, Off(tree, Down(q))), delta)
  {
    hide FindNode, FixNode, NoSelf, AllCells, TokLen;
    FindNodeFlat(tree.kids, Named(LOCAL_FIXUPS));
  }

  lemma PutHere(tree: Items)
    ensures forall y :: Put(tree, Here, y) == y
  {
  }

  /** overlay_update_local_references */
  method UpdateLocalReferences(fdto: Blob, delta: nat) returns (r: int, ghost k: Items)
    requires fdto.ValidTree() && fdto.tree.NodeItem? && delta < U32_LIMIT && FixupsOk(fdto.tree.kids)
    modifies fdto.buf, fdto`tree
    ensures fdto.Front() == old(fdto.Front())
    ensures fdto.ValidTree()
    ensures fdto.tree == old(fdto.tree).(kids := k)
    ensures r == 0 <==> References(old(fdto.tree).kids, delta).Some?
    ensures r == 0 <==> ReferencesThere(old(fdto.tree).kids)
    ensures r == 0 ==> References(old(fdto.tree).kids, delta) == Some(k)
  {
    hide EncAt, Flat, Off, Parts, Resolve, FindNode, FixNode, Blob.Block, Blob.Tab, NoSelf, AllCells, AllNamed,
         ReferencesThere, FixupsOk, FixAt, Clear, Safe, Blob.Front, Put, TokLen, EncTok, Post;
    ghost var tree := fdto.tree;
    PutHere(tree);
    ReferencesExactly(tree.kids, delta);
    k := tree.kids;
    RootPath(tree, LOCAL_FIXUPS);
    var fixups := PathOffset(fdto, [SLASH] + LOCAL_FIXUPS);
    if fixups < 0 {
      if fixups == -ERR_NOTFOUND {
        return 0, k;
      }
      return fixups, k;
    }
    ghost var q := FindNode(tree.kids, Named(LOCAL_FIXUPS)).value;
    FixupsStart(tree, delta, q);
    ghost var fx := Fixup(Down(q), Get(tree.kids, q).name, Get(tree.kids, q).kids, fixups);
    r, k := UpdateReferences(fdto, 0, fixups, delta, Here, fx, None);
  }

  /** The path of a child of the root leads to the first child that its name matches. */
  lemma RootPath(tree: Items, name: bytes)
    requires tree.NodeItem? && name != [] && SLASH !in name
    ensures Resolve(tree, Parts([SLASH] + name, 0)) ==
            match FindNode(tree.kids, Named(name)) case Some(q) => Some(Down(q)) case None => None
  {
    hide FindNode;
    var names := [name];
    assert names[1..] == [];
    assert ([SLASH] + name)[0..] == [SLASH] + name + [] == Slashed(names);
    PartsOfSlashed([SLASH] + name, 0, names);
    match FindNode(tree.kids, Named(name))
    case Some(q) => ThenHere(q);
    case None =>
  }

  /** The first steps of fdt_overlay_apply: the overlay is renumbered by the base's largest phandle. */
  method RenumberOverlay(fdt: Blob, fdto: Blob) returns (r: int, ghost k: Items)
    requires fdt != fdto && fdt.buf != fdto.buf && fdt.ValidTree() && fdto.ValidTree() && fdto.tree.NodeItem?
    requires var raised := RaiseNode(fdto.tree.kids, MaxPhandle(fdt.tree)); raised.Some? ==> FixupsOk(raised.value)
    modifies fdto.buf, fdto`tree
    ensures fdto.Front() == old(fdto.Front())
    ensures fdt.ValidTree() && fdto.ValidTree()
    ensures fdto.tree == old(fdto.tree).(kids := k)
    ensures r == 0 <==> Renumbered(old(fdto.tree).kids, MaxPhandle(fdt.tree)).Some?
    ensures var kids, delta := old(fdto.tree).kids, MaxPhandle(fdt.tree);
            r == 0 <==>
            && NodeRaisable(kids, delta) && AllRaisable(kids, delta)
            && RaiseNode(kids, delta).Some? && ReferencesThere(RaiseNode(kids, delta).value)
    ensures r == 0 ==> Renumbered(old(fdto.tree).kids, MaxPhandle(fdt.tree)) == Some(k)
  {
    hide EncAt, Flat, RaiseNode, References, Blob.Block, Blob.Tab, FixupsOk, MaxPhandle, NodeRaisable,
         AllRaisable, ReferencesThere, Blob.Front;
    k := fdto.tree.kids;
    RenumberedExactly(k, MaxPhandle(fdt.tree));
    MaxIsWord(fdt.tree);
    var delta;
    r, delta := FindMaxPhandle(fdt);
    if r != 0 {
      return;
    }
    r, k := AdjustNodePhandles(fdto, 0, delta, Here);
    if r != 0 {
      return;
    }
    r, k := UpdateLocalReferences(fdto, delta);
  }

  lemma {:induction false} MaxIsWord(x: Items)
    ensures MaxPhandle(x) < U32_LIMIT
  {
    hide Word, ValueOf;
    match x
    case Done =>
    case NodeItem(_, kids, rest) =>
      MaxIsWord(kids);
      MaxIsWord(rest);
    case _ => MaxIsWord(x.rest);
  }

  /**
   Renumbering keeps what references designate. If the overlay's fixups are well
   formed, a listed cell that held the phandle of an overlay node holds that
   node's new phandle, which is above every phandle of the base tree.
   */
  lemma ReferencesSurvive(kids: Items, delta: nat, names: seq<bytes>, name: bytes, j: nat, d: Pos)
    requires Renumbered(kids, delta).Some? && Child(kids, LOCAL_FIXUPS).Some?
    requires var fix := Child(kids, LOCAL_FIXUPS).value.1; Well(fix) && Exact(fix, names)
    requires Descend(Child(kids, LOCAL_FIXUPS).value.1, names).Some?
    requires var list := ValueOf(Descend(Child(kids, LOCAL_FIXUPS).value.1, names).value, name);
             list.Some? && 4 * j + 4 <= |list.value|
    requires Has(kids, d) && Get(kids, d).NodeItem? && Phandle(Get(kids, d).kids) >= 1
    ensures var after := Renumbered(kids, delta).value;
            var o := Word(ValueOf(Descend(Child(kids, LOCAL_FIXUPS).value.1, names).value, name).value, 4 * j);
            && Descend(kids, names).Some? && Descend(after, names).Some?
            && var v, w := ValueOf(Descend(kids, names).value, name), ValueOf(Descend(after, names).value, name);
            && v.Some? && w.Some? && o + 4 <= |v.value| == |w.value|
            && Word(w.value, o) == (Word(v.value, o) + delta) % U32_LIMIT
            && Has(after, d) && Get(after, d).NodeItem? && Phandle(Get(after, d).kids) == Phandle(Get(kids, d).kids) + delta
            && (Word(v.value, o) == Phandle(Get(kids, d).kids) ==> Word(w.value, o) == Phandle(Get(after, d).kids))
  {
    hide RaiseNode, FixNode, Well, Exact, Descend, Child, Phandle, ValueOf, Get, Has, Word, FixCells, Alike, Spread;
    var raised := RaiseNode(kids, delta).value;
    var fix := Child(kids, LOCAL_FIXUPS).value.1;
    FixupsFound(kids, delta, fix);
    FixedDescend(raised, fix, delta, names);
    RaisedDescend(kids, delta, names);
    var fx, x, y := Descend(fix, names).value, Descend(kids, names).value, Descend(raised, names).value;
    RaisedNode(x, delta);
    WellValues(fx, name);
    FixedNodeValue(y, fx, delta, name);
    CellsRaised(ValueOf(x, name).value, ValueOf(fx, name).value, 0, delta, j);
    RaisedInside(kids, delta, d);
    AlikeFixNode(raised, fix, delta);
    AlikePlace(raised, FixNode(raised, fix, delta).value, d);
  }

  lemma FixupsFound(kids: Items, delta: nat, fix: Items)
    requires RaiseNode(kids, delta).Some? && Child(kids, LOCAL_FIXUPS).Some? && fix == Child(kids, LOCAL_FIXUPS).value.1 && Well(fix)
    ensures References(RaiseNode(kids, delta).value, delta) == FixNode(RaiseNode(kids, delta).value, fix, delta)
  {
    hide RaiseNode, FixNode, Well, FindNode;
    RaisedNodeChild(kids, delta, LOCAL_FIXUPS);
    WellNotRaised(fix, delta);
  }

  lemma FixedNodeValue(kids: Items, fix: Items, delta: nat, name: bytes)
    requires Well(fix) && FixNode(kids, fix, delta).Some? && ValueOf(fix, name).Some?
    ensures ValueOf(kids, name).Some? && FixCells(ValueOf(kids, name).value, ValueOf(fix, name).value, 0, delta).Some?
    ensures ValueOf(FixNode(kids, fix, delta).value, name) == FixCells(ValueOf(kids, name).value, ValueOf(fix, name).value, 0, delta)
    ensures name != PHANDLE && name != LINUX_PHANDLE
  {
    hide Well, FixProps, FixKids, FixCells, ValueOf;
    FixedValue(kids, fix, delta, name);
    FixKidsKeepProps(FixProps(kids, fix, delta).value, fix, delta, name);
    WellValues(fix, name);
  }

  lemma RaisedInside(kids: Items, delta: nat, d: Pos)
    requires RaiseNode(kids, delta).Some? && Has(kids, d) && Get(kids, d).NodeItem? && Phandle(Get(kids, d).kids) >= 1
    ensures var k := RaiseNode(kids, delta).value;
            && Has(k, d) && Get(k, d).NodeItem?
            && Phandle(Get(k, d).kids) == Phandle(Get(kids, d).kids) + delta < U32_LIMIT - 1
  {
    hide RaiseItems, RaiseBoth, Phandle, Has, Get;
    var k := RaiseItems(kids, delta).value;
    RaisedPlace(kids, delta, d);
    RaisedNode(Get(kids, d).kids, delta);
    RaiseBothKeepsPlaces(k, delta, d);
  }
}
