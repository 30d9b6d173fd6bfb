/**
 fdt_overlay.c, the whole of it: every fragment of an overlay names a target in
 the base tree, by phandle or by path, into which its __overlay__ node is
 merged; fdt_overlay_apply renumbers the overlay first.
 */
module FdtApply {
  import opened Bytes
  import opened FdtFormat
  import opened FdtTree
  import opened FdtBlob
  import opened FdtCore
  import opened FdtRo
  import opened FdtWip
  import opened FdtRw
  import opened FdtEdits
  import opened FdtPhandle
  import opened FdtPath
  import opened FdtOverlay
  import opened FdtRenumber
  import opened FdtReferences

  /** "target" */
  const TARGET: bytes := [116, 97, 114, 103, 101, 116]
  /** "target-path" */
  const TARGET_PATH: bytes := [116, 97, 114, 103, 101, 116, 45, 112, 97, 116, 104]
  /** "__overlay__" */
  const OVERLAY: bytes := [95, 95, 111, 118, 101, 114, 108, 97, 121, 95, 95]
  /** "__fixups__" */
  const FIXUPS: bytes := [95, 95, 102, 105, 120, 117, 112, 115, 95, 95]
  /** "__symbols__" */
  const SYMBOLS: bytes := [95, 95, 115, 121, 109, 98, 111, 108, 115, 95, 95]
  /** What fdt_set_magic(fdt, ~0) leaves. */
  const NO_MAGIC: nat := U32_LIMIT - 1

  // ------------------------------------------------------ what is to be done

  /** The node that a fragment wants to change, or why there is none. */
  datatype Target = Place(p: Pos) | Missing(code: int)

  /** The target of a fragment with these contents. */
  function TargetOf(base: Items, frag: Items): (r: Target)
    requires base.NodeItem?
    ensures r.Place? ==> Has(base, r.p) && Get(base, r.p).NodeItem?
  {
    match ValueOf(frag, TARGET)
    case None => ByPath(base, frag)
    case Some(v) =>
      if |v| != 4 || Word(v, 0) == U32_LIMIT - 1 then Missing(-ERR_BADPHANDLE)
      else if Word(v, 0) == 0 then ByPath(base, frag)
      else match FirstWith(base, Word(v, 0)) case Some(p) => Place(p) case None => Missing(-ERR_NOTFOUND)
  }

  function ByPath(base: Items, frag: Items): (r: Target)
    requires base.NodeItem?
    ensures r.Place? ==> Has(base, r.p) && Get(base, r.p).NodeItem?
  {
    match ValueOf(frag, TARGET_PATH)
    case None => Missing(-ERR_BADOVERLAY)
    case Some(v) =>
      match Resolve(base, Parts(v[..FirstNul(v, 0)], 0))
      case Some(p) => Place(p)
      case None => Missing(-ERR_NOTFOUND)
  }

  // What the target is, told from the properties of the fragment and of the nodes.

  /** The phandle that a fragment names, if it does. */
  function TargetCell(frag: Items): Option<nat> {
    match ValueOf(frag, TARGET)
    case None => None
    case Some(v) => if |v| == 4 && 0 < Word(v, 0) < U32_LIMIT - 1 then Some(Word(v, 0)) else None
  }

  /** A target property that is no phandle, and not 0 either. */
  predicate BadTarget(frag: Items) {
    ValueOf(frag, TARGET).Some? &&
    var v := ValueOf(frag, TARGET).value; |v| != 4 || Word(v, 0) == U32_LIMIT - 1
  }

  /** The first node with the phandle, or if the fragment names none the node that its path leads to. */
  ghost predicate IsTarget(base: Items, frag: Items, p: Pos)
    requires base.NodeItem?
  {
    match TargetCell(frag)
    case Some(c) => FirstNode(base, c, p)
    case None =>
      !BadTarget(frag) && ValueOf(frag, TARGET_PATH).Some? &&
      var v := ValueOf(frag, TARGET_PATH).value; Resolve(base, Parts(v[..FirstNul(v, 0)], 0)) == Some(p)
  }

  /** There is no target, for the reason that the code says. */
  ghost predicate NoTarget(base: Items, frag: Items, code: int)
    requires base.NodeItem?
  {
    && (forall p :: !IsTarget(base, frag, p))
    && code == if BadTarget(frag) then -ERR_BADPHANDLE
               else if TargetCell(frag).None? && ValueOf(frag, TARGET_PATH).None? then -ERR_BADOVERLAY
               else -ERR_NOTFOUND
  }

  lemma TargetOfExactly(base: Items, frag: Items)
    requires base.NodeItem?
    ensures match TargetOf(base, frag)
            case Place(p) => IsTarget(base, frag, p)
            case Missing(c) => NoTarget(base, frag, c)
  {
    hide ValueOf, Word, FirstWith, FirstNode, Resolve, Parts, FirstNul;
    if TargetCell(frag).Some? {
      forall p
        ensures FirstWith(base, TargetCell(frag).value) == Some(p) <==> FirstNode(base, TargetCell(frag).value, p)
      {
        FirstWithExactly(base, TargetCell(frag).value, p);
      }
    }
  }

  lemma OneTarget(base: Items, frag: Items, p: Pos, q: Pos)
    requires base.NodeItem? && IsTarget(base, frag, p) && IsTarget(base, frag, q)
    ensures p == q
  {
    hide FirstNode, FirstWith, Resolve;
    if TargetCell(frag).Some? {
      FirstWithExactly(base, TargetCell(frag).value, p);
      FirstWithExactly(base, TargetCell(frag).value, q);
    }
  }

  /** What a fragment is to merge; fragments without an __overlay__ node merge nothing. */
  function Change(frag: Items): Option<Items> {
    match FindNode(frag, Named(OVERLAY))
    case Some(q) => Some(Get(frag, q).kids)
    case None => None
  }

  datatype Outcome = Tree(tree: Items) | Failed(code: int)

  /** The base tree after the fragments among the items over are merged into it, one after the other. */
  function Applied(base: Items, over: Items): (r: Outcome)
    requires base.NodeItem?
    ensures r.Tree? ==> r.tree.NodeItem?
    decreases over
  {
    match over
    case Done => Tree(base)
    case NodeItem(_, frag, rest) =>
      (match Change(frag)
       case None => Applied(base, rest)
       case Some(change) =>
         match TargetOf(base, frag)
         case Missing(c) => Failed(c)
         case Place(p) => Applied(MergedAt(base, p, change), rest))
    case _ => Applied(base, over.rest)
  }

  /** A tree with the contents of an overlay node merged into the node at p. */
  function MergedAt(base: Items, p: Pos, change: Items): (r: Items)
    requires base.NodeItem? && Has(base, p) && Get(base, p).NodeItem?
    ensures r.NodeItem?
  {
    Put(base, p, Get(base, p).(kids := Merge(Get(base, p).kids, change)))
  }

  /** The most bytes that the fragments can add. */
  function FragmentsRoom(over: Items): nat {
    match over
    case Done => 0
    case NodeItem(_, frag, rest) =>
      (match Change(frag) case Some(change) => MergeRoom(change) case None => 0) + FragmentsRoom(rest)
    case _ => FragmentsRoom(over.rest)
  }

  /** Target paths are strings that start with a slash. */
  predicate PathsOk(over: Items) {
    match over
    case Done => true
    case NodeItem(_, frag, rest) =>
      && (match ValueOf(frag, TARGET_PATH) case Some(v) => 0 in v && v[0] == SLASH case None => true)
      && PathsOk(rest)
    case _ => PathsOk(over.rest)
  }

  lemma {:induction false} SkipToFragment(base: Items, over: Items)
    requires base.NodeItem?
    ensures match FindNode(over, Any)
            case Some(q) =>
              && Applied(base, over) == Applied(base, Get(over, q)) && FragmentsRoom(over) == FragmentsRoom(Get(over, q))
              && (PathsOk(over) ==> PathsOk(Get(over, q)))
            case None => Applied(base, over) == Tree(base) && FragmentsRoom(over) == 0
  {
    hide ValueOf, Change, TargetOf;
    if over.PropItem? || over.NopItem? {
      SkipToFragment(base, over.rest);
    }
  }

  // ------------------------------------------------------------ what it means

  /** The targets of the fragments and what is merged into them, in order. */
  function Targets(base: Items, over: Items): seq<(Pos, Items)>
    requires base.NodeItem? && Applied(base, over).Tree?
    decreases over
  {
    match over
    case Done => []
    case NodeItem(_, frag, rest) =>
      (match Change(frag)
       case None => Targets(base, rest)
       case Some(change) =>
         var p := TargetOf(base, frag).p;
         [(p, change)] + Targets(MergedAt(base, p, change), rest))
    case _ => Targets(base, over.rest)
  }

  /** The contents of the fragments that merge something, in order. */
  function Fragments(over: Items): seq<Items> {
    match over
    case Done => []
    case NodeItem(_, frag, rest) => (if Change(frag).Some? then [frag] else []) + Fragments(rest)
    case _ => Fragments(over.rest)
  }

  /** Trees, each made from the one before by merging a fragment into the node that is its target there. */
  ghost predicate IsRun(trees: seq<Items>, places: seq<Pos>, frags: seq<Items>) {
    && |trees| == |places| + 1 && |places| <= |frags|
    && (forall t :: t in trees ==> t.NodeItem?)
    && forall i :: 0 <= i < |places| ==> IsRunStep(trees[i], trees[i + 1], places[i], frags[i])
  }

  ghost predicate IsRunStep(before: Items, after: Items, p: Pos, frag: Items)
    requires before.NodeItem?
  {
    && IsTarget(before, frag, p) && Has(before, p) && Get(before, p).NodeItem? && Change(frag).Some?
    && after == MergedAt(before, p, Change(frag).value)
  }

  lemma NoRun(base: Items, frags: seq<Items>)
    requires base.NodeItem?
    ensures IsRun([base], [], frags)
  {
  }

  lemma RunLonger(ts: seq<Items>, ps: seq<Pos>, fs: seq<Items>, base: Items, p: Pos, frag: Items)
    requires IsRun(ts, ps, fs) && base.NodeItem? && IsRunStep(base, ts[0], p, frag)
    ensures IsRun([base] + ts, [p] + ps, [frag] + fs)
    ensures |ts| == |ps| + 1 && ([base] + ts)[|ps| + 1] == ts[|ps|] && (|ps| < |fs| ==> ([frag] + fs)[|ps| + 1] == fs[|ps|])
  {
    hide IsRunStep;
    var trees, places, frags := [base] + ts, [p] + ps, [frag] + fs;
    forall i | 0 <= i < |places|
      ensures IsRunStep(trees[i], trees[i + 1], places[i], frags[i])
    {
      assert i > 0 ==> IsRunStep(ts[i - 1], ts[i - 1 + 1], ps[i - 1], fs[i - 1]);
    }
  }

  /** The fragments are merged one after the other, up to the first that has no target. */
  lemma {:induction false} AppliedIsRun(base: Items, over: Items) returns (trees: seq<Items>, places: seq<Pos>)
    requires base.NodeItem?
    ensures IsRun(trees, places, Fragments(over)) && trees[0] == base
    ensures match Applied(base, over)
            case Tree(t) => |places| == |Fragments(over)| && t == trees[|places|]
            case Failed(c) => |places| < |Fragments(over)| && NoTarget(trees[|places|], Fragments(over)[|places|], c)
    decreases over
  {
    hide Change, TargetOf, IsTarget, NoTarget, MergedAt, Has, Get, IsRun;
    trees, places := [base], [];
    NoRun(base, Fragments(over));
    match over
    case Done =>
    case NodeItem(_, frag, rest) =>
      if Change(frag).None? {
        trees, places := AppliedIsRun(base, rest);
        assert [] + Fragments(rest) == Fragments(rest);
      } else {
        TargetOfExactly(base, frag);
        if TargetOf(base, frag).Place? {
          var p := TargetOf(base, frag).p;
          var ts, ps := AppliedIsRun(MergedAt(base, p, Change(frag).value), rest);
          RunLonger(ts, ps, Fragments(rest), base, p, frag);
          trees, places := [base] + ts, [p] + ps;
        }
      }
    case _ => trees, places := AppliedIsRun(base, over.rest);
  }

  /** Everything that is not inside a target stays in its place, with its name and value. */
  lemma {:induction false} UntouchedStays(base: Items, over: Items, r: Pos)
    requires base.NodeItem? && Applied(base, over).Tree?
    requires forall t :: t in Targets(base, over) ==> !Inside(t.0, r)
    ensures var after := Applied(base, over).tree;
            && (Has(after, r) <==> Has(base, r))
            && (Has(base, r) ==> LabelOf(Get(after, r)) == LabelOf(Get(base, r)))
    decreases over
  {
    hide Change, TargetOf, Merge, Inside, LabelOf, Get, Put;
    match over
    case Done =>
    case NodeItem(_, frag, rest) =>
      if Change(frag).None? {
        UntouchedStays(base, rest, r);
      } else {
        var p := TargetOf(base, frag).p;
        var next := MergedAt(base, p, Change(frag).value);
        var first := [(p, Change(frag).value)];
        assert Targets(base, over) == first + Targets(next, rest);
        assert first[0] in Targets(base, over);
        UntouchedStays(next, rest, r);
        EditLeavesOthers(base, p, Merge(Get(base, p).kids, Change(frag).value), r);
      }
    case _ => UntouchedStays(base, over.rest, r);
  }

  /** Two places are apart if neither is the other or inside it. */
  predicate PlacesApart(p: Pos, r: Pos) {
    p != r && !Inside(p, r) && !Inside(r, p)
  }

  lemma {:induction false} EditApart(tree: Items, p: Pos, kids: Items, r: Pos)
    requires Has(tree, p) && Get(tree, p).NodeItem? && PlacesApart(p, r)
    requires Has(tree, r) && Get(tree, r).NodeItem?
    ensures var after := Put(tree, p, Get(tree, p).(kids := kids));
            Has(after, r) && Get(after, r).NodeItem? && Get(after, r).kids == Get(tree, r).kids
    decreases p
  {
    match p
    case Here =>
    case Next(q) =>
      if r.Next? {
        EditApart(tree.rest, q, kids, r.p);
      }
    case Down(q) =>
      if r.Down? {
        EditApart(tree.kids, q, kids, r.p);
      }
  }

  /** A node that is apart from all targets keeps its contents. */
  lemma {:induction false} ApartStays(base: Items, over: Items, r: Pos)
    requires base.NodeItem? && Applied(base, over).Tree? && Has(base, r) && Get(base, r).NodeItem?
    requires forall t :: t in Targets(base, over) ==> PlacesApart(t.0, r)
    ensures var after := Applied(base, over).tree;
            Has(after, r) && Get(after, r).NodeItem? && Get(after, r).kids == Get(base, r).kids
    decreases over
  {
    hide Change, TargetOf, Merge, PlacesApart, Get, Put;
    match over
    case Done =>
    case NodeItem(_, frag, rest) =>
      if Change(frag).None? {
        ApartStays(base, rest, r);
      } else {
        var p := TargetOf(base, frag).p;
        var next := MergedAt(base, p, Change(frag).value);
        var first := [(p, Change(frag).value)];
        assert Targets(base, over) == first + Targets(next, rest);
        assert first[0] in Targets(base, over);
        EditApart(base, p, Merge(Get(base, p).kids, Change(frag).value), r);
        ApartStays(next, rest, r);
      }
    case _ => ApartStays(base, over.rest, r);
  }

  /** Pairwise apart. */
  predicate AllApart(ts: seq<(Pos, Items)>) {
    forall j, k :: 0 <= j < |ts| && 0 <= k < |ts| && j != k ==> PlacesApart(ts[j].0, ts[k].0)
  }

  lemma AllApartRest(t: (Pos, Items), ts: seq<(Pos, Items)>)
    requires AllApart([t] + ts)
    ensures AllApart(ts) && forall u :: u in ts ==> PlacesApart(u.0, t.0) && PlacesApart(t.0, u.0)
  {
    hide PlacesApart;
    var all := [t] + ts;
    assert forall j :: 0 <= j < |ts| ==> all[j + 1] == ts[j];
    assert all[0] == t;
  }

  /** If the targets are apart, each ends with what it had merged with what its fragment brings. */
  lemma {:induction false} TargetsMerged(base: Items, over: Items, i: nat)
    requires base.NodeItem? && Applied(base, over).Tree? && i < |Targets(base, over)| && AllApart(Targets(base, over))
    ensures var (p, change) := Targets(base, over)[i]; var after := Applied(base, over).tree;
            && Has(base, p) && Get(base, p).NodeItem? && Has(after, p) && Get(after, p).NodeItem?
            && Get(after, p).kids == Merge(Get(base, p).kids, change)
    decreases over
  {
    hide Change, TargetOf, Merge, PlacesApart, AllApart, Get, Put, Has;
    match over
    case Done =>
    case NodeItem(_, frag, rest) =>
      if Change(frag).None? {
        TargetsMerged(base, rest, i);
      } else {
        var p, change := TargetOf(base, frag).p, Change(frag).value;
        var next := MergedAt(base, p, change);
        var later := Targets(next, rest);
        assert Targets(base, over) == [(p, change)] + later;
        AllApartRest((p, change), later);
        if i == 0 {
          PutAt(base, p, Get(base, p).(kids := Merge(Get(base, p).kids, change)), Nil);
          ApartStays(next, rest, p);
        } else {
          assert later[i - 1] in later;
          TargetsMerged(next, rest, i - 1);
          ApartBefore(base, p, Merge(Get(base, p).kids, change), later[i - 1].0);
        }
      }
    case _ => TargetsMerged(base, over.rest, i);
  }

  /**
   A fragment that names a phandle is merged into the node of the base tree that
   has it, if the targets are apart.
   */
  lemma {:induction false} PhandleMerged(base: Items, over: Items, i: nat)
    requires base.NodeItem? && Applied(base, over).Tree? && i < |Targets(base, over)| && AllApart(Targets(base, over))
    ensures |Fragments(over)| == |Targets(base, over)|
    ensures var (p, change) := Targets(base, over)[i]; var after := Applied(base, over).tree; var frag := Fragments(over)[i];
            && Change(frag) == Some(change)
            && Has(base, p) && Get(base, p).NodeItem? && Has(after, p) && Get(after, p).NodeItem?
            && Get(after, p).kids == Merge(Get(base, p).kids, change)
            && (TargetCell(frag).Some? ==> Phandle(Get(base, p).kids) == TargetCell(frag).value)
    decreases over
  {
    hide Change, TargetOf, Merge, PlacesApart, AllApart, Get, Put, Has, Phandle, TargetCell;
    TargetsMerged(base, over, i);
    match over
    case Done =>
    case NodeItem(_, frag, rest) =>
      if Change(frag).None? {
        PhandleMerged(base, rest, i);
        assert [] + Fragments(rest) == Fragments(rest);
      } else {
        var p, change := TargetOf(base, frag).p, Change(frag).value;
        var next := MergedAt(base, p, change);
        var later := Targets(next, rest);
        assert Targets(base, over) == [(p, change)] + later;
        AllApartRest((p, change), later);
        TargetHasPhandle(base, frag);
        if i > 0 {
          assert later[i - 1] in later;
          PhandleMerged(next, rest, i - 1);
          ApartBefore(base, p, Merge(Get(base, p).kids, change), later[i - 1].0);
        } else {
          SameNumber(next, rest);
        }
      }
    case _ => PhandleMerged(base, over.rest, i);
  }

  lemma TargetHasPhandle(base: Items, frag: Items)
    requires base.NodeItem? && TargetOf(base, frag).Place?
    ensures TargetCell(frag).Some? ==> Phandle(Get(base, TargetOf(base, frag).p).kids) == TargetCell(frag).value
  {
    hide TargetOf, Phandle, TargetCell;
    TargetOfExactly(base, frag);
  }

  lemma {:induction false} SameNumber(base: Items, over: Items)
    requires base.NodeItem? && Applied(base, over).Tree?
    ensures |Fragments(over)| == |Targets(base, over)|
    decreases over
  {
    hide Change, TargetOf, MergedAt;
    match over
    case Done =>
    case NodeItem(_, frag, rest) =>
      SameNumber(if Change(frag).None? then base else MergedAt(base, TargetOf(base, frag).p, Change(frag).value), rest);
    case _ => SameNumber(base, over.rest);
  }

  /** A node apart from an edit was there before it, with the same contents. */
  lemma ApartBefore(tree: Items, p: Pos, kids: Items, r: Pos)
    requires Has(tree, p) && Get(tree, p).NodeItem? && PlacesApart(p, r)
    requires var after := Put(tree, p, Get(tree, p).(kids := kids)); Has(after, r) && Get(after, r).NodeItem?
    ensures Has(tree, r) && Get(tree, r).NodeItem?
    ensures Get(Put(tree, p, Get(tree, p).(kids := kids)), r).kids == Get(tree, r).kids
  {
    hide Get, Put, Has;
    EditLeavesOthers(tree, p, kids, r);
    EditApart(tree, p, kids, r);
  }

  // ----------------------------------------------------------------- the code

  /** overlay_get_target_phandle: 0 if there is none, -1 if it is malformed. */
  method GetTargetPhandle(fdto: Blob, fragment: nat, ghost x: Items, ghost post: Tokens) returns (r: int)
    requires fdto.magic == FDT_MAGIC && fdto.At(fragment, Flat(x, post)) && Closes(post) && x.NodeItem?
    ensures match ValueOf(x.kids, TARGET)
            case None => r == 0
            case Some(v) => r == if |v| != 4 || Word(v, 0) == U32_LIMIT - 1 then -1 else Word(v, 0)
    ensures -1 <= r < U32_LIMIT
  {
    hide EncAt, Flat, Closes, ValueOf, Blob.Block, Blob.Tab;
    var val := GetProp(fdto, fragment, TARGET, x, post);
    if val.None? {
      return 0;
    }
    if |val.value| != 4 || Word(val.value, 0) == U32_LIMIT - 1 {
      return -1;
    }
    r := Word(val.value, 0);
  }

  /** The target of a fragment: an offset if there is one, and else the reason why not. */
  method GetTarget(fdt: Blob, fdto: Blob, fragment: nat, ghost x: Items, ghost post: Tokens) returns (ret: int, ghost p: Pos)
    requires fdt.ValidTree() && fdt.tree.NodeItem?
    requires fdto.magic == FDT_MAGIC && fdto.At(fragment, Flat(x, post)) && Closes(post) && x.NodeItem? && PathsOk(x)
    ensures ret >= 0 ==> IsTarget(fdt.tree, x.kids, p) && ret == Off(fdt.tree, p) && TargetOf(fdt.tree, x.kids) == Place(p)
    ensures ret < 0 ==> NoTarget(fdt.tree, x.kids, ret) && TargetOf(fdt.tree, x.kids) == Missing(ret)
  {
    hide EncAt, Flat, Closes, ValueOf, Off, Resolve, Parts, FirstWith, Blob.Block, Blob.Tab, IsTarget, NoTarget;
    ghost var goal := TargetOf(fdt.tree, x.kids);
    TargetOfExactly(fdt.tree, x.kids);
    p := if goal.Place? then goal.p else Here;
    ret := FindTarget(fdt, fdto, fragment, x, post);
  }

  /** overlay_get_target, told by what it should be. */
  method FindTarget(fdt: Blob, fdto: Blob, fragment: nat, ghost x: Items, ghost post: Tokens) returns (ret: int)
    requires fdt.ValidTree() && fdt.tree.NodeItem?
    requires fdto.magic == FDT_MAGIC && fdto.At(fragment, Flat(x, post)) && Closes(post) && x.NodeItem? && PathsOk(x)
    ensures match TargetOf(fdt.tree, x.kids)
            case Place(p) => ret == Off(fdt.tree, p)
            case Missing(c) => ret == c < 0
  {
    hide EncAt, Flat, Closes, ValueOf, Off, Resolve, Parts, FirstWith, Blob.Block, Blob.Tab;
    var phandle := GetTargetPhandle(fdto, fragment, x, post);
    if phandle == -1 {
      return -ERR_BADPHANDLE;
    }
    var missing := false;
    if phandle == 0 {
      var path := GetProp(fdto, fragment, TARGET_PATH, x, post);
      if path.Some? {
        PathText(path.value);
        ret := PathOffset(fdt, path.value[..FirstNul(path.value, 0)]);
      } else {
        ret := -ERR_NOTFOUND;
        missing := true;
      }
    } else {
      ret := NodeOffsetByPhandle(fdt, phandle);
    }
    if ret < 0 && missing {
      ret := -ERR_BADOVERLAY;
    }
  }

  lemma PathText(v: bytes)
    requires 0 in v && v[0] == SLASH
    ensures FirstNul(v, 0) > 0 && v[..FirstNul(v, 0)][0] == SLASH
  {
  }

  /** One round of the loop of overlay_merge, for a fragment that is there. */
  method MergeFragment(fdt: Blob, fdto: Blob, fragment: nat, ghost at: Pos) returns (r: int)
    requires fdt != fdto && fdt.buf != fdto.buf && fdt.ValidTree() && fdto.ValidTree() && fdt.tree.NodeItem?
    requires Has(fdto.tree, at) && Get(fdto.tree, at).NodeItem? && fragment == Off(fdto.tree, at) && PathsOk(Get(fdto.tree, at))
    modifies fdt`sizeStruct, fdt`offStrings, fdt`sizeStrings, fdt`tree, fdt.buf
    ensures fdt.Front() == old(fdt.Front())
    ensures fdt.ValidTree() && fdt.tree.NodeItem?
    ensures match Change(Get(fdto.tree, at).kids)
            case None => r == 0 && fdt.tree == old(fdt.tree) && DataSize(fdt) == old(DataSize(fdt))
            case Some(change) =>
              match TargetOf(old(fdt.tree), Get(fdto.tree, at).kids)
              case Missing(c) => r == c < 0
              case Place(p) =>
                && Charged(old(DataSize(fdt)), DataSize(fdt), MergeRoom(change), fdt.totalsize, r)
                && (r == 0 ==> fdt.tree == MergedAt(old(fdt.tree), p, change))
  {
    hide EncAt, Flat, Off, Post, Put, Get, Blob.Block, Blob.Tab, TargetOf, IsTarget, NoTarget, Merge, MergeRoom, FindNode, Complete,
         Closes, Blob.Front;
    ghost var x, base := Get(fdto.tree, at), fdt.tree;
    PlaceAt(fdto, at);
    LastCloses(fdto.tree, at);
    var overlay := SubnodeOffset(fdto, fragment, OVERLAY, x, Post(fdto.tree, at, LAST));
    if overlay == -ERR_NOTFOUND {
      return 0;
    }
    if overlay < 0 {
      return overlay;
    }
    ghost var q := FindNode(x.kids, Named(OVERLAY)).value;
    var target;
    ghost var p;
    target, p := GetTarget(fdt, fdto, fragment, x, Post(fdto.tree, at, LAST));
    if target < 0 {
      return target;
    }
    InnerPlace(fdto.tree, at, q);
    ghost var k;
    r, k := ApplyNode(fdt, target, fdto, overlay, p, Then(at, Down(q)));
    StaysNode(base, p, Get(base, p).(kids := k));
  }

  lemma InnerPlace(tree: Items, at: Pos, q: Pos)
    requires Has(tree, at) && Get(tree, at).NodeItem? && Has(Get(tree, at).kids, q)
    ensures var r := Then(at, Down(q));
            && Has(tree, r) && Get(tree, r) == Get(Get(tree, at).kids, q)
            && Off(tree, r) == Off(tree, at) + Off(Get(tree, at), Down(q))
  {
    hide Off, Post, Put;
    ThenAt(tree, at, Down(q), Nil);
  }

  lemma StaysNode(tree: Items, p: Pos, y: Items)
    requires tree.NodeItem? && Has(tree, p) && y.NodeItem?
    ensures Put(tree, p, y).NodeItem?
  {
  }

  /** overlay_merge */
  method MergeOverlay(fdt: Blob, fdto: Blob) returns (r: int, ghost trees: seq<Items>, ghost places: seq<Pos>)
    requires fdt != fdto && fdt.buf != fdto.buf && fdt.ValidTree() && fdto.ValidTree() && fdt.tree.NodeItem?
    requires fdto.tree.NodeItem? && PathsOk(fdto.tree.kids)
    modifies fdt`sizeStruct, fdt`offStrings, fdt`sizeStrings, fdt`tree, fdt.buf
    ensures fdt.Front() == old(fdt.Front())
    ensures fdt.ValidTree() && fdt.tree.NodeItem?
    ensures r == 0 ==> Applied(old(fdt.tree), fdto.tree.kids) == Tree(fdt.tree)
    ensures r != 0 ==>
              || Applied(old(fdt.tree), fdto.tree.kids) == Failed(r)
              || (r == -ERR_NOSPACE && old(DataSize(fdt)) + FragmentsRoom(fdto.tree.kids) > fdt.totalsize)
    ensures var frags := Fragments(fdto.tree.kids);
            && IsRun(trees, places, frags) && trees[0] == old(fdt.tree)
            && (r == 0 ==> |places| == |frags| && fdt.tree == trees[|places|])
            && (r != 0 ==>
                  || (|places| < |frags| && NoTarget(trees[|places|], frags[|places|], r))
                  || (r == -ERR_NOSPACE && old(DataSize(fdt)) + FragmentsRoom(fdto.tree.kids) > fdt.totalsize))
  {
    hide Blob.Front;
    trees, places := AppliedIsRun(fdt.tree, fdto.tree.kids);
    r := MergeFragments(fdt, fdto);
  }

  /** The loop of overlay_merge. */
  method MergeFragments(fdt: Blob, fdto: Blob) returns (r: int)
    requires fdt != fdto && fdt.buf != fdto.buf && fdt.ValidTree() && fdto.ValidTree() && fdt.tree.NodeItem?
    requires fdto.tree.NodeItem? && PathsOk(fdto.tree.kids)
    modifies fdt`sizeStruct, fdt`offStrings, fdt`sizeStrings, fdt`tree, fdt.buf
    ensures fdt.Front() == old(fdt.Front())
    ensures fdt.ValidTree() && fdt.tree.NodeItem?
    ensures r == 0 ==> Applied(old(fdt.tree), fdto.tree.kids) == Tree(fdt.tree)
    ensures r != 0 ==>
              || Applied(old(fdt.tree), fdto.tree.kids) == Failed(r)
              || (r == -ERR_NOSPACE && old(DataSize(fdt)) + FragmentsRoom(fdto.tree.kids) > fdt.totalsize)
  {
    hide EncAt, Flat, Off, Post, Put, Get, Blob.Block, Blob.Tab, TargetOf, Merge, MergeRoom, FindNode, Complete,
         Closes, Change, Applied, FragmentsRoom, PathsOk, Blob.Front;
    ghost var o, at := fdto.tree, Here;
    ghost var goal := Applied(fdt.tree, o.kids);
    RootHere(fdto.tree);
    PlaceAt(fdto, Here);
    LastCloses(fdto.tree, Here);
    SkipToFragment(fdt.tree, o.kids);
    var fragment := FirstSubnode(fdto, 0, o, Post(fdto.tree, Here, LAST));
    if fragment >= 0 {
      at := FirstKidPlace(fdto.tree, Here);
    }
    r := 0;
    while fragment >= 0
      invariant fdt.Front() == old(fdt.Front())
      invariant fdt.ValidTree() && fdt.tree.NodeItem? && r == 0
      invariant fragment >= 0 ==>
                  && Has(fdto.tree, at) && fragment == Off(fdto.tree, at) && Get(fdto.tree, at).NodeItem? && PathsOk(Get(fdto.tree, at))
                  && goal == Applied(fdt.tree, Get(fdto.tree, at))
      invariant fragment < 0 ==> goal == Tree(fdt.tree)
      invariant DataSize(fdt) + (if fragment >= 0 then FragmentsRoom(Get(fdto.tree, at)) else 0) <= old(DataSize(fdt)) + FragmentsRoom(o.kids)
      decreases fragment >= 0, if Has(fdto.tree, at) then Get(fdto.tree, at) else Done
    {
      ghost var z, base := Get(fdto.tree, at), fdt.tree;
      FragmentStep(base, z);
      r := MergeFragment(fdt, fdto, fragment, at);
      if r != 0 {
        return;
      }
      SkipToFragment(fdt.tree, z.rest);
      fragment, at := NextKid(fdto, fragment, at);
    }
  }

  lemma RootHere(x: Items)
    ensures Has(x, Here) && Get(x, Here) == x && Off(x, Here) == 0
  {
  }

  lemma FragmentStep(base: Items, z: Items)
    requires base.NodeItem? && z.NodeItem?
    ensures Applied(base, z) ==
            match Change(z.kids)
            case None => Applied(base, z.rest)
            case Some(change) =>
              match TargetOf(base, z.kids)
              case Missing(c) => Failed(c)
              case Place(p) => Applied(MergedAt(base, p, change), z.rest)
    ensures FragmentsRoom(z) == (match Change(z.kids) case Some(change) => MergeRoom(change) case None => 0) + FragmentsRoom(z.rest)
    ensures PathsOk(z) ==> PathsOk(z.rest)
  {
    hide Change, TargetOf, ValueOf, MergeRoom;
  }

  /** What fdt_overlay_apply takes here: overlays that need nothing of the base's symbols and bring none. */
  predicate Plain(kids: Items) {
    FindNode(kids, Named(FIXUPS)).None? && FindNode(kids, Named(SYMBOLS)).None? && PathsOk(kids)
  }

  /** overlay_fixup_phandles, where there is nothing to do. */
  method FixupPhandles(fdto: Blob) returns (r: int)
    requires fdto.ValidTree() && fdto.tree.NodeItem? && FindNode(fdto.tree.kids, Named(FIXUPS)).None?
    ensures r == 0
  {
    hide EncAt, Flat, Parts, Resolve, FindNode, Blob.Block, Blob.Tab;
    RootPath(fdto.tree, FIXUPS);
    r := PathOffset(fdto, [SLASH] + FIXUPS);
    if r == -ERR_NOTFOUND {
      r := 0;
    }
  }

  /** overlay_symbol_update, where there is nothing to do. */
  method SymbolUpdate(fdto: Blob) returns (r: int)
    requires fdto.ValidTree() && fdto.tree.NodeItem? && FindNode(fdto.tree.kids, Named(SYMBOLS)).None?
    ensures r == 0
  {
    hide EncAt, Flat, FindNode, Post, Complete, Closes, Blob.Block, Blob.Tab;
    RootHere(fdto.tree);
    PlaceAt(fdto, Here);
    LastCloses(fdto.tree, Here);
    var ovSym := SubnodeOffset(fdto, 0, SYMBOLS, fdto.tree, Post(fdto.tree, Here, LAST));
    assert ovSym < 0;
    r := 0;
  }

  /** fdt_overlay_apply, where the overlay is damaged in any case and the base on errors. */
  method ApplyOverlay(fdt: Blob, fdto: Blob) returns (r: int, ghost trees: seq<Items>, ghost places: seq<Pos>)
    requires fdt != fdto && fdt.buf != fdto.buf && fdt.ValidTree() && fdto.ValidTree() && fdt.tree.NodeItem? && fdto.tree.NodeItem?
    requires var raised := RaiseNode(fdto.tree.kids, MaxPhandle(fdt.tree)); raised.Some? ==> FixupsOk(raised.value)
    requires var over := Renumbered(fdto.tree.kids, MaxPhandle(fdt.tree)); over.Some? ==> Plain(over.value)
    modifies fdt`magic, fdt`sizeStruct, fdt`offStrings, fdt`sizeStrings, fdt`tree, fdt.buf, fdto`magic, fdto`tree, fdto.buf
    ensures fdt.Front() == old(fdt.Front()) && fdto.Front() == old(fdto.Front())
    ensures fdto.magic == NO_MAGIC
    ensures var over := old(Renumbered(fdto.tree.kids, MaxPhandle(fdt.tree)));
            if r == 0 then
              fdt.ValidTree() && over.Some? && Applied(old(fdt.tree), over.value) == Tree(fdt.tree)
            else
              && fdt.magic == NO_MAGIC
              && (over.Some? ==>
                    || Applied(old(fdt.tree), over.value) == Failed(r)
                    || (r == -ERR_NOSPACE && old(DataSize(fdt)) + FragmentsRoom(over.value) > fdt.totalsize))
    ensures r == 0 ==>
              var frags := Fragments(old(Renumbered(fdto.tree.kids, MaxPhandle(fdt.tree))).value);
              && IsRun(trees, places, frags) && |places| == |frags|
              && trees[0] == old(fdt.tree) && trees[|places|] == fdt.tree
  {
    hide EncAt, Flat, RaiseNode, Renumbered, FixupsOk, MaxPhandle, Applied, FragmentsRoom, PathsOk, FindNode,
         Blob.Block, Blob.Tab, Blob.Front;
    ghost var k;
    trees, places := [], [];
    r, k := RenumberOverlay(fdt, fdto);
    if r == 0 {
      r := FixupPhandles(fdto);
      if r == 0 {
        r, trees, places := MergeOverlay(fdt, fdto);
        if r == 0 {
          r := SymbolUpdate(fdto);
        }
      }
    }
    fdto.magic := NO_MAGIC;
    if r != 0 {
      fdt.magic := NO_MAGIC;
    }
  }
}
