/**
 Every run of the sequential interface: a list of calls, with changes of
 buffer anywhere between them, written to a finished tree, checked by
 fdt_check_full, and read back tag by tag.
 */
module FdtRoundTrip {
  import opened Bytes
  import opened FdtFormat
  import opened FdtTree
  import opened FdtBlob
  import opened FdtReserve
  import opened FdtCore
  import opened FdtRo
  import opened FdtSw
  import opened FdtCheck

  datatype Call =
    | BeginCall(name: bytes)
    | EndCall
    | PropCall(name: bytes, value: bytes)
    | ResizeCall(newbuf: array<byte>, size: nat)
  {
    predicate Ok(bufs: set<array<byte>>) {
      match this
      case BeginCall(n) => CStr(n) && |n| < INT32_MAX
      case EndCall => true
      case PropCall(n, v) => CStr(n) && |n| < INT32_MAX && |v| < INT32_MAX
      case ResizeCall(b, n) => b in bufs && n <= b.Length && n < INT32_MAX
    }
  }

  /** A call of the state in which memory is reserved. */
  datatype MapCall =
    | ReserveCall(entry: Reserved)
    | MoveCall(newbuf: array<byte>, size: nat)
  {
    predicate Ok(bufs: set<array<byte>>) {
      match this
      case ReserveCall(e) => e.Ok()
      case MoveCall(b, n) => b in bufs && n <= b.Length && n < INT32_MAX
    }
  }

  /** The entries that calls of that state give, in order, and the size of buffer they end with. */
  function Listed(calls: seq<MapCall>): seq<Reserved> {
    if calls == [] then []
    else (if calls[0].ReserveCall? then [calls[0].entry] else []) + Listed(calls[1..])
  }

  function SizeAfter(calls: seq<MapCall>, size: nat): nat {
    if calls == [] then size
    else SizeAfter(calls[1..], if calls[0].MoveCall? then calls[0].size else size)
  }

  /** The tokens that calls stand for, followed by post; a change of buffer stands for none. */
  function Said(calls: seq<Call>, post: Tokens): Tokens {
    if calls == [] then post
    else
      var rest := Said(calls[1..], post);
      match calls[0]
      case BeginCall(n) => Cons(Begin(n), rest)
      case EndCall => Cons(EndNode, rest)
      case PropCall(n, v) => Cons(Prop(n, v), rest)
      case ResizeCall(_, _) => rest
  }

  /** The names of the calls, which follow on used bytes of strings, never outgrow the buffer of that time. */
  predicate Roomy(calls: seq<Call>, size: nat, used: nat) {
    calls == [] ||
    match calls[0]
    case PropCall(n, _) => used + |n| + 1 <= size && Roomy(calls[1..], size, used + |n| + 1)
    case ResizeCall(_, newsize) => Roomy(calls[1..], newsize, used)
    case _ => Roomy(calls[1..], size, used)
  }

  lemma {:induction false} RoomyLess(calls: seq<Call>, size: nat, used: nat, less: nat)
    requires Roomy(calls, size, used) && less <= used
    ensures Roomy(calls, size, less)
    decreases |calls|
  {
    if calls != [] {
      match calls[0]
      case PropCall(n, _) => RoomyLess(calls[1..], size, used + |n| + 1, less + |n| + 1);
      case ResizeCall(_, newsize) => RoomyLess(calls[1..], newsize, used, less);
      case _ => RoomyLess(calls[1..], size, used, less);
    }
  }

  /** A call that runs over is one of fdt_property, with a name that the tree so far leaves no place for. */
  ghost predicate Over(fdt: Blob, c: Call)
    requires fdt.Bounds()
    reads fdt, fdt.buf
  {
    c.PropCall? && RunsOver(fdt, c.name)
  }

  /** The calls that write a tree. */
  function CallsOf(x: Items): seq<Call> {
    match x
    case Done => []
    case NopItem(rest) => CallsOf(rest)
    case PropItem(n, v, rest) => [PropCall(n, v)] + CallsOf(rest)
    case NodeItem(n, kids, rest) => [BeginCall(n)] + (CallsOf(kids) + ([EndCall] + CallsOf(rest)))
  }

  lemma {:induction false} SaidTwice(a: seq<Call>, b: seq<Call>, post: Tokens)
    ensures Said(a + b, post) == Said(a, Said(b, post))
  {
    if a == [] {
      assert a + b == b;
    } else {
      assert (a + b)[1..] == a[1..] + b;
      SaidTwice(a[1..], b, post);
    }
  }

  /** Those calls say the tree, without its NOPs, token by token. */
  lemma {:induction false} CallsSayTree(x: Items, post: Tokens)
    ensures Said(CallsOf(x), post) == Flat(Strip(x), post)
    decreases x
  {
    match x
    case Done =>
    case NopItem(rest) => CallsSayTree(rest, post);
    case PropItem(n, v, rest) =>
      SaidTwice([PropCall(n, v)], CallsOf(rest), post);
      CallsSayTree(rest, post);
    case NodeItem(n, kids, rest) =>
      var tail := [EndCall] + CallsOf(rest);
      SaidTwice([BeginCall(n)], CallsOf(kids) + tail, post);
      SaidTwice(CallsOf(kids), tail, post);
      SaidTwice([EndCall], CallsOf(rest), post);
      CallsSayTree(rest, post);
      CallsSayTree(kids, Said(tail, post));
  }

  /** One call of the sequential interface; None if it runs over, from where on nothing is known. */
  method RunCall(fdt: Blob, c: Call, bufs: set<array<byte>>) returns (r: Option<int>)
    requires StructState(fdt) && fdt.buf in bufs && c.Ok(bufs)
    modifies fdt, bufs
    ensures StructState(fdt) && fdt.buf in bufs && RsvMap(fdt) == old(RsvMap(fdt))
    ensures r.None? <==> old(Over(fdt, c))
    ensures r.None? ==> Over(fdt, c)
    ensures r == Some(0) ==> forall post :: Cat(fdt.toks, post) == Cat(old(fdt.toks), Said([c], post))
    ensures r != Some(0) ==> fdt.toks == old(fdt.toks)
    ensures fdt.sizeStrings <= old(fdt.sizeStrings) + if c.PropCall? then |c.name| + 1 else 0
    ensures fdt.totalsize == if c.ResizeCall? && r == Some(0) then c.size else old(fdt.totalsize)
  {
    hide EncAt, Blob.Block, Blob.Tab, RsvMap, Open, Align4, RunsOver;
    ghost var ts := fdt.toks;
    var err := 0;
    match c {
      case BeginCall(n) =>
        err := BeginNode(fdt, n);
        CatSnocAll(ts, Begin(n));
      case EndCall =>
        err := EndNode_(fdt);
        CatSnocAll(ts, EndNode);
      case PropCall(n, v) =>
        r := Property(fdt, n, v);
        CatSnocAll(ts, Prop(n, v));
        return;
      case ResizeCall(b, size) =>
        err := Resize(fdt, b, size);
    }
    r := Some(err);
  }

  lemma CatSnocAll(ts: Tokens, t: Token)
    ensures forall post :: Cat(Snoc(ts, t), post) == Cat(ts, Cons(t, post))
  {
    forall post
      ensures Cat(Snoc(ts, t), post) == Cat(ts, Cons(t, post))
    {
      CatSnoc(ts, t, post);
    }
  }

  /** Calls until one fails, or the k-th runs over. */
  method RunCalls(fdt: Blob, calls: seq<Call>, bufs: set<array<byte>>) returns (r: Option<int>, ghost k: nat)
    requires StructState(fdt) && fdt.buf in bufs && fdt.toks == Nil && fdt.sizeStrings == 0
    requires forall c :: c in calls ==> c.Ok(bufs)
    modifies fdt, bufs
    ensures StructState(fdt) && fdt.buf in bufs && RsvMap(fdt) == old(RsvMap(fdt))
    ensures r == Some(0) ==> fdt.toks == Said(calls, Nil)
    ensures r.None? ==> k < |calls| && fdt.toks == Said(calls[..k], Nil) && Over(fdt, calls[k])
    ensures Roomy(calls, old(fdt.totalsize), 0) ==> r.Some?
  {
    hide EncAt, Blob.Block, Blob.Tab, RsvMap, Open, Call.Ok, RunsOver, Said, Cat;
    r, k := Some(0), 0;
    assert calls[0..] == calls;
    ghost var size := fdt.totalsize;
    SaidNone();
    for i := 0 to |calls|
      invariant StructState(fdt) && fdt.buf in bufs && RsvMap(fdt) == old(RsvMap(fdt)) && r == Some(0)
      invariant fdt.toks == Said(calls[..i], Nil)
      invariant Roomy(calls, size, 0) ==> Roomy(calls[i..], fdt.totalsize, fdt.sizeStrings)
    {
      k := i;
      ghost var used, total := fdt.sizeStrings, fdt.totalsize;
      assert calls[i..][1..] == calls[i + 1..];
      assert calls[..i + 1] == calls[..i] + [calls[i]];
      if Roomy(calls, size, 0) {
        OverNotRoomy(fdt, calls[i..]);
      }
      r := RunCall(fdt, calls[i], bufs);
      if r != Some(0) {
        return;
      }
      SaidMore(fdt.toks, calls[..i], calls[i]);
      if Roomy(calls, size, 0) {
        RoomyLess(calls[i + 1..], fdt.totalsize, used + if calls[i].PropCall? then |calls[i].name| + 1 else 0, fdt.sizeStrings);
      }
    }
    assert calls[..|calls|] == calls;
  }

  lemma OverNotRoomy(fdt: Blob, calls: seq<Call>)
    requires Writing(fdt) && calls != [] && Roomy(calls, fdt.totalsize, fdt.sizeStrings)
    ensures !Over(fdt, calls[0])
  {
  }

  lemma SaidNone()
    ensures Said([], Nil) == Nil
  {
  }

  lemma SaidMore(ts: Tokens, calls: seq<Call>, c: Call)
    requires forall post :: Cat(ts, post) == Cat(Said(calls, Nil), Said([c], post))
    ensures ts == Said(calls + [c], Nil)
  {
    hide Said;
    SaidTwice(calls, [c], Nil);
    SaidCat(calls, Said([c], Nil));
    CatNil(ts);
    assert Cat(ts, Nil) == Cat(Said(calls, Nil), Said([c], Nil));
  }

  lemma {:induction false} SaidCat(calls: seq<Call>, post: Tokens)
    ensures Said(calls, post) == Cat(Said(calls, Nil), post)
  {
    if calls != [] {
      SaidCat(calls[1..], post);
    }
  }

  lemma {:induction false} CatNil(ts: Tokens)
    ensures Cat(ts, Nil) == ts
  {
    if ts.Cons? {
      CatNil(ts.tail);
    }
  }

  /** A whole run: create, the reservation map, the calls, finish; None if the k-th call runs over. */
  method WriteBlob(fdt: Blob, bufsize: nat, flags: nat, reserved: seq<MapCall>, calls: seq<Call>, bufs: set<array<byte>>)
    returns (r: Option<int>, ghost k: nat)
    requires fdt.buf in bufs && bufsize <= fdt.buf.Length && bufsize < INT32_MAX
    requires (forall c :: c in reserved ==> c.Ok(bufs)) && (forall c :: c in calls ==> c.Ok(bufs))
    modifies fdt, bufs
    ensures r == Some(0) ==>
              && fdt.Header() && fdt.At(0, fdt.toks) && fdt.toks == Said(calls, LAST)
              && HeaderOk(fdt) && MapTerminated(fdt.buf[..][..fdt.totalsize], fdt.offRsv)
              && Entries(RsvMap(fdt)) == Listed(reserved) + [TERMINATOR]
              && (Encodes(fdt.Block(), fdt.Tab()) <==> Level(Said(calls, Nil), 0) == Some(0))
    ensures r.None? ==> k < |calls| && StructState(fdt) && fdt.toks == Said(calls[..k], Nil) && Over(fdt, calls[k])
    ensures Roomy(calls, SizeAfter(reserved, bufsize), 0) ==> r.Some?
  {
    hide EncAt, EncTok, Blob.Block, Blob.Tab, RsvMap, Call.Ok, Encodes, EndsMap, Level, Said, Snoc, Cat, Entries,
         RunsOver, Roomy, MapCall.Ok, Listed, SizeAfter;
    k := 0;
    var err := Start(fdt, bufsize, flags, reserved, bufs);
    if err != 0 {
      return Some(err), k;
    }
    r, k := RunCalls(fdt, calls, bufs);
    if r == Some(0) {
      SaidEnd(calls);
      err := FinishAll(fdt, Listed(reserved));
      r := Some(err);
    }
  }

  /** Create, and the reservation map. */
  method Start(fdt: Blob, bufsize: nat, flags: nat, reserved: seq<MapCall>, bufs: set<array<byte>>) returns (r: int)
    requires fdt.buf in bufs && bufsize <= fdt.buf.Length && bufsize < INT32_MAX
    requires forall c :: c in reserved ==> c.Ok(bufs)
    modifies fdt, bufs
    ensures fdt.buf in bufs
    ensures r == 0 ==>
              && StructState(fdt) && fdt.toks == Nil && fdt.totalsize == SizeAfter(reserved, bufsize) && fdt.sizeStrings == 0
              && Entries(RsvMap(fdt)) == Listed(reserved) + [TERMINATOR]
  {
    hide EncAt, Blob.Block, Blob.Tab, RsvMap, Entries, MapCall.Ok, Listed, SizeAfter, Blob.Bounds, Blob.At, Open,
         Reserved.Bytes, EntryAt;
    r := Create(fdt, bufsize, flags);
    if r == 0 {
      r := ReserveAll(fdt, reserved, bufs);
    }
    if r == 0 {
      r := FinishReservemap(fdt);
    }
  }

  /** The calls of the state in which memory is reserved, until one fails. */
  method ReserveAll(fdt: Blob, reserved: seq<MapCall>, bufs: set<array<byte>>) returns (r: int)
    requires MemRsvState(fdt) && fdt.buf in bufs && RsvMap(fdt) == []
    requires forall c :: c in reserved ==> c.Ok(bufs)
    modifies fdt, bufs
    ensures MemRsvState(fdt) && fdt.buf in bufs
    ensures r == 0 ==> Entries(RsvMap(fdt)) == Listed(reserved) && fdt.totalsize == SizeAfter(reserved, old(fdt.totalsize))
  {
    hide EncAt, Blob.Block, Blob.Tab, RsvMap, Entries;
    r := 0;
    assert reserved[0..] == reserved;
    for i := 0 to |reserved|
      invariant MemRsvState(fdt) && fdt.buf in bufs && r == 0
      invariant Entries(RsvMap(fdt)) + Listed(reserved[i..]) == Listed(reserved)
      invariant SizeAfter(reserved[i..], fdt.totalsize) == SizeAfter(reserved, old(fdt.totalsize))
    {
      assert reserved[i..][1..] == reserved[i + 1..];
      r := ReserveOne(fdt, reserved[i], bufs);
      if r != 0 {
        return;
      }
    }
  }

  method ReserveOne(fdt: Blob, c: MapCall, bufs: set<array<byte>>) returns (r: int)
    requires MemRsvState(fdt) && fdt.buf in bufs && c.Ok(bufs)
    modifies fdt, bufs
    ensures MemRsvState(fdt) && fdt.buf in bufs
    ensures r == 0 ==> Entries(RsvMap(fdt)) == old(Entries(RsvMap(fdt))) + (if c.ReserveCall? then [c.entry] else [])
    ensures r == 0 ==> fdt.totalsize == if c.MoveCall? then c.size else old(fdt.totalsize)
  {
    hide EncAt, Blob.Block, Blob.Tab, RsvMap, Entries;
    match c {
      case ReserveCall(e) => r := AddReservemapEntry(fdt, e.address, e.size);
      case MoveCall(b, n) => r := Resize(fdt, b, n);
    }
  }

  /** Finish, and what fdt_check_full will find. */
  method FinishAll(fdt: Blob, ghost listed: seq<Reserved>) returns (r: int)
    requires StructState(fdt) && Entries(RsvMap(fdt)) == listed + [TERMINATOR]
    modifies fdt, fdt.buf
    ensures fdt.buf == old(fdt.buf)
    ensures r == 0 ==>
              && fdt.Header() && fdt.At(0, fdt.toks) && fdt.toks == Snoc(old(fdt.toks), End)
              && HeaderOk(fdt) && MapTerminated(fdt.buf[..][..fdt.totalsize], fdt.offRsv)
              && Entries(RsvMap(fdt)) == listed + [TERMINATOR]
              && (Encodes(fdt.Block(), fdt.Tab()) <==> Level(old(fdt.toks), 0) == Some(0))
  {
    hide EncAt, EncTok, Blob.Block, Blob.Tab, RsvMap, Encodes, EndsMap, Level, Snoc, Entries;
    ghost var ts := fdt.toks;
    r := Finish(fdt);
    if r == 0 {
      FinishedEncodes(fdt.Block(), fdt.Tab(), ts);
      MapEnds(fdt, listed);
    }
  }

  lemma {:induction false} SaidEnd(calls: seq<Call>)
    ensures Said(calls, LAST) == Snoc(Said(calls, Nil), End) && Open(Said(calls, Nil))
  {
    if calls != [] {
      SaidEnd(calls[1..]);
    }
  }

  /** The token at an offset, through the reading interface alone. */
  method ReadToken(fdt: Blob, off: nat, ghost ts: Tokens) returns (t: Token, next: nat)
    requires fdt.At(off, ts) && ts.Cons? && fdt.magic == FDT_MAGIC
    ensures t == ts.head && fdt.At(next, ts.tail)
  {
    hide EncAt, EncTok, TokLen, Word, StringAt, Blob.Block, Blob.Strings, Blob.Tab;
    var tag;
    tag, next := NextToken(fdt, off, ts);
    if tag == FDT_BEGIN_NODE {
      var len := GetName(fdt, off, ts);
      TokenFacts(fdt, off, ts);
      NameThere(fdt.Block(), off + 4, ts.head.name);
      t := Begin(Chars(fdt, off + 4, len));
    } else if tag == FDT_PROP {
      var _, name, value := GetpropByOffset(fdt, off, ts);
      t := Prop(name, value);
    } else {
      t := if tag == FDT_END_NODE then EndNode else if tag == FDT_NOP then Nop else End;
    }
  }

  lemma NameThere(s: bytes, i: nat, name: bytes)
    requires StringAt(s, i, name)
    ensures i + |name| <= |s| && s[i..i + |name|] == name
  {
  }

  /** Walking a finished tree with fdt_next_tag gives its tokens. */
  method ReadBack(fdt: Blob) returns (ts: Tokens)
    requires fdt.magic == FDT_MAGIC && fdt.At(0, fdt.toks) && Complete(fdt.toks)
    ensures ts == fdt.toks
  {
    hide EncAt, EncTok, TokLen, Word, Cat, Snoc, Blob.Block, Blob.Strings, Blob.Tab;
    ts := Nil;
    var next, t := 0, Nop;
    ghost var rest := fdt.toks;
    CatNilLeft(rest);
    while true
      invariant fdt.At(next, rest) && Complete(rest) && Cat(ts, rest) == fdt.toks
      decreases rest
    {
      t, next := ReadToken(fdt, next, rest);
      CatSnoc(ts, t, rest.tail);
      ts := Snoc(ts, t);
      if t.End? {
        CatNil(ts);
        return;
      }
      rest := rest.tail;
    }
  }

  lemma CatNilLeft(ts: Tokens)
    ensures Cat(Nil, ts) == ts
  {
  }

  /**
   The round trip. If every call of a run succeeds, fdt_check_full accepts the
   result exactly if the node calls balance, and walking it gives back exactly
   the nodes, names and values written. No run is lost unless a name outgrows
   its buffer.
   */
  method RoundTrip(fdt: Blob, bufsize: nat, flags: nat, reserved: seq<MapCall>, calls: seq<Call>, bufs: set<array<byte>>)
    returns (r: Option<int>, check: Option<int>, map_: seq<Reserved>, ts: Tokens, ghost k: nat)
    requires fdt.buf in bufs && bufsize <= fdt.buf.Length && bufsize < INT32_MAX
    requires (forall c :: c in reserved ==> c.Ok(bufs)) && (forall c :: c in calls ==> c.Ok(bufs))
    modifies fdt, bufs
    ensures r == Some(0) ==>
              ts == Said(calls, LAST) && check.Some? && (check == Some(0) <==> Level(Said(calls, Nil), 0) == Some(0))
    ensures r == Some(0) ==> BeforeEnd(map_, Listed(reserved))
    ensures r == Some(0) && check == Some(0) ==> fdt.ValidTree() && Flat(fdt.tree, LAST) == Said(calls, LAST)
    ensures r.None? ==> k < |calls| && StructState(fdt) && fdt.toks == Said(calls[..k], Nil) && Over(fdt, calls[k])
    ensures Roomy(calls, SizeAfter(reserved, bufsize), 0) ==> r.Some?
  {
    hide EncAt, EncTok, Blob.Block, Blob.Tab, Call.Ok, Encodes, MapTerminated, Level, Said, MeetsWrap, RunsOver,
         Roomy, RsvMap, MapCall.Ok, Listed, SizeAfter, Entries, BeforeEnd;
    ts, check, map_ := Nil, Some(0), [];
    r, k := WriteBlob(fdt, bufsize, flags, reserved, calls, bufs);
    if r != Some(0) {
      return;
    }
    SaidComplete(calls);
    NoWrap(fdt.Block(), 0, fdt.Tab(), fdt.toks);
    check := CheckFull(fdt, fdt.totalsize);
    map_ := ReadMap(fdt, Listed(reserved));
    ts := ReadBack(fdt);
    if check == Some(0) {
      ghost var x := SaidTree(calls);
      fdt.tree := x;
    }
  }

  lemma SaidTree(calls: seq<Call>) returns (x: Items)
    requires Level(Said(calls, Nil), 0) == Some(0)
    ensures Said(calls, LAST) == Flat(x, LAST)
  {
    hide Said, Level, Balanced;
    SaidEnd(calls);
    LevelSnoc(Said(calls, Nil), End, 0);
    var rest;
    x, rest := BalancedHasTree(Said(calls, LAST), 0);
  }

  lemma {:induction false} SaidComplete(calls: seq<Call>)
    ensures Complete(Said(calls, LAST))
  {
    if calls != [] {
      SaidComplete(calls[1..]);
    }
  }

  /** Writing a tree: what is read back is that tree without its NOPs. */
  lemma TreeReadBack(x: Items, y: Items)
    requires Flat(y, LAST) == Said(CallsOf(x), LAST)
    ensures y == Strip(x) && Level(Said(CallsOf(x), Nil), 0) == Some(0)
  {
    CallsSayTree(x, LAST);
    FlatUnique(y, Strip(x), LAST, LAST);
    TreeIsBalanced(Strip(x), LAST, 0);
    SaidEnd(CallsOf(x));
    UnbalancedEnd(Said(CallsOf(x), Nil), 0);
  }
}
