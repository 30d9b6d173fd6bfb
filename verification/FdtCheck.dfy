/**
 fdt_check_full: it accepts a blob exactly when the blob's bytes encode a
 balanced list of tokens; and what the sequential writer produces is accepted
 exactly when the caller's node calls balance.
 */
module FdtCheck {
  import opened Bytes
  import opened FdtFormat
  import opened FdtTree
  import opened FdtBlob
  import opened FdtReserve
  import opened FdtCore
  import opened FdtRo
  import opened FdtSw

  // ------------------------------------------------------------- header

  const FDT_V1_SIZE := 28
  const FDT_V17_SIZE := 40

  predicate OffOk(fdt: Blob, off: nat)
    reads fdt
  {
    FDT_V17_SIZE <= off <= fdt.totalsize
  }

  predicate BlockOk(fdt: Blob, base: nat, size: nat)
    reads fdt
  {
    OffOk(fdt, base) && base + size < U32_LIMIT && OffOk(fdt, base + size)
  }

  predicate HeaderOk(fdt: Blob)
    reads fdt
  {
    && fdt.magic == FDT_MAGIC && fdt.lastComp <= 17 <= fdt.version
    && FDT_V17_SIZE <= fdt.totalsize <= INT32_MAX
    && OffOk(fdt, fdt.offRsv)
    && BlockOk(fdt, fdt.offStruct, fdt.sizeStruct) && BlockOk(fdt, fdt.offStrings, fdt.sizeStrings)
  }

  /** fdt_check_header, for versions from 17 on. */
  method CheckHeader(fdt: Blob) returns (r: int)
    requires 17 <= fdt.version
    ensures r == 0 <==> HeaderOk(fdt)
    ensures r <= 0
  {
    if fdt.magic != FDT_MAGIC {
      return -ERR_BADMAGIC;
    }
    if fdt.lastComp > 17 || fdt.version < fdt.lastComp {
      return -ERR_BADVERSION;
    }
    if fdt.totalsize < FDT_V17_SIZE || fdt.totalsize > INT32_MAX {
      return -ERR_TRUNCATED;
    }
    if !OffOk(fdt, fdt.offRsv) {
      return -ERR_TRUNCATED;
    }
    if !BlockOk(fdt, fdt.offStruct, fdt.sizeStruct) {
      return -ERR_TRUNCATED;
    }
    if !BlockOk(fdt, fdt.offStrings, fdt.sizeStrings) {
      return -ERR_TRUNCATED;
    }
    r := 0;
  }

  // ------------------------------------------------------------ balance

  /** Node depth never falls below zero, and is zero at the one FDT_END. */
  predicate Balanced(ts: Tokens, depth: nat)
    decreases ts
  {
    match ts
    case Nil => false
    case Cons(End, rest) => depth == 0 && rest.Nil?
    case Cons(EndNode, rest) => depth > 0 && Balanced(rest, depth - 1)
    case Cons(Begin(_), rest) => Balanced(rest, depth + 1)
    case Cons(_, rest) => Balanced(rest, depth)
  }

  /** The depth after tokens that start at a depth, or None if it falls below zero or they end. */
  function Level(ts: Tokens, depth: nat): Option<nat>
    decreases ts
  {
    match ts
    case Nil => Some(depth)
    case Cons(End, _) => None
    case Cons(EndNode, rest) => if depth > 0 then Level(rest, depth - 1) else None
    case Cons(Begin(_), rest) => Level(rest, depth + 1)
    case Cons(_, rest) => Level(rest, depth)
  }

  function LevelStep(t: Token, d: nat): Option<nat> {
    match t
    case Begin(_) => Some(d + 1)
    case EndNode => if d > 0 then Some(d - 1) else None
    case End => None
    case _ => Some(d)
  }

  lemma {:induction false} LevelSnoc(ts: Tokens, t: Token, depth: nat)
    requires Level(ts, depth).Some?
    ensures Level(Snoc(ts, t), depth) == LevelStep(t, Level(ts, depth).value)
    ensures Balanced(Snoc(ts, End), depth) <==> Level(ts, depth) == Some(0)
    decreases ts
  {
    match ts
    case Nil =>
    case Cons(EndNode, rest) => LevelSnoc(rest, t, depth - 1);
    case Cons(Begin(_), rest) => LevelSnoc(rest, t, depth + 1);
    case Cons(_, rest) => LevelSnoc(rest, t, depth);
  }

  /** A balanced token list is the flattening of a tree. */
  lemma {:induction false} BalancedHasTree(ts: Tokens, depth: nat) returns (x: Items, rest: Tokens)
    requires Balanced(ts, depth)
    ensures ts == Flat(x, rest) && Closes(rest) && Balanced(rest, depth)
    ensures rest == ts || rest < ts
    ensures depth == 0 ==> rest == LAST
    decreases ts
  {
    match ts
    case Cons(End, _) =>
      x, rest := Done, ts;
    case Cons(EndNode, _) =>
      x, rest := Done, ts;
    case Cons(Begin(n), tail) =>
      var kids, after := BalancedHasTree(tail, depth + 1);
      var more;
      more, rest := BalancedHasTree(after.tail, depth);
      x := NodeItem(n, kids, more);
    case Cons(Prop(n, v), tail) =>
      var more;
      more, rest := BalancedHasTree(tail, depth);
      x := PropItem(n, v, more);
    case Cons(Nop, tail) =>
      var more;
      more, rest := BalancedHasTree(tail, depth);
      x := NopItem(more);
  }

  lemma {:induction false} TreeIsBalanced(x: Items, post: Tokens, depth: nat)
    requires Balanced(post, depth)
    ensures Balanced(Flat(x, post), depth)
    decreases x
  {
    match x
    case Done =>
    case NopItem(r) => TreeIsBalanced(r, post, depth);
    case PropItem(_, _, r) => TreeIsBalanced(r, post, depth);
    case NodeItem(_, k, r) =>
      TreeIsBalanced(r, post, depth);
      TreeIsBalanced(k, Cons(EndNode, Flat(r, post)), depth + 1);
  }

  // --------------------------------------------------------- full check

  /** Some prefix of the block encodes a balanced token list. */
  ghost predicate Encodes(s: bytes, ns: Names) {
    exists k: nat, ts :: EncodesAs(s, ns, k, ts)
  }

  ghost predicate EncodesAs(s: bytes, ns: Names, k: nat, ts: Tokens) {
    k <= |s| && Balanced(ts, 0) && EncAt(s[..k], 0, ns, ts)
  }

  /** The name offset of the property at off leads to a string with its NUL. */
  predicate HasName(s: bytes, off: nat, ns: Names) {
    off + 12 <= |s| &&
    var i := Word(s, off + 8); i < |ns.strs| && FirstNul(ns.strs, i) < |ns.strs|
  }

  lemma RawBegin(s: bytes, off: nat, ns: Names) returns (t: Token)
    requires off % 4 == 0 && TagAt(s, off).0 == FDT_BEGIN_NODE && 0 <= TagAt(s, off).1 <= |s|
    ensures EncTok(s, off, ns, t) && TagOf(t) == FDT_BEGIN_NODE && off + TokLen(t) == TagAt(s, off).1
  {
    hide Word, Align4;
    var e := FirstNul(s, off + 4);
    FirstNulClean(s, off + 4);
    t := Begin(s[off + 4..e]);
    Align4Add(off + 4, e - off - 4 + 1);
  }

  lemma RawProp(s: bytes, off: nat, ns: Names) returns (t: Token)
    requires off % 4 == 0 && !ns.sw && !WrapsAt(s, off)
    requires TagAt(s, off).0 == FDT_PROP && 0 <= TagAt(s, off).1 <= |s| && HasName(s, off, ns)
    ensures EncTok(s, off, ns, t) && TagOf(t) == FDT_PROP && off + TokLen(t) == TagAt(s, off).1
  {
    hide Word, Align4;
    var n, i := Word(s, off + 4), Word(s, off + 8);
    FirstNulClean(ns.strs, i);
    t := Prop(ns.strs[i..FirstNul(ns.strs, i)], s[off + 12..off + 12 + n]);
    Align4Add(off + 12, n);
  }

  /** The token that raw bytes make, once the checks on them have passed. */
  lemma RawToken(s: bytes, off: nat, ns: Names) returns (t: Token)
    requires off % 4 == 0 && !ns.sw && !WrapsAt(s, off)
    requires var (tag, next) := TagAt(s, off);
             && 0 <= next <= |s|
             && (tag == FDT_PROP ==> HasName(s, off, ns))
    ensures EncTok(s, off, ns, t) && TagOf(t) == TagAt(s, off).0 && off + TokLen(t) == TagAt(s, off).1
  {
    hide Word, Align4;
    var tag := TagAt(s, off).0;
    if tag == FDT_BEGIN_NODE {
      t := RawBegin(s, off, ns);
    } else if tag == FDT_PROP {
      t := RawProp(s, off, ns);
    } else {
      t := if tag == FDT_END then End else if tag == FDT_END_NODE then EndNode else Nop;
      Align4Add(off + 4, 0);
    }
  }

  lemma TokenInPrefix(s: bytes, k: nat, off: nat, ns: Names, t: Token)
    requires k <= |s| && EncTok(s[..k], off, ns, t)
    ensures EncTok(s, off, ns, t)
  {
    hide TokLen, Word, Align4, EncTok;
    EncTokIn(s[..k], off, ns, t);
    SameRange(s[..k], s, k, off, off + TokLen(t));
    EncTokCopy(s[..k], off, ns, t, s, off, ns);
  }

  /** What is stored where a balanced list goes on: the next tag, and a name that resolves. */
  lemma EncodedStep(s: bytes, k: nat, off: nat, ns: Names, rest: Tokens, depth: nat)
    requires k <= |s| < U32_LIMIT && EncAt(s[..k], off, ns, rest) && Balanced(rest, depth) && !ns.sw
    ensures !WrapsAt(s, off)
    ensures rest.Cons? && TagAt(s, off) == (TagOf(rest.head), off + TokLen(rest.head)) && off + TokLen(rest.head) <= k
    ensures EncAt(s[..k], off + TokLen(rest.head), ns, rest.tail)
    ensures match LevelStep(rest.head, depth)
            case Some(d) => Balanced(rest.tail, d)
            case None => rest.head.End? && depth == 0
    ensures rest.head.Prop? ==> HasName(s, off, ns)
  {
    hide TokLen, Word, Align4, TagAt, FirstNul, EncTok;
    var t := rest.head;
    EncTokIn(s[..k], off, ns, t);
    TokenInPrefix(s, k, off, ns, t);
    TagAtToken(s, off, ns, t);
    if t.Prop? {
      NameResolves(s, off, ns, t);
    }
  }

  lemma NameResolves(s: bytes, off: nat, ns: Names, t: Token)
    requires EncTok(s, off, ns, t) && t.Prop? && !ns.sw
    ensures HasName(s, off, ns)
  {
    hide Word, FirstNul;
    StringEndsAtNul(ns.strs, ns.Index(Word(s, off + 8)), t.name);
  }

  /** A walk over the tags from off meets a property whose length wraps. */
  predicate MeetsWrap(s: bytes, off: nat)
    requires off % 4 == 0
    decreases |s| + 4 - off
  {
    WrapsAt(s, off) ||
    (TagAdvances(s, off);
     var (tag, next) := TagAt(s, off);
     next > off && tag != FDT_END && MeetsWrap(s, next))
  }

  lemma TagAdvances(s: bytes, off: nat)
    requires off % 4 == 0
    ensures TagAt(s, off).1 > off ==> TagAt(s, off).1 % 4 == 0 && TagAt(s, off).1 < |s| + 4
  {
    TagAtAdvances(s, off);
  }

  /** fdt_getprop_by_offset, for the error that a name without a string gives. */
  method NameError(fdt: Blob, offset: nat) returns (err: int)
    requires fdt.Bounds() && fdt.magic == FDT_MAGIC && offset + 12 <= fdt.sizeStruct
    ensures err < 0 <==> !HasName(fdt.Block(), offset, fdt.Tab())
  {
    hide Word, FirstNul, Blob.Block, Blob.Strings;
    var nameoff := fdt.Load(offset + 8);
    err := GetString(fdt, ToInt(nameoff));
  }

  /**
   The loop of fdt_check_full, up to a property whose length wraps: on one that
   is its own end the loop would go round for ever, so the answer is then None.
   */
  method CheckTags(fdt: Blob) returns (r: Option<int>)
    requires fdt.Bounds() && fdt.magic == FDT_MAGIC
    ensures r == Some(0) <==> Encodes(fdt.Block(), fdt.Tab())
    ensures r.None? ==> MeetsWrap(fdt.Block(), 0)
  {
    hide TokLen, Word, Align4, TagAt, EncAt, EncTok, Level, Balanced, Snoc, Blob.Block, Blob.Strings, WrapsAt,
         StuckAt, MeetsWrap, HasName;
    ghost var s, ns := fdt.Block(), fdt.Tab();
    ghost var done, enc := Nil, Encodes(s, ns);
    ghost var k: nat, rest := 0, Nil;
    if enc {
      k, rest :| EncodesAs(s, ns, k, rest);
      assert s[..k][..0] == [];
    }
    EmptyPrefix(s, ns);
    EmptyLevel();
    var depth, next := 0, 0;
    while true
      invariant 0 <= next < |s| + 4 && next % 4 == 0 && (MeetsWrap(s, next) ==> MeetsWrap(s, 0))
      invariant 0 <= depth && 4 * depth <= next
      invariant next <= |s| ==> EncAt(s[..next], 0, ns, done) && Level(done, 0) == Some(depth)
      invariant enc ==> next <= k <= |s| && EncAt(s[..k], next, ns, rest) && Balanced(rest, depth)
      decreases |s| + 4 - next
    {
      var offset := next;
      var tag;
      tag, next := NextTag(fdt, offset);
      TagAtAdvances(s, offset);
      if enc {
        EncodedStep(s, k, offset, ns, rest, depth);
      }
      if next < 0 {
        return Some(next);
      }
      WrapStep(s, offset);
      var wrapped := Wrapped(fdt, offset);
      if wrapped {
        return None;
      }
      if tag == FDT_PROP {
        TagAtProp(s, offset);
        var err := NameError(fdt, offset);
        if err < 0 {
          return Some(err);
        }
      }
      ghost var was := depth;
      if next <= |s| {
        done := Grown(s, offset, ns, done, depth);
      }
      if tag == FDT_END {
        if depth != 0 {
          return Some(-ERR_BADSTRUCTURE);
        }
        TagAtEnd(s, offset);
        assert EncodesAs(s, ns, next, done);
        return Some(0);
      } else if tag == FDT_BEGIN_NODE {
        depth := depth + 1;
        if depth > INT32_MAX {
          return Some(-ERR_BADSTRUCTURE);
        }
      } else if tag == FDT_END_NODE {
        if depth == 0 {
          return Some(-ERR_BADSTRUCTURE);
        }
        depth := depth - 1;
      }
      if enc {
        rest := rest.tail;
      }
    }
  }

  /** On encoded tokens no length wraps, so every walk over them ends. */
  lemma {:induction false} NoWrap(s: bytes, off: nat, ns: Names, ts: Tokens)
    requires off % 4 == 0 && |s| < U32_LIMIT && EncAt(s, off, ns, ts) && Complete(ts)
    ensures !MeetsWrap(s, off)
    decreases ts
  {
    hide EncTok, TokLen, Word, Align4, TagAt, WrapsAt, MeetsWrap;
    var t := ts.head;
    TagAtToken(s, off, ns, t);
    TagAdvances(s, off);
    if !t.End? {
      NoWrap(s, off + TokLen(t), ns, ts.tail);
    }
    NoWrapStep(s, off);
  }

  lemma NoWrapStep(s: bytes, off: nat)
    requires off % 4 == 0 && !WrapsAt(s, off)
    requires var (tag, next) := TagAt(s, off);
             next > off && tag != FDT_END ==> next % 4 == 0 && !MeetsWrap(s, next)
    ensures !MeetsWrap(s, off)
  {
    hide TagAt, WrapsAt;
  }

  /** Whether the tag at an offset is a property whose length wraps. */
  method Wrapped(fdt: Blob, off: nat) returns (b: bool)
    requires fdt.Bounds() && off + 4 <= fdt.sizeStruct
    ensures b == WrapsAt(fdt.Block(), off)
  {
    hide Word;
    b := off + 8 <= fdt.sizeStruct && fdt.Load(off) == FDT_PROP && 12 + fdt.Load(off + 4) >= U32_LIMIT;
  }

  lemma WrapStep(s: bytes, off: nat)
    requires off % 4 == 0 && TagAt(s, off).1 >= 0
    ensures off + 4 <= |s|
    ensures TagAt(s, off).1 > off && TagAt(s, off).1 % 4 == 0 && TagAt(s, off).0 != FDT_END && MeetsWrap(s, TagAt(s, off).1) ==> MeetsWrap(s, off)
    ensures WrapsAt(s, off) ==> MeetsWrap(s, off)
  {
    hide Word, Align4;
  }

  /** The checked prefix grows by the token that was just checked. */
  lemma Grown(s: bytes, off: nat, ns: Names, done: Tokens, depth: nat) returns (more: Tokens)
    requires off % 4 == 0 && off <= |s| && !ns.sw && EncAt(s[..off], 0, ns, done) && Level(done, 0) == Some(depth)
    requires !WrapsAt(s, off)
    requires var (tag, next) := TagAt(s, off);
             && 0 <= next <= |s|
             && (tag == FDT_PROP ==> HasName(s, off, ns))
    ensures var (tag, next) := TagAt(s, off);
            && EncAt(s[..next], 0, ns, more)
            && (tag == FDT_END ==> (Balanced(more, 0) <==> depth == 0))
            && (tag != FDT_END && (tag == FDT_END_NODE ==> depth > 0) ==>
                  Level(more, 0) == Some(if tag == FDT_BEGIN_NODE then depth + 1 else if tag == FDT_END_NODE then depth - 1 else depth))
  {
    hide TokLen, Word, Align4, TagAt, EncAt, EncTok, Level, Balanced, Snoc;
    var t := RawToken(s, off, ns);
    PrefixGrows(s, off, ns, done, t);
    LevelSnoc(done, t, 0);
    more := Snoc(done, t);
  }

  lemma EmptyLevel()
    ensures Level(Nil, 0) == Some(0)
  {
  }

  lemma TagAtProp(s: bytes, off: nat)
    requires TagAt(s, off).0 == FDT_PROP && !WrapsAt(s, off)
    ensures off + 12 <= |s|
  {
    hide Word, Align4, FirstNul;
  }

  lemma TagAtEnd(s: bytes, off: nat)
    requires TagAt(s, off).0 == FDT_END && TagAt(s, off).1 >= 0 && off % 4 == 0
    ensures TagAt(s, off).1 == off + 4 <= |s|
  {
    Align4Add(off + 4, 0);
  }

  /** fdt_check_full accepts exactly the blobs whose bytes encode a balanced tree. */
  method CheckFull(fdt: Blob, bufsize: nat) returns (r: Option<int>)
    requires 17 <= fdt.version && fdt.totalsize < INT32_MAX && bufsize <= fdt.buf.Length
    ensures r == Some(0) <==>
            && FDT_V1_SIZE <= bufsize && HeaderOk(fdt) && fdt.totalsize <= bufsize
            && MapTerminated(fdt.buf[..][..fdt.totalsize], fdt.offRsv)
            && Encodes(fdt.Block(), fdt.Tab())
    ensures r.None? ==> HeaderOk(fdt) && fdt.Bounds() && MeetsWrap(fdt.Block(), 0)
  {
    hide EndsMap, Encodes, Blob.Block, Blob.Tab, MeetsWrap;
    if bufsize < FDT_V1_SIZE {
      return Some(-ERR_TRUNCATED);
    }
    var err := CheckHeader(fdt);
    if err != 0 {
      return Some(err);
    }
    if bufsize < fdt.totalsize {
      return Some(-ERR_TRUNCATED);
    }
    var n := NumMemRsv(fdt);
    if n < 0 {
      return Some(n);
    }
    assert EndsMap(fdt.buf[..][..fdt.totalsize], fdt.offRsv, n);
    r := CheckTags(fdt);
  }

  // ------------------------------------------- what finished trees pass

  lemma {:induction false} BalancedComplete(ts: Tokens, depth: nat)
    requires Balanced(ts, depth)
    ensures Complete(ts)
    decreases ts
  {
    match ts
    case Cons(End, _) =>
    case Cons(EndNode, rest) => BalancedComplete(rest, depth - 1);
    case Cons(Begin(_), rest) => BalancedComplete(rest, depth + 1);
    case Cons(_, rest) => BalancedComplete(rest, depth);
  }

  /** A complete list stored in a prefix is the complete list stored in the whole. */
  lemma EncHead(s: bytes, off: nat, ns: Names, ts: Tokens)
    requires ts.Cons? && EncAt(s, off, ns, ts)
    ensures EncTok(s, off, ns, ts.head) && EncAt(s, off + TokLen(ts.head), ns, ts.tail)
  {
  }

  lemma {:induction false} PrefixUnique(s: bytes, k: nat, off: nat, ns: Names, ts: Tokens, us: Tokens)
    requires k <= |s| && EncAt(s, off, ns, ts) && EncAt(s[..k], off, ns, us) && Complete(ts) && Complete(us)
    ensures ts == us
    decreases ts
  {
    hide EncTok, TokLen, EncAt;
    EncHead(s, off, ns, ts);
    EncHead(s[..k], off, ns, us);
    TokenInPrefix(s, k, off, ns, us.head);
    TokenUnique(s, off, ns, ts.head, us.head);
    if ts.head.End? {
      assert ts.tail == Nil == us.tail;
    } else {
      PrefixUnique(s, k, off + TokLen(ts.head), ns, ts.tail, us.tail);
    }
  }

  /** What the sequential writer finishes is accepted exactly if its node calls balance. */
  lemma FinishedEncodes(s: bytes, ns: Names, ts: Tokens)
    requires EncAt(s, 0, ns, Snoc(ts, End)) && Open(ts)
    ensures Encodes(s, ns) <==> Level(ts, 0) == Some(0)
  {
    hide EncAt, Level, Balanced, Snoc, Open;
    SnocOpen(ts, End);
    if Level(ts, 0) == Some(0) {
      LevelSnoc(ts, End, 0);
      assert s[..|s|] == s;
      assert EncodesAs(s, ns, |s|, Snoc(ts, End));
    }
    if Encodes(s, ns) {
      var k: nat, us :| EncodesAs(s, ns, k, us);
      BalancedComplete(us, 0);
      PrefixUnique(s, k, 0, ns, Snoc(ts, End), us);
      UnbalancedEnd(ts, 0);
    }
  }

  /** What fdt_finish makes of a single fdt_begin_node is refused. */
  lemma UnclosedRefused(s: bytes, ns: Names, name: bytes)
    requires EncAt(s, 0, ns, Snoc(Cons(Begin(name), Nil), End))
    ensures !Encodes(s, ns)
  {
    hide EncAt;
    FinishedEncodes(s, ns, Cons(Begin(name), Nil));
  }

  lemma {:induction false} UnbalancedEnd(ts: Tokens, depth: nat)
    requires Open(ts) && Balanced(Snoc(ts, End), depth)
    ensures Level(ts, depth) == Some(0)
    decreases ts
  {
    match ts
    case Nil =>
    case Cons(EndNode, rest) => UnbalancedEnd(rest, depth - 1);
    case Cons(Begin(_), rest) => UnbalancedEnd(rest, depth + 1);
    case Cons(Prop(_, _), rest) => UnbalancedEnd(rest, depth);
    case Cons(Nop, rest) => UnbalancedEnd(rest, depth);
  }
}
