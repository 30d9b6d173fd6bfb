/**
 What a structure block means. Items is the contents of a node, in order,
 NOPs included, so that every balanced token list is the flattening of
 exactly one Items value. Pos points at a place inside it.
 */
module FdtTree {
  import opened Bytes
  import opened FdtFormat

  datatype Items =
    | Done
    | NopItem(rest: Items)
    | PropItem(name: bytes, value: bytes, rest: Items)
    | NodeItem(name: bytes, kids: Items, rest: Items)

  /** A place in the tree: here, after the first item, or inside the first item's node. */
  datatype Pos = Here | Next(p: Pos) | Down(p: Pos)

  /** The tokens of x, followed by those of post. */
  function Flat(x: Items, post: Tokens): Tokens
    decreases x
  {
    match x
    case Done => post
    case NopItem(rest) => Cons(Nop, Flat(rest, post))
    case PropItem(name, value, rest) => Cons(Prop(name, value), Flat(rest, post))
    case NodeItem(name, kids, rest) => Cons(Begin(name), Flat(kids, Cons(EndNode, Flat(rest, post))))
  }

  const LAST := Cons(End, Nil)

  /** The size of x in the structure block. */
  function Size(x: Items): nat
    decreases x, 1
  {
    if x.Done? then 0 else HeadSize(x) + Size(x.rest)
  }

  /** The size of the first item. */
  function HeadSize(x: Items): nat
    requires !x.Done?
    decreases x, 0
  {
    match x
    case NopItem(_) => TokLen(Nop)
    case PropItem(name, value, _) => TokLen(Prop(name, value))
    case NodeItem(name, kids, _) => TokLen(Begin(name)) + Size(kids) + TokLen(EndNode)
  }

  predicate Has(x: Items, p: Pos) {
    match p
    case Here => true
    case Next(q) => !x.Done? && Has(x.rest, q)
    case Down(q) => x.NodeItem? && Has(x.kids, q)
  }

  function Get(x: Items, p: Pos): Items
    requires Has(x, p)
  {
    match p
    case Here => x
    case Next(q) => Get(x.rest, q)
    case Down(q) => Get(x.kids, q)
  }

  function Put(x: Items, p: Pos, y: Items): Items
    requires Has(x, p)
  {
    match p
    case Here => y
    case Next(q) => x.(rest := Put(x.rest, q, y))
    case Down(q) => x.(kids := Put(x.kids, q, y))
  }

  /** The offset of a place from where x starts. */
  function Off(x: Items, p: Pos): nat
    requires Has(x, p)
  {
    match p
    case Here => 0
    case Next(q) => HeadSize(x) + Off(x.rest, q)
    case Down(q) => TokLen(Begin(x.name)) + Off(x.kids, q)
  }

  /** The tokens after everything that starts at a place. */
  function Post(x: Items, p: Pos, post: Tokens): Tokens
    requires Has(x, p)
    decreases p
  {
    match p
    case Here => post
    case Next(q) => Post(x.rest, q, post)
    case Down(q) => Post(x.kids, q, Cons(EndNode, Flat(x.rest, post)))
  }

  /** Skipping x lands on what follows it. */
  lemma {:induction false} EncSkip(s: bytes, off: nat, ns: Names, x: Items, post: Tokens)
    requires EncAt(s, off, ns, Flat(x, post))
    ensures EncAt(s, off + Size(x), ns, post)
    decreases x, 1
  {
    hide EncAt, HeadSize;
    if !x.Done? {
      EncSkipHead(s, off, ns, x, post);
      EncSkip(s, off + HeadSize(x), ns, x.rest, post);
    }
  }

  lemma {:induction false} EncSkipHead(s: bytes, off: nat, ns: Names, x: Items, post: Tokens)
    requires !x.Done? && EncAt(s, off, ns, Flat(x, post))
    ensures EncAt(s, off + HeadSize(x), ns, Flat(x.rest, post))
    decreases x, 0, 1
  {
    hide EncTok, TokLen, Align4, Size;
    if x.NodeItem? {
      EncSkipNode(s, off, ns, x, post);
    }
  }

  lemma {:induction false} EncSkipNode(s: bytes, off: nat, ns: Names, x: Items, post: Tokens)
    requires x.NodeItem? && EncAt(s, off, ns, Flat(x, post))
    ensures EncAt(s, off + HeadSize(x), ns, Flat(x.rest, post))
    decreases x, 0, 0
  {
    hide EncTok, TokLen, Align4, Size, Flat;
    EncEnterNode(s, off, ns, x, post);
    EncSkip(s, off + TokLen(Begin(x.name)), ns, x.kids, Cons(EndNode, Flat(x.rest, post)));
  }

  lemma EncEnterNode(s: bytes, off: nat, ns: Names, x: Items, post: Tokens)
    requires x.NodeItem? && EncAt(s, off, ns, Flat(x, post))
    ensures EncTok(s, off, ns, Begin(x.name))
    ensures EncAt(s, off + TokLen(Begin(x.name)), ns, Flat(x.kids, Cons(EndNode, Flat(x.rest, post))))
  {
    hide EncTok, TokLen, Align4;
  }

  /** What is stored at the offset of a place is what the tree has there. */
  lemma {:induction false} EncGet(s: bytes, off: nat, ns: Names, x: Items, p: Pos, post: Tokens)
    requires Has(x, p) && EncAt(s, off, ns, Flat(x, post))
    ensures EncAt(s, off + Off(x, p), ns, Flat(Get(x, p), Post(x, p, post)))
    decreases p
  {
    hide EncTok, TokLen, Align4, HeadSize, EncAt, Flat;
    match p
    case Here =>
    case Next(q) =>
      EncSkipHead(s, off, ns, x, post);
      EncGet(s, off + HeadSize(x), ns, x.rest, q, post);
    case Down(q) =>
      EncEnterNode(s, off, ns, x, post);
      EncGet(s, off + TokLen(Begin(x.name)), ns, x.kids, q, Cons(EndNode, Flat(x.rest, post)));
  }

  lemma PrefixOf(s: bytes, s': bytes, a: nat, b: nat)
    requires a <= b <= |s| && b <= |s'| && s[..b] == s'[..b]
    ensures s[..a] == s'[..a]
  {
    assert s[..a] == s[..b][..a] && s'[..a] == s'[..b][..a];
  }

  /** A token that ends inside a common prefix is in both. */
  lemma EncTokPrefix(s: bytes, s': bytes, o: nat, off: nat, ns: Names, t: Token)
    requires EncTok(s, off, ns, t)
    requires off + TokLen(t) <= o <= |s| && o <= |s'| && s[..o] == s'[..o]
    ensures EncTok(s', off, ns, t)
  {
    var n := TokLen(t);
    assert s'[off..off + n] == s'[..o][off..off + n] == s[..o][off..off + n] == s[off..off + n];
    EncTokCopy(s, off, ns, t, s', off, ns);
  }

  /** Equal bytes up to the end of x hold x in front of whatever follows. */
  lemma {:induction false} EncSwap(s: bytes, s': bytes, off: nat, ns: Names, x: Items, post: Tokens, post': Tokens)
    requires EncAt(s, off, ns, Flat(x, post))
    requires var o := off + Size(x); o <= |s| && o <= |s'| && s[..o] == s'[..o] && EncAt(s', o, ns, post')
    ensures EncAt(s', off, ns, Flat(x, post'))
    decreases x, 1
  {
    hide EncAt, HeadSize;
    if !x.Done? {
      var i := off + HeadSize(x);
      EncSkipHead(s, off, ns, x, post);
      EncSwap(s, s', i, ns, x.rest, post, post');
      PrefixOf(s, s', i, off + Size(x));
      EncSwapHead(s, s', off, ns, x, post, Flat(x.rest, post'));
      FlatHead(x, post');
    }
  }

  lemma {:induction false} EncSwapHead(s: bytes, s': bytes, off: nat, ns: Names, x: Items, post: Tokens, post': Tokens)
    requires !x.Done? && EncAt(s, off, ns, Flat(x, post))
    requires var o := off + HeadSize(x); o <= |s| && o <= |s'| && s[..o] == s'[..o] && EncAt(s', o, ns, post')
    ensures EncAt(s', off, ns, Flat(x.(rest := Done), post'))
    decreases x, 0, 1
  {
    hide EncTok, TokLen, Align4, Size;
    var o := off + HeadSize(x);
    match x
    case NopItem(_) =>
      EncTokPrefix(s, s', o, off, ns, Nop);
    case PropItem(n, v, _) =>
      EncTokPrefix(s, s', o, off, ns, Prop(n, v));
    case NodeItem(n, kids, rest) =>
      EncSwapNode(s, s', off, ns, x, post, post');
  }

  lemma {:induction false} EncSwapNode(s: bytes, s': bytes, off: nat, ns: Names, x: Items, post: Tokens, post': Tokens)
    requires x.NodeItem? && EncAt(s, off, ns, Flat(x, post))
    requires var o := off + HeadSize(x); o <= |s| && o <= |s'| && s[..o] == s'[..o] && EncAt(s', o, ns, post')
    ensures EncAt(s', off, ns, Cons(Begin(x.name), Flat(x.kids, Cons(EndNode, post'))))
    decreases x, 0, 0
  {
    hide EncTok, TokLen, Align4, Size, Flat;
    var i, o := off + TokLen(Begin(x.name)), off + HeadSize(x);
    EncEnterNode(s, off, ns, x, post);
    EncTokPrefix(s, s', o, off, ns, Begin(x.name));
    EncSkip(s, i, ns, x.kids, Cons(EndNode, Flat(x.rest, post)));
    EncTokPrefix(s, s', o, i + Size(x.kids), ns, EndNode);
    PrefixOf(s, s', i + Size(x.kids), o);
    EncSwap(s, s', i, ns, x.kids, Cons(EndNode, Flat(x.rest, post)), Cons(EndNode, post'));
  }

  lemma EncSwapKids(s: bytes, s': bytes, off: nat, ns: Names, x: Items, y: Items, post: Tokens)
    requires x.NodeItem? && EncAt(s, off, ns, Flat(x, post))
    requires var o := off + TokLen(Begin(x.name));
             && o <= |s| && o <= |s'| && s[..o] == s'[..o]
             && EncAt(s', o, ns, Flat(y, Cons(EndNode, Flat(x.rest, post))))
    ensures EncAt(s', off, ns, Flat(x.(kids := y), post))
  {
    hide EncTok, TokLen, Align4, Size, Flat;
    EncEnterNode(s, off, ns, x, post);
    EncTokPrefix(s, s', off + TokLen(Begin(x.name)), off, ns, Begin(x.name));
    FlatNode(x.(kids := y), post);
  }

  lemma FlatNode(x: Items, post: Tokens)
    requires x.NodeItem?
    ensures Flat(x, post) == Cons(Begin(x.name), Flat(x.kids, Cons(EndNode, Flat(x.rest, post))))
  {
  }

  /** Replacing the bytes from a place onwards replaces the tree there, and nothing before it. */
  lemma {:induction false} EncPut(s: bytes, s': bytes, off: nat, ns: Names, x: Items, p: Pos, y: Items, post: Tokens)
    requires Has(x, p) && EncAt(s, off, ns, Flat(x, post))
    requires var o := off + Off(x, p);
             o <= |s| && o <= |s'| && s[..o] == s'[..o] && EncAt(s', o, ns, Flat(y, Post(x, p, post)))
    ensures EncAt(s', off, ns, Flat(Put(x, p, y), post))
    decreases p
  {
    hide EncTok, TokLen, Align4, HeadSize, EncAt, Flat;
    match p
    case Here =>
    case Next(q) =>
      EncSkipHead(s, off, ns, x, post);
      EncPut(s, s', off + HeadSize(x), ns, x.rest, q, y, post);
      PrefixOf(s, s', off + HeadSize(x), off + Off(x, p));
      EncSwapHead(s, s', off, ns, x, post, Flat(Put(x.rest, q, y), post));
      FlatHead(x.(rest := Put(x.rest, q, y)), post);
    case Down(q) =>
      EncEnterNode(s, off, ns, x, post);
      EncPut(s, s', off + TokLen(Begin(x.name)), ns, x.kids, q, y, Cons(EndNode, Flat(x.rest, post)));
      PrefixOf(s, s', off + TokLen(Begin(x.name)), off + Off(x, p));
      EncSwapKids(s, s', off, ns, x, Put(x.kids, q, y), post);
  }

  lemma FlatHead(x: Items, post: Tokens)
    requires !x.Done?
    ensures Flat(x, post) == Flat(x.(rest := Done), Flat(x.rest, post))
  {
  }

  // Places within places.

  /** Going on from a place to a place inside what starts there. */
  function Then(p: Pos, q: Pos): Pos {
    match p
    case Here => q
    case Next(r) => Next(Then(r, q))
    case Down(r) => Down(Then(r, q))
  }

  lemma {:induction false} ThenAt(x: Items, p: Pos, q: Pos, post: Tokens)
    requires Has(x, p) && Has(Get(x, p), q)
    ensures Has(x, Then(p, q)) && Get(x, Then(p, q)) == Get(Get(x, p), q)
    ensures Off(x, Then(p, q)) == Off(x, p) + Off(Get(x, p), q)
    ensures Post(x, Then(p, q), post) == Post(Get(x, p), q, Post(x, p, post))
    ensures forall y :: Put(x, Then(p, q), y) == Put(x, p, Put(Get(x, p), q, y))
    decreases p
  {
    match p
    case Here =>
    case Next(r) => ThenAt(x.rest, r, q, post);
    case Down(r) => ThenAt(x.kids, r, q, Cons(EndNode, Flat(x.rest, post)));
  }

  /** An edit at a place moves nothing before it and changes nothing after it. */
  lemma {:induction false} PutAt(x: Items, p: Pos, y: Items, post: Tokens)
    requires Has(x, p)
    ensures Has(Put(x, p, y), p) && Get(Put(x, p, y), p) == y
    ensures Off(Put(x, p, y), p) == Off(x, p) && Post(Put(x, p, y), p, post) == Post(x, p, post)
    ensures forall z :: Put(Put(x, p, y), p, z) == Put(x, p, z)
    ensures Put(x, p, Get(x, p)) == x
    decreases p
  {
    match p
    case Here =>
    case Next(q) => PutAt(x.rest, q, y, post);
    case Down(q) => PutAt(x.kids, q, y, Cons(EndNode, Flat(x.rest, post)));
  }

  predicate Closes(ts: Tokens) {
    ts.Cons? && (ts.head.EndNode? || ts.head.End?)
  }

  /** Flattening loses nothing: equal token lists come from equal trees. */
  lemma {:induction false} FlatUnique(x: Items, y: Items, s: Tokens, t: Tokens)
    requires Flat(x, s) == Flat(y, t) && Closes(s) && Closes(t)
    ensures x == y && s == t
    decreases x
  {
    match x
    case Done =>
    case NopItem(xr) => FlatUnique(xr, y.rest, s, t);
    case PropItem(_, _, xr) => FlatUnique(xr, y.rest, s, t);
    case NodeItem(_, xk, xr) =>
      FlatUnique(xk, y.kids, Cons(EndNode, Flat(xr, s)), Cons(EndNode, Flat(y.rest, t)));
      FlatUnique(xr, y.rest, s, t);
  }

  /** The bytes of a structure block determine its tree. */
  lemma TreeUnique(s: bytes, ns: Names, x: Items, y: Items)
    requires EncAt(s, 0, ns, Flat(x, LAST)) && EncAt(s, 0, ns, Flat(y, LAST))
    ensures x == y
  {
    TokensUnique(s, 0, ns, Flat(x, LAST), Flat(y, LAST));
    FlatUnique(x, y, LAST, LAST);
  }

  /** The tree with its NOPs dropped: the device tree that the block describes. */
  function Strip(x: Items): Items {
    match x
    case Done => Done
    case NopItem(rest) => Strip(rest)
    case PropItem(name, value, rest) => PropItem(name, value, Strip(rest))
    case NodeItem(name, kids, rest) => NodeItem(name, Strip(kids), Strip(rest))
  }
}
