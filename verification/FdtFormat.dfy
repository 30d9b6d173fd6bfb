/**
 The structure block of a version 17 flattened device tree (Devicetree
 Specification, section 5.4): the tokens it is made of, and the relation
 between a run of bytes and a list of tokens. Padding bytes are free, and
 a property names its string by an offset that the string table resolves.
 */
module FdtFormat {
  import opened Bytes

  const FDT_BEGIN_NODE := 1
  const FDT_END_NODE := 2
  const FDT_PROP := 3
  const FDT_NOP := 4
  const FDT_END := 9

  const ERR_NOTFOUND := 1
  const ERR_EXISTS := 2
  const ERR_NOSPACE := 3
  const ERR_BADOFFSET := 4
  const ERR_BADPHANDLE := 6
  const ERR_BADSTATE := 7
  const ERR_TRUNCATED := 8
  const ERR_BADMAGIC := 9
  const ERR_BADVERSION := 10
  const ERR_BADSTRUCTURE := 11
  const ERR_INTERNAL := 13
  const ERR_BADOVERLAY := 16
  const ERR_NOPHANDLES := 17
  const ERR_BADFLAGS := 18

  datatype Token =
    | Begin(name: bytes)
    | EndNode
    | Prop(name: bytes, value: bytes)
    | Nop
    | End

  datatype Tokens = Nil | Cons(head: Token, tail: Tokens)

  function TagOf(t: Token): nat {
    match t
    case Begin(_) => FDT_BEGIN_NODE
    case EndNode => FDT_END_NODE
    case Prop(_, _) => FDT_PROP
    case Nop => FDT_NOP
    case End => FDT_END
  }

  function TokLen(t: Token): (n: nat)
    ensures n >= 4
  {
    match t
    case Begin(name) => 4 + Align4(|name| + 1)
    case Prop(_, value) => 12 + Align4(|value|)
    case _ => 4
  }

  lemma TokLenAligned(t: Token)
    ensures TokLen(t) % 4 == 0
  {
  }

  function LenAll(ts: Tokens): nat {
    if ts.Nil? then 0 else TokLen(ts.head) + LenAll(ts.tail)
  }

  /**
   The string table together with how name offsets index it: forwards from
   its start in a finished tree, backwards from its end (as a negative
   32-bit number) while a tree is being written sequentially.
   */
  datatype Names = Names(strs: bytes, sw: bool) {
    function Index(nameoff: nat): int {
      if sw then nameoff - U32_LIMIT + |strs| else nameoff
    }

    predicate Is(nameoff: nat, name: bytes) {
      CStr(name) && StringAt(strs, Index(nameoff), name)
    }
  }

  /** The token t is stored in s at off. */
  predicate EncTok(s: bytes, off: nat, ns: Names, t: Token) {
    && off % 4 == 0
    && off + TokLen(t) <= |s|
    && Word(s, off) == TagOf(t)
    && (t.Begin? ==> CStr(t.name) && StringAt(s, off + 4, t.name))
    && (t.Prop? ==>
          && Word(s, off + 4) == |t.value|
          && s[off + 12..off + 12 + |t.value|] == t.value
          && ns.Is(Word(s, off + 8), t.name))
  }

  /** Exactly the tokens ts are stored in s from off to its end. */
  predicate EncAt(s: bytes, off: nat, ns: Names, ts: Tokens)
    decreases ts
  {
    match ts
    case Nil => off == |s|
    case Cons(t, rest) => EncTok(s, off, ns, t) && EncAt(s, off + TokLen(t), ns, rest)
  }

  lemma EncCons(s: bytes, off: nat, ns: Names, t: Token, rest: Tokens)
    requires EncTok(s, off, ns, t) && EncAt(s, off + TokLen(t), ns, rest)
    ensures EncAt(s, off, ns, Cons(t, rest))
  {
  }

  lemma EncLen(s: bytes, off: nat, ns: Names, ts: Tokens)
    requires EncAt(s, off, ns, ts)
    ensures |s| == off + LenAll(ts)
    decreases ts
  {
    if ts.Cons? {
      EncLen(s, off + TokLen(ts.head), ns, ts.tail);
    }
  }

  /** Equal bytes hold the same token, and names only have to resolve alike. */
  lemma EncTokCopy(s: bytes, off: nat, ns: Names, t: Token, s': bytes, off': nat, ns': Names)
    requires EncTok(s, off, ns, t)
    requires off' % 4 == 0 && off' + TokLen(t) <= |s'|
    requires s'[off'..off' + TokLen(t)] == s[off..off + TokLen(t)]
    requires forall o: nat, name :: ns.Is(o, name) ==> ns'.Is(o, name)
    ensures EncTok(s', off', ns', t)
  {
    hide TokLen, Align4, Word, Names.Is;
    var n := TokLen(t);
    var d, d' := s[off..off + n], s'[off'..off' + n];
    TokLenFields(t);
    WordSlice(s, off, n, 0);
    WordSlice(s', off', n, 0);
    if t.Begin? {
      SliceSlice(s, off, n, 4, n - 4);
      SliceSlice(s', off', n, 4, n - 4);
      StringCopy(s, off + 4, s', off' + 4, t.name, n - 4);
    } else if t.Prop? {
      WordSlice(s, off, n, 4);
      WordSlice(s', off', n, 4);
      WordSlice(s, off, n, 8);
      WordSlice(s', off', n, 8);
      SliceSlice(s, off, n, 12, |t.value|);
      SliceSlice(s', off', n, 12, |t.value|);
    }
  }

  lemma TokLenFields(t: Token)
    ensures t.Begin? ==> 4 + |t.name| < TokLen(t)
    ensures t.Prop? ==> 12 + |t.value| <= TokLen(t)
  {
  }

  lemma SliceSlice(s: bytes, off: nat, n: nat, i: nat, m: nat)
    requires i + m <= n && off + n <= |s|
    ensures s[off..off + n][i..i + m] == s[off + i..off + i + m]
  {
    var d, e := s[off..off + n][i..i + m], s[off + i..off + i + m];
    assert forall k :: 0 <= k < m ==> d[k] == s[off..off + n][i + k] == s[off + (i + k)] == e[k];
  }

  lemma StringCopy(s: bytes, i: nat, s': bytes, i': nat, name: bytes, n: nat)
    requires i + n <= |s| && i' + n <= |s'| && |name| < n && s'[i'..i' + n] == s[i..i + n]
    requires StringAt(s, i, name)
    ensures StringAt(s', i', name)
  {
    SliceSlice(s, i, n, 0, |name|);
    SliceSlice(s', i', n, 0, |name|);
    assert s'[i' + |name|] == s'[i'..i' + n][|name|] == s[i + |name|];
  }

  lemma WordSlice(s: bytes, off: nat, n: nat, i: nat)
    requires i + 4 <= n && off + n <= |s|
    ensures Word(s[off..off + n], i) == Word(s, off + i)
  {
  }

  lemma {:induction false} EncCopy(s: bytes, off: nat, ns: Names, ts: Tokens, s': bytes, off': nat, ns': Names)
    requires EncAt(s, off, ns, ts)
    requires off' % 4 == 0 && off <= |s| && off' <= |s'| && s'[off'..] == s[off..]
    requires forall o: nat, name :: ns.Is(o, name) ==> ns'.Is(o, name)
    ensures EncAt(s', off', ns', ts)
    decreases ts
  {
    hide EncTok, TokLen, Align4;
    if ts.Cons? {
      var n := TokLen(ts.head);
      assert EncTok(s, off, ns, ts.head);
      EncTokIn(s, off, ns, ts.head);
      TokLenAligned(ts.head);
      assert s'[off'..off' + n] == s'[off'..][..n] == s[off..][..n] == s[off..off + n];
      assert s'[off' + n..] == s'[off'..][n..] == s[off..][n..] == s[off + n..];
      EncTokCopy(s, off, ns, ts.head, s', off', ns');
      EncCopy(s, off + n, ns, ts.tail, s', off' + n, ns');
    }
  }

  lemma EncTokIn(s: bytes, off: nat, ns: Names, t: Token)
    requires EncTok(s, off, ns, t)
    ensures off % 4 == 0 && off + TokLen(t) <= |s|
  {
  }

  // Strings and the bytes that hold them.

  /** The index of the first NUL at or after i, or |s|. */
  function FirstNul(s: bytes, i: nat): (r: nat)
    requires i <= |s|
    ensures i <= r <= |s| && (r < |s| ==> s[r] == 0)
    decreases |s| - i
  {
    if i == |s| || s[i] == 0 then i else FirstNul(s, i + 1)
  }

  lemma {:induction false} FirstNulClean(s: bytes, i: nat)
    requires i <= |s|
    ensures CStr(s[i..FirstNul(s, i)])
    decreases |s| - i
  {
    if i < |s| && s[i] != 0 {
      FirstNulClean(s, i + 1);
      assert s[i..FirstNul(s, i)] == [s[i]] + s[i + 1..FirstNul(s, i)];
    }
  }

  lemma {:induction false} StringEndsAtNul(tab: bytes, i: nat, s: bytes)
    requires CStr(s) && StringAt(tab, i, s)
    ensures FirstNul(tab, i) == i + |s| && s == tab[i..FirstNul(tab, i)]
    decreases |s|
  {
    if s != [] {
      assert tab[i] == tab[i..i + |s|][0] == s[0];
      assert tab[i + 1..i + |s|] == tab[i..i + |s|][1..] == s[1..];
      StringEndsAtNul(tab, i + 1, s[1..]);
    }
  }

  /** The bytes determine the tokens: names, values, order and number. */
  lemma {:induction false} TokensUnique(s: bytes, off: nat, ns: Names, ts: Tokens, us: Tokens)
    requires EncAt(s, off, ns, ts) && EncAt(s, off, ns, us)
    ensures ts == us
    decreases ts
  {
    if ts.Cons? && us.Cons? {
      TokenUnique(s, off, ns, ts.head, us.head);
      TokensUnique(s, off + TokLen(ts.head), ns, ts.tail, us.tail);
    }
  }

  lemma TokenUnique(s: bytes, off: nat, ns: Names, t: Token, u: Token)
    requires EncTok(s, off, ns, t) && EncTok(s, off, ns, u)
    ensures t == u
  {
    if t.Begin? {
      StringEndsAtNul(s, off + 4, t.name);
      StringEndsAtNul(s, off + 4, u.name);
    } else if t.Prop? {
      StringEndsAtNul(ns.strs, ns.Index(Word(s, off + 8)), t.name);
      StringEndsAtNul(ns.strs, ns.Index(Word(s, off + 8)), u.name);
    }
  }

  lemma WrittenString(s: bytes, i: nat, name: bytes)
    requires i + |name| + 1 <= |s| && s[i..i + |name| + 1] == name + [0]
    ensures StringAt(s, i, name)
  {
    SliceSlice(s, i, |name| + 1, 0, |name|);
    assert s[i..i + |name| + 1][|name|] == s[i + |name|];
    assert (name + [0])[..|name|] == name;
  }

  /** The three header words of a property token. */
  lemma PropToken(s: bytes, o: nat, ns: Names, name: bytes, v: bytes)
    requires o % 4 == 0 && o + 12 + Align4(|v|) <= |s| && |v| < U32_LIMIT
    requires Word(s, o) == FDT_PROP && Word(s, o + 4) == |v| && ns.Is(Word(s, o + 8), name)
    requires s[o + 12..o + 12 + |v|] == v
    ensures EncTok(s, o, ns, Prop(name, v))
  {
  }

  lemma PropLen(name: bytes, v: bytes)
    ensures TokLen(Prop(name, v)) == 12 + Align4(|v|)
  {
  }

  // Walking the tags.

  /**
   The tag at an offset and the offset of the tag after it; a malformed or
   cut-off tag reads as FDT_END with a negative next offset. The end of a
   property is a sum of 32 bits, so a length close to 2^32 wraps.
   */
  function TagAt(s: bytes, start: nat): (r: (nat, int)) {
    if start + 4 > |s| then (FDT_END, -ERR_TRUNCATED)
    else
      var tag := Word(s, start);
      if tag == FDT_BEGIN_NODE then
        var e := FirstNul(s, start + 4);
        if e == |s| then (FDT_END, -ERR_BADSTRUCTURE) else (tag, Align4(e + 1))
      else if tag == FDT_PROP then
        if start + 8 > |s| then (FDT_END, -ERR_BADSTRUCTURE)
        else
          var e := start + (12 + Word(s, start + 4)) % U32_LIMIT;
          if e > |s| then (FDT_END, -ERR_BADSTRUCTURE) else (tag, Align4(e))
      else if tag == FDT_END || tag == FDT_END_NODE || tag == FDT_NOP then (tag, Align4(start + 4))
      else (FDT_END, -ERR_BADSTRUCTURE)
  }

  /** A property whose length wraps: its end is less than 12 bytes behind its start. */
  predicate WrapsAt(s: bytes, start: nat) {
    start + 8 <= |s| && Word(s, start) == FDT_PROP && 12 + Word(s, start + 4) >= U32_LIMIT
  }

  /** The one length whose end is the start itself. */
  const STUCK_LENGTH := 0xffff_fff4

  predicate StuckAt(s: bytes, start: nat) {
    start + 8 <= |s| && Word(s, start) == FDT_PROP && Word(s, start + 4) == STUCK_LENGTH
  }

  /** An accepted tag lies before its successor, unless it is a property of that one length: then a walk stays where it is. */
  lemma TagAtAdvances(s: bytes, start: nat)
    requires start % 4 == 0
    ensures var (tag, next) := TagAt(s, start);
            && (next < 0 ==> tag == FDT_END)
            && (next >= 0 ==> start <= next < |s| + 4 && next % 4 == 0)
            && (next >= 0 && !WrapsAt(s, start) ==> start + 4 <= next)
            && (next == start <==> StuckAt(s, start))
  {
    hide Word, Align4;
    if start + 4 <= |s| {
      Align4Mult(start + 4);
      Align4Mult(FirstNul(s, start + 4) + 1);
      if start + 8 <= |s| {
        PropEnd(start, Word(s, start + 4));
      }
    }
  }

  /** Where a property ends, in 32 bits, rounded up to a word. */
  lemma PropEnd(start: nat, len: nat)
    requires start % 4 == 0 && len < U32_LIMIT
    ensures var n := (12 + len) % U32_LIMIT;
            && n == (if 12 + len < U32_LIMIT then 12 + len else 12 + len - U32_LIMIT)
            && start + n <= Align4(start + n) < start + n + 4 && Align4(start + n) % 4 == 0
            && (n == 0 <==> len == STUCK_LENGTH) && (Align4(start + n) == start <==> n == 0)
  {
    Align4Mult(start + (12 + len) % U32_LIMIT);
  }

  /** Eight bytes on which fdt_next_tag returns FDT_PROP and the offset it was given. */
  lemma StuckInput(s: bytes)
    requires s == [0, 0, 0, 3, 0xff, 0xff, 0xff, 0xf4]
    ensures TagAt(s, 0) == (FDT_PROP, 0)
  {
    assert Word(s, 0) == FDT_PROP && Word(s, 4) == STUCK_LENGTH;
  }

  /** On an encoded token, the next tag is that token's and the next offset is its end. */
  lemma TagAtToken(s: bytes, off: nat, ns: Names, t: Token)
    requires EncTok(s, off, ns, t) && |s| < U32_LIMIT
    ensures TagAt(s, off) == (TagOf(t), off + TokLen(t)) && !WrapsAt(s, off)
  {
    hide Align4, Word;
    if t.Begin? {
      StringEndsAtNul(s, off + 4, t.name);
      Align4Add(off + 4, |t.name| + 1);
    } else if t.Prop? {
      Align4Add(off + 12, |t.value|);
    } else {
      Align4Add(off + 4, 0);
    }
  }
}
