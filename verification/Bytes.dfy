/** Bytes, NUL-free strings, big-endian words and four-byte alignment. */
module Bytes {

  type byte = x: int | 0 <= x < 256
  type bytes = seq<byte>

  const U32_LIMIT := 0x1_0000_0000

  function Join4(b0: int, b1: int, b2: int, b3: int): int {
    b0 * 0x100_0000 + b1 * 0x1_0000 + b2 * 0x100 + b3
  }

  /** The big-endian 32-bit word stored at index i. */
  function Word(b: bytes, i: nat): (v: nat)
    requires i + 4 <= |b|
    ensures v < U32_LIMIT
  {
    Join4(b[i], b[i + 1], b[i + 2], b[i + 3])
  }

  /** The four big-endian bytes of a 32-bit word. */
  function Word32(v: nat): (b: bytes)
    requires v < U32_LIMIT
    ensures |b| == 4 && Word(b, 0) == v
  {
    var q1 := v / 0x100;
    var q2 := q1 / 0x100;
    [q2 / 0x100, q2 % 0x100, q1 % 0x100, v % 0x100]
  }

  function Align4(n: nat): (r: nat)
    ensures n <= r < n + 4
  {
    (n + 3) / 4 * 4
  }

  lemma Align4Add(a: nat, n: nat)
    requires a % 4 == 0
    ensures Align4(a + n) == a + Align4(n) && Align4(n) % 4 == 0 && Align4(0) == 0
  {
    var q, r := a / 4, (n + 3) / 4;
    assert 4 * (q + r) <= a + n + 3 < 4 * (q + r) + 4;
    assert (a + n + 3) / 4 == q + r;
  }

  lemma Align4Mult(n: nat)
    ensures Align4(n) % 4 == 0
  {
  }

  /** What a C string can hold: no NUL inside. */
  predicate CStr(s: bytes) {
    0 !in s
  }

  /** The string s, with its terminator, is stored in tab at index i. */
  predicate StringAt(tab: bytes, i: int, s: bytes) {
    0 <= i && i + |s| < |tab| && tab[i..i + |s|] == s && tab[i + |s|] == 0
  }

  /** The n bytes of s from i on. */
  function Cut(s: bytes, i: nat, n: nat): (w: bytes)
    requires i + n <= |s|
    ensures |w| == n
  {
    s[i..i + n]
  }

  /** s with the bytes from o on overwritten by w. */
  function Patch(s: bytes, o: nat, w: bytes): (r: bytes)
    requires o + |w| <= |s|
    ensures |r| == |s|
  {
    s[..o] + w + s[o + |w|..]
  }

  lemma PatchParts(s: bytes, o: nat, w: bytes)
    requires o + |w| <= |s|
    ensures var r := Patch(s, o, w);
            r[..o] == s[..o] && r[o..o + |w|] == w && r[o + |w|..] == s[o + |w|..]
  {
  }

  /** Seen through a window that contains the overwritten bytes. */
  lemma PatchInside(s: bytes, o: nat, w: bytes, a: nat, n: nat)
    requires a <= o && o + |w| <= a + n <= |s|
    ensures Patch(s, o, w)[a..a + n] == Patch(s[a..a + n], o - a, w)
  {
    var l, r := Patch(s, o, w)[a..a + n], Patch(s[a..a + n], o - a, w);
    assert forall k :: 0 <= k < n ==> l[k] == r[k];
  }

  /** Seen through a window beside the overwritten bytes. */
  lemma PatchBeside(s: bytes, o: nat, w: bytes, a: nat, n: nat)
    requires o + |w| <= |s| && a + n <= |s| && (a + n <= o || o + |w| <= a)
    ensures Patch(s, o, w)[a..a + n] == s[a..a + n]
  {
    var l, r := Patch(s, o, w)[a..a + n], s[a..a + n];
    assert forall k :: 0 <= k < n ==> l[k] == r[k];
  }

  lemma WordPatch(s: bytes, o: nat, w: bytes, i: nat)
    requires o + |w| <= |s| && i + 4 <= |s| && (i + 4 <= o || o + |w| <= i)
    ensures Word(Patch(s, o, w), i) == Word(s, i)
  {
  }

  lemma WordPatched(s: bytes, o: nat, v: nat)
    requires o + 4 <= |s| && v < U32_LIMIT
    ensures Word(Patch(s, o, Word32(v)), o) == v
  {
    hide Word32;
    var w := Word32(v);
    assert Word(Patch(s, o, w), o) == Word(w, 0);
  }

  lemma PatchFront(s: bytes, o: nat, w: bytes, a: nat)
    requires a <= o && o + |w| <= |s|
    ensures Patch(s, o, w)[..a] == s[..a]
  {
  }

  lemma PatchTail(s: bytes, o: nat, w: bytes, b: nat)
    requires o + |w| <= b <= |s|
    ensures Patch(s, o, w)[b..] == s[b..]
  {
  }

  lemma WordPrefix(s: bytes, s': bytes, q: nat, i: nat)
    requires i + 4 <= q <= |s| && q <= |s'| && s[..q] == s'[..q]
    ensures Word(s, i) == Word(s', i)
  {
    assert forall k :: 0 <= k < q ==> s[k] == s[..q][k] == s'[k];
  }

  lemma SameRange(x: bytes, y: bytes, q: nat, lo: nat, hi: nat)
    requires lo <= hi <= q <= |x| && q <= |y| && x[..q] == y[..q]
    ensures x[lo..hi] == y[lo..hi]
  {
    assert x[lo..hi] == x[..q][lo..hi] && y[lo..hi] == y[..q][lo..hi];
  }

  // Writing bytes.

  /** memcpy. */
  method CopyIn(buf: array<byte>, i: nat, w: bytes)
    requires i + |w| <= buf.Length
    modifies buf
    ensures buf[..] == Patch(old(buf[..]), i, w)
  {
    ghost var was := buf[..];
    for k := 0 to |w|
      invariant buf[..] == Patch(was, i, w[..k])
    {
      buf[i + k] := w[k];
      PatchStep(was, i, w, k);
      assert buf[..] == Patch(was, i, w[..k])[i + k := w[k]];
    }
    assert w[..|w|] == w;
  }

  lemma PatchStep(s: bytes, i: nat, w: bytes, k: nat)
    requires i + |w| <= |s| && k < |w|
    ensures Patch(s, i, w[..k])[i + k := w[k]] == Patch(s, i, w[..k + 1])
  {
    var l, r := Patch(s, i, w[..k])[i + k := w[k]], Patch(s, i, w[..k + 1]);
    assert forall j :: 0 <= j < |s| ==> l[j] == r[j];
  }

  // Little-endian numbers.

  /** The number whose little-endian bytes are b. */
  function Pack(b: bytes): nat {
    if b == [] then 0 else b[0] + 0x100 * Pack(b[1..])
  }

  /** The n low bytes of v, little-endian. */
  function Unpack(v: nat, n: nat): (b: bytes)
    ensures |b| == n
  {
    if n == 0 then [] else [v % 0x100] + Unpack(v / 0x100, n - 1)
  }

  lemma {:induction false} UnpackPack(b: bytes)
    ensures Unpack(Pack(b), |b|) == b
  {
    if b != [] {
      assert Pack(b) % 0x100 == b[0] && Pack(b) / 0x100 == Pack(b[1..]);
      UnpackPack(b[1..]);
    }
  }

  // Division.

  lemma MulOrder(a: nat, b: nat, n: nat)
    requires a <= b
    ensures a * n <= b * n
  {
  }

  lemma ModUnique(x: nat, q: int, r: nat, n: nat)
    requires n > 0 && x == q * n + r && r < n
    ensures x % n == r && x / n == q
  {
    var p, s := x / n, x % n;
    assert x == p * n + s && (p - q) * n == r - s;
    if p > q {
      assert (p - q) * n >= n by { MulOrder(1, p - q, n); }
    } else if p < q {
      assert (q - p) * n >= n by { MulOrder(1, q - p, n); }
    }
  }

  lemma AddMod(a: nat, b: nat, n: nat)
    requires n > 0 && a % n == 0 && b % n == 0
    ensures (a + b) % n == 0
  {
    var p, q := a / n, b / n;
    assert a + b == (p + q) * n;
    ModUnique(a + b, p + q, 0, n);
  }

  lemma SubMod(a: nat, b: nat, n: nat)
    requires n > 0 && b <= a && a % n == 0 && b % n == 0
    ensures (a - b) % n == 0
  {
    var p, q := a / n, b / n;
    assert a == p * n && b == q * n && a - b == (p - q) * n;
    ModUnique(a - b, p - q, 0, n);
  }
}
