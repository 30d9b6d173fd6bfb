/**
 riscv/arith.h: the high word of 64-bit products, and saturating sums and
 differences at every width. Machine integers wrap in two's complement; bitwise
 operators are given bit by bit.
 */
module Arith {
  import opened Bytes

  const B64 := 0x1_0000_0000_0000_0000

  // -------------------------------------------------------- high products

  /** mulhu: no intermediate sum loses a carry, and the result is the high word of the product. */
  method Mulhu(a: nat, b: nat) returns (r: nat)
    requires a < B64 && b < B64
    ensures r == a * b / B64 && r < B64
  {
    var a0, a1 := a % U32_LIMIT, a / U32_LIMIT;
    var b0, b1 := b % U32_LIMIT, b / U32_LIMIT;
    SmallProduct(a1, b0);
    SmallProduct(a0, b0);
    SmallProduct(a0, b1);
    SmallProduct(a1, b1);
    var t := a1 * b0 + a0 * b0 / U32_LIMIT;
    assert t < B64;
    var y1, y2 := t % U32_LIMIT, t / U32_LIMIT;
    t := a0 * b1 + y1;
    assert t < B64;
    var carry := t / U32_LIMIT;
    t := a1 * b1 + y2 + carry;
    assert t < B64;
    ghost var high := t;
    y2 := t % U32_LIMIT;
    var y3 := t / U32_LIMIT;
    r := y3 * U32_LIMIT + y2;
    Expand(a, b, a0, a1, b0, b1);
    HighWord(a0 * b0, a1 * b0, a0 * b1, a1 * b1);
  }

  lemma SmallProduct(x: nat, y: nat)
    requires x < U32_LIMIT && y < U32_LIMIT
    ensures 0 <= x * y <= (U32_LIMIT - 1) * (U32_LIMIT - 1)
  {
    SquareBound(x, y, U32_LIMIT - 1);
  }

  lemma SquareBound(x: nat, y: nat, m: nat)
    requires x <= m && y <= m
    ensures 0 <= x * y <= m * m
  {
    MulOrder(x, m, y);
    MulOrder(y, m, m);
  }

  lemma Expand(a: nat, b: nat, a0: nat, a1: nat, b0: nat, b1: nat)
    requires a == a1 * U32_LIMIT + a0 && b == b1 * U32_LIMIT + b0
    ensures a * b == a0 * b0 + (a1 * b0 + a0 * b1) * U32_LIMIT + a1 * b1 * B64
  {
    calc {
      a * b;
      (a1 * U32_LIMIT + a0) * b;
      a1 * U32_LIMIT * b + a0 * b;
      a1 * U32_LIMIT * (b1 * U32_LIMIT + b0) + a0 * (b1 * U32_LIMIT + b0);
      a1 * b1 * B64 + a1 * b0 * U32_LIMIT + a0 * b1 * U32_LIMIT + a0 * b0;
    }
  }

  /** The schoolbook sum, word by word. */
  lemma HighWord(p: nat, q: nat, r: nat, s: nat)
    ensures var t := q + p / U32_LIMIT;
            var u := r + t % U32_LIMIT;
            (p + (q + r) * U32_LIMIT + s * B64) / B64 == s + t / U32_LIMIT + u / U32_LIMIT
  {
    var t := q + p / U32_LIMIT;
    var u := r + t % U32_LIMIT;
    var h := s + t / U32_LIMIT + u / U32_LIMIT;
    ModUnique(p + (q + r) * U32_LIMIT + s * B64, h, u % U32_LIMIT * U32_LIMIT + p % U32_LIMIT, B64);
  }

  const MAX64 := 0x7fff_ffff_ffff_ffff
  const MIN64 := -0x8000_0000_0000_0000

  /** A 64-bit pattern read as a signed number. */
  function Signed(u: nat): int {
    if u > MAX64 then u - B64 else u
  }

  /** -a in 64 bits, as an unsigned number. */
  function Negated(a: int): nat {
    (0 - a) % B64
  }

  /** ~x in 64 bits. */
  function Complement(x: nat): int {
    B64 - 1 - x
  }

  /** mulh: the high word of the signed product, rounded down, for all operands. */
  method Mulh(a: int, b: int) returns (r: int)
    requires MIN64 <= a <= MAX64 && MIN64 <= b <= MAX64
    ensures r == a * b / B64 && MIN64 <= r <= MAX64
  {
    var negate := (a < 0) != (b < 0);
    var ua, ub := if a < 0 then Negated(a) else a, if b < 0 then Negated(b) else b;
    AbsIs(a);
    AbsIs(b);
    var res := Mulhu(ua, ub);
    SignedProduct(a, b, ua, ub);
    ProductRange(a, b);
    SignedHigh(ua * ub, a * b, negate);
    hide Signed, Complement, Negated;
    var lowZero := if (a * b) % B64 == 0 then 1 else 0;
    r := Signed(if negate then (Complement(res) + lowZero) % B64 else res);
  }

  /** mulhsu: the same with an unsigned second operand. */
  method Mulhsu(a: int, b: nat) returns (r: int)
    requires MIN64 <= a <= MAX64 && b < B64
    ensures r == a * b / B64 && MIN64 <= r <= MAX64
  {
    var negate := a < 0;
    var ua := if a < 0 then Negated(a) else a;
    AbsIs(a);
    var res := Mulhu(ua, b);
    SignedProduct(a, b, ua, b);
    HalfRange(a, b);
    SignedHigh(ua * b, a * b, negate);
    hide Signed, Complement, Negated;
    var lowZero := if (a * b) % B64 == 0 then 1 else 0;
    r := Signed(if negate then (Complement(res) + lowZero) % B64 else res);
  }

  lemma AbsIs(a: int)
    requires MIN64 <= a <= MAX64
    ensures a < 0 ==> Negated(a) == 0 - a
  {
  }

  lemma SignedProduct(a: int, b: int, ua: nat, ub: nat)
    requires ua == (if a < 0 then 0 - a else a) && ub == (if b < 0 then 0 - b else b)
    ensures a * b == if (a < 0) != (b < 0) then 0 - ua * ub else ua * ub
  {
  }

  /** The high word of -p from that of p: the complement, plus one if the low word is zero. */
  lemma NegatedHigh(p: nat)
    ensures var hi := p / B64;
            && (0 - p) / B64 == (if p % B64 == 0 then 0 - hi else 0 - hi - 1)
            && ((0 - p) % B64 == 0 <==> p % B64 == 0)
  {
  }

  /** The signed high word from the high word of the magnitude. */
  lemma SignedHigh(p: nat, q: int, negate: bool)
    requires q == (if negate then 0 - p else p) && MIN64 <= q / B64 <= MAX64
    ensures var res := p / B64;
            var lowZero := if q % B64 == 0 then 1 else 0;
            && (negate ==> 0 <= (Complement(res) + lowZero) % B64)
            && res >= 0
            && Signed(if negate then (Complement(res) + lowZero) % B64 else res) == q / B64
  {
    NegatedHigh(p);
  }

  lemma ProductRange(a: int, b: int)
    requires MIN64 <= a <= MAX64 && MIN64 <= b <= MAX64
    ensures MIN64 <= a * b / B64 <= MAX64
  {
    var ua: nat, ub: nat := if a < 0 then 0 - a else a, if b < 0 then 0 - b else b;
    MulOrder(ua, 0 - MIN64, ub);
    MulOrder(ub, 0 - MIN64, 0 - MIN64);
    SignedProduct(a, b, ua, ub);
  }

  lemma HalfRange(a: int, b: nat)
    requires MIN64 <= a <= MAX64 && b < B64
    ensures MIN64 <= a * b / B64 <= MAX64
  {
    var ua: nat := if a < 0 then 0 - a else a;
    if a < 0 {
      MulOrder(ua, 0 - MIN64, b);
    } else {
      MulOrder(ua, MAX64, b);
    }
    SignedProduct(a, b, ua, b);
  }

  // ------------------------------------------------------ bits, any width

  function Pow2(n: nat): (p: nat)
    ensures p > 0
  {
    if n == 0 then 1 else 2 * Pow2(n - 1)
  }

  datatype Op = Xor | Or | And {
    function Bit(a: bool, b: bool): bool {
      match this
      case Xor => a != b
      case Or => a || b
      case And => a && b
    }
  }

  /** A bitwise operator on the n low bits. */
  function Bits(op: Op, a: nat, b: nat, n: nat): nat {
    if n == 0 then 0
    else (if op.Bit(a % 2 == 1, b % 2 == 1) then 1 else 0) + 2 * Bits(op, a / 2, b / 2, n - 1)
  }

  function Not(x: nat, n: nat): nat
    requires x < Pow2(n)
  {
    Pow2(n) - 1 - x
  }

  /** The sign bit of an n-bit pattern. */
  predicate Top(x: nat, n: nat)
    requires n > 0
  {
    x >= Pow2(n - 1)
  }

  /** The sign bit of the result comes from the sign bits of the operands. */
  lemma {:induction false} BitsTop(op: Op, a: nat, b: nat, n: nat)
    requires n > 0 && a < Pow2(n) && b < Pow2(n)
    ensures Bits(op, a, b, n) < Pow2(n) && Top(Bits(op, a, b, n), n) == op.Bit(Top(a, n), Top(b, n))
    decreases n
  {
    if n == 1 {
      assert Pow2(0) == 1 && Bits(op, a / 2, b / 2, 0) == 0;
    } else {
      hide Op.Bit;
      BitsTop(op, a / 2, b / 2, n - 1);
    }
  }

  lemma BitsStep(op: Op, a: nat, b: nat, n: nat)
    requires n > 0
    ensures Bits(op, a, b, n) == (if op.Bit(a % 2 == 1, b % 2 == 1) then 1 else 0) + 2 * Bits(op, a / 2, b / 2, n - 1)
  {
  }

  /** All ones, halved. */
  lemma OnesHalved(n: nat)
    requires n > 0
    ensures (Pow2(n) - 1) % 2 == 1 && (Pow2(n) - 1) / 2 == Pow2(n - 1) - 1
    ensures forall a: nat :: a < Pow2(n) ==> a / 2 < Pow2(n - 1)
  {
  }

  lemma {:induction false} Masked(a: nat, n: nat)
    requires a < Pow2(n)
    ensures Bits(And, a, Pow2(n) - 1, n) == a && Bits(And, a, 0, n) == 0
    ensures Bits(Or, a, Pow2(n) - 1, n) == Pow2(n) - 1 && Bits(Or, a, 0, n) == a
    decreases n
  {
    if n > 0 {
      OnesHalved(n);
      Masked(a / 2, n - 1);
      hide Pow2;
      BitsStep(And, a, Pow2(n) - 1, n);
      BitsStep(And, a, 0, n);
      BitsStep(Or, a, Pow2(n) - 1, n);
      BitsStep(Or, a, 0, n);
      hide Bits;
    }
  }

  // ---------------------------------------------------------- saturation

  predicate InRange(x: int, n: nat)
    requires n > 0
  {
    0 - Pow2(n - 1) <= x < Pow2(n - 1)
  }

  /** The exact value, or the nearest n-bit signed number. */
  function Clamp(x: int, n: nat): int
    requires n > 0
  {
    if x < 0 - Pow2(n - 1) then 0 - Pow2(n - 1) else if x >= Pow2(n - 1) then Pow2(n - 1) - 1 else x
  }

  /** Conversion of a signed number to n unsigned bits, and back. */
  function ToUnsigned(x: int, n: nat): (u: nat)
    ensures u < Pow2(n)
  {
    x % Pow2(n)
  }

  function ToSigned(u: nat, n: nat): int
    requires n > 0 && u < Pow2(n)
  {
    if Top(u, n) then u - Pow2(n) else u
  }

  /** x mod m, for x within one m of the range. */
  lemma Wrap(x: int, m: nat)
    requires m > 0 && 0 - m <= x < 2 * m
    ensures x % m == if x < 0 then x + m else if x >= m then x - m else x
  {
    if x < 0 {
      ModUnique(x + m, 0, x + m, m);
      assert (x + m) % m == x % m by {
        ModUniqueAny(x, -1, x + m, m);
      }
    } else if x >= m {
      ModUnique(x, 1, x - m, m);
    } else {
      ModUnique(x, 0, x, m);
    }
  }

  lemma ModUniqueAny(x: int, q: int, r: nat, n: nat)
    requires n > 0 && x == q * n + r && r < n
    ensures x % n == r
  {
    var p, s := x / n, x % n;
    assert x == p * n + s && (p - q) * n == r - s;
    if p > q {
      assert (p - q) * n >= n by { MulOrder(1, p - q, n); }
    } else if p < q {
      assert (q - p) * n >= n by { MulOrder(1, q - p, n); }
    }
  }

  /** sat_add */
  method SatAdd(x: int, y: int, n: nat) returns (r: int, sat: bool)
    requires n > 0 && InRange(x, n) && InRange(y, n)
    ensures r == Clamp(x + y, n) && (sat <==> !InRange(x + y, n))
  {
    var ux, uy := ToUnsigned(x, n), ToUnsigned(y, n);
    var res := (ux + uy) % Pow2(n);
    SatFacts(x, y, n);
    Wrap(ux + uy, Pow2(n));
    sat := false;
    ux := ux / Pow2(n - 1) + (Pow2(n - 1) - 1);
    BitsTop(Xor, ux, uy, n);
    BitsTop(Xor, uy, res, n);
    var signs := Bits(Or, Bits(Xor, ux, uy, n), Not(Bits(Xor, uy, res, n), n), n);
    BitsTop(Or, Bits(Xor, ux, uy, n), Not(Bits(Xor, uy, res, n), n), n);
    if ToSigned(signs, n) >= 0 {
      res := ux;
      sat := true;
    }
    r := ToSigned(res, n);
  }

  /** The unsigned forms of two signed numbers, and their overflow value. */
  lemma SatFacts(x: int, y: int, n: nat)
    requires n > 0 && InRange(x, n) && InRange(y, n)
    ensures Pow2(n) == 2 * Pow2(n - 1)
    ensures ToUnsigned(x, n) == (if x < 0 then x + Pow2(n) else x) && ToUnsigned(y, n) == (if y < 0 then y + Pow2(n) else y)
    ensures ToUnsigned(x, n) / Pow2(n - 1) == if x < 0 then 1 else 0
  {
    Wrap(x, Pow2(n));
    Wrap(y, Pow2(n));
    var u := ToUnsigned(x, n);
    if x < 0 {
      ModUnique(u, 1, u - Pow2(n - 1), Pow2(n - 1));
    } else {
      ModUnique(u, 0, u, Pow2(n - 1));
    }
  }

  /** sat_sub */
  method SatSub(x: int, y: int, n: nat) returns (r: int, sat: bool)
    requires n > 0 && InRange(x, n) && InRange(y, n)
    ensures r == Clamp(x - y, n) && (sat <==> !InRange(x - y, n))
  {
    var ux, uy := ToUnsigned(x, n), ToUnsigned(y, n);
    var res := (ux - uy) % Pow2(n);
    SatFacts(x, y, n);
    Wrap(ux - uy, Pow2(n));
    sat := false;
    ux := ux / Pow2(n - 1) + (Pow2(n - 1) - 1);
    BitsTop(Xor, ux, uy, n);
    BitsTop(Xor, ux, res, n);
    var signs := Bits(And, Bits(Xor, ux, uy, n), Bits(Xor, ux, res, n), n);
    BitsTop(And, Bits(Xor, ux, uy, n), Bits(Xor, ux, res, n), n);
    if ToSigned(signs, n) < 0 {
      res := ux;
      sat := true;
    }
    r := ToSigned(res, n);
  }

  /** sat_addu */
  method SatAddU(x: nat, y: nat, n: nat) returns (res: nat, sat: bool)
    requires x < Pow2(n) && y < Pow2(n)
    ensures res == (if x + y < Pow2(n) then x + y else Pow2(n) - 1) && (sat <==> x + y >= Pow2(n))
  {
    res := (x + y) % Pow2(n);
    Wrap(x + y, Pow2(n));
    sat := res < x;
    Masked(res, n);
    res := Bits(Or, res, if res < x then Pow2(n) - 1 else 0, n);
  }

  /** sat_subu */
  method SatSubU(x: nat, y: nat, n: nat) returns (res: nat, sat: bool)
    requires x < Pow2(n) && y < Pow2(n)
    ensures res == (if y <= x then x - y else 0) && (sat <==> x < y)
  {
    res := (x - y) % Pow2(n);
    Wrap(x - y, Pow2(n));
    sat := !(res <= x);
    Masked(res, n);
    res := Bits(And, res, if res <= x then Pow2(n) - 1 else 0, n);
  }
}
