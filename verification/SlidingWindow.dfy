/** Finite arithmetic in any commutative group, written additively. */
module CommutativeGroup {

  datatype Group<!G> = Group(zero: G, add: (G, G) -> G, neg: G -> G)

  ghost predicate IsGroup<G(!new)>(g: Group<G>) {
    && (forall a: G, b: G :: g.add(a, b) == g.add(b, a))
    && (forall a: G, b: G, c: G :: g.add(g.add(a, b), c) == g.add(a, g.add(b, c)))
    && (forall a: G :: g.add(a, g.zero) == a)
    && (forall a: G :: g.add(a, g.neg(a)) == g.zero)
  }

  /** The multiple n P, for any integer n. */
  function Scale<G>(g: Group<G>, n: int, p: G): G
    decreases if n < 0 then -n else n
  {
    if n == 0 then g.zero
    else if n > 0 then g.add(Scale(g, n - 1, p), p)
    else g.add(Scale(g, n + 1, p), g.neg(p))
  }

  lemma Laws<G(!new)>(g: Group<G>, a: G, b: G, c: G)
    requires IsGroup(g)
    ensures g.add(a, b) == g.add(b, a)
    ensures g.add(g.add(a, b), c) == g.add(a, g.add(b, c))
    ensures g.add(a, g.zero) == a && g.add(g.zero, a) == a
    ensures g.add(a, g.neg(a)) == g.zero && g.add(g.neg(a), a) == g.zero
  {
  }

  lemma Four<G(!new)>(g: Group<G>, a: G, b: G, c: G, d: G)
    requires IsGroup(g)
    ensures g.add(g.add(a, b), g.add(c, d)) == g.add(g.add(a, c), g.add(b, d))
  {
    hide IsGroup;
    Laws(g, a, b, g.add(c, d));
    Laws(g, b, c, d);
    Laws(g, c, b, d);
    Laws(g, a, c, g.add(b, d));
  }

  lemma ScaleSucc<G(!new)>(g: Group<G>, n: int, p: G)
    requires IsGroup(g)
    ensures Scale(g, n + 1, p) == g.add(Scale(g, n, p), p)
  {
    hide IsGroup;
    if n < 0 {
      var s := Scale(g, n + 1, p);
      Laws(g, s, g.neg(p), p);
      Laws(g, p, p, p);
      Laws(g, s, p, p);
    }
  }

  lemma {:induction false} ScaleAdd<G(!new)>(g: Group<G>, n: int, m: int, p: G)
    requires IsGroup(g)
    ensures Scale(g, n + m, p) == g.add(Scale(g, n, p), Scale(g, m, p))
    decreases if m < 0 then -m else m
  {
    hide IsGroup;
    var a := Scale(g, n, p);
    if m == 0 {
      Laws(g, a, p, p);
    } else if m > 0 {
      ScaleAdd(g, n, m - 1, p);
      ScaleSucc(g, n + m - 1, p);
      Laws(g, a, Scale(g, m - 1, p), p);
    } else {
      // both sides give the next multiple when p is added
      ScaleAdd(g, n, m + 1, p);
      var s := Scale(g, m, p);
      ScaleSucc(g, n + m, p);
      ScaleSucc(g, m, p);
      Laws(g, a, s, p);
      Cancel(g, Scale(g, n + m, p), g.add(a, s), p);
    }
  }

  lemma Cancel<G(!new)>(g: Group<G>, a: G, b: G, p: G)
    requires IsGroup(g) && g.add(a, p) == g.add(b, p)
    ensures a == b
  {
    hide IsGroup;
    Laws(g, a, p, g.neg(p));
    Laws(g, b, p, g.neg(p));
    Laws(g, p, p, p);
  }

  lemma ScaleNeg<G(!new)>(g: Group<G>, n: int, p: G)
    requires IsGroup(g)
    ensures g.neg(Scale(g, n, p)) == Scale(g, -n, p)
  {
    hide IsGroup;
    var a, b := Scale(g, n, p), Scale(g, -n, p);
    ScaleAdd(g, n, -n, p);
    Laws(g, b, a, g.neg(a));
    Laws(g, a, b, g.neg(a));
    Laws(g, g.neg(a), a, a);
    Cancel(g, g.neg(a), b, a);
  }
}

/** Signed sliding windows and the double-scalar ladder of Ed25519 verification (`monocypher.c`). */
module SlidingWindow {
  import opened Arith
  import opened Bits
  import opened CommutativeGroup

  /** A 32-byte little-endian scalar. */
  type Scalar = s: seq<byte> | |s| == 32 witness seq(32, _ => 0)

  function ScalarBit(s: Scalar, i: int): (b: nat)
    requires i < 256
    ensures b <= 1
  {
    if i < 0 then 0 else s[i / 8] / Pow2(i % 8) % 2
  }

  /** The number formed by the bits below `n`. */
  function Low(s: Scalar, n: int): nat
    requires n <= 256
  {
    if n <= 0 then 0 else Low(s, n - 1) + if ScalarBit(s, n - 1) == 1 then Pow2(n - 1) else 0
  }

  /** The number a scalar stands for. */
  function Number(s: Scalar): nat { Low(s, 256) }

  /** Bits `n` down to 0 read as a two's complement number: what is left to recode at a check. */
  function Rest(s: Scalar, n: int): int
    requires -1 <= n < 256
  {
    if n < 0 then 0 else Low(s, n) - if ScalarBit(s, n) == 1 then Pow2(n) else 0
  }

  lemma {:induction false} LowBound(s: Scalar, n: nat)
    requires n <= 256
    ensures Low(s, n) < Pow2(n)
  {
    hide ScalarBit;
    if n > 0 { LowBound(s, n - 1); }
  }

  lemma {:induction false} Pow2Adds(m: nat, n: nat)
    ensures Pow2(m + n) == Pow2(m) * Pow2(n)
  {
    if n > 0 {
      Pow2Adds(m, n - 1);
      assert Pow2(m + n) == 2 * Pow2(m + n - 1);
      assert Pow2(m) * Pow2(n) == Pow2(m) * Pow2(n - 1) * 2;
    }
  }

  lemma {:induction false} Pow2Mono(m: nat, n: nat)
    requires m <= n
    ensures Pow2(m) <= Pow2(n)
    decreases n
  {
    if m < n { Pow2Mono(m, n - 1); }
  }

  /** A number below 2^n has no bits from n on. */
  lemma {:induction false} HighBitsAreZero(s: Scalar, n: nat, i: nat)
    requires Number(s) < Pow2(n) && n <= i < 256
    ensures ScalarBit(s, i) == 0 && Low(s, i) == Number(s)
    decreases 256 - i
  {
    hide ScalarBit;
    if i < 255 { HighBitsAreZero(s, n, i + 1); }
    Pow2Mono(n, i);
  }

  // ---------- one window ----------

  /** The signed value of the `w` bits ending at bit `i`, rounded by the bit below them. */
  function Window(s: Scalar, i: int, w: nat): int
    requires 0 <= i < 256 && 1 <= w <= i + 1
  {
    Field(s, i - w + 1, w - 1) + ScalarBit(s, i - w) - if ScalarBit(s, i) == 1 then Pow2(w - 1) else 0
  }

  /** The number formed by the `n` bits from bit `a` up. */
  function Field(s: Scalar, a: nat, n: nat): nat
    requires a + n <= 256
  {
    if n == 0 then 0 else Field(s, a, n - 1) + if ScalarBit(s, a + n - 1) == 1 then Pow2(n - 1) else 0
  }

  lemma {:induction false} FieldIsLow(s: Scalar, a: nat, n: nat)
    requires a + n <= 256
    ensures Low(s, a + n) == Low(s, a) + Pow2(a) * Field(s, a, n) && Field(s, a, n) < Pow2(n)
  {
    hide ScalarBit;
    if n > 0 {
      FieldIsLow(s, a, n - 1);
      Pow2Adds(a, n - 1);
      assert Low(s, a + n) == Low(s, a + (n - 1)) + if ScalarBit(s, a + n - 1) == 1 then Pow2(a + (n - 1)) else 0;
      Distribute(Pow2(a), Field(s, a, n - 1), Pow2(n - 1));
    }
  }

  lemma Distribute(p: int, a: int, b: int)
    ensures p * (a + b) == p * a + p * b
  {
  }

  /** Taking a window off leaves the rest below it. */
  lemma WindowRecodes(s: Scalar, i: int, w: nat)
    requires 0 <= i < 256 && 1 <= w <= i + 1
    ensures Rest(s, i) == Window(s, i, w) * Pow2(i - w + 1) + Rest(s, i - w)
  {
    hide ScalarBit, Field, Pow2, Low;
    var a := i - w + 1;
    FieldIsLow(s, a, w - 1);
    Pow2Adds(a, w - 1);
    RestBelow(s, a);
    WindowProduct(Pow2(a), Field(s, a, w - 1), ScalarBit(s, i - w), ScalarBit(s, i), Pow2(w - 1));
  }

  lemma WindowProduct(p: int, f: int, c: int, b: int, q: int)
    requires c == 0 || c == 1
    ensures (f + c - if b == 1 then q else 0) * p == p * f + (if c == 1 then p else 0) - if b == 1 then p * q else 0
  {
    Distribute(p, f, c);
    Distribute(p, f + c - q, q);
  }

  lemma RestBelow(s: Scalar, a: nat)
    requires a < 256
    ensures Low(s, a) == Rest(s, a - 1) + if ScalarBit(s, a - 1) == 1 then Pow2(a) else 0
  {
    hide ScalarBit;
    if a == 0 { BelowZero(s); }
  }

  lemma BelowZero(s: Scalar)
    ensures ScalarBit(s, -1) == 0
  {
  }

  /** A step that only moves the check point. */
  lemma EqualBitsMove(s: Scalar, i: int)
    requires 0 <= i < 256 && ScalarBit(s, i) == ScalarBit(s, i - 1)
    ensures Rest(s, i) == Rest(s, i - 1)
  {
    hide ScalarBit;
    RestBelow(s, i);
  }

  /** A window that opens on a change of bits is not zero and at most 2^(w-1) in size. */
  lemma WindowSize(s: Scalar, i: int, w: nat)
    requires 0 <= i < 256 && 1 <= w <= i + 1 && ScalarBit(s, i) != ScalarBit(s, i - 1) && (w == 1 ==> i == 0)
    ensures Window(s, i, w) != 0 && 0 - Pow2(w - 1) <= Window(s, i, w) <= Pow2(w - 1)
  {
    hide ScalarBit;
    FieldIsLow(s, i - w + 1, w - 1);
    BelowZero(s);
    if w >= 2 {
      FieldIsLow(s, i - w + 1, w - 2);
      assert Pow2(w - 1) == 2 * Pow2(w - 2);
    }
  }

  // ---------- the incremental recoding ----------

  /** Trailing zero bits of a non-zero number, in either sign. */
  function LowestBit(v: int): nat
    requires v != 0
    decreases if v < 0 then -v else v
  {
    if v % 2 == 1 then 1 else 2 * LowestBit(v / 2)
  }

  /** Whether a mask has the single bit `lsb` set. */
  predicate MaskHas(mask: nat, lsb: nat)
    requires lsb > 0
  {
    mask / lsb % 2 == 1
  }

  /** The position of the lowest bit, by three masks; numbers up to 16 in size need no more. */
  function TrailingZeros(lsb: nat): nat
    requires lsb > 0
  {
    (if MaskHas(0xAA, lsb) then 1 else 0) + (if MaskHas(0xCC, lsb) then 2 else 0) + (if MaskHas(0xF0, lsb) then 4 else 0)
  }

  /** The number of trailing zeros, counted. */
  ghost function Twos(v: int): nat
    requires v != 0
    decreases if v < 0 then -v else v
  {
    if v % 2 == 1 then 0 else 1 + Twos(v / 2)
  }

  ghost function OddOf(v: int): int
    requires v != 0
    decreases if v < 0 then -v else v
  {
    if v % 2 == 1 then v else OddOf(v / 2)
  }

  lemma {:induction false} OddFactor(v: int, w: nat)
    requires v != 0 && w >= 1 && 0 - Pow2(w - 1) <= v <= Pow2(w - 1)
    ensures LowestBit(v) == Pow2(Twos(v)) && Twos(v) <= w - 1
    ensures v == OddOf(v) * Pow2(Twos(v)) && OddOf(v) % 2 == 1
    ensures -1 <= OddOf(v) <= 1 || 0 - Pow2(w - 1) < OddOf(v) < Pow2(w - 1)
    decreases w
  {
    if w > 1 { Pow2Step(w - 2); }
    if v % 2 != 1 {
      assert w > 1;
      OddFactor(v / 2, w - 1);
      Doubled(OddOf(v / 2), Pow2(Twos(v / 2)));
    }
  }

  lemma OddPart(v: int, w: nat)
    requires v != 0 && w >= 1 && 0 - Pow2(w - 1) <= v <= Pow2(w - 1)
    ensures var t := Twos(v);
            && LowestBit(v) == Pow2(t) && t <= w - 1
            && v == v / Pow2(t) * Pow2(t) && v / Pow2(t) % 2 == 1
            && (-1 <= v / Pow2(t) <= 1 || 0 - Pow2(w - 1) < v / Pow2(t) < Pow2(w - 1))
  {
    hide Pow2, LowestBit, Twos, OddOf;
    OddFactor(v, w);
    DivUnique(v, Pow2(Twos(v)), OddOf(v), 0);
  }

  lemma Doubled(d: int, p: int)
    ensures d * (2 * p) == 2 * (d * p)
  {
  }

  /** The masks find the position of any single bit below 2^8; windows use the first five. */
  lemma MasksCount(t: nat)
    requires t <= 4
    ensures TrailingZeros(Pow2(t)) == t
  {
    assert Pow2(0) == 1 && Pow2(1) == 2 && Pow2(2) == 4 && Pow2(3) == 8 && Pow2(4) == 16;
  }

  /** The check point, after undoing the wrap-around of its 8-bit field. */
  function Check(next_check: nat): int {
    if next_check == 255 then -1 else next_check
  }

  /** The digit found but not yet handed out, at its weight. */
  function Pending(next_index: int, next_digit: int, i: int): int {
    if 0 <= next_index <= i then next_digit * Pow2(next_index) else 0
  }

  /** The digits a window may have: odd and below 2^(width - 1) in size. */
  predicate IsDigit(d: int, width: nat)
    requires width > 0
  {
    d % 2 == 1 && 0 - Pow2(width - 1) < d < Pow2(width - 1)
  }

  /**
   * Before position `i`: `done` is the number formed by the digits handed out above, and together with the
   * pending digit and the bits from the check point down it makes up the scalar.
   */
  ghost predicate Recoding(index: int, digit: int, check: int, s: Scalar, width: nat, i: int, done: int) {
    && width > 0 && -1 <= check <= i < 255
    && done * Pow2(i + 1) + Pending(index, digit, i) + Rest(s, check) == Number(s)
    && (0 <= index <= i ==> check < index && IsDigit(digit, width))
  }

  class SlideCtx {
    var next_index: int
    var next_digit: int
    var next_check: nat

    ghost predicate Slides(s: Scalar, width: nat, i: int, done: int)
      reads this
    {
      next_check < 256 && Recoding(next_index, next_digit, Check(next_check), s, width, i, done)
    }

    constructor (scalar: Scalar)
      requires Number(scalar) < Pow2(253)
      ensures 1 <= next_check <= 253
      ensures forall width: nat, i: nat :: width > 0 && next_check <= i < 255 ==> Slides(scalar, width, i, 0)
    {
      hide ScalarBit, Low, Pow2;
      var i := 252;
      HighBitsAreZero(scalar, 253, 253);
      while i > 0 && ScalarBit(scalar, i) == 0
        invariant 0 <= i <= 252
        invariant Low(scalar, i + 1) == Number(scalar) && ScalarBit(scalar, i + 1) == 0
      {
        LowStep(scalar, i);
        i := i - 1;
      }
      next_check := i + 1;
      next_index := -1;
      next_digit := -1;
    }

    method Step(width: nat, i: int, scalar: Scalar, ghost done: int) returns (digit: int)
      requires 2 <= width <= 5 && 0 <= i && Slides(scalar, width, i, done)
      modifies this
      ensures Slides(scalar, width, i - 1, 2 * done + digit)
      ensures digit == 0 || IsDigit(digit, width)
    {
      hide ScalarBit, Low, LowestBit, TrailingZeros, Pow2, Window, IsDigit, Recoding;
      RecodingRange(next_index, next_digit, Check(next_check), scalar, width, i, done);
      if i == next_check {
        if ScalarBit(scalar, i) == ScalarBit(scalar, i - 1) {
          MoveCheck(next_index, next_digit, scalar, width, i, done);
          next_check := (next_check - 1) % 256;
        } else {
          var w := if width <= i + 1 then width else i + 1;
          var v := ComputeWindow(scalar, i, w);
          NewDigit(scalar, i, w, width);
          OpenWindow(next_index, next_digit, scalar, width, i, done, w);
          var lsb := LowestBit(v);
          var s := TrailingZeros(lsb);
          next_index := i - (w - 1) + s;
          next_digit := v / Pow2(s);
          next_check := (next_check - w) % 256;
        }
      }
      digit := if i == next_index then next_digit else 0;
      HandOut(next_index, next_digit, Check(next_check), scalar, width, i, done);
    }
  }

  lemma RecodingRange(index: int, digit: int, check: int, s: Scalar, width: nat, i: int, done: int)
    requires Recoding(index, digit, check, s, width, i, done)
    ensures -1 <= check <= i < 255
  {
  }

  /** Equal bits: only the check point moves. */
  lemma MoveCheck(index: int, digit: int, s: Scalar, width: nat, i: int, done: int)
    requires i >= 0 && Recoding(index, digit, i, s, width, i, done)
    requires ScalarBit(s, i) == ScalarBit(s, i - 1)
    ensures Recoding(index, digit, i - 1, s, width, i, done)
  {
    hide ScalarBit, Low, Pow2;
    EqualBitsMove(s, i);
  }

  /** A change of bits: nothing is pending, and a new digit takes over the bits of its window. */
  lemma OpenWindow(index: int, digit: int, s: Scalar, width: nat, i: int, done: int, w: nat)
    requires i >= 0 && Recoding(index, digit, i, s, width, i, done) && 2 <= width <= 5
    requires 1 <= w <= i + 1 && (w == 1 ==> i == 0) && w <= width && ScalarBit(s, i) != ScalarBit(s, i - 1)
    ensures Window(s, i, w) != 0 && LowestBit(Window(s, i, w)) > 0
    ensures var v := Window(s, i, w);
            var t := TrailingZeros(LowestBit(v));
            Recoding(i - (w - 1) + t, v / Pow2(t), i - w, s, width, i, done)
  {
    hide ScalarBit, Low, LowestBit, TrailingZeros, Pow2, Window, IsDigit;
    NewDigit(s, i, w, width);
  }

  /** Handing the digit at position `i` out, or a zero. */
  lemma HandOut(index: int, digit: int, check: int, s: Scalar, width: nat, i: int, done: int)
    requires i >= 0 && check < i && Recoding(index, digit, check, s, width, i, done)
    ensures var d := if i == index then digit else 0;
            && Recoding(index, digit, check, s, width, i - 1, 2 * done + d)
            && (d == 0 || IsDigit(d, width))
  {
    hide ScalarBit, Low, Pow2, IsDigit, Rest;
    Pow2Step(i);
    var d := if i == index then digit else 0;
    DoneDoubles(done, d, Pow2(i));
  }

  lemma Pow2Step(i: nat)
    ensures Pow2(i + 1) == 2 * Pow2(i)
  {
  }

  lemma DoneDoubles(done: int, d: int, p: int)
    ensures done * (2 * p) + d * p == (2 * done + d) * p
  {
  }

  method ComputeWindow(scalar: Scalar, i: int, w: nat) returns (v: int)
    requires 0 <= i < 255 && 1 <= w <= i + 1
    ensures v == Window(scalar, i, w)
  {
    hide ScalarBit;
    v := 0 - ScalarBit(scalar, i) * Pow2(w - 1);
    var top := v;
    for j := 0 to w - 1
      invariant v == top + Field(scalar, i - w + 1, j)
    {
      v := v + ScalarBit(scalar, i - (w - 1) + j) * Pow2(j);
    }
    v := v + ScalarBit(scalar, i - w);
  }

  lemma LowStep(s: Scalar, i: nat)
    requires i < 256
    ensures Low(s, i + 1) == Low(s, i) + if ScalarBit(s, i) == 1 then Pow2(i) else 0
  {
  }

  /** What opening a window of `w` bits at a change of bits yields: one digit and a lower check point. */
  lemma NewDigit(s: Scalar, i: int, w: nat, width: nat)
    requires 0 <= i < 256 && 1 <= w <= i + 1 && (w == 1 ==> i == 0) && 2 <= width <= 5 && w <= width
    requires ScalarBit(s, i) != ScalarBit(s, i - 1)
    ensures Window(s, i, w) != 0
    ensures LowestBit(Window(s, i, w)) > 0
    ensures var v := Window(s, i, w);
            var t := TrailingZeros(LowestBit(v));
            t < w && IsDigit(v / Pow2(t), width)
            && Rest(s, i) == v / Pow2(t) * Pow2(i - (w - 1) + t) + Rest(s, i - w)
  {
    hide ScalarBit, Low, LowestBit, TrailingZeros, Pow2, Window;
    var v := Window(s, i, w);
    WindowRecodes(s, i, w);
    WindowSize(s, i, w);
    OddPart(v, w);
    MasksCount(Twos(v));
    DigitWeight(v, Twos(v), i - (w - 1));
    SmallDigit(v / Pow2(Twos(v)), w, width);
  }

  /** Shifting the odd part back to its place. */
  lemma DigitWeight(v: int, s: nat, a: nat)
    requires v == v / Pow2(s) * Pow2(s)
    ensures v / Pow2(s) * Pow2(a + s) == v * Pow2(a)
  {
    Pow2Adds(s, a);
    var d := v / Pow2(s);
    assert d * (Pow2(s) * Pow2(a)) == (d * Pow2(s)) * Pow2(a);
  }

  lemma SmallDigit(d: int, w: nat, width: nat)
    requires 1 <= w <= width && width >= 2 && d % 2 == 1
    requires -1 <= d <= 1 || 0 - Pow2(w - 1) < d < Pow2(w - 1)
    ensures IsDigit(d, width)
  {
    Pow2Mono(w - 1, width - 1);
    Pow2Mono(1, width - 1);
    assert Pow2(1) == 2;
  }

  // ---------- the merged double-and-add ladder ----------

  const P_W_WIDTH := 3
  const B_W_WIDTH := 5
  const P_W_SIZE := 2

  /** A table of odd multiples: entry k is (2 k + 1) P. */
  ghost predicate OddMultiples<G(!new)>(g: Group<G>, table: seq<G>, p: G) {
    forall k: nat :: k < |table| ==> table[k] == Scale(g, 2 * k + 1, p)
  }

  /** Adding a digit's multiple from the table, or subtracting it for a negative digit. */
  method AddDigit<G(!new)>(g: Group<G>, sum: G, digit: int, table: seq<G>, ghost p: G) returns (r: G)
    requires IsGroup(g) && OddMultiples(g, table, p)
    requires digit == 0 || (digit % 2 == 1 && 0 - 2 * |table| < digit < 2 * |table|)
    ensures r == g.add(sum, Scale(g, digit, p))
  {
    hide IsGroup;
    r := sum;
    Laws(g, sum, p, p);
    if digit > 0 {
      OddIndex(digit);
      r := g.add(r, table[digit / 2]);
    }
    if digit < 0 {
      OddIndex(-digit);
      r := g.add(r, g.neg(table[-digit / 2]));
      ScaleNeg(g, -digit, p);
    }
  }

  lemma OddIndex(d: int)
    requires d > 0 && d % 2 == 1
    ensures 2 * (d / 2) + 1 == d
  {
  }

  /** The look-up table for the negated public key. */
  method MakeTable<G(!new)>(g: Group<G>, p: G) returns (lut: seq<G>)
    requires IsGroup(g)
    ensures |lut| == P_W_SIZE && OddMultiples(g, lut, p)
  {
    hide IsGroup;
    var p2 := g.add(p, p);
    Laws(g, p, p, p);
    ScaleOne(g, p);
    ScaleAdd(g, 1, 1, p);
    lut := [p];
    for i := 1 to P_W_SIZE
      invariant |lut| == i && OddMultiples(g, lut, p)
    {
      ScaleAdd(g, 2, 2 * (i - 1) + 1, p);
      lut := lut + [g.add(p2, lut[i - 1])];
    }
  }

  lemma ScaleOne<G(!new)>(g: Group<G>, p: G)
    requires IsGroup(g)
    ensures Scale(g, 1, p) == p
  {
    hide IsGroup;
    Laws(g, p, p, p);
    assert Scale(g, 1, p) == g.add(Scale(g, 0, p), p);
  }

  /** The sum so far: `h` times one point plus `s` times the other. */
  function Combination<G>(g: Group<G>, h: int, p: G, s: int, q: G): G {
    g.add(Scale(g, h, p), Scale(g, s, q))
  }

  /** Doubling a combination and adding one digit to each coefficient. */
  lemma LadderStep<G(!new)>(g: Group<G>, h: int, p: G, s: int, q: G, dh: int, ds: int)
    requires IsGroup(g)
    ensures var c := Combination(g, h, p, s, q);
            g.add(g.add(g.add(c, c), Scale(g, dh, p)), Scale(g, ds, q))
            == Combination(g, 2 * h + dh, p, 2 * s + ds, q)
  {
    hide IsGroup, Scale;
    var a, b := Scale(g, h, p), Scale(g, s, q);
    var u, v := Scale(g, dh, p), Scale(g, ds, q);
    Four(g, a, b, a, b);
    ScaleAdd(g, h, h, p);
    ScaleAdd(g, s, s, q);
    ScaleAdd(g, 2 * h, dh, p);
    ScaleAdd(g, 2 * s, ds, q);
    Laws(g, g.add(g.add(a, a), g.add(b, b)), u, v);
    Four(g, g.add(a, a), g.add(b, b), u, v);
  }

  /**
   * The ladder of signature verification: from -A, the base point and its table of odd multiples it computes
   * [s]B - [h]A in any commutative group.
   */
  method MergedLadder<G(!new)>(g: Group<G>, ghost A: G, minus_A: G, ghost B: G, b_window: seq<G>, h: Scalar, s: Scalar)
    returns (sum: G)
    requires IsGroup(g) && minus_A == g.neg(A)
    requires |b_window| == 8 && OddMultiples(g, b_window, B)
    requires Number(h) < Pow2(253) && Number(s) < Pow2(253)
    ensures sum == g.add(Scale(g, Number(s), B), g.neg(Scale(g, Number(h), A)))
  {
    hide IsGroup, ScalarBit, Low, OddMultiples, Scale, Pow2, Recoding, Combination, IsDigit;
    var lutA := MakeTable(g, minus_A);
    var h_slide := new SlideCtx(h);
    var s_slide := new SlideCtx(s);
    var i: int := if h_slide.next_check >= s_slide.next_check then h_slide.next_check else s_slide.next_check;
    sum := g.zero;
    ghost var dh, ds := 0, 0;
    StartLadder(g, minus_A, B);
    while i >= 0
      invariant -1 <= i <= 253
      invariant fresh(h_slide) && fresh(s_slide) && h_slide != s_slide
      invariant h_slide.Slides(h, P_W_WIDTH, i, dh) && s_slide.Slides(s, B_W_WIDTH, i, ds)
      invariant sum == Combination(g, dh, minus_A, ds, B)
    {
      ghost var c := sum;
      sum := g.add(sum, sum);
      var h_digit := h_slide.Step(P_W_WIDTH, i, h, dh);
      var s_digit := s_slide.Step(B_W_WIDTH, i, s, ds);
      DigitRange(h_digit, P_W_WIDTH);
      DigitRange(s_digit, B_W_WIDTH);
      sum := AddDigit(g, sum, h_digit, lutA, minus_A);
      sum := AddDigit(g, sum, s_digit, b_window, B);
      LadderStep(g, dh, minus_A, ds, B, h_digit, s_digit);
      dh, ds := 2 * dh + h_digit, 2 * ds + s_digit;
      i := i - 1;
    }
    AllHandedOut(h_slide, h, P_W_WIDTH, dh);
    AllHandedOut(s_slide, s, B_W_WIDTH, ds);
    FinishLadder(g, Number(h), A, Number(s), B);
  }

  lemma FinishLadder<G(!new)>(g: Group<G>, h: nat, a: G, s: nat, b: G)
    requires IsGroup(g)
    ensures Combination(g, h, g.neg(a), s, b) == g.add(Scale(g, s, b), g.neg(Scale(g, h, a)))
  {
    hide IsGroup, Scale;
    Laws(g, Scale(g, h, g.neg(a)), Scale(g, s, b), a);
    ScaleOfNeg(g, h, a);
  }

  lemma StartLadder<G(!new)>(g: Group<G>, p: G, q: G)
    requires IsGroup(g)
    ensures g.zero == Combination(g, 0, p, 0, q)
  {
  }

  lemma DigitRange(d: int, width: nat)
    requires d == 0 || (0 < width && IsDigit(d, width))
    ensures width == P_W_WIDTH ==> d == 0 || (d % 2 == 1 && -4 < d < 4)
    ensures width == B_W_WIDTH ==> d == 0 || (d % 2 == 1 && -16 < d < 16)
  {
    assert Pow2(2) == 4 && Pow2(3) == 8 && Pow2(4) == 16;
  }

  lemma AllHandedOut(c: SlideCtx, s: Scalar, width: nat, done: int)
    requires c.Slides(s, width, -1, done)
    ensures done == Number(s)
  {
    assert Pow2(0) == 1;
  }

  lemma {:induction false} ScaleOfNeg<G(!new)>(g: Group<G>, n: nat, p: G)
    requires IsGroup(g)
    ensures Scale(g, n, g.neg(p)) == g.neg(Scale(g, n, p))
  {
    hide IsGroup;
    ScaleNeg(g, n, p);
    if n > 0 {
      ScaleOfNeg(g, n - 1, p);
      ScaleNeg(g, n - 1, p);
    }
  }
}
