/** Field elements modulo 2^255 - 19 in ten signed limbs (`monocypher.c`). */
module Fe25519 {
  import opened Arith
  import opened Radix

  const T24 := 0x100_0000
  const T25 := 0x200_0000
  const T26 := 0x400_0000
  const I32_MAX := 0x7fff_ffff
  const I64_MAX := 0x7fff_ffff_ffff_ffff
  const E10 := 0x8000_0000_0000_0000_0000_0000_0000_0000_0000_0000_0000_0000_0000_0000_0000_0000

  /** 2^255 - 19. */
  const P := E10 - 19

  predicate I32(x: int) { -0x8000_0000 <= x <= I32_MAX }

  predicate I64(x: int) { -0x8000_0000_0000_0000 <= x <= I64_MAX }

  function Width(i: nat): nat { if i % 2 == 0 then T26 else T25 }

  /** The weight of limb `i`: 2^ceil(25.5 i). */
  function Place(i: nat): nat
    requires i < 10
  {
    if i == 0 then 1
    else if i == 1 then 0x400_0000
    else if i == 2 then 0x8_0000_0000_0000
    else if i == 3 then 0x2000_0000_0000_0000_0000
    else if i == 4 then 0x40_0000_0000_0000_0000_0000_0000
    else if i == 5 then 0x1_0000_0000_0000_0000_0000_0000_0000_0000
    else if i == 6 then 0x200_0000_0000_0000_0000_0000_0000_0000_0000_0000
    else if i == 7 then 0x8_0000_0000_0000_0000_0000_0000_0000_0000_0000_0000_0000
    else if i == 8 then 0x1000_0000_0000_0000_0000_0000_0000_0000_0000_0000_0000_0000_0000
    else 0x40_0000_0000_0000_0000_0000_0000_0000_0000_0000_0000_0000_0000_0000_0000
  }

  /** The integer a limb vector stands for. */
  function Value(t: seq<int>): int
    requires |t| == 10
  {
    t[0] + t[1] * Place(1) + t[2] * Place(2) + t[3] * Place(3) + t[4] * Place(4)
    + t[5] * Place(5) + t[6] * Place(6) + t[7] * Place(7) + t[8] * Place(8) + t[9] * Place(9)
  }

  lemma ValueUpdate(t: seq<int>, i: nat, v: int)
    requires |t| == 10 && i < 10
    ensures Value(t[i := v]) == Value(t) + (v - t[i]) * Place(i)
  {
    if i < 5 {
      if i == 0 {} else if i == 1 {} else if i == 2 {} else if i == 3 {} else {}
    } else {
      if i == 5 {} else if i == 6 {} else if i == 7 {} else if i == 8 {} else {}
    }
  }

  // ---------- FE_CARRY ----------

  function Excess(t: int, w: nat): int
    requires w > 0
  {
    (t + w / 2) / w
  }

  /** Moves the excess of limb `i`, rounded to nearest, into the next limb; the last wraps round times 19. */
  function Step(t: seq<int>, i: nat): (r: seq<int>)
    requires |t| == 10 && i < 10
    ensures |r| == 10
  {
    var c := Excess(t[i], Width(i));
    var t' := t[i := t[i] - c * Width(i)];
    if i == 9 then t'[0 := t'[0] + c * 19] else t'[i + 1 := t'[i + 1] + c]
  }

  /** The limb carried by step `k` of the chain. */
  function Order(k: nat): nat
    requires k < 12
    ensures Order(k) < 10
  {
    if k == 0 then 0 else if k == 1 then 4 else if k == 2 then 1 else if k == 3 then 5
    else if k == 4 then 2 else if k == 5 then 6 else if k == 6 then 3 else if k == 7 then 7
    else if k == 8 then 4 else if k == 9 then 8 else if k == 10 then 9 else 0
  }

  /** The limbs after the first `k` carries. */
  function Carries(t: seq<int>, k: nat): (r: seq<int>)
    requires |t| == 10 && k <= 12
    ensures |r| == 10
  {
    if k == 0 then t else Step(Carries(t, k - 1), Order(k - 1))
  }

  /** What the carry chain makes of a limb vector. */
  function Carried(t: seq<int>): (r: seq<int>)
    requires |t| == 10
    ensures |r| == 10
  {
    Carries(t, 12)
  }

  lemma ScaleSplit(a: int, c: int, w: int, p: int)
    ensures (a - c * w - a) * p + c * (p * w) == 0
  {
  }

  /** A carry keeps the value modulo P. */
  lemma StepKeepsValue(t: seq<int>, i: nat)
    requires |t| == 10 && i < 10
    ensures Cong(Value(Step(t, i)), Value(t), P)
  {
    hide Cong, Value, Excess;
    var c := Excess(t[i], Width(i));
    var t' := t[i := t[i] - c * Width(i)];
    ValueUpdate(t, i, t[i] - c * Width(i));
    ScaleSplit(t[i], c, Width(i), Place(i));
    if i == 9 {
      ValueUpdate(t', 0, t'[0] + c * 19);
      CongBy(Value(Step(t, i)), Value(t), P, -c);
    } else {
      ValueUpdate(t', i + 1, t'[i + 1] + c);
      assert Place(i + 1) == Place(i) * Width(i);
      CongBy(Value(Step(t, i)), Value(t), P, 0);
    }
  }

  lemma {:induction false} CarriesKeepValue(t: seq<int>, k: nat)
    requires |t| == 10 && k <= 12
    ensures Cong(Value(Carries(t, k)), Value(t), P)
  {
    hide Cong, Value, Step, Order;
    if k == 0 {
      CongRefl(Value(t), P);
    } else {
      CarriesKeepValue(t, k - 1);
      StepKeepsValue(Carries(t, k - 1), Order(k - 1));
      CongTrans(Value(Carries(t, k)), Value(Carries(t, k - 1)), Value(t), P);
    }
  }

  // ---------- bounds ----------

  ghost predicate Below(t: seq<int>, b: int) {
    forall j :: 0 <= j < |t| ==> -b < t[j] < b
  }

  const HUGE := 0x4000_0000_0000_0000

  /** The bounds that the chain's description allows: limb 0 below 2^63, the others below 2^62. */
  ghost predicate Announced(t: seq<int>)
    requires |t| == 10
  {
    -2 * HUGE < t[0] < 2 * HUGE && forall j :: 1 <= j < 10 ==> -HUGE < t[j] < HUGE
  }

  /** The limbs from which the chain really stays within 64 bits. */
  ghost predicate Carriable(t: seq<int>)
    requires |t| == 10
  {
    Announced(t) && t[0] < 2 * HUGE - T25
  }

  lemma BelowIsCarriable(t: seq<int>)
    requires |t| == 10 && Below(t, HUGE)
    ensures Carriable(t)
  {
  }

  /** The postcondition of the chain: even limbs under 1.1 * 2^25, odd ones under 1.1 * 2^24. */
  ghost predicate Tight(t: seq<int>)
    requires |t| == 10
  {
    forall j :: 0 <= j < 10 ==> 10 * Abs(t[j]) < 11 * (Width(j) / 2)
  }

  function Abs(x: int): nat { if x < 0 then -x else x }

  /** The step that first carries limb `j`. */
  function First(j: nat): nat
    requires j < 10
  {
    if j == 0 then 0 else if j == 1 then 2 else if j == 2 then 4 else if j == 3 then 6
    else if j == 4 then 1 else if j == 5 then 3 else if j == 6 then 5 else if j == 7 then 7
    else if j == 8 then 9 else 10
  }

  /** A bound on limb `j` after `k` carries, when all limbs start as announced. */
  function Limit(k: nat, j: nat): nat
    requires k <= 12 && j < 10
  {
    if k <= First(j) then (if j == 0 then 2 * HUGE else if k > First(j - 1) then HUGE + 0x100_0000_0000 else HUGE)
    else if (j == 4 && 7 <= k <= 8) || (j == 0 && k == 11) then 0x2000_0000_0000
    else if (j == 5 && 9 <= k) || (j == 1 && k == 12) then Width(j) / 2 + 0x10_0000
    else Width(j) / 2
  }

  lemma LimitStart(j: nat)
    requires j < 10
    ensures Limit(0, j) == if j == 0 then 2 * HUGE else HUGE
  {
  }

  lemma LimitStep(k: nat, j: nat)
    requires k < 12 && j < 10
    ensures var i := Order(k);
            var c := (Limit(k, i) + Width(i) / 2) / Width(i);
            Limit(k + 1, j) >= if j == i then Width(i) / 2
                               else if i == 9 && j == 0 then Limit(k, j) + 19 * c
                               else if j == i + 1 then Limit(k, j) + c
                               else Limit(k, j)
  {
    if k < 6 {
      if k == 0 {} else if k == 1 {} else if k == 2 {} else if k == 3 {} else if k == 4 {} else {}
    } else {
      if k == 6 {} else if k == 7 {} else if k == 8 {} else if k == 9 {} else if k == 10 {} else {}
    }
  }

  lemma WidthIs(i: nat)
    ensures Width(i) == T25 || Width(i) == T26
  {
  }

  lemma ExcessBound(t: int, w: nat, b: nat)
    requires w == T25 || w == T26
    requires Abs(t) <= b
    ensures Abs(t - Excess(t, w) * w) <= w / 2
    ensures Abs(Excess(t, w)) <= (b + w / 2) / w
  {
  }

  lemma StepEntry(t: seq<int>, i: nat, j: nat)
    requires |t| == 10 && i < 10 && j < 10
    ensures var c := Excess(t[i], Width(i));
            Step(t, i)[j] == if j == i then t[i] - c * Width(i)
                             else if i == 9 && j == 0 then t[j] + c * 19
                             else if j == i + 1 then t[j] + c
                             else t[j]
  {
    hide Excess, Width;
  }

  lemma {:induction false} CarriesWithin(t: seq<int>, k: nat, j: nat)
    requires |t| == 10 && k <= 12 && j < 10 && Announced(t)
    ensures Abs(Carries(t, k)[j]) <= Limit(k, j)
  {
    hide Order, Excess, Limit, Width, Step;
    if k == 0 {
      LimitStart(j);
    } else {
      LimitStep(k - 1, j);
      var i := Order(k - 1);
      var s := Carries(t, k - 1);
      WidthIs(i);
      StepEntry(s, i, j);
      CarriesWithin(t, k - 1, i);
      CarriesWithin(t, k - 1, j);
      ExcessBound(s[i], Width(i), Limit(k - 1, i));
    }
  }

  /** Nothing the carry of limb `i` computes leaves the 64-bit range. */
  ghost predicate CarryFits(t: seq<int>, i: nat)
    requires |t| == 10 && i < 10
  {
    var c := Excess(t[i], Width(i));
    var n := if i == 9 then 0 else i + 1;
    && I64(t[i] + Width(i) / 2)
    && I64(c * Width(i))
    && I64(t[i] - c * Width(i))
    && I64(t[n] + if i == 9 then c * 19 else c)
  }

  lemma ChainFits(t: seq<int>, k: nat)
    requires |t| == 10 && k < 12 && Carriable(t)
    ensures CarryFits(Carries(t, k), Order(k))
  {
    hide Order, Excess, Limit, Width, Step;
    if k == 0 {
      FirstCarry(t);
    } else {
      var s, i := Carries(t, k), Order(k);
      var n := if i == 9 then 0 else i + 1;
      CarriesWithin(t, k, i);
      CarriesWithin(t, k, n);
      LimitIs(k, i);
      LimitIs(k, n);
      WidthIs(i);
      ExcessBound(s[i], Width(i), Limit(k, i));
    }
  }

  /** The very first carry stays within 64 bits exactly if adding 2^25 to limb 0 does. */
  lemma FirstCarry(t: seq<int>)
    requires |t| == 10 && Announced(t)
    ensures CarryFits(Carries(t, 0), Order(0)) <==> t[0] < 2 * HUGE - T25
  {
  }

  /** From the announced limbs the chain stays within 64 bits if and only if limb 0 is below 2^63 - 2^25. */
  lemma ChainFitsExactly(t: seq<int>)
    requires |t| == 10 && Announced(t)
    ensures (forall k :: 0 <= k < 12 ==> CarryFits(Carries(t, k), Order(k))) <==> t[0] < 2 * HUGE - T25
  {
    hide Carries, Order, CarryFits, Announced;
    if t[0] < 2 * HUGE - T25 {
      forall k | 0 <= k < 12 ensures CarryFits(Carries(t, k), Order(k)) { ChainFits(t, k); }
    } else {
      FirstCarry(t);
    }
  }

  /** Limbs that the description allows and that overflow in the first addition. */
  lemma AnnouncedOverflows() returns (t: seq<int>)
    ensures t == [I64_MAX, 0, 0, 0, 0, 0, 0, 0, 0, 0] && Announced(t) && !I64(t[0] + T25)
    ensures !CarryFits(Carries(t, 0), Order(0))
  {
    t := [I64_MAX, 0, 0, 0, 0, 0, 0, 0, 0, 0];
    FirstCarry(t);
  }

  lemma LimitIs(k: nat, j: nat)
    requires 0 < k <= 12 && j < 10
    ensures Limit(k, j) <= HUGE + 0x100_0000_0000
  {
  }

  /** From the announced limbs the chain ends in the tight bounds. */
  lemma CarriedIsTight(t: seq<int>)
    requires |t| == 10 && Announced(t)
    ensures Tight(Carried(t))
  {
    hide Carries;
    forall j | 0 <= j < 10
      ensures 10 * Abs(Carried(t)[j]) < 11 * (Width(j) / 2)
    {
      CarriesWithin(t, 12, j);
    }
  }

  method CarryLimb(t: array<int>, i: nat)
    requires t.Length == 10 && i < 10 && CarryFits(t[..], i)
    modifies t
    ensures t[..] == Step(old(t[..]), i)
  {
    var w := if i % 2 == 0 then T26 else T25;
    var c := (t[i] + w / 2) / w;
    t[i] := t[i] - c * w;
    if i == 9 { t[0] := t[0] + c * 19; } else { t[i + 1] := t[i + 1] + c; }
  }

  /** The carry chain: same value modulo P, tight limbs. */
  method FeCarry(t: array<int>)
    requires t.Length == 10 && Carriable(t[..])
    modifies t
    ensures t[..] == Carried(old(t[..]))
    ensures Tight(t[..]) && Cong(Value(t[..]), Value(old(t[..])), P)
  {
    hide Step, CarryFits, Tight, Cong, Value, Excess, Below, Width;
    ghost var t0 := t[..];
    assert Announced(t0);
    hide Announced;
    CarriesKeepValue(t0, 12);
    CarriedIsTight(t0);
    ChainFits(t0, 0); CarryLimb(t, 0);
    ChainFits(t0, 1); CarryLimb(t, 4);
    ChainFits(t0, 2); CarryLimb(t, 1);
    ChainFits(t0, 3); CarryLimb(t, 5);
    ChainFits(t0, 4); CarryLimb(t, 2);
    ChainFits(t0, 5); CarryLimb(t, 6);
    ChainFits(t0, 6); CarryLimb(t, 3);
    ChainFits(t0, 7); CarryLimb(t, 7);
    ChainFits(t0, 8); CarryLimb(t, 4);
    ChainFits(t0, 9); CarryLimb(t, 8);
    ChainFits(t0, 10); CarryLimb(t, 9);
    ChainFits(t0, 11); CarryLimb(t, 0);
  }

  // ---------- fe_mul ----------

  /** The precondition of products: even limbs under 1.65 * 2^26, odd ones under 1.65 * 2^25. */
  ghost predicate Loose(f: seq<int>)
    requires |f| == 10
  {
    forall j :: 0 <= j < 10 ==> 100 * Abs(f[j]) < 165 * Width(j)
  }

  function Product(a: int, b: int): int { a * b }

  /** The limb of `g` that meets limb `i` of `f` in column `k`. */
  function Partner(i: nat, k: nat): nat
    requires i < 10 && k < 10
    ensures Partner(i, k) < 10
  {
    if i <= k then k - i else 10 + k - i
  }

  /** Two odd places fall half a bit short of their sum: the factor is doubled. */
  function Left(f: seq<int>, i: nat, k: nat): int
    requires |f| == 10 && i < 10 && k < 10
  {
    if i % 2 == 1 && Partner(i, k) % 2 == 1 then f[i] * 2 else f[i]
  }

  /** Wrapping past 2^255 costs a factor 19. */
  function Right(g: seq<int>, i: nat, k: nat): int
    requires |g| == 10 && i < 10 && k < 10
  {
    if i <= k then g[k - i] else g[10 + k - i] * 19
  }

  function Term(f: seq<int>, g: seq<int>, i: nat, k: nat): int
    requires |f| == 10 && |g| == 10 && i < 10 && k < 10
  {
    Product(Left(f, i, k), Right(g, i, k))
  }

  /** The first `n` terms of column `k`, in the order they are added. */
  function Partial(f: seq<int>, g: seq<int>, k: nat, n: nat): int
    requires |f| == 10 && |g| == 10 && k < 10 && n <= 10
    decreases n
  {
    if n == 0 then 0 else Partial(f, g, k, n - 1) + Term(f, g, n - 1, k)
  }

  function Columns(f: seq<int>, g: seq<int>): (t: seq<int>)
    requires |f| == 10 && |g| == 10
    ensures |t| == 10
  {
    seq(10, k requires 0 <= k < 10 => Partial(f, g, k, 10))
  }

  lemma ProductBound(a: int, b: int, m: nat, n: nat)
    requires Abs(a) <= m && Abs(b) <= n
    ensures Abs(Product(a, b)) <= m * n
  {
    AbsProduct(a, b);
    MulMono(Abs(a), Abs(b), n);
    MulMono(n, Abs(a), m);
  }

  lemma AbsProduct(a: int, b: int)
    ensures Abs(a * b) == Abs(a) * Abs(b)
  {
    if a >= 0 && b >= 0 { MulNonneg(a, b); }
    else if a >= 0 { MulNonneg(a, -b); }
    else if b >= 0 { MulNonneg(-a, b); }
    else { MulNonneg(-a, -b); }
  }

  const LEFT_MAX := 110729626
  const RIGHT_MAX := 2103862886

  /** Every factor fits 32 bits and every partial sum stays under 2^62. */
  lemma {:induction false} ColumnFits(f: seq<int>, g: seq<int>, k: nat, n: nat)
    requires |f| == 10 && |g| == 10 && k < 10 && n <= 10 && Loose(f) && Loose(g)
    ensures forall i :: 0 <= i < n ==> I32(Left(f, i, k)) && I32(Right(g, i, k)) && I64(Term(f, g, i, k))
    ensures Abs(Partial(f, g, k, n)) <= n * (LEFT_MAX * RIGHT_MAX) < HUGE
  {
    hide Product, Partner;
    if n > 0 {
      ColumnFits(f, g, k, n - 1);
      var i := n - 1;
      assert Abs(f[i]) < T26 * 2 && Abs(g[Partner(i, k)]) < T26 * 2;
      FactorBound(f, g, i, k);
      ProductBound(Left(f, i, k), Right(g, i, k), LEFT_MAX, RIGHT_MAX);
    }
  }

  lemma FactorBound(f: seq<int>, g: seq<int>, i: nat, k: nat)
    requires |f| == 10 && |g| == 10 && i < 10 && k < 10 && Loose(f) && Loose(g)
    ensures Abs(Left(f, i, k)) <= LEFT_MAX && Abs(Right(g, i, k)) <= RIGHT_MAX
  {
  }

  // ---------- the columns stand for the product ----------

  /** f[i] g[j] at its full weight. */
  function Cross(f: seq<int>, g: seq<int>, i: nat, j: nat): int
    requires |f| == 10 && |g| == 10 && i < 10 && j < 10
  {
    Product(f[i] * Place(i), g[j] * Place(j))
  }

  lemma PlaceTable(i: nat, k: nat)
    requires i < 10 && k < 10
    ensures Place(i) * Place(Partner(i, k)) ==
            Place(k) * (if i % 2 == 1 && Partner(i, k) % 2 == 1 then 2 else 1) * (if i <= k then 1 else E10)
  {
    if k < 5 {
      if k == 0 {} else if k == 1 {} else if k == 2 {} else if k == 3 {} else {}
    } else {
      if k == 5 {} else if k == 6 {} else if k == 7 {} else if k == 8 {} else {}
    }
  }

  lemma CrossIsTerm(a: int, b: int, p: int, q: int, r: int, d: int, e: int, e': int)
    requires p * q == r * d * e
    ensures Product(a * p, b * q) - Product(a * d, b * e') * r == a * b * r * d * (e - e')
  {
    Regroup(a, p, b, q);
    assert a * b * (r * d * e) == a * b * r * d * e;
    Regroup(a, d, b, e');
    assert a * b * (d * e') * r == a * b * r * d * e';
    Dist(a * b * r * d, e, e');
  }

  lemma Regroup(a: int, p: int, b: int, q: int)
    ensures Product(a * p, b * q) == a * b * (p * q)
  {
  }

  /** A term of column `k` weighs as much as the cross product it comes from, modulo P. */
  lemma TermWeight(f: seq<int>, g: seq<int>, i: nat, k: nat)
    requires |f| == 10 && |g| == 10 && i < 10 && k < 10
    ensures Cong(Term(f, g, i, k) * Place(k), Cross(f, g, i, Partner(i, k)), P)
  {
    hide Place, Product, Cong;
    var j := Partner(i, k);
    var d := if i % 2 == 1 && j % 2 == 1 then 2 else 1;
    var e := if i <= k then 1 else E10;
    var e' := if i <= k then 1 else 19;
    PlaceTable(i, k);
    CrossIsTerm(f[i], g[j], Place(i), Place(j), Place(k), d, e, e');
    assert f[i] * d == Left(f, i, k) && g[j] * e' == Right(g, i, k);
    var m := f[i] * g[j] * Place(k) * d;
    CongBy(Cross(f, g, i, j), Term(f, g, i, k) * Place(k), P, if i <= k then 0 else m);
    CongSym(Cross(f, g, i, j), Term(f, g, i, k) * Place(k), P);
  }

  function CrossSum(f: seq<int>, g: seq<int>, k: nat, n: nat): int
    requires |f| == 10 && |g| == 10 && k < 10 && n <= 10
    decreases n
  {
    if n == 0 then 0 else CrossSum(f, g, k, n - 1) + Cross(f, g, n - 1, Partner(n - 1, k))
  }

  lemma {:induction false} ColumnWeight(f: seq<int>, g: seq<int>, k: nat, n: nat)
    requires |f| == 10 && |g| == 10 && k < 10 && n <= 10
    ensures Cong(Partial(f, g, k, n) * Place(k), CrossSum(f, g, k, n), P)
  {
    hide Place, Cong, Term, Cross;
    if n == 0 {
      CongRefl(0, P);
    } else {
      ColumnWeight(f, g, k, n - 1);
      TermWeight(f, g, n - 1, k);
      Dist(Place(k), Partial(f, g, k, n - 1), Term(f, g, n - 1, k));
      CongAdd(Partial(f, g, k, n - 1) * Place(k), CrossSum(f, g, k, n - 1),
              Term(f, g, n - 1, k) * Place(k), Cross(f, g, n - 1, Partner(n - 1, k)), P);
    }
  }

  /** The sum of the first `n` weighted limbs. */
  function Weighted(t: seq<int>, n: nat): int
    requires |t| == 10 && n <= 10
    decreases n
  {
    if n == 0 then 0 else Weighted(t, n - 1) + t[n - 1] * Place(n - 1)
  }

  lemma ValueIsWeighted(t: seq<int>)
    requires |t| == 10
    ensures Value(t) == Weighted(t, 10)
  {
  }

  /** What the first `n` limbs of `f` contribute to all the columns. */
  function Contribution(f: seq<int>, g: seq<int>, n: nat): int
    requires |f| == 10 && |g| == 10 && n <= 10
  {
    CrossSum(f, g, 0, n) + CrossSum(f, g, 1, n) + CrossSum(f, g, 2, n) + CrossSum(f, g, 3, n) + CrossSum(f, g, 4, n)
    + CrossSum(f, g, 5, n) + CrossSum(f, g, 6, n) + CrossSum(f, g, 7, n) + CrossSum(f, g, 8, n) + CrossSum(f, g, 9, n)
  }

  lemma Spread(x: int, g: seq<int>)
    requires |g| == 10
    ensures Product(x, Value(g)) ==
            Product(x, g[0] * Place(0)) + Product(x, g[1] * Place(1)) + Product(x, g[2] * Place(2))
            + Product(x, g[3] * Place(3)) + Product(x, g[4] * Place(4)) + Product(x, g[5] * Place(5))
            + Product(x, g[6] * Place(6)) + Product(x, g[7] * Place(7)) + Product(x, g[8] * Place(8))
            + Product(x, g[9] * Place(9))
  {
    hide Product, Place, Value, Weighted;
    ValueIsWeighted(g);
    SpreadTo(x, g, 10);
  }

  function SpreadSum(x: int, g: seq<int>, n: nat): int
    requires |g| == 10 && n <= 10
    decreases n
  {
    if n == 0 then 0 else SpreadSum(x, g, n - 1) + Product(x, g[n - 1] * Place(n - 1))
  }

  lemma {:induction false} SpreadTo(x: int, g: seq<int>, n: nat)
    requires |g| == 10 && n <= 10
    ensures Product(x, Weighted(g, n)) == SpreadSum(x, g, n)
  {
    hide Place;
    if n > 0 {
      SpreadTo(x, g, n - 1);
      Dist(x, Weighted(g, n - 1), g[n - 1] * Place(n - 1));
    }
  }

  /** Limb `n` meets every limb of `g` once, whatever the rotation. */
  lemma Row(f: seq<int>, g: seq<int>, n: nat)
    requires |f| == 10 && |g| == 10 && n < 10
    ensures Cross(f, g, n, Partner(n, 0)) + Cross(f, g, n, Partner(n, 1)) + Cross(f, g, n, Partner(n, 2)) + Cross(f, g, n, Partner(n, 3))
            + Cross(f, g, n, Partner(n, 4)) + Cross(f, g, n, Partner(n, 5)) + Cross(f, g, n, Partner(n, 6)) + Cross(f, g, n, Partner(n, 7))
            + Cross(f, g, n, Partner(n, 8)) + Cross(f, g, n, Partner(n, 9))
            == Product(f[n] * Place(n), Value(g))
  {
    hide Product, Place, Value;
    Spread(f[n] * Place(n), g);
    if n < 5 {
      if n == 0 {} else if n == 1 {} else if n == 2 {} else if n == 3 {} else {}
    } else {
      if n == 5 {} else if n == 6 {} else if n == 7 {} else if n == 8 {} else {}
    }
  }

  lemma {:induction false} ContributionIs(f: seq<int>, g: seq<int>, n: nat)
    requires |f| == 10 && |g| == 10 && n <= 10
    ensures Contribution(f, g, n) == Product(Weighted(f, n), Value(g))
  {
    hide Value, Cross, Place, Partner;
    if n > 0 {
      ContributionIs(f, g, n - 1);
      Row(f, g, n - 1);
      Dist(Value(g), Weighted(f, n - 1), f[n - 1] * Place(n - 1));
      ContributionStep(f, g, n - 1);
    }
  }

  lemma ContributionStep(f: seq<int>, g: seq<int>, n: nat)
    requires |f| == 10 && |g| == 10 && n < 10
    ensures Contribution(f, g, n + 1) == Contribution(f, g, n)
            + (Cross(f, g, n, Partner(n, 0)) + Cross(f, g, n, Partner(n, 1)) + Cross(f, g, n, Partner(n, 2)) + Cross(f, g, n, Partner(n, 3))
            + Cross(f, g, n, Partner(n, 4)) + Cross(f, g, n, Partner(n, 5)) + Cross(f, g, n, Partner(n, 6)) + Cross(f, g, n, Partner(n, 7))
            + Cross(f, g, n, Partner(n, 8)) + Cross(f, g, n, Partner(n, 9)))
  {
    hide Cross, Partner;
  }

  /** The columns represent the product of the two elements. */
  lemma ColumnsValue(f: seq<int>, g: seq<int>)
    requires |f| == 10 && |g| == 10
    ensures Cong(Value(Columns(f, g)), Value(f) * Value(g), P)
  {
    hide Value, Place, Cong, Weighted, CrossSum, Partial;
    var t := Columns(f, g);
    ValueIsWeighted(t);
    ValueIsWeighted(f);
    ContributionIs(f, g, 10);
    ColumnsUpTo(f, g, 10);
  }

  function CrossTotal(f: seq<int>, g: seq<int>, n: nat): int
    requires |f| == 10 && |g| == 10 && n <= 10
    decreases n
  {
    if n == 0 then 0 else CrossTotal(f, g, n - 1) + CrossSum(f, g, n - 1, 10)
  }

  lemma {:induction false} ColumnsUpTo(f: seq<int>, g: seq<int>, n: nat)
    requires |f| == 10 && |g| == 10 && n <= 10
    ensures Cong(Weighted(Columns(f, g), n), CrossTotal(f, g, n), P)
    ensures CrossTotal(f, g, 10) == Contribution(f, g, 10)
  {
    hide Cong, Place, Partial, CrossSum;
    if n == 0 {
      CongRefl(0, P);
    } else {
      var t := Columns(f, g);
      ColumnsUpTo(f, g, n - 1);
      ColumnWeight(f, g, n - 1, 10);
      CongAdd(Weighted(t, n - 1), CrossTotal(f, g, n - 1), t[n - 1] * Place(n - 1), CrossSum(f, g, n - 1, 10), P);
    }
  }

  lemma ColumnIs(f: seq<int>, g: seq<int>, k: nat)
    requires |f| == 10 && |g| == 10 && k < 10
    ensures Columns(f, g)[k] ==
            Term(f, g, 0, k) + Term(f, g, 1, k) + Term(f, g, 2, k) + Term(f, g, 3, k) + Term(f, g, 4, k)
            + Term(f, g, 5, k) + Term(f, g, 6, k) + Term(f, g, 7, k) + Term(f, g, 8, k) + Term(f, g, 9, k)
  {
    hide Term;
  }

  lemma ColumnsAreBelow(f: seq<int>, g: seq<int>)
    requires |f| == 10 && |g| == 10 && Loose(f) && Loose(g)
    ensures Below(Columns(f, g), HUGE)
  {
    hide Loose, Term;
    forall k | 0 <= k < 10
      ensures -HUGE < Columns(f, g)[k] < HUGE
    {
      ColumnFits(f, g, k, 10);
    }
  }

  // ---------- 32- and 64-bit arithmetic ----------

  /** A limb, or twice a limb. */
  predicate IsLeft(a: int) { I32(a) && Abs(a) <= 2 * LEFT_MAX }

  /** A limb scaled by up to 19. */
  predicate IsRight(b: int) { I32(b) && Abs(b) <= RIGHT_MAX }

  const TERM_MAX := 2 * LEFT_MAX * RIGHT_MAX

  /** Ten of these fit 64 bits. */
  predicate IsTerm(x: int) { -TERM_MAX <= x <= TERM_MAX }

  /** The product of two 32-bit numbers, one of them widened to 64 bits before. */
  function Times(a: int, b: int): (r: int)
    requires IsLeft(a) && IsRight(b)
    ensures r == Product(a, b) && IsTerm(r)
  {
    ProductBound(a, b, 2 * LEFT_MAX, RIGHT_MAX);
    assert I32(a) && I32(b) && I64(Product(a, b));
    Product(a, b)
  }

  /** A 64-bit sum. */
  function Plus(a: int, b: int): int
    requires I64(a) && I64(b) && I64(a + b)
  {
    a + b
  }

  function Sum5(a: int, b: int, c: int, d: int, e: int): (r: int)
    requires IsTerm(a) && IsTerm(b) && IsTerm(c) && IsTerm(d) && IsTerm(e)
    ensures r == a + b + c + d + e
  {
    Plus(Plus(Plus(Plus(a, b), c), d), e)
  }

  function Sum6(a: int, b: int, c: int, d: int, e: int, f: int): (r: int)
    requires IsTerm(a) && IsTerm(b) && IsTerm(c) && IsTerm(d) && IsTerm(e) && IsTerm(f)
    ensures r == a + b + c + d + e + f
  {
    Plus(Plus(Plus(Plus(Plus(a, b), c), d), e), f)
  }

  function Sum10(a: int, b: int, c: int, d: int, e: int, f: int, g: int, h: int, i: int, j: int): (r: int)
    requires IsTerm(a) && IsTerm(b) && IsTerm(c) && IsTerm(d) && IsTerm(e)
    requires IsTerm(f) && IsTerm(g) && IsTerm(h) && IsTerm(i) && IsTerm(j)
    ensures r == a + b + c + d + e + f + g + h + i + j
  {
    Plus(Plus(Plus(Plus(Plus(Plus(Plus(Plus(Plus(a, b), c), d), e), f), g), h), i), j)
  }

  /** The limbs of an operand, doubled and scaled, fit 32 bits. */
  lemma LimbsFit(f: seq<int>)
    requires |f| == 10 && Loose(f)
    ensures IsLeft(f[0]) && IsRight(f[0]) && IsLeft(f[0] * 2) && IsRight(f[0] * 2)
    ensures IsLeft(f[1]) && IsRight(f[1]) && IsLeft(f[1] * 2) && IsRight(f[1] * 2) && IsRight(f[1] * 19) && IsRight(f[1] * 38)
    ensures IsLeft(f[2]) && IsRight(f[2]) && IsLeft(f[2] * 2) && IsRight(f[2] * 2) && IsRight(f[2] * 19)
    ensures IsLeft(f[3]) && IsRight(f[3]) && IsLeft(f[3] * 2) && IsRight(f[3] * 2) && IsRight(f[3] * 19) && IsRight(f[3] * 38)
    ensures IsLeft(f[4]) && IsRight(f[4]) && IsLeft(f[4] * 2) && IsRight(f[4] * 2) && IsRight(f[4] * 19)
    ensures IsLeft(f[5]) && IsRight(f[5]) && IsLeft(f[5] * 2) && IsRight(f[5] * 2) && IsRight(f[5] * 19) && IsRight(f[5] * 38)
    ensures IsLeft(f[6]) && IsRight(f[6]) && IsLeft(f[6] * 2) && IsRight(f[6] * 2) && IsRight(f[6] * 19)
    ensures IsLeft(f[7]) && IsRight(f[7]) && IsLeft(f[7] * 2) && IsRight(f[7] * 2) && IsRight(f[7] * 19) && IsRight(f[7] * 38)
    ensures IsLeft(f[8]) && IsRight(f[8]) && IsLeft(f[8] * 2) && IsRight(f[8] * 2) && IsRight(f[8] * 19)
    ensures IsLeft(f[9]) && IsRight(f[9]) && IsLeft(f[9] * 2) && IsRight(f[9] * 2) && IsRight(f[9] * 19) && IsRight(f[9] * 38)
  {
    forall i | 0 <= i < 10 ensures Abs(f[i]) < LEFT_MAX && (i % 2 == 1 ==> Abs(f[i] * 2) < LEFT_MAX) {}
  }

  /** The ten columns of the schoolbook product, wrapped at 2^255. */
  method MulColumns(f: array<int>, g: array<int>) returns (t: seq<int>)
    requires f.Length == 10 && g.Length == 10 && Loose(f[..]) && Loose(g[..])
    ensures t == Columns(f[..], g[..])
  {
    hide Product, Columns, Loose, IsLeft, IsRight, IsTerm, Times, Sum10;
    LimbsFit(f[..]);
    LimbsFit(g[..]);
    var f0, f1, f2, f3, f4, f5, f6, f7, f8, f9 := f[0], f[1], f[2], f[3], f[4], f[5], f[6], f[7], f[8], f[9];
    var g0, g1, g2, g3, g4, g5, g6, g7, g8, g9 := g[0], g[1], g[2], g[3], g[4], g[5], g[6], g[7], g[8], g[9];
    var F1, F3, F5, F7, F9 := f1 * 2, f3 * 2, f5 * 2, f7 * 2, f9 * 2;
    var G1, G2, G3, G4, G5, G6, G7, G8, G9 := g1 * 19, g2 * 19, g3 * 19, g4 * 19, g5 * 19, g6 * 19, g7 * 19, g8 * 19, g9 * 19;
    ghost var fs, gs := f[..], g[..];
    var t0 := Sum10(Times(f0, g0), Times(F1, G9), Times(f2, G8), Times(F3, G7), Times(f4, G6),
              Times(F5, G5), Times(f6, G4), Times(F7, G3), Times(f8, G2), Times(F9, G1));
    assert t0 == Columns(fs, gs)[0] by { ColumnIs(fs, gs, 0); }
    var t1 := Sum10(Times(f0, g1), Times(f1, g0), Times(f2, G9), Times(f3, G8), Times(f4, G7),
              Times(f5, G6), Times(f6, G5), Times(f7, G4), Times(f8, G3), Times(f9, G2));
    assert t1 == Columns(fs, gs)[1] by { ColumnIs(fs, gs, 1); }
    var t2 := Sum10(Times(f0, g2), Times(F1, g1), Times(f2, g0), Times(F3, G9), Times(f4, G8),
              Times(F5, G7), Times(f6, G6), Times(F7, G5), Times(f8, G4), Times(F9, G3));
    assert t2 == Columns(fs, gs)[2] by { ColumnIs(fs, gs, 2); }
    var t3 := Sum10(Times(f0, g3), Times(f1, g2), Times(f2, g1), Times(f3, g0), Times(f4, G9),
              Times(f5, G8), Times(f6, G7), Times(f7, G6), Times(f8, G5), Times(f9, G4));
    assert t3 == Columns(fs, gs)[3] by { ColumnIs(fs, gs, 3); }
    var t4 := Sum10(Times(f0, g4), Times(F1, g3), Times(f2, g2), Times(F3, g1), Times(f4, g0),
              Times(F5, G9), Times(f6, G8), Times(F7, G7), Times(f8, G6), Times(F9, G5));
    assert t4 == Columns(fs, gs)[4] by { ColumnIs(fs, gs, 4); }
    var t5 := Sum10(Times(f0, g5), Times(f1, g4), Times(f2, g3), Times(f3, g2), Times(f4, g1),
              Times(f5, g0), Times(f6, G9), Times(f7, G8), Times(f8, G7), Times(f9, G6));
    assert t5 == Columns(fs, gs)[5] by { ColumnIs(fs, gs, 5); }
    var t6 := Sum10(Times(f0, g6), Times(F1, g5), Times(f2, g4), Times(F3, g3), Times(f4, g2),
              Times(F5, g1), Times(f6, g0), Times(F7, G9), Times(f8, G8), Times(F9, G7));
    assert t6 == Columns(fs, gs)[6] by { ColumnIs(fs, gs, 6); }
    var t7 := Sum10(Times(f0, g7), Times(f1, g6), Times(f2, g5), Times(f3, g4), Times(f4, g3),
              Times(f5, g2), Times(f6, g1), Times(f7, g0), Times(f8, G9), Times(f9, G8));
    assert t7 == Columns(fs, gs)[7] by { ColumnIs(fs, gs, 7); }
    var t8 := Sum10(Times(f0, g8), Times(F1, g7), Times(f2, g6), Times(F3, g5), Times(f4, g4),
              Times(F5, g3), Times(f6, g2), Times(F7, g1), Times(f8, g0), Times(F9, G9));
    assert t8 == Columns(fs, gs)[8] by { ColumnIs(fs, gs, 8); }
    var t9 := Sum10(Times(f0, g9), Times(f1, g8), Times(f2, g7), Times(f3, g6), Times(f4, g5),
              Times(f5, g4), Times(f6, g3), Times(f7, g2), Times(f8, g1), Times(f9, g0));
    assert t9 == Columns(fs, gs)[9] by { ColumnIs(fs, gs, 9); }
    t := [t0, t1, t2, t3, t4, t5, t6, t7, t8, t9];
  }

  // ---------- fe_sq ----------

  lemma Scaled(a: int, c: int, b: int, d: int)
    ensures Product(a * c, b * d) == (c * d) * Product(a, b)
  {
  }

  /** A term of a square with its two limbs in order and its constant factor in front. */
  function Folded(f: seq<int>, i: nat, k: nat): int
    requires |f| == 10 && i < 10 && k < 10
  {
    var j := Partner(i, k);
    var c := (if i % 2 == 1 && j % 2 == 1 then 2 else 1) * (if i <= k then 1 else 19);
    c * if i <= j then Product(f[i], f[j]) else Product(f[j], f[i])
  }

  lemma TermFolds(f: seq<int>, i: nat, k: nat)
    requires |f| == 10 && i < 10 && k < 10
    ensures Term(f, f, i, k) == Folded(f, i, k)
  {
    var j := Partner(i, k);
    var d, e := if i % 2 == 1 && j % 2 == 1 then 2 else 1, if i <= k then 1 else 19;
    assert Left(f, i, k) == f[i] * d && Right(f, i, k) == f[j] * e;
    Scaled(f[i], d, f[j], e);
    assert Product(f[i], f[j]) == Product(f[j], f[i]);
  }

  lemma SquareColumn(f: seq<int>, k: nat)
    requires |f| == 10 && k < 10
    ensures Columns(f, f)[k] ==
            Folded(f, 0, k) + Folded(f, 1, k) + Folded(f, 2, k) + Folded(f, 3, k) + Folded(f, 4, k)
            + Folded(f, 5, k) + Folded(f, 6, k) + Folded(f, 7, k) + Folded(f, 8, k) + Folded(f, 9, k)
  {
    hide Term, Folded, Columns;
    ColumnIs(f, f, k);
    TermFolds(f, 0, k); TermFolds(f, 1, k);
    TermFolds(f, 2, k); TermFolds(f, 3, k);
    TermFolds(f, 4, k); TermFolds(f, 5, k);
    TermFolds(f, 6, k); TermFolds(f, 7, k);
    TermFolds(f, 8, k); TermFolds(f, 9, k);
  }

  /** The lower columns of a square, with equal cross products taken once and doubled. */
  method SquareColumnsLow(f: array<int>) returns (t0: int, t1: int, t2: int, t3: int, t4: int)
    requires f.Length == 10 && Loose(f[..])
    ensures t0 == Columns(f[..], f[..])[0] && t1 == Columns(f[..], f[..])[1] && t2 == Columns(f[..], f[..])[2]
    ensures t3 == Columns(f[..], f[..])[3] && t4 == Columns(f[..], f[..])[4]
  {
    hide Columns, Product, Loose, IsLeft, IsRight, IsTerm, Times, Sum5, Sum6;
    LimbsFit(f[..]);
    var f0, f1, f2, f3, f4, f5, f6, f7, f8, f9 := f[0], f[1], f[2], f[3], f[4], f[5], f[6], f[7], f[8], f[9];
    var f0_2, f1_2, f2_2, f3_2, f4_2, f5_2, f6_2, f7_2 := f0 * 2, f1 * 2, f2 * 2, f3 * 2, f4 * 2, f5 * 2, f6 * 2, f7 * 2;
    var f5_38, f6_19, f7_38, f8_19, f9_38 := f5 * 38, f6 * 19, f7 * 38, f8 * 19, f9 * 38;
    ghost var fs := f[..];
    t0 := Sum6(Times(f0, f0), Times(f1_2, f9_38), Times(f2_2, f8_19), Times(f3_2, f7_38), Times(f4_2, f6_19),
              Times(f5, f5_38));
    assert t0 == Columns(fs, fs)[0] by {
      SquareColumn(fs, 0);
      Scaled(f1, 2, f9, 38); Scaled(f2, 2, f8, 19); Scaled(f3, 2, f7, 38);
      Scaled(f4, 2, f6, 19); Scaled(f5, 1, f5, 38);
    }
    t1 := Sum5(Times(f0_2, f1), Times(f2, f9_38), Times(f3_2, f8_19), Times(f4, f7_38), Times(f5_2, f6_19));
    assert t1 == Columns(fs, fs)[1] by {
      SquareColumn(fs, 1);
      Scaled(f0, 2, f1, 1); Scaled(f2, 1, f9, 38); Scaled(f3, 2, f8, 19);
      Scaled(f4, 1, f7, 38); Scaled(f5, 2, f6, 19);
    }
    t2 := Sum6(Times(f0_2, f2), Times(f1_2, f1), Times(f3_2, f9_38), Times(f4_2, f8_19), Times(f5_2, f7_38),
              Times(f6, f6_19));
    assert t2 == Columns(fs, fs)[2] by {
      SquareColumn(fs, 2);
      Scaled(f0, 2, f2, 1); Scaled(f1, 2, f1, 1); Scaled(f3, 2, f9, 38);
      Scaled(f4, 2, f8, 19); Scaled(f5, 2, f7, 38); Scaled(f6, 1, f6, 19);
    }
    t3 := Sum5(Times(f0_2, f3), Times(f1_2, f2), Times(f4, f9_38), Times(f5_2, f8_19), Times(f6, f7_38));
    assert t3 == Columns(fs, fs)[3] by {
      SquareColumn(fs, 3);
      Scaled(f0, 2, f3, 1); Scaled(f1, 2, f2, 1); Scaled(f4, 1, f9, 38);
      Scaled(f5, 2, f8, 19); Scaled(f6, 1, f7, 38);
    }
    t4 := Sum6(Times(f0_2, f4), Times(f1_2, f3_2), Times(f2, f2), Times(f5_2, f9_38), Times(f6_2, f8_19),
              Times(f7, f7_38));
    assert t4 == Columns(fs, fs)[4] by {
      SquareColumn(fs, 4);
      Scaled(f0, 2, f4, 1); Scaled(f1, 2, f3, 2); Scaled(f5, 2, f9, 38);
      Scaled(f6, 2, f8, 19); Scaled(f7, 1, f7, 38);
    }
  }

  /** The upper columns of a square. */
  method SquareColumnsHigh(f: array<int>) returns (t5: int, t6: int, t7: int, t8: int, t9: int)
    requires f.Length == 10 && Loose(f[..])
    ensures t5 == Columns(f[..], f[..])[5] && t6 == Columns(f[..], f[..])[6] && t7 == Columns(f[..], f[..])[7]
    ensures t8 == Columns(f[..], f[..])[8] && t9 == Columns(f[..], f[..])[9]
  {
    hide Columns, Product, Loose, IsLeft, IsRight, IsTerm, Times, Sum5, Sum6;
    LimbsFit(f[..]);
    var f0, f1, f2, f3, f4, f5, f6, f7, f8, f9 := f[0], f[1], f[2], f[3], f[4], f[5], f[6], f[7], f[8], f[9];
    var f0_2, f1_2, f2_2, f3_2, f4_2, f5_2, f6_2, f7_2 := f0 * 2, f1 * 2, f2 * 2, f3 * 2, f4 * 2, f5 * 2, f6 * 2, f7 * 2;
    var f5_38, f6_19, f7_38, f8_19, f9_38 := f5 * 38, f6 * 19, f7 * 38, f8 * 19, f9 * 38;
    ghost var fs := f[..];
    t5 := Sum5(Times(f0_2, f5), Times(f1_2, f4), Times(f2_2, f3), Times(f6, f9_38), Times(f7_2, f8_19));
    assert t5 == Columns(fs, fs)[5] by {
      SquareColumn(fs, 5);
      Scaled(f0, 2, f5, 1); Scaled(f1, 2, f4, 1); Scaled(f2, 2, f3, 1);
      Scaled(f6, 1, f9, 38); Scaled(f7, 2, f8, 19);
    }
    t6 := Sum6(Times(f0_2, f6), Times(f1_2, f5_2), Times(f2_2, f4), Times(f3_2, f3), Times(f7_2, f9_38),
              Times(f8, f8_19));
    assert t6 == Columns(fs, fs)[6] by {
      SquareColumn(fs, 6);
      Scaled(f0, 2, f6, 1); Scaled(f1, 2, f5, 2); Scaled(f2, 2, f4, 1);
      Scaled(f3, 2, f3, 1); Scaled(f7, 2, f9, 38); Scaled(f8, 1, f8, 19);
    }
    t7 := Sum5(Times(f0_2, f7), Times(f1_2, f6), Times(f2_2, f5), Times(f3_2, f4), Times(f8, f9_38));
    assert t7 == Columns(fs, fs)[7] by {
      SquareColumn(fs, 7);
      Scaled(f0, 2, f7, 1); Scaled(f1, 2, f6, 1); Scaled(f2, 2, f5, 1);
      Scaled(f3, 2, f4, 1); Scaled(f8, 1, f9, 38);
    }
    t8 := Sum6(Times(f0_2, f8), Times(f1_2, f7_2), Times(f2_2, f6), Times(f3_2, f5_2), Times(f4, f4),
              Times(f9, f9_38));
    assert t8 == Columns(fs, fs)[8] by {
      SquareColumn(fs, 8);
      Scaled(f0, 2, f8, 1); Scaled(f1, 2, f7, 2); Scaled(f2, 2, f6, 1);
      Scaled(f3, 2, f5, 2); Scaled(f9, 1, f9, 38);
    }
    t9 := Sum5(Times(f0_2, f9), Times(f1_2, f8), Times(f2_2, f7), Times(f3_2, f6), Times(f4, f5_2));
    assert t9 == Columns(fs, fs)[9] by {
      SquareColumn(fs, 9);
      Scaled(f0, 2, f9, 1); Scaled(f1, 2, f8, 1); Scaled(f2, 2, f7, 1);
      Scaled(f3, 2, f6, 1); Scaled(f4, 1, f5, 2);
    }
  }

  /** fe_mul: limbs of the product modulo P, tight again. The arrays may be the same one. */
  method FeMul(h: array<int>, f: array<int>, g: array<int>)
    requires h.Length == 10 && f.Length == 10 && g.Length == 10
    requires Loose(f[..]) && Loose(g[..])
    modifies h
    ensures h[..] == Carried(Columns(old(f[..]), old(g[..])))
    ensures Tight(h[..]) && Cong(Value(h[..]), Value(old(f[..])) * Value(old(g[..])), P)
  {
    hide Columns, Tight, Cong, Value, Carried, Below, Loose;
    ghost var fs, gs := f[..], g[..];
    var cols := MulColumns(f, g);
    StoreCarried(h, cols, fs, gs);
  }

  method StoreCarried(h: array<int>, cols: seq<int>, ghost f: seq<int>, ghost g: seq<int>)
    requires h.Length == 10 && |f| == 10 && |g| == 10
    requires Loose(f) && Loose(g) && cols == Columns(f, g)
    modifies h
    ensures h[..] == Carried(cols)
    ensures Tight(h[..]) && Cong(Value(h[..]), Value(f) * Value(g), P)
  {
    hide Columns, Tight, Cong, Value, Carried, Below, Loose;
    ColumnsAreBelow(f, g);
    ColumnsValue(f, g);
    var t := new int[10](i requires 0 <= i < 10 => cols[i]);
    assert t[..] == cols;
    BelowIsCarriable(cols);
    FeCarry(t);
    ghost var r := t[..];
    CongTrans(Value(r), Value(cols), Value(f) * Value(g), P);
    for i := 0 to 10
      invariant t[..] == r
      invariant t != h && h[..i] == r[..i]
    {
      h[i] := t[i];
    }
    assert h[..] == h[..10] == r;
  }

  /** fe_sq: exactly the limbs of fe_mul(f, f). */
  method FeSq(h: array<int>, f: array<int>)
    requires h.Length == 10 && f.Length == 10 && Loose(f[..])
    modifies h
    ensures h[..] == Carried(Columns(old(f[..]), old(f[..])))
    ensures Tight(h[..]) && Cong(Value(h[..]), Value(old(f[..])) * Value(old(f[..])), P)
  {
    hide Columns, Tight, Cong, Value, Carried, Below, Loose;
    ghost var fs := f[..];
    var t0, t1, t2, t3, t4 := SquareColumnsLow(f);
    var t5, t6, t7, t8, t9 := SquareColumnsHigh(f);
    var cols := [t0, t1, t2, t3, t4, t5, t6, t7, t8, t9];
    assert cols == Columns(fs, fs);
    StoreCarried(h, cols, fs, fs);
  }
}
