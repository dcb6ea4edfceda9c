/** Numbers written as sequences of digits, least significant first, and congruences between them. */
module Radix {
  import opened Arith

  const W := 0x1_0000_0000

  function Pw(base: nat, n: nat): nat {
    if n == 0 then 1 else base * Pw(base, n - 1)
  }

  /** The number with the given digits. */
  function Val(base: nat, s: seq<nat>): nat {
    if s == [] then 0 else Val(base, s[..|s| - 1]) + s[|s| - 1] * Pw(base, |s| - 1)
  }

  ghost predicate Digits(base: nat, s: seq<nat>) {
    forall i :: 0 <= i < |s| ==> s[i] < base
  }

  lemma PwZero(base: nat)
    ensures Pw(base, 0) == 1
  {
  }

  lemma PwStep(base: nat, n: nat)
    ensures Pw(base, n + 1) == base * Pw(base, n)
  {
  }

  lemma {:induction false} PwPositive(base: nat, n: nat)
    requires base > 0
    ensures Pw(base, n) > 0
  {
    if n > 0 {
      PwPositive(base, n - 1);
      MulMono(Pw(base, n - 1), 1, base);
    }
  }

  lemma {:induction false} PwAdds(base: nat, m: nat, n: nat)
    ensures Pw(base, m + n) == Pw(base, m) * Pw(base, n)
  {
    if n > 0 {
      PwAdds(base, m, n - 1);
      PwStep(base, m + n - 1);
      Swap3(base, Pw(base, m), Pw(base, n - 1));
    }
  }

  lemma Swap3(a: int, b: int, c: int)
    ensures a * (b * c) == b * (a * c)
  {
  }

  lemma Dist(p: int, a: int, b: int)
    ensures p * (a + b) == p * a + p * b && (a + b) * p == a * p + b * p
    ensures p * (a - b) == p * a - p * b && (a - b) * p == a * p - b * p
  {
  }

  lemma Assoc(a: int, b: int, c: int)
    ensures a * (b * c) == (a * b) * c
  {
  }

  lemma ValAppend(base: nat, s: seq<nat>, d: nat)
    ensures Val(base, s + [d]) == Val(base, s) + d * Pw(base, |s|)
  {
    assert (s + [d])[..|s|] == s;
  }

  lemma {:induction false} ValConcat(base: nat, s: seq<nat>, t: seq<nat>)
    ensures Val(base, s + t) == Val(base, s) + Pw(base, |s|) * Val(base, t)
  {
    hide Pw;
    if t == [] {
      assert s + t == s;
    } else {
      var n := |t| - 1;
      var t', d := t[..n], t[n];
      assert s + t == (s + t') + [d];
      ValAppend(base, s + t', d);
      ValConcat(base, s, t');
      PwAdds(base, |s|, n);
      Dist(Pw(base, |s|), Val(base, t'), d * Pw(base, n));
      Swap3(Pw(base, |s|), d, Pw(base, n));
    }
  }

  /** Splitting a slice of digits. */
  lemma ValSplit(base: nat, s: seq<nat>, a: nat, b: nat)
    requires a <= b <= |s|
    ensures Val(base, s[..b]) == Val(base, s[..a]) + Pw(base, a) * Val(base, s[a..b])
  {
    hide Pw, Val;
    assert s[..b] == s[..a] + s[a..b];
    ValConcat(base, s[..a], s[a..b]);
  }

  lemma ValNext(base: nat, s: seq<nat>, n: nat)
    requires n < |s|
    ensures Val(base, s[..n + 1]) == Val(base, s[..n]) + s[n] * Pw(base, n)
  {
    hide Pw;
    assert s[..n + 1] == s[..n] + [s[n]];
    ValAppend(base, s[..n], s[n]);
  }

  lemma {:induction false} ValBound(base: nat, s: seq<nat>)
    requires base > 0 && Digits(base, s)
    ensures Val(base, s) < Pw(base, |s|)
  {
    hide Pw;
    PwZero(base);
    if s != [] {
      var n := |s| - 1;
      ValBound(base, s[..n]);
      PwPositive(base, n);
      MulMono(Pw(base, n), s[n], base - 1);
      Dist(Pw(base, n), base, 1);
      PwStep(base, n);
    }
  }

  lemma {:induction false} ValZero(base: nat, s: seq<nat>)
    requires forall i :: 0 <= i < |s| ==> s[i] == 0
    ensures Val(base, s) == 0
  {
    if s != [] { ValZero(base, s[..|s| - 1]); }
  }

  /** A number has only one way to be written with so many digits. */
  lemma {:induction false} SameDigits(base: nat, s: seq<nat>, t: seq<nat>)
    requires base > 0 && |s| == |t| && Digits(base, s) && Digits(base, t) && Val(base, s) == Val(base, t)
    ensures s == t
  {
    hide Pw;
    if s != [] {
      var n := |s| - 1;
      var p := Pw(base, n);
      ValBound(base, s[..n]);
      ValBound(base, t[..n]);
      PwPositive(base, n);
      DivUnique(Val(base, s), p, s[n], Val(base, s[..n]));
      DivUnique(Val(base, t), p, t[n], Val(base, t[..n]));
      SameDigits(base, s[..n], t[..n]);
      assert s == s[..n] + [s[n]] && t == t[..n] + [t[n]];
    }
  }

  // ---------- congruence ----------

  function Times(k: int, m: int): int { k * m }

  ghost predicate Cong(a: int, b: int, m: int) {
    exists k: int :: a - b == Times(k, m)
  }

  lemma CongBy(a: int, b: int, m: int, k: int)
    requires a - b == k * m
    ensures Cong(a, b, m)
  {
    assert a - b == Times(k, m);
  }

  lemma CongRefl(a: int, m: int)
    ensures Cong(a, a, m)
  {
    CongBy(a, a, m, 0);
  }

  lemma CongSym(a: int, b: int, m: int)
    requires Cong(a, b, m)
    ensures Cong(b, a, m)
  {
    var k: int :| a - b == Times(k, m);
    Dist(m, 0, k);
    CongBy(b, a, m, -k);
  }

  lemma CongTrans(a: int, b: int, c: int, m: int)
    requires Cong(a, b, m) && Cong(b, c, m)
    ensures Cong(a, c, m)
  {
    var k: int :| a - b == Times(k, m);
    var l: int :| b - c == Times(l, m);
    Dist(m, k, l);
    CongBy(a, c, m, k + l);
  }

  lemma CongAdd(a: int, b: int, c: int, d: int, m: int)
    requires Cong(a, b, m) && Cong(c, d, m)
    ensures Cong(a + c, b + d, m)
  {
    var k: int :| a - b == Times(k, m);
    var l: int :| c - d == Times(l, m);
    Dist(m, k, l);
    CongBy(a + c, b + d, m, k + l);
  }

  lemma CongScale(a: int, b: int, c: int, m: int)
    requires Cong(a, b, m)
    ensures Cong(a * c, b * c, m) && Cong(c * a, c * b, m)
  {
    var k: int :| a - b == Times(k, m);
    Dist(c, a, b);
    Swap3(c, k, m);
    Assoc(k, c, m);
    CongBy(a * c, b * c, m, k * c);
  }

  lemma CongMul(a: int, b: int, c: int, d: int, m: int)
    requires Cong(a, b, m) && Cong(c, d, m)
    ensures Cong(a * c, b * d, m)
  {
    CongScale(a, b, c, m);
    CongScale(c, d, b, m);
    CongTrans(a * c, b * c, b * d, m);
  }

  /** Congruent means equal remainders. */
  lemma CongMod(a: int, b: int, m: int)
    requires m > 0
    ensures Cong(a, b, m) <==> a % m == b % m
  {
    if Cong(a, b, m) {
      var k: int :| a - b == Times(k, m);
      Dist(m, b / m, k);
      DivUnique(a, m, b / m + k, b % m);
    }
    if a % m == b % m {
      Dist(m, a / m, b / m);
      CongBy(a, b, m, a / m - b / m);
    }
  }

  /** A small number congruent to `b` is the remainder of `b`. */
  lemma CongSmall(a: int, b: int, m: int)
    requires 0 <= a < m && Cong(a, b, m)
    ensures a == b % m
  {
    CongMod(a, b, m);
    DivUnique(a, m, 0, a);
  }
}
