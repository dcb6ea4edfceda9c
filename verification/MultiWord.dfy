/** Arithmetic on arrays of 32-bit words, with 64-bit carries (`monocypher.c`, arithmetic modulo L). */
module MultiWord {
  import opened Arith
  import opened Radix

  /** One column of a carry chain: the low word stays, the high word moves on. */
  lemma Carry(t: nat, pw: nat, next: nat)
    requires next == W * pw
    ensures t % W * pw + t / W * next == t * pw
    ensures t < W * W ==> t / W < W
  {
    var h, l := t / W, t % W;
    assert t == W * h + l;
    Swap3(h, W, pw);
    Assoc(W, h, pw);
    Dist(pw, W * h, l);
  }

  /** A product of two words with two more words added fits 64 bits. */
  lemma MulAddFits(c: nat, p: nat, x: nat, b: nat)
    requires c < W && p < W && x < W && b < W
    ensures c + p + x * b < W * W
  {
    MulMono(x, b, W - 1);
    MulMono(W - 1, x, W - 1);
    assert (W - 1) * (W - 1) == W * W - 2 * W + 1;
  }

  /** p[off..off + n] += x b[..n], returning the carry. */
  method MulAddRow(p: array<nat>, off: nat, x: nat, b: seq<nat>, n: nat) returns (carry: nat)
    requires off + n <= p.Length && n <= |b| && x < W && Digits(W, p[..]) && Digits(W, b)
    modifies p
    ensures Digits(W, p[..]) && carry < W
    ensures Val(W, p[off..off + n]) + carry * Pw(W, n) == old(Val(W, p[off..off + n])) + x * Val(W, b[..n])
    ensures forall k :: 0 <= k < p.Length && !(off <= k < off + n) ==> p[k] == old(p[k])
  {
    hide Val, Pw;
    ghost var q := p[off..off + n];
    carry := 0;
    RowStart(q, b);
    assert p[off..off] == [];
    for j := 0 to n
      invariant Digits(W, p[..]) && carry < W
      invariant forall k :: 0 <= k < p.Length && !(off <= k < off + j) ==> p[k] == old(p[k])
      invariant Val(W, p[off..off + j]) + carry * Pw(W, j) == Val(W, q[..j]) + x * Val(W, b[..j])
    {
      ghost var done := p[off..off + j];
      ghost var c := carry;
      MulAddFits(carry, p[off + j], x, b[j]);
      carry := carry + p[off + j] + x * b[j];
      ghost var t := carry;
      p[off + j] := carry % W;
      carry := carry / W;
      PwStep(W, j);
      Carry(t, Pw(W, j), Pw(W, j + 1));
      assert p[off..off + j + 1] == done + [t % W];
      ValAppend(W, done, t % W);
      ValNext(W, q, j);
      ValNext(W, b, j);
      RowStep(c, q[j], x, b[j], Pw(W, j), Val(W, b[..j]));
    }
    assert q[..n] == q;
  }

  lemma RowStart(q: seq<nat>, b: seq<nat>)
    ensures Val(W, q[..0]) == 0 && Val(W, b[..0]) == 0 && Val(W, []) == 0
  {
  }

  lemma RowStep(c: nat, q: nat, x: nat, b: nat, pw: nat, v: nat)
    ensures (c + q + x * b) * pw + x * v == c * pw + q * pw + x * (v + b * pw)
  {
    Dist(pw, c + q, x * b);
    Dist(pw, c, q);
    Dist(x, v, b * pw);
    Assoc(x, b, pw);
  }

  /** p += a b, where the words of p from |b| on are still zero. */
  method Multiply(p: array<nat>, a: seq<nat>, b: seq<nat>)
    requires p.Length == |a| + |b| && Digits(W, p[..]) && Digits(W, a) && Digits(W, b)
    requires forall k :: |b| <= k < p.Length ==> p[k] == 0
    modifies p
    ensures Digits(W, p[..])
    ensures Val(W, p[..]) == old(Val(W, p[..|b|])) + Val(W, a) * Val(W, b)
  {
    hide Val, Pw;
    var m := |b|;
    ghost var v := Val(W, p[..m]);
    RowStart(a, b);
    for i := 0 to |a|
      invariant Digits(W, p[..])
      invariant forall k :: m + i <= k < p.Length ==> p[k] == 0
      invariant Val(W, p[..i + m]) == v + Val(W, a[..i]) * Val(W, b)
    {
      ghost var low, mid := p[..i], p[i..i + m];
      ValSplit(W, p[..], i, i + m);
      assert p[..][..i + m] == p[..i + m] && p[..][..i] == low && p[..][i..i + m] == mid;
      var carry := MulAddRow(p, i, a[i], b, m);
      ghost var mid' := p[i..i + m];
      p[i + m] := carry;
      assert p[..i + 1 + m] == low + (mid' + [carry]);
      ValConcat(W, low, mid' + [carry]);
      ValAppend(W, mid', carry);
      assert b[..m] == b;
      ValNext(W, a, i);
      MultiplyStep(Pw(W, i), Val(W, mid), a[i], Val(W, b), Val(W, a[..i]));
    }
    assert a[..|a|] == a && p[..|a| + m] == p[..];
  }

  lemma MultiplyStep(pw: nat, mid: nat, x: nat, b: nat, a: nat)
    ensures pw * (mid + x * b) == pw * mid + (a + x * pw) * b - a * b
  {
    Dist(pw, mid, x * b);
    Dist(b, a, x * pw);
    Swap3(pw, x, b);
    Assoc(x, pw, b);
  }

  /** The low |b| words of the product, when p starts at zero: rows are cut off at the top. */
  method MultiplyLow(p: array<nat>, a: seq<nat>, b: seq<nat>)
    requires |a| == |b| <= p.Length && Digits(W, p[..]) && Digits(W, a) && Digits(W, b)
    requires forall k :: 0 <= k < |b| ==> p[k] == 0
    modifies p
    ensures Digits(W, p[..])
    ensures Cong(Val(W, p[..|b|]), Val(W, a) * Val(W, b), Pw(W, |b|))
    ensures forall k :: |b| <= k < p.Length ==> p[k] == old(p[k])
  {
    hide Val, Pw, Cong;
    var n := |b|;
    RowStart(a, b);
    ValZero(W, p[..n]);
    CongRefl(0, Pw(W, n));
    for i := 0 to n
      invariant Digits(W, p[..])
      invariant Cong(Val(W, p[..n]), Val(W, a[..i]) * Val(W, b), Pw(W, n))
      invariant forall k :: n <= k < p.Length ==> p[k] == old(p[k])
    {
      ghost var low, mid := p[..i], p[i..n];
      assert p[..n] == low + mid;
      ValConcat(W, low, mid);
      var carry := MulAddRow(p, i, a[i], b, n - i);
      ghost var mid' := p[i..n];
      assert p[..n] == low + mid';
      ValConcat(W, low, mid');
      ValNext(W, a, i);
      assert b == b[..n - i] + b[n - i..];
      ValConcat(W, b[..n - i], b[n - i..]);
      PwAdds(W, i, n - i);
      LowStep(Pw(W, i), Pw(W, n - i), Val(W, low), Val(W, mid), Val(W, mid'), carry, a[i],
              Val(W, b[..n - i]), Val(W, b[n - i..]), Val(W, a[..i]));
    }
    assert a[..n] == a;
  }

  lemma LowStep(pw: nat, rest: nat, low: nat, mid: nat, mid': nat, carry: nat, x: nat, bl: nat, bh: nat, a: nat)
    requires mid' + carry * rest == mid + x * bl
    requires Cong(low + pw * mid, a * (bl + rest * bh), pw * rest)
    ensures Cong(low + pw * mid', (a + x * pw) * (bl + rest * bh), pw * rest)
  {
    var m := pw * rest;
    var b := bl + rest * bh;
    // pw mid' == pw mid + pw x bl - carry m, and pw x b == pw x bl + x bh m
    assert pw * mid' == pw * mid + x * pw * b - (carry + x * bh) * m by {
      Dist(pw, mid, x * bl);
      Dist(pw, mid', carry * rest);
      Swap3(pw, carry, rest);
      Swap3(pw, x, bl);
      Assoc(x, pw, bl);
      Dist(x * pw, bl, rest * bh);
      assert x * pw * (rest * bh) == x * bh * m by { Regroup(x, pw, rest, bh); }
      Dist(m, carry, x * bh);
    }
    CongBy(low + pw * mid', low + pw * mid + x * pw * b, m, -(carry + x * bh));
    CongRefl(x * pw * b, m);
    CongAdd(low + pw * mid, a * b, x * pw * b, x * pw * b, m);
    Dist(b, a, x * pw);
    CongTrans(low + pw * mid', low + pw * mid + x * pw * b, (a + x * pw) * b, m);
  }

  lemma Regroup(x: nat, pw: nat, rest: nat, bh: nat)
    ensures x * pw * (rest * bh) == x * bh * (pw * rest)
  {
    Assoc(x * pw, rest, bh);
    Assoc(x, pw, rest);
    Assoc(x, pw * rest, bh);
    Assoc(x, bh, pw * rest);
  }

  // ---------- chains of additions ----------

  /** One column of a chain: out + carry * next == out' + ... with the digit's complement or nothing added. */
  lemma ChainStep(out: int, c: nat, a: int, x: nat, d: nat, pw: nat, next: nat)
    requires next == W * pw && out + c * pw == a
    ensures var t := c + x + d;
            (out + t % W * pw) + t / W * next == a + x * pw + d * pw
  {
    var t := c + x + d;
    Carry(t, pw, next);
    Dist(pw, c + x, d);
    Dist(pw, c, x);
  }

  /** t += x, with no carry out of the top. */
  method AddWords(t: array<nat>, x: array<nat>)
    requires t.Length == x.Length && t != x && Digits(W, t[..]) && Digits(W, x[..])
    requires Val(W, t[..]) + Val(W, x[..]) < Pw(W, t.Length)
    modifies t
    ensures Digits(W, t[..]) && Val(W, t[..]) == old(Val(W, t[..])) + Val(W, x[..])
  {
    hide Val, Pw;
    ghost var q, y, n := t[..], x[..], t.Length;
    var carry: nat := 0;
    RowStart(q, y);
    assert t[..0] == [];
    for i := 0 to t.Length
      invariant Digits(W, t[..]) && carry <= 1 && x[..] == y
      invariant forall k :: i <= k < n ==> t[k] == q[k]
      invariant Val(W, t[..i]) + carry * Pw(W, i) == Val(W, q[..i]) + Val(W, y[..i])
    {
      ghost var done := t[..i];
      PwStep(W, i);
      ChainStep(Val(W, done), carry, Val(W, q[..i]) + Val(W, y[..i]), t[i], x[i], Pw(W, i), Pw(W, i + 1));
      carry := carry + t[i] + x[i];
      ghost var d := carry % W;
      t[i] := carry % W;
      carry := carry / W;
      assert t[..i + 1] == done + [d];
      ValAppend(W, done, d);
      ValNext(W, q, i);
      ValNext(W, y, i);
    }
    assert t[..n] == t[..] && q[..n] == q && y[..n] == y;
    NoCarryOut(carry, Pw(W, n), Val(W, q) + Val(W, y), t[..]);
  }

  lemma NoCarryOut(carry: nat, pw: nat, sum: nat, t: seq<nat>)
    requires carry <= 1 && sum < pw && Val(W, t) + carry * pw == sum
    ensures carry == 0
  {
  }

  /** Replaces y by x - y modulo 2^(32 n), by adding the complement and one. */
  method SubtractFrom(x: seq<nat>, y: array<nat>, n: nat)
    requires n <= |x| && n <= y.Length && Digits(W, x) && Digits(W, y[..])
    modifies y
    ensures Digits(W, y[..]) && Cong(Val(W, y[..n]), Val(W, x[..n]) - old(Val(W, y[..n])), Pw(W, n))
    ensures forall k :: n <= k < y.Length ==> y[k] == old(y[k])
  {
    hide Val, Pw, Cong;
    ghost var q := y[..];
    var carry: nat := 1;
    RowStart(x, q);
    PwZero(W);
    assert y[..0] == [];
    for i := 0 to n
      invariant Digits(W, y[..]) && carry <= 1
      invariant forall k :: i <= k < y.Length ==> y[k] == q[k]
      invariant Val(W, y[..i]) + carry * Pw(W, i) == Val(W, x[..i]) + Pw(W, i) - Val(W, q[..i])
    {
      ghost var done := y[..i];
      PwStep(W, i);
      ChainStep(Val(W, done), carry, Val(W, x[..i]) + Pw(W, i) - Val(W, q[..i]), x[i], W - 1 - y[i], Pw(W, i), Pw(W, i + 1));
      Dist(Pw(W, i), W - 1, q[i]);
      Dist(Pw(W, i), W, 1);
      carry := carry + x[i] + (W - 1 - y[i]);
      ghost var d := carry % W;
      y[i] := carry % W;
      carry := carry / W;
      assert y[..i + 1] == done + [d];
      ValAppend(W, done, d);
      ValNext(W, q, i);
      ValNext(W, x, i);
    }
    assert q[..n] == old(y[..n]);
    Dist(Pw(W, n), 1, carry);
    CongBy(Val(W, y[..n]), Val(W, x[..n]) - Val(W, q[..n]), Pw(W, n), 1 - carry);
  }
}
