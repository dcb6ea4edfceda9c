/** Little-endian bytes and 32-bit words (`load32_le_buf`, `store32_le_buf`). */
module ByteWords {
  import opened Arith
  import opened Radix

  /** What is missing from `x` to the next multiple of `pow_2`. */
  function Gap(x: nat, pow_2: nat): nat
    requires pow_2 > 0
  {
    (pow_2 - x % pow_2) % pow_2
  }

  /** `lo | hi` for numbers with no bits in common: `lo` stays below `unit`, `hi` is a multiple of it. */
  function Join(lo: nat, hi: nat, unit: nat): nat
    requires unit > 0 && lo < unit && hi % unit == 0
  {
    lo + hi
  }

  /** A little-endian 32-bit load. */
  function Load32(s: seq<nat>, i: nat): nat
    requires i + 4 <= |s|
  {
    s[i] + s[i + 1] * 0x100 + s[i + 2] * 0x10000 + s[i + 3] * 0x1000000
  }

  function LoadWords(s: seq<nat>): (ws: seq<nat>)
    requires |s| % 4 == 0
    ensures |ws| == |s| / 4
  {
    seq(|s| / 4, (i: nat) requires i < |s| / 4 => Load32(s, 4 * i))
  }

  function StoreWords(ws: seq<nat>): (s: seq<nat>)
    ensures |s| == 4 * |ws|
  {
    seq(4 * |ws|, (i: nat) requires i < 4 * |ws| =>
      if i % 4 == 0 then ws[i / 4] % 0x100
      else if i % 4 == 1 then ws[i / 4] / 0x100 % 0x100
      else if i % 4 == 2 then ws[i / 4] / 0x10000 % 0x100
      else ws[i / 4] / 0x1000000 % 0x100)
  }

  lemma {:induction false} LoadKeepsValue(s: seq<nat>)
    requires |s| % 4 == 0 && Digits(256, s)
    ensures Val(W, LoadWords(s)) == Val(256, s) && Digits(W, LoadWords(s))
  {
    hide Val, Pw;
    if s == [] {
      ValEmpty(W);
      ValEmpty(256);
    } else {
      var n := |s| - 4;
      var t := s[..n];
      LoadKeepsValue(t);
      assert LoadWords(s) == LoadWords(t) + [Load32(s, n)];
      ValAppend(W, LoadWords(t), Load32(s, n));
      ValNext(256, s, n);
      ValNext(256, s, n + 1);
      ValNext(256, s, n + 2);
      ValNext(256, s, n + 3);
      assert s[..n + 4] == s;
      PwStep(256, n);
      PwStep(256, n + 1);
      PwStep(256, n + 2);
      BytePowers(n / 4);
      FourBytes(s[n], s[n + 1], s[n + 2], s[n + 3], Pw(256, n));
    }
  }

  lemma ValEmpty(base: nat)
    ensures Val(base, []) == 0
  {
  }

  lemma {:induction false} BytePowers(n: nat)
    ensures Pw(W, n) == Pw(256, 4 * n)
  {
    if n > 0 {
      BytePowers(n - 1);
      var p := Pw(256, 4 * (n - 1));
      assert Pw(256, 4 * n) == 256 * Pw(256, 4 * n - 1);
      assert Pw(256, 4 * n - 1) == 256 * Pw(256, 4 * n - 2);
      assert Pw(256, 4 * n - 2) == 256 * Pw(256, 4 * n - 3);
      assert Pw(256, 4 * n - 3) == 256 * p;
    }
  }

  lemma FourBytes(a: nat, b: nat, c: nat, d: nat, p: nat)
    ensures (a + b * 0x100 + c * 0x10000 + d * 0x1000000) * p
         == a * p + b * (256 * p) + c * (256 * (256 * p)) + d * (256 * (256 * (256 * p)))
  {
  }

  lemma StoreKeepsValue(ws: seq<nat>)
    requires Digits(W, ws)
    ensures Digits(256, StoreWords(ws)) && Val(256, StoreWords(ws)) == Val(W, ws)
  {
    hide Val, Pw;
    var s := StoreWords(ws);
    forall i | 0 <= i < |ws| ensures Load32(s, 4 * i) == ws[i] {
      SplitWord(ws[i]);
    }
    assert LoadWords(s) == ws;
    LoadKeepsValue(s);
  }

  lemma SplitWord(w: nat)
    requires w < W
    ensures w == w % 0x100 + w / 0x100 % 0x100 * 0x100 + w / 0x10000 % 0x100 * 0x10000
                 + w / 0x1000000 % 0x100 * 0x1000000
  {
    var a := w / 0x100;
    var b := a / 0x100;
    var c := b / 0x100;
    assert b == w / 0x10000 && c == w / 0x1000000;
  }
}
