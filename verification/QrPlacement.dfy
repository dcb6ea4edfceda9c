/** The zigzag order of the modules, shared by the writer and the reader of a symbol. */
module QrScan {

  datatype Pos = Pos(y: int, x: int)

  /** The right column of the `c`-th column pair; column 6 belongs to no pair. */
  function RightOf(size: nat, c: nat): int {
    var r := size - 1 - 2 * c;
    if r <= 6 then r - 1 else r
  }

  /** Pairs are scanned alternately upwards and downwards, the first one upwards. */
  predicate Upward(c: nat) {
    c % 2 == 0
  }

  function RowOf(size: nat, c: nat, v: nat): int {
    if Upward(c) then size - 1 - v else v
  }

  function RowPair(size: nat, c: nat, v: nat): seq<Pos> {
    [Pos(RowOf(size, c, v), RightOf(size, c)), Pos(RowOf(size, c, v), RightOf(size, c) - 1)]
  }

  /** The first `v` rows of a pair. */
  function Rows(size: nat, c: nat, v: nat): seq<Pos> {
    if v == 0 then [] else Rows(size, c, v - 1) + RowPair(size, c, v - 1)
  }

  /** The first `c` pairs. */
  function Pairs(size: nat, c: nat): seq<Pos> {
    if c == 0 then [] else Pairs(size, c - 1) + Rows(size, c - 1, size)
  }

  /** The whole scan. */
  function Scan(size: nat): seq<Pos> {
    Pairs(size, size / 2)
  }

  predicate InRows(size: nat, c: nat, v: nat, p: Pos) {
    && (p.x == RightOf(size, c) || p.x == RightOf(size, c) - 1)
    && if Upward(c) then size - v <= p.y < size else 0 <= p.y < v
  }

  predicate InPairs(size: nat, c: nat, p: Pos) {
    0 <= p.y < size && RightOf(size, c) < p.x < size && p.x != 6
  }

  /** No module twice. */
  ghost predicate Distinct(s: seq<Pos>) {
    forall i, j :: 0 <= i < j < |s| ==> s[i] != s[j]
  }

  lemma DistinctConcat(s: seq<Pos>, t: seq<Pos>)
    requires Distinct(s) && Distinct(t) && forall p :: p in s ==> p !in t
    ensures Distinct(s + t)
  {
    forall i, j | 0 <= i < j < |s + t|
      ensures (s + t)[i] != (s + t)[j]
    {
      if i < |s| <= j { assert s[i] in s && t[j - |s|] in t; }
    }
  }

  lemma {:induction false} RowsAre(size: nat, c: nat, v: nat)
    requires v <= size
    ensures Distinct(Rows(size, c, v)) && forall p :: p in Rows(size, c, v) <==> InRows(size, c, v, p)
  {
    if v > 0 {
      RowsAre(size, c, v - 1);
      DistinctConcat(Rows(size, c, v - 1), RowPair(size, c, v - 1));
    }
  }

  ghost predicate IsSymbolSize(size: nat) {
    size >= 21 && size % 4 == 1
  }

  lemma PairStep(size: nat, c: nat, p: Pos)
    requires IsSymbolSize(size) && c < size / 2
    ensures InPairs(size, c + 1, p) <==> InPairs(size, c, p) || InRows(size, c, size, p)
    ensures !(InPairs(size, c, p) && InRows(size, c, size, p))
  {
  }

  lemma {:induction false} PairsAre(size: nat, c: nat)
    requires IsSymbolSize(size) && c <= size / 2
    ensures Distinct(Pairs(size, c)) && forall p :: p in Pairs(size, c) <==> InPairs(size, c, p)
  {
    hide IsSymbolSize, Rows, InRows, RightOf, Distinct;
    if c == 0 {
      NoPairs(size);
    } else {
      var a, b := Pairs(size, c - 1), Rows(size, c - 1, size);
      PairsAre(size, c - 1);
      RowsAre(size, c - 1, size);
      forall p: Pos
        ensures (p in a + b <==> InPairs(size, c, p)) && !(p in a && p in b)
      {
        PairStep(size, c - 1, p);
        assert p in a + b <==> p in a || p in b;
      }
      DistinctConcat(a, b);
    }
  }

  lemma NoPairs(size: nat)
    requires IsSymbolSize(size)
    ensures Distinct([]) && forall p :: !InPairs(size, 0, p)
  {
  }

  /** The scan visits every module outside column 6 exactly once. */
  lemma ScanCovers(size: nat)
    requires IsSymbolSize(size)
    ensures Distinct(Scan(size))
    ensures forall p: Pos :: p in Scan(size) <==> 0 <= p.y < size && 0 <= p.x < size && p.x != 6
  {
    PairsAre(size, size / 2);
    assert RightOf(size, size / 2) == -1;
  }

  // ---------- the modules that carry data ----------

  /** The positions of `s` outside the function patterns. */
  function Free(reserved: Pos -> bool, s: seq<Pos>): (f: seq<Pos>)
    ensures |f| <= |s|
  {
    if s == [] then []
    else
      var p := s[|s| - 1];
      var f := Free(reserved, s[..|s| - 1]);
      if reserved(p) then f else f + [p]
  }

  lemma {:induction false} FreeConcat(reserved: Pos -> bool, s: seq<Pos>, t: seq<Pos>)
    ensures Free(reserved, s + t) == Free(reserved, s) + Free(reserved, t)
  {
    if t == [] {
      assert s + t == s;
    } else {
      assert (s + t)[..|s + t| - 1] == s + t[..|t| - 1];
      FreeConcat(reserved, s, t[..|t| - 1]);
    }
  }

  lemma {:induction false} FreeMember(reserved: Pos -> bool, s: seq<Pos>, i: nat)
    requires i < |Free(reserved, s)|
    ensures Free(reserved, s)[i] in s && !reserved(Free(reserved, s)[i])
  {
    var n := |s| - 1;
    assert forall p :: p in s[..n] ==> p in s;
    if i < |Free(reserved, s[..n])| { FreeMember(reserved, s[..n], i); }
  }

  lemma {:induction false} FreeHas(reserved: Pos -> bool, s: seq<Pos>, p: Pos)
    requires p in s && !reserved(p)
    ensures p in Free(reserved, s)
  {
    var n := |s| - 1;
    if p != s[n] {
      assert p in s[..n];
      FreeHas(reserved, s[..n], p);
    }
  }

  lemma {:induction false} FreeDistinct(reserved: Pos -> bool, s: seq<Pos>)
    requires Distinct(s)
    ensures Distinct(Free(reserved, s))
  {
    if s != [] {
      var n := |s| - 1;
      var f := Free(reserved, s[..n]);
      FreeDistinct(reserved, s[..n]);
      forall i | 0 <= i < |f|
        ensures f[i] != s[n]
      {
        FreeMember(reserved, s[..n], i);
      }
    }
  }

  /** The positions of the next row of a pair are new. */
  lemma NewRow(size: nat, c: nat, v: nat)
    requires IsSymbolSize(size) && c < size / 2 && v < size
    ensures var seen := Pairs(size, c) + Rows(size, c, v);
            var row := RowPair(size, c, v);
            && row[0] !in seen && row[1] !in seen && row[0] != row[1]
            && 0 <= row[0].y < size && 0 <= row[0].x < size && 0 <= row[1].y < size && 0 <= row[1].x < size
  {
    hide Pairs, Rows;
    PairsAre(size, c);
    RowsAre(size, c, v);
    var row, a, b := RowPair(size, c, v), Pairs(size, c), Rows(size, c, v);
    RowIsNew(size, c, v);
    assert forall p :: p in a + b ==> p in a || p in b;
  }

  lemma RowIsNew(size: nat, c: nat, v: nat)
    requires IsSymbolSize(size) && c < size / 2 && v < size
    ensures var row := RowPair(size, c, v);
            && forall k :: 0 <= k < 2 ==> !InPairs(size, c, row[k]) && !InRows(size, c, v, row[k])
                                          && 0 <= row[k].y < size && 0 <= row[k].x < size
  {
  }

  /** The directions alternate as the column number says. */
  lemma Direction(size: nat, c: nat)
    requires IsSymbolSize(size) && c < size / 2
    ensures size > RightOf(size, c) >= 1 && ((RightOf(size, c) + 1) / 2 % 2 == 0 <==> Upward(c))
  {
  }

  lemma NothingScanned(reserved: Pos -> bool, size: nat)
    ensures Free(reserved, Pairs(size, 0)) == []
  {
  }

  lemma NoRows(size: nat, c: nat)
    ensures Pairs(size, c) + Rows(size, c, 0) == Pairs(size, c)
  {
  }

  lemma NextPair(size: nat, c: nat)
    ensures Pairs(size, c + 1) == Pairs(size, c) + Rows(size, c, size)
  {
  }

  /** What a row adds to the free positions. */
  lemma RowIs(reserved: Pos -> bool, size: nat, c: nat, v: nat)
    requires IsSymbolSize(size) && c < size / 2 && v < size
    ensures var f, row := Free(reserved, Pairs(size, c) + Rows(size, c, v)), RowPair(size, c, v);
            var f1 := if reserved(row[0]) then f else f + [row[0]];
            && row == [Pos(RowOf(size, c, v), RightOf(size, c)), Pos(RowOf(size, c, v), RightOf(size, c) - 1)]
            && row[0] !in f && row[1] !in f1
            && Free(reserved, Pairs(size, c) + Rows(size, c, v + 1)) == if reserved(row[1]) then f1 else f1 + [row[1]]
  {
    hide Free, Pairs;
    NewRow(size, c, v);
    var s, row := Pairs(size, c) + Rows(size, c, v), RowPair(size, c, v);
    FreeNext(reserved, s, row[0]);
    FreeNext(reserved, s + [row[0]], row[1]);
    assert Pairs(size, c) + Rows(size, c, v + 1) == s + [row[0]] + [row[1]];
  }

  /** The free positions only grow along the scan. */
  lemma {:induction false} FreeGrows(reserved: Pos -> bool, size: nat, c: nat, v: nat)
    requires IsSymbolSize(size) && c < size / 2 && v <= size
    ensures |Free(reserved, Pairs(size, c) + Rows(size, c, v))| <= |Free(reserved, Scan(size))|
    decreases size / 2 - c, size - v
  {
    hide Pairs, Rows, Free, IsSymbolSize;
    if v < size {
      RowIs(reserved, size, c, v);
      FreeGrows(reserved, size, c, v + 1);
    } else {
      NextPair(size, c);
      NoRows(size, c + 1);
      if c + 1 < size / 2 { FreeGrows(reserved, size, c + 1, 0); }
    }
  }

  /** One more position is free or reserved. */
  lemma FreeNext(reserved: Pos -> bool, s: seq<Pos>, p: Pos)
    requires p !in s
    ensures var f := Free(reserved, s);
            p !in f && Free(reserved, s + [p]) == if reserved(p) then f else f + [p]
  {
    assert (s + [p])[..|s|] == s;
    if p in Free(reserved, s) {
      var i :| 0 <= i < |Free(reserved, s)| && Free(reserved, s)[i] == p;
      FreeMember(reserved, s, i);
    }
  }
}

/** Writing codewords into a symbol and masking it (`qrcodegen.cpp`). */
module QrDraw {
  import opened Arith
  import opened QrBits
  import opened QrScan

  /** The mask patterns of applyMask, at column `x` and row `y`. */
  predicate Inverts(msk: nat, x: nat, y: nat)
    requires msk <= 7
  {
    match msk
    case 0 => (x + y) % 2 == 0
    case 1 => y % 2 == 0
    case 2 => x % 3 == 0
    case 3 => (x + y) % 3 == 0
    case 4 => (x / 3 + y / 2) % 2 == 0
    case 5 => x * y % 2 + x * y % 3 == 0
    case 6 => (x * y % 2 + x * y % 3) % 2 == 0
    case 7 => ((x + y) % 2 + x * y % 3) % 2 == 0
  }

  /** The tiles of the patterns (section 7.8.2 of ISO/IEC 18004:2015): the rows from the top, inverted modules as '#'. */
  const TILES: seq<seq<string>> := [
    ["#.", ".#"],
    ["#", "."],
    ["#.."],
    ["#..", "..#", ".#."],
    ["###...", "###...", "...###", "...###"],
    ["######", "#.....", "#..#..", "#.#.#.", "#..#..", "#....."],
    ["######", "###...", "##.##.", "#.#.#.", "#.##.#", "#...##"],
    ["#.#.#.", "...###", "#...##", ".#.#.#", "###...", ".###.."]]

  function Tile(msk: nat, x: nat, y: nat): char
    requires msk <= 7
  {
    TileShape(msk);
    TILES[msk][y % |TILES[msk]|][x % |TILES[msk][0]|]
  }

  lemma TileShape(msk: nat)
    requires msk <= 7
    ensures |TILES| == 8 && |TILES[msk]| > 0 && |TILES[msk][0]| > 0
    ensures forall r :: 0 <= r < |TILES[msk]| ==> |TILES[msk][r]| == |TILES[msk][0]|
  {
    if msk < 4 {
      if msk == 0 {} else if msk == 1 {} else if msk == 2 {} else {}
    } else {
      if msk == 4 {} else if msk == 5 {} else if msk == 6 {} else {}
    }
  }

  /** Every mask repeats its tile. */
  lemma MaskIsTile(msk: nat, x: nat, y: nat)
    requires msk <= 7
    ensures Inverts(msk, x, y) <==> Tile(msk, x, y) == '#'
  {
    if msk < 4 {
      SmallMasks(msk, x, y);
    } else if msk == 4 {
      ThirdsAndHalves(x, y);
    } else {
      LargeMasks(msk, x, y);
    }
  }

  lemma SmallMasks(msk: nat, x: nat, y: nat)
    requires msk < 4
    ensures Inverts(msk, x, y) <==> Tile(msk, x, y) == '#'
  {
    TileShape(msk);
    if msk == 0 {
      assert x % 2 == 0 || x % 2 == 1;
    } else if msk == 1 {
    } else if msk == 2 {
    } else {
      assert x % 3 == 0 || x % 3 == 1 || x % 3 == 2;
      assert y % 3 == 0 || y % 3 == 1 || y % 3 == 2;
    }
  }

  lemma ThirdsAndHalves(x: nat, y: nat)
    ensures Inverts(4, x, y) <==> Tile(4, x, y) == '#'
  {
    TileShape(4);
    assert x / 3 % 2 == (if x % 6 < 3 then 0 else 1) && y / 2 % 2 == (if y % 4 < 2 then 0 else 1);
    assert (x / 3 + y / 2) % 2 == 0 <==> x / 3 % 2 == y / 2 % 2;
    UpperTile(x % 6, y % 4);
  }

  lemma UpperTile(a: nat, b: nat)
    requires a < 6 && b < 4
    ensures |TILES| == 8 && |TILES[4]| == 4 && |TILES[4][b]| == 6
    ensures TILES[4][b][a] == '#' <==> (a < 3 <==> b < 2)
  {
    if b == 0 { if a == 0 {} else if a == 1 {} else if a == 2 {} else if a == 3 {} else if a == 4 {} else {} }
    else if b == 1 { if a == 0 {} else if a == 1 {} else if a == 2 {} else if a == 3 {} else if a == 4 {} else {} }
    else if b == 2 { if a == 0 {} else if a == 1 {} else if a == 2 {} else if a == 3 {} else if a == 4 {} else {} }
    else { if a == 0 {} else if a == 1 {} else if a == 2 {} else if a == 3 {} else if a == 4 {} else {} }
  }

  lemma LargeMasks(msk: nat, x: nat, y: nat)
    requires 5 <= msk <= 7
    ensures Inverts(msk, x, y) <==> Tile(msk, x, y) == '#'
  {
    hide Inverts;
    TileShape(msk);
    SixByRest(msk, x, y);
    var a, b := x % 6, y % 6;
    if msk == 5 {
      if b < 3 { UpperFifthTile(a, b); } else { LowerFifthTile(a, b); }
    } else if msk == 6 {
      if b < 3 { UpperSixthTile(a, b); } else { LowerSixthTile(a, b); }
    } else {
      if b < 3 { UpperSeventhTile(a, b); } else { LowerSeventhTile(a, b); }
    }
  }

  /** The last three masks only depend on the remainders modulo 6. */
  lemma SixByRest(msk: nat, x: nat, y: nat)
    requires 5 <= msk <= 7
    ensures Inverts(msk, x, y) == Inverts(msk, x % 6, y % 6)
  {
    ProductRest(x, y);
    SumRest(x, y);
    if msk == 5 {} else if msk == 6 {} else {}
  }

  lemma SumRest(x: nat, y: nat)
    ensures (x + y) % 2 == (x % 6 + y % 6) % 2
  {
    assert x == 6 * (x / 6) + x % 6 && y == 6 * (y / 6) + y % 6;
    Multiple(x / 6 + y / 6, x % 6 + y % 6);
  }

  /** The remainder of a product is that of the remainders. */
  lemma ProductRest(x: nat, y: nat)
    ensures x * y % 2 == (x % 6) * (y % 6) % 2 && x * y % 3 == (x % 6) * (y % 6) % 3
  {
    var p, a, q, b := x / 6, x % 6, y / 6, y % 6;
    assert x * y == (6 * p + a) * (6 * q + b);
    var t := 6 * p * q + p * b + a * q;
    assert (6 * p + a) * (6 * q + b) == 6 * t + a * b;
    Multiple(t, a * b);
  }

  lemma Multiple(t: int, r: int)
    ensures (6 * t + r) % 2 == r % 2 && (6 * t + r) % 3 == r % 3
  {
    DivUnique(6 * t + r, 2, 3 * t + r / 2, r % 2);
    DivUnique(6 * t + r, 3, 2 * t + r / 3, r % 3);
  }

  lemma UpperFifthTile(a: nat, b: nat)
    requires a < 6 && 0 <= b < 3
    ensures |TILES| == 8 && |TILES[5]| == 6 && |TILES[5][b]| == 6
    ensures Inverts(5, a, b) <==> TILES[5][b][a] == '#'
  {
    if b == 0 { if a == 0 {} else if a == 1 {} else if a == 2 {} else if a == 3 {} else if a == 4 {} else {} }
    else if b == 1 { if a == 0 {} else if a == 1 {} else if a == 2 {} else if a == 3 {} else if a == 4 {} else {} }
    else { if a == 0 {} else if a == 1 {} else if a == 2 {} else if a == 3 {} else if a == 4 {} else {} }
  }

  lemma LowerFifthTile(a: nat, b: nat)
    requires a < 6 && 3 <= b < 6
    ensures |TILES| == 8 && |TILES[5]| == 6 && |TILES[5][b]| == 6
    ensures Inverts(5, a, b) <==> TILES[5][b][a] == '#'
  {
    if b == 3 { if a == 0 {} else if a == 1 {} else if a == 2 {} else if a == 3 {} else if a == 4 {} else {} }
    else if b == 4 { if a == 0 {} else if a == 1 {} else if a == 2 {} else if a == 3 {} else if a == 4 {} else {} }
    else { if a == 0 {} else if a == 1 {} else if a == 2 {} else if a == 3 {} else if a == 4 {} else {} }
  }

  lemma UpperSixthTile(a: nat, b: nat)
    requires a < 6 && 0 <= b < 3
    ensures |TILES| == 8 && |TILES[6]| == 6 && |TILES[6][b]| == 6
    ensures Inverts(6, a, b) <==> TILES[6][b][a] == '#'
  {
    if b == 0 { if a == 0 {} else if a == 1 {} else if a == 2 {} else if a == 3 {} else if a == 4 {} else {} }
    else if b == 1 { if a == 0 {} else if a == 1 {} else if a == 2 {} else if a == 3 {} else if a == 4 {} else {} }
    else { if a == 0 {} else if a == 1 {} else if a == 2 {} else if a == 3 {} else if a == 4 {} else {} }
  }

  lemma LowerSixthTile(a: nat, b: nat)
    requires a < 6 && 3 <= b < 6
    ensures |TILES| == 8 && |TILES[6]| == 6 && |TILES[6][b]| == 6
    ensures Inverts(6, a, b) <==> TILES[6][b][a] == '#'
  {
    if b == 3 { if a == 0 {} else if a == 1 {} else if a == 2 {} else if a == 3 {} else if a == 4 {} else {} }
    else if b == 4 { if a == 0 {} else if a == 1 {} else if a == 2 {} else if a == 3 {} else if a == 4 {} else {} }
    else { if a == 0 {} else if a == 1 {} else if a == 2 {} else if a == 3 {} else if a == 4 {} else {} }
  }

  lemma UpperSeventhTile(a: nat, b: nat)
    requires a < 6 && 0 <= b < 3
    ensures |TILES| == 8 && |TILES[7]| == 6 && |TILES[7][b]| == 6
    ensures Inverts(7, a, b) <==> TILES[7][b][a] == '#'
  {
    if b == 0 { if a == 0 {} else if a == 1 {} else if a == 2 {} else if a == 3 {} else if a == 4 {} else {} }
    else if b == 1 { if a == 0 {} else if a == 1 {} else if a == 2 {} else if a == 3 {} else if a == 4 {} else {} }
    else { if a == 0 {} else if a == 1 {} else if a == 2 {} else if a == 3 {} else if a == 4 {} else {} }
  }

  lemma LowerSeventhTile(a: nat, b: nat)
    requires a < 6 && 3 <= b < 6
    ensures |TILES| == 8 && |TILES[7]| == 6 && |TILES[7][b]| == 6
    ensures Inverts(7, a, b) <==> TILES[7][b][a] == '#'
  {
    if b == 3 { if a == 0 {} else if a == 1 {} else if a == 2 {} else if a == 3 {} else if a == 4 {} else {} }
    else if b == 4 { if a == 0 {} else if a == 1 {} else if a == 2 {} else if a == 3 {} else if a == 4 {} else {} }
    else { if a == 0 {} else if a == 1 {} else if a == 2 {} else if a == 3 {} else if a == 4 {} else {} }
  }

  class QrCode {
    const size: nat
    const modules: array2<bool>
    const isFunction: array2<bool>

    ghost predicate Valid(reserved: Pos -> bool)
      reads this, modules, isFunction
    {
      && IsSymbolSize(size) && modules as object != isFunction
      && modules.Length0 == modules.Length1 == isFunction.Length0 == isFunction.Length1 == size
      && forall y, x :: 0 <= y < size && 0 <= x < size ==> isFunction[y, x] == reserved(Pos(y, x))
    }

    constructor (size: nat, isFunction: array2<bool>)
      requires isFunction.Length0 == isFunction.Length1 == size
      ensures this.size == size && this.isFunction == isFunction && fresh(modules)
      ensures modules.Length0 == modules.Length1 == size
      ensures forall y, x :: 0 <= y < size && 0 <= x < size ==> !modules[y, x]
    {
      this.size, this.isFunction := size, isFunction;
      modules := new bool[size, size]((_, _) => false);
    }

    ghost predicate Inside(p: Pos) {
      0 <= p.y < size && 0 <= p.x < size
    }

    ghost function At(p: Pos): bool
      requires modules.Length0 == modules.Length1 == size && Inside(p)
      reads modules
    {
      modules[p.y, p.x]
    }

    /** All modules at a glance. */
    ghost function Grid(): (g: imap<Pos, bool>)
      requires modules.Length0 == modules.Length1 == size
      reads modules
      ensures forall p :: p in g <==> Inside(p)
    {
      imap p: Pos | Inside(p) :: At(p)
    }

    /** The first `i` bits of the data stand in the free positions `f`; nothing else differs from `before`. */
    ghost predicate Drawn(before: imap<Pos, bool>, f: seq<Pos>, data: seq<nat>, i: nat)
      requires modules.Length0 == modules.Length1 == size && forall p :: Inside(p) ==> p in before
      reads modules
    {
      && i == Min(|f|, 8 * |data|)
      && (forall b :: 0 <= b < |f| ==> Inside(f[b]))
      && (forall b :: 0 <= b < i ==> At(f[b]) == BitAt(data, b))
      && (forall p :: Inside(p) && p !in f[..i] ==> At(p) == before[p])
    }

    /** The innermost step of the scan. */
    method DrawModule(x: nat, y: nat, data: seq<nat>, i: nat, ghost before: imap<Pos, bool>, ghost f: seq<Pos>,
                      ghost reserved: Pos -> bool) returns (i': nat, ghost f': seq<Pos>)
      requires Valid(reserved) && (forall p :: Inside(p) ==> p in before) && Drawn(before, f, data, i)
      requires x < size && y < size && Pos(y, x) !in f
      modifies modules
      ensures f' == if reserved(Pos(y, x)) then f else f + [Pos(y, x)]
      ensures Drawn(before, f', data, i')
    {
      hide BitAt, GetBit;
      i', f' := i, f;
      ghost var p := Pos(y, x);
      if !isFunction[y, x] {
        f' := f + [p];
        if i < 8 * |data| {
          BitIs(data, i);
          modules[y, x] := GetBit(data[i / 8], 7 - i % 8);
          i' := i + 1;
          assert f'[..i'] == f + [p] && f[..i] == f;
        } else {
          assert f'[..i'] == f[..i];
        }
      }
    }

    /** Two columns, upwards or downwards. */
    method DrawPair(right: nat, data: seq<nat>, start: nat, ghost c: nat, ghost before: imap<Pos, bool>, ghost seen: seq<Pos>,
                    ghost reserved: Pos -> bool) returns (i: nat, ghost f: seq<Pos>)
      requires Valid(reserved) && (forall p :: Inside(p) ==> p in before) && Drawn(before, seen, data, start)
      requires c < size / 2 && right == RightOf(size, c) && seen == Free(reserved, Pairs(size, c))
      modifies modules
      ensures f == Free(reserved, Pairs(size, c + 1)) && Drawn(before, f, data, i)
    {
      hide Pairs, Rows, Free, Drawn, RowPair, IsSymbolSize, RightOf;
      i, f := start, seen;
      NoRows(size, c);
      Direction(size, c);
      for vert := 0 to size
        invariant f == Free(reserved, Pairs(size, c) + Rows(size, c, vert)) && Drawn(before, f, data, i)
      {
        var upward := (right + 1) / 2 % 2 == 0;
        var y := if upward then size - 1 - vert else vert;
        RowIs(reserved, size, c, vert);
        i, f := DrawModule(right, y, data, i, before, f, reserved);
        i, f := DrawModule(right - 1, y, data, i, before, f, reserved);
      }
      NextPair(size, c);
    }

    /** Draws the bits of the data into the free modules in scan order, as many as there is room for. */
    method DrawCodewords(data: seq<nat>, ghost reserved: Pos -> bool)
      requires Valid(reserved)
      modifies modules
      ensures var f := Free(reserved, Scan(size)); Drawn(old(Grid()), f, data, Min(|f|, 8 * |data|))
    {
      hide Pairs, Free, Drawn;
      ghost var before := Grid();
      ghost var f := [];
      var i := 0;
      ghost var c := 0;
      NothingScanned(reserved, size);
      NothingDrawn(data);
      var right := size - 1;
      while right >= 1
        invariant c <= size / 2 && (right == RightOf(size, c) || (right == 6 && RightOf(size, c) == 5))
        invariant f == Free(reserved, Pairs(size, c)) && Drawn(before, f, data, i)
      {
        if right == 6 { right := 5; }
        i, f := DrawPair(right, data, i, c, before, f, reserved);
        right := right - 2;
        c := c + 1;
      }
      assert c == size / 2;
      assert i == Min(|f|, 8 * |data|) by { DrawnCount(before, f, data, i); }
    }

    /** Inverts the modules outside the function patterns that the mask selects. */
    method ApplyMask(msk: int) returns (ok: bool)
      requires modules.Length0 == modules.Length1 == isFunction.Length0 == isFunction.Length1 == size
      requires modules as object != isFunction
      modifies modules
      ensures ok == (0 <= msk <= 7)
      ensures forall p :: Inside(p) ==>
                At(p) == (old(At(p)) != (ok && Inverts(msk, p.x, p.y) && !isFunction[p.y, p.x]))
    {
      if msk < 0 || msk > 7 { return false; }
      hide Inverts;
      for y := 0 to size
        invariant forall p :: Inside(p) ==>
                    At(p) == (old(At(p)) != (p.y < y && Inverts(msk, p.x, p.y) && !isFunction[p.y, p.x]))
      {
        for x := 0 to size
          invariant forall p :: Inside(p) ==>
                      At(p) == (old(At(p)) != ((p.y < y || (p.y == y && p.x < x)) && Inverts(msk, p.x, p.y) && !isFunction[p.y, p.x]))
        {
          var invert := Inverts(msk, x, y);
          modules[y, x] := modules[y, x] != (invert && !isFunction[y, x]);
        }
      }
      ok := true;
    }

    lemma DrawnCount(before: imap<Pos, bool>, f: seq<Pos>, data: seq<nat>, i: nat)
      requires modules.Length0 == modules.Length1 == size && (forall p :: Inside(p) ==> p in before)
      requires Drawn(before, f, data, i)
      ensures i == Min(|f|, 8 * |data|)
    {
    }

    lemma NothingDrawn(data: seq<nat>)
      requires modules.Length0 == modules.Length1 == size
      ensures Drawn(Grid(), [], data, 0)
    {
    }
  }

  lemma BitIs(data: seq<nat>, i: nat)
    requires i < 8 * |data|
    ensures BitAt(data, i) == GetBit(data[i / 8], 7 - i % 8)
  {
  }
}

/** Reading the bits of a symbol back (`decode.c`). */
module QrRead {
  import opened ByteWords
  import opened QrBits
  import opened QrScan
  import QrDraw

  /** mask_bit at row `i`, column `j`. */
  predicate MaskBit(mask: int, i: nat, j: nat) {
    match mask
    case 0 => (i + j) % 2 == 0
    case 1 => i % 2 == 0
    case 2 => j % 3 == 0
    case 3 => (i + j) % 3 == 0
    case 4 => (i / 2 + j / 3) % 2 == 0
    case 5 => i * j % 2 + i * j % 3 == 0
    case 6 => (i * j % 2 + i * j % 3) % 2 == 0
    case 7 => (i * j % 3 + (i + j) % 2) % 2 == 0
    case _ => false
  }

  /** Writer and reader mean the same masks. */
  lemma MasksAgree(mask: nat, y: nat, x: nat)
    requires mask <= 7
    ensures MaskBit(mask, y, x) == QrDraw.Inverts(mask, x, y)
  {
    assert x * y == y * x;
  }

  class Datastream {
    const raw: array<nat>
    var data_bits: nat

    constructor (capacity: nat)
      ensures data_bits == 0 && fresh(raw) && raw.Length == capacity && Holds([])
    {
      data_bits := 0;
      raw := new nat[capacity](_ => 0);
    }

    /** The bits read so far, packed into the buffer. */
    ghost predicate Holds(bits: seq<bool>)
      reads this, raw
    {
      data_bits == |bits| && raw[..] == Packed(bits, raw.Length)
    }

    /** read_bit: one unmasked bit at the end. */
    method ReadBit(grid: array2<bool>, mask: int, i: nat, j: nat, ghost bits: seq<bool>)
      requires i < grid.Length0 && j < grid.Length1 && Holds(bits) && data_bits < 8 * raw.Length
      modifies this, raw
      ensures Holds(bits + [grid[i, j] != MaskBit(mask, i, j)])
    {
      hide MaskBit, Packed, Byte;
      var bitpos := data_bits % 8;
      var bytepos := data_bits / 8;
      var v := grid[i, j];
      if MaskBit(mask, i, j) { v := !v; }
      BitAppended(bits, raw.Length, v);
      assert raw[bytepos] == raw[..][bytepos];
      if v {
        raw[bytepos] := Join(Place(7 - bitpos), raw[bytepos], Place(8 - bitpos));
      } else {
        assert raw[..] == raw[..][bytepos := raw[bytepos]];
      }
      data_bits := data_bits + 1;
    }
  }

  /** The unmasked bits at the given positions. */
  ghost function BitsAt(grid: array2<bool>, mask: int, f: seq<Pos>): (bits: seq<bool>)
    requires forall b :: 0 <= b < |f| ==> InGrid(grid, f[b])
    reads grid
    ensures |bits| == |f|
  {
    seq(|f|, (b: nat) requires b < |f| && InGrid(grid, f[b]) reads grid => grid[f[b].y, f[b].x] != MaskBit(mask, f[b].y, f[b].x))
  }

  predicate InGrid(grid: array2<bool>, p: Pos) {
    0 <= p.y < grid.Length0 && 0 <= p.x < grid.Length1
  }

  /** Reads a position if it carries data. */
  method ReadCell(ds: Datastream, grid: array2<bool>, mask: int, reserved: Pos -> bool, y: nat, x: nat, ghost f: seq<Pos>)
    returns (ghost f': seq<Pos>)
    requires y < grid.Length0 && x < grid.Length1 && forall b :: 0 <= b < |f| ==> InGrid(grid, f[b])
    requires ds.Holds(BitsAt(grid, mask, f)) && (reserved(Pos(y, x)) || |f| < 8 * ds.raw.Length)
    modifies ds, ds.raw
    ensures f' == if reserved(Pos(y, x)) then f else f + [Pos(y, x)]
    ensures forall b :: 0 <= b < |f'| ==> InGrid(grid, f'[b])
    ensures ds.Holds(BitsAt(grid, mask, f'))
  {
    hide Packed, MaskBit;
    f' := f;
    if !reserved(Pos(y, x)) {
      f' := f + [Pos(y, x)];
      ghost var bits := BitsAt(grid, mask, f);
      ds.ReadBit(grid, mask, y, x, bits);
      assert BitsAt(grid, mask, f') == bits + [grid[y, x] != MaskBit(mask, y, x)];
    }
  }

  /** The state of the reader's walk: row `n` of pair `c` is next. */
  ghost predicate Walk(size: nat, c: nat, n: nat, y: int, x: int, dir: int) {
    && c <= size / 2 && n < size
    && if c == size / 2 then x <= 0 && n == 0
       else y == RowOf(size, c, n) && dir == (if Upward(c) then -1 else 1)
            && (x == RightOf(size, c) || (n == 0 && x == 6 && RightOf(size, c) == 5))
  }

  lemma WalkAt(size: nat, c: nat, n: nat, y: int, x: int, dir: int)
    requires IsSymbolSize(size) && Walk(size, c, n, y, x, dir) && x > 0
    ensures var x' := if x == 6 then 5 else x;
            && c < size / 2 && n < size && 0 <= y < size && 1 <= x' < size
            && y == RowOf(size, c, n) && x' == RightOf(size, c) && Walk(size, c, n, y, x', dir)
  {
  }

  lemma WalkStarts(size: nat)
    requires IsSymbolSize(size)
    ensures Walk(size, 0, 0, size - 1, size - 1, -1)
  {
  }

  lemma WalkEnds(size: nat, c: nat, n: nat, y: int, x: int, dir: int)
    requires IsSymbolSize(size) && Walk(size, c, n, y, x, dir) && x <= 0
    ensures c == size / 2 && n == 0
  {
  }

  lemma NothingRead(grid: array2<bool>, mask: int)
    ensures BitsAt(grid, mask, []) == []
  {
  }

  /** A step down or up the column pair, turning round at the edge. */
  lemma WalkOn(size: nat, c: nat, n: nat, y: int, x: int, dir: int)
    requires IsSymbolSize(size) && c < size / 2 && Walk(size, c, n, y, x, dir) && x == RightOf(size, c)
    ensures 0 <= y + dir < size <==> n + 1 < size
    ensures n + 1 < size ==> Walk(size, c, n + 1, y + dir, x, dir)
    ensures n + 1 == size ==> Walk(size, c + 1, 0, y, x - 2, 0 - dir)
  {
  }

  /** The two modules of a row of a column pair. */
  method ReadRow(ds: Datastream, grid: array2<bool>, mask: int, reserved: Pos -> bool, y: nat, x: nat,
                 ghost c: nat, ghost n: nat, ghost f: seq<Pos>) returns (ghost f': seq<Pos>)
    requires IsSymbolSize(grid.Length0) && grid.Length1 == grid.Length0 && c < grid.Length0 / 2 && n < grid.Length0
    requires y == RowOf(grid.Length0, c, n) && x == RightOf(grid.Length0, c) && 1 <= x < grid.Length0 && y < grid.Length0
    requires f == Free(reserved, Pairs(grid.Length0, c) + Rows(grid.Length0, c, n))
    requires |Free(reserved, Scan(grid.Length0))| <= 8 * ds.raw.Length
    requires forall b :: 0 <= b < |f| ==> InGrid(grid, f[b])
    requires ds.Holds(BitsAt(grid, mask, f))
    modifies ds, ds.raw
    ensures f' == Free(reserved, Pairs(grid.Length0, c) + Rows(grid.Length0, c, n + 1))
    ensures forall b :: 0 <= b < |f'| ==> InGrid(grid, f'[b])
    ensures ds.Holds(BitsAt(grid, mask, f'))
  {
    hide Pairs, Rows, RowPair, Free, Packed, MaskBit, Scan;
    RowIs(reserved, grid.Length0, c, n);
    FreeGrows(reserved, grid.Length0, c, n + 1);
    f' := ReadCell(ds, grid, mask, reserved, y, x, f);
    f' := ReadCell(ds, grid, mask, reserved, y, x - 1, f');
  }

  /** read_data: all free modules, in the order of the scan. */
  method ReadData(ds: Datastream, grid: array2<bool>, mask: int, reserved: Pos -> bool)
    requires IsSymbolSize(grid.Length0) && grid.Length1 == grid.Length0
    requires ds.Holds([]) && |Free(reserved, Scan(grid.Length0))| <= 8 * ds.raw.Length
    modifies ds, ds.raw
    ensures forall b :: 0 <= b < |Free(reserved, Scan(grid.Length0))| ==> InGrid(grid, Free(reserved, Scan(grid.Length0))[b])
    ensures ds.Holds(BitsAt(grid, mask, Free(reserved, Scan(grid.Length0))))
  {
    hide Pairs, Rows, RowPair, Free, Packed, MaskBit, Walk;
    var size := grid.Length0;
    ghost var f: seq<Pos>, c: nat, n: nat := [], 0, 0;
    var y, x, dir := size - 1, size - 1, -1;
    NothingScanned(reserved, size);
    NoRows(size, 0);
    WalkStarts(size);
    NothingRead(grid, mask);
    while x > 0
      invariant Walk(size, c, n, y, x, dir)
      invariant f == Free(reserved, Pairs(size, c) + Rows(size, c, n))
      invariant forall b :: 0 <= b < |f| ==> InGrid(grid, f[b])
      invariant ds.Holds(BitsAt(grid, mask, f))
      decreases size / 2 - c, size - n
    {
      WalkAt(size, c, n, y, x, dir);
      if x == 6 { x := x - 1; }
      f := ReadRow(ds, grid, mask, reserved, y, x, c, n, f);
      WalkOn(size, c, n, y, x, dir);
      y := y + dir;
      n := n + 1;
      if y < 0 || y >= size {
        dir := 0 - dir;
        x := x - 2;
        y := y + dir;
        NextPair(size, c);
        NoRows(size, c + 1);
        c, n := c + 1, 0;
      }
    }
    WalkEnds(size, c, n, y, x, dir);
    NoRows(size, c);
  }

  /** Writing, masking and reading back: the codewords come out in order, followed by zero bits only. */
  method WriteMaskRead(size: nat, isFunction: array2<bool>, reserved: Pos -> bool, data: seq<nat>, msk: nat, capacity: nat)
    returns (ds: Datastream)
    requires IsSymbolSize(size) && isFunction.Length0 == isFunction.Length1 == size && msk <= 7
    requires forall y, x :: 0 <= y < size && 0 <= x < size ==> isFunction[y, x] == reserved(Pos(y, x))
    requires forall k :: 0 <= k < |data| ==> data[k] < 256
    requires 8 * |data| <= |Free(reserved, Scan(size))| <= 8 * capacity
    ensures ds.data_bits == |Free(reserved, Scan(size))|
    ensures ds.raw[..] == data + seq(capacity - |data|, _ => 0)
  {
    hide Free, Scan, Packed;
    ghost var f := Free(reserved, Scan(size));
    var qr := new QrDraw.QrCode(size, isFunction);
    qr.DrawCodewords(data, reserved);
    ghost var drawn := qr.Grid();
    var ok := qr.ApplyMask(msk);
    ds := new Datastream(capacity);
    ReadData(ds, qr.modules, msk, reserved);
    ghost var zeros := |f| - 8 * |data|;
    forall b | 0 <= b < |f|
      ensures BitsAt(qr.modules, msk, f)[b] == (BitsOf(data) + seq(zeros, _ => false))[b]
    {
      FreeMember(reserved, Scan(size), b);
      MasksAgree(msk, f[b].y, f[b].x);
      ScanCovers(size);
      FreeDistinct(reserved, Scan(size));
    }
    assert BitsAt(qr.modules, msk, f) == BitsOf(data) + seq(zeros, _ => false);
    PackRoundTrip(data, zeros, capacity);
  }
}
