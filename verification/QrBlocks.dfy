/**
 * A symbol's codewords: the generator splits the data into blocks, completes and interleaves them; the reader
 * gathers each block again and corrects it.
 */
module QrBlocks {
  import opened Arith
  import opened Bits
  import opened Gf256
  import opened ReedSolomon
  import opened QuircEcc
  import opened QrEcc

  /** `ns` short blocks of `sd` data bytes, then `lb` blocks with one more; `npar` parity bytes each. */
  datatype Layout = Layout(ns: nat, lb: nat, sd: nat, npar: nat) {
    function Blocks(): nat { ns + lb }

    function DataLen(j: nat): nat { if j < ns then sd else sd + 1 }

    function BlockLen(j: nat): nat { DataLen(j) + npar }

    /** The first position of row `i` in the interleaved sequence; row `sd` holds large blocks only. */
    function RowStart(i: nat): nat {
      if i == 0 then 0 else RowStart(i - 1) + if i - 1 == sd then lb else ns + lb
    }

    /** Where byte `i` of the padded block `j` is sent. */
    function Sent(j: nat, i: nat): nat
      requires i == sd ==> j >= ns
    {
      RowStart(i) + if i == sd then j - ns else j
    }

    /** The row of byte `b` of block `j`: short blocks have no byte in row `sd`. */
    function RowOf(j: nat, b: nat): nat {
      if j < ns && b >= sd then b + 1 else b
    }

    function Total(): nat {
      RowStart(sd + npar + 1)
    }

    lemma {:induction false} RowStartDense(i: nat)
      requires i <= sd
      ensures RowStart(i) == i * Blocks()
    {
      if i > 0 { RowStartDense(i - 1); }
    }

    lemma {:induction false} RowStartParity(k: nat)
      ensures RowStart(sd + 1 + k) == sd * Blocks() + lb + k * Blocks()
    {
      if k == 0 {
        RowStartDense(sd);
      } else {
        RowStartParity(k - 1);
        assert (k - 1) * Blocks() + Blocks() == k * Blocks();
      }
    }

    lemma {:induction false} RowStartMonotone(i: nat, n: nat)
      requires i <= n
      ensures RowStart(i) <= RowStart(n)
      decreases n
    {
      if i < n { RowStartMonotone(i, n - 1); }
    }

    lemma SentBound(j: nat, b: nat)
      requires j < Blocks() && b < BlockLen(j)
      ensures Sent(j, RowOf(j, b)) < Total()
    {
      RowStartMonotone(RowOf(j, b) + 1, sd + npar + 1);
    }
  }

  // ---------- the generator ----------

  ghost predicate AreCodewords(ws: seq<seq<byte>>, t: Layout) {
    && |ws| <= t.Blocks()
    && forall j :: 0 <= j < |ws| ==> |ws[j]| == t.BlockLen(j) && IsCodeword(ws[j], t.npar)
  }

  /** The data bytes of all blocks, one after the other. */
  ghost function DataOf(ws: seq<seq<byte>>, t: Layout): seq<byte>
    requires AreCodewords(ws, t)
  {
    if ws == [] then []
    else
      var n := |ws| - 1;
      DataOf(ws[..n], t) + ws[n][..t.DataLen(n)]
  }

  /** A block with a filler in the row that short blocks skip. */
  function Padded(w: seq<byte>, j: nat, t: Layout): (p: seq<byte>)
    requires |w| == t.BlockLen(j)
    ensures |p| == t.sd + 1 + t.npar
    ensures forall b :: 0 <= b < |w| ==> p[t.RowOf(j, b)] == w[b]
  {
    if j < t.ns then w[..t.sd] + [0] + w[t.sd..] else w
  }

  /** Row `i` of the first `n` blocks. */
  function Row(blocks: seq<seq<byte>>, i: nat, n: nat, t: Layout): (r: seq<byte>)
    requires n <= |blocks| && forall b :: b in blocks ==> |b| == t.sd + 1 + t.npar
    requires i < t.sd + 1 + t.npar
    ensures |r| == if i != t.sd then n else if n < t.ns then 0 else n - t.ns
  {
    if n == 0 then []
    else if i != t.sd || n - 1 >= t.ns then Row(blocks, i, n - 1, t) + [blocks[n - 1][i]]
    else Row(blocks, i, n - 1, t)
  }

  function Rows(blocks: seq<seq<byte>>, n: nat, t: Layout): (r: seq<byte>)
    requires |blocks| == t.Blocks() && forall b :: b in blocks ==> |b| == t.sd + 1 + t.npar
    requires n <= t.sd + 1 + t.npar
    ensures |r| == t.RowStart(n)
  {
    if n == 0 then [] else Rows(blocks, n - 1, t) + Row(blocks, n - 1, |blocks|, t)
  }

  lemma {:induction false} RowAt(blocks: seq<seq<byte>>, i: nat, n: nat, j: nat, t: Layout)
    requires n <= |blocks| && forall b :: b in blocks ==> |b| == t.sd + 1 + t.npar
    requires i < t.sd + 1 + t.npar && j < n && (i == t.sd ==> j >= t.ns)
    ensures Row(blocks, i, n, t)[if i == t.sd then j - t.ns else j] == blocks[j][i]
  {
    if j < n - 1 { RowAt(blocks, i, n - 1, j, t); }
  }

  /** Every byte is found where `Sent` says. */
  lemma {:induction false} RowsAt(blocks: seq<seq<byte>>, n: nat, j: nat, i: nat, t: Layout)
    requires |blocks| == t.Blocks() && forall b :: b in blocks ==> |b| == t.sd + 1 + t.npar
    requires i < n <= t.sd + 1 + t.npar && j < |blocks| && (i == t.sd ==> j >= t.ns)
    ensures t.Sent(j, i) < |Rows(blocks, n, t)| && Rows(blocks, n, t)[t.Sent(j, i)] == blocks[j][i]
  {
    if i < n - 1 {
      RowsAt(blocks, n - 1, j, i, t);
    } else {
      RowAt(blocks, i, |blocks|, j, t);
    }
  }

  /** `raw` carries byte `b` of block `j` at its place. */
  ghost predicate Carries(raw: seq<byte>, ws: seq<seq<byte>>, t: Layout) {
    && AreCodewords(ws, t) && |ws| == t.Blocks() && |raw| == t.Total()
    && forall j, b :: 0 <= j < |ws| && 0 <= b < |ws[j]| ==>
         t.Sent(j, t.RowOf(j, b)) < |raw| && raw[t.Sent(j, t.RowOf(j, b))] == ws[j][b]
  }

  /** The block structure computed from the version's constants. */
  function LayoutOf(numBlocks: nat, blockEccLen: nat, rawCodewords: nat): (t: Layout)
    requires numBlocks > 0 && blockEccLen * numBlocks <= rawCodewords
    ensures t.Blocks() == numBlocks && t.npar == blockEccLen
  {
    var numShortBlocks := numBlocks - rawCodewords % numBlocks;
    var shortBlockLen := rawCodewords / numBlocks;
    ShortLength(numBlocks, blockEccLen, rawCodewords);
    Layout(numShortBlocks, numBlocks - numShortBlocks, shortBlockLen - blockEccLen, blockEccLen)
  }

  lemma ShortLength(numBlocks: nat, blockEccLen: nat, rawCodewords: nat)
    requires numBlocks > 0 && blockEccLen * numBlocks <= rawCodewords
    ensures blockEccLen <= rawCodewords / numBlocks
  {
    assert rawCodewords == numBlocks * (rawCodewords / numBlocks) + rawCodewords % numBlocks;
    if rawCodewords / numBlocks < blockEccLen {
      MulGap(numBlocks, rawCodewords / numBlocks, blockEccLen);
    }
  }

  lemma LayoutTotal(numBlocks: nat, blockEccLen: nat, rawCodewords: nat)
    requires numBlocks > 0 && blockEccLen * numBlocks <= rawCodewords
    ensures LayoutOf(numBlocks, blockEccLen, rawCodewords).Total() == rawCodewords
  {
    var t := LayoutOf(numBlocks, blockEccLen, rawCodewords);
    t.RowStartParity(t.npar);
    var q := rawCodewords / numBlocks;
    assert (q - blockEccLen) * numBlocks + blockEccLen * numBlocks == q * numBlocks;
  }

  /** Off(j): the data bytes before block `j`. */
  function DataStart(j: nat, t: Layout): nat {
    if j == 0 then 0 else DataStart(j - 1, t) + t.DataLen(j - 1)
  }

  lemma {:induction false} DataStartClosed(j: nat, t: Layout)
    ensures DataStart(j, t) == j * t.sd + if j < t.ns then 0 else j - t.ns
  {
    if j > 0 {
      DataStartClosed(j - 1, t);
      assert (j - 1) * t.sd + t.sd == j * t.sd;
    }
  }

  lemma {:induction false} DataStartMonotone(i: nat, j: nat, t: Layout)
    requires i <= j
    ensures DataStart(i, t) <= DataStart(j, t)
    decreases j
  {
    if i < j { DataStartMonotone(i, j - 1, t); }
  }

  lemma {:induction false} DataOfLength(ws: seq<seq<byte>>, t: Layout)
    requires AreCodewords(ws, t)
    ensures |DataOf(ws, t)| == DataStart(|ws|, t)
  {
    if ws != [] { DataOfLength(ws[..|ws| - 1], t); }
  }

  /** Splits the data into blocks and appends the parity bytes to each; short blocks get their filler. */
  method SplitAndComplete(data: seq<byte>, t: Layout) returns (blocks: seq<seq<byte>>, ghost ws: seq<seq<byte>>)
    requires 1 <= t.npar <= 255 && |data| == DataStart(t.Blocks(), t)
    ensures |blocks| == |ws| == t.Blocks() && AreCodewords(ws, t) && DataOf(ws, t) == data
    ensures forall j :: 0 <= j < |ws| ==> blocks[j] == Padded(ws[j], j, t)
  {
    hide IsCodeword, DataOf;
    NoData(t);
    blocks := [];
    ws := [];
    var k := 0;
    assert data[..k] == [];
    for i := 0 to t.ns + t.lb
      invariant |blocks| == |ws| == i && AreCodewords(ws, t)
      invariant forall j :: 0 <= j < i ==> blocks[j] == Padded(ws[j], j, t)
      invariant k == DataStart(i, t) <= |data| && DataOf(ws, t) == data[..k]
    {
      DataStartMonotone(i + 1, t.Blocks(), t);
      var dat := data[k..k + (t.sd + if i < t.ns then 0 else 1)];
      var block := AppendEcc(dat, t.npar);
      DataOfAppend(ws, block, t);
      assert data[..k + |dat|] == data[..k] + dat;
      k := k + |dat|;
      ws := ws + [block];
      if i < t.ns {
        blocks := blocks + [dat + [0] + block[|dat|..]];
      } else {
        blocks := blocks + [block];
      }
    }
    assert data[..k] == data;
  }

  lemma DataOfAppend(ws: seq<seq<byte>>, w: seq<byte>, t: Layout)
    requires AreCodewords(ws, t) && |ws| < t.Blocks() && |w| == t.BlockLen(|ws|) && IsCodeword(w, t.npar)
    ensures AreCodewords(ws + [w], t) && DataOf(ws + [w], t) == DataOf(ws, t) + w[..t.DataLen(|ws|)]
    ensures DataStart(|ws| + 1, t) == DataStart(|ws|, t) + t.DataLen(|ws|)
  {
    hide IsCodeword;
    assert (ws + [w])[..|ws|] == ws;
  }

  /** Takes the blocks column by column, leaving out the fillers. */
  method Interleave(blocks: seq<seq<byte>>, t: Layout) returns (result: seq<byte>)
    requires |blocks| == t.Blocks() > 0 && forall b :: b in blocks ==> |b| == t.sd + 1 + t.npar
    ensures result == Rows(blocks, t.sd + 1 + t.npar, t)
  {
    hide Row, Rows;
    result := [];
    RowsStart(blocks, t);
    for i := 0 to |blocks[0]|
      invariant result == Rows(blocks, i, t)
    {
      ghost var done := result;
      RowStart(blocks, i, t);
      for j := 0 to |blocks|
        invariant result == done + Row(blocks, i, j, t)
      {
        RowStep(blocks, i, j, t);
        if i != t.sd || j >= t.ns {
          result := result + [blocks[j][i]];
        }
      }
      RowsStep(blocks, i, t);
    }
  }

  lemma RowsStart(blocks: seq<seq<byte>>, t: Layout)
    requires |blocks| == t.Blocks() && forall b :: b in blocks ==> |b| == t.sd + 1 + t.npar
    ensures Rows(blocks, 0, t) == []
  {
  }

  lemma RowsStep(blocks: seq<seq<byte>>, n: nat, t: Layout)
    requires |blocks| == t.Blocks() && forall b :: b in blocks ==> |b| == t.sd + 1 + t.npar
    requires n < t.sd + 1 + t.npar
    ensures Rows(blocks, n + 1, t) == Rows(blocks, n, t) + Row(blocks, n, |blocks|, t)
  {
  }

  lemma RowStart(blocks: seq<seq<byte>>, i: nat, t: Layout)
    requires forall b :: b in blocks ==> |b| == t.sd + 1 + t.npar
    requires i < t.sd + 1 + t.npar
    ensures Row(blocks, i, 0, t) == []
  {
  }

  lemma RowStep(blocks: seq<seq<byte>>, i: nat, n: nat, t: Layout)
    requires n < |blocks| && forall b :: b in blocks ==> |b| == t.sd + 1 + t.npar
    requires i < t.sd + 1 + t.npar
    ensures Row(blocks, i, n + 1, t)
         == Row(blocks, i, n, t) + if i != t.sd || n >= t.ns then [blocks[n][i]] else []
  {
  }

  /** All codewords of the symbol, in the order in which they are drawn. */
  method AddEccAndInterleave(data: seq<byte>, numBlocks: nat, blockEccLen: nat, rawCodewords: nat)
    returns (result: seq<byte>, ghost ws: seq<seq<byte>>)
    requires numBlocks > 0 && 1 <= blockEccLen <= 255 && blockEccLen * numBlocks <= rawCodewords
    requires |data| == rawCodewords - blockEccLen * numBlocks
    ensures var t := LayoutOf(numBlocks, blockEccLen, rawCodewords);
            Carries(result, ws, t) && DataOf(ws, t) == data && |result| == rawCodewords
  {
    hide IsCodeword;
    var t := LayoutOf(numBlocks, blockEccLen, rawCodewords);
    LayoutTotal(numBlocks, blockEccLen, rawCodewords);
    DataFits(numBlocks, blockEccLen, rawCodewords);
    hide LayoutOf, Rows, DataOf;
    var blocks;
    blocks, ws := SplitAndComplete(data, t);
    result := Interleave(blocks, t);
    RowsCarry(blocks, ws, t);
  }

  lemma RowsCarry(blocks: seq<seq<byte>>, ws: seq<seq<byte>>, t: Layout)
    requires AreCodewords(ws, t) && |blocks| == |ws| == t.Blocks()
    requires forall j :: 0 <= j < |ws| ==> blocks[j] == Padded(ws[j], j, t)
    requires forall b :: b in blocks ==> |b| == t.sd + 1 + t.npar
    ensures Carries(Rows(blocks, t.sd + 1 + t.npar, t), ws, t)
  {
    hide IsCodeword, Rows, Padded;
    forall j, b | 0 <= j < |ws| && 0 <= b < |ws[j]|
      ensures var r := Rows(blocks, t.sd + 1 + t.npar, t);
              t.Sent(j, t.RowOf(j, b)) < |r| && r[t.Sent(j, t.RowOf(j, b))] == ws[j][b]
    {
      RowsAt(blocks, t.sd + 1 + t.npar, j, t.RowOf(j, b), t);
      PaddedAt(ws[j], j, t, b);
    }
  }

  lemma PaddedAt(w: seq<byte>, j: nat, t: Layout, b: nat)
    requires |w| == t.BlockLen(j) && b < |w|
    ensures t.RowOf(j, b) < t.sd + 1 + t.npar && Padded(w, j, t)[t.RowOf(j, b)] == w[b]
  {
  }

  lemma DataFits(numBlocks: nat, blockEccLen: nat, rawCodewords: nat)
    requires numBlocks > 0 && blockEccLen * numBlocks <= rawCodewords
    ensures DataStart(numBlocks, LayoutOf(numBlocks, blockEccLen, rawCodewords))
         == rawCodewords - blockEccLen * numBlocks
  {
    var t := LayoutOf(numBlocks, blockEccLen, rawCodewords);
    DataStartClosed(numBlocks, t);
    var q := rawCodewords / numBlocks;
    assert numBlocks * (q - blockEccLen) == numBlocks * q - blockEccLen * numBlocks;
  }

  // ---------- the reader ----------

  /** Where the reader looks for byte `b` of block `j`. */
  function ReadAt(j: nat, b: nat, t: Layout): nat {
    if b < t.DataLen(j) then b * t.Blocks() + j
    else t.sd * t.Blocks() + t.lb + (b - t.DataLen(j)) * t.Blocks() + j
  }

  /** The reader looks at the right place, except for the last data byte of a large block. */
  lemma ReadIsSent(j: nat, b: nat, t: Layout)
    requires j < t.Blocks() && b < t.BlockLen(j)
    ensures ReadAt(j, b, t) == t.Sent(j, t.RowOf(j, b)) + if j >= t.ns && b == t.sd then t.ns else 0
    ensures t.npar > 0 ==> ReadAt(j, b, t) < t.Total()
  {
    if b < t.DataLen(j) {
      t.RowStartDense(if b < t.sd then b else t.sd);
    } else {
      t.RowStartParity(b - t.DataLen(j));
    }
    t.SentBound(j, b);
    if j >= t.ns && b == t.sd && t.npar > 0 {
      t.SentBound(j, t.sd + 1);
      t.RowStartParity(0);
    }
  }

  function Gathered(raw: seq<byte>, j: nat, t: Layout): (block: seq<byte>)
    requires j < t.Blocks() && |raw| == t.Total() && t.npar > 0
    ensures |block| == t.BlockLen(j)
  {
    seq(t.BlockLen(j), (b: nat) requires b < t.BlockLen(j) => ReadIsSent(j, b, t); raw[ReadAt(j, b, t)])
  }

  /** The bytes at the places where block `j` is sent: of a symbol the block as it arrived, of the noise its damage. */
  function Fetched(raw: seq<byte>, j: nat, t: Layout): (block: seq<byte>)
    requires j < t.Blocks() && |raw| == t.Total()
    ensures |block| == t.BlockLen(j)
  {
    seq(t.BlockLen(j), (b: nat) requires b < t.BlockLen(j) => t.SentBound(j, b); raw[t.Sent(j, t.RowOf(j, b))])
  }

  /**
   * The reader gathers block `j` as it was sent, whatever the symbol's content, exactly when the block is short
   * or no block is: otherwise the large block's last data byte is taken from `ns` places further on.
   */
  lemma GatheredExactly(j: nat, t: Layout)
    requires j < t.Blocks() && t.npar > 0
    ensures (forall raw: seq<byte> :: |raw| == t.Total() ==> Gathered(raw, j, t) == Fetched(raw, j, t))
        <==> (j < t.ns || t.ns == 0)
  {
    hide Gathered, Fetched;
    if j < t.ns || t.ns == 0 {
      forall raw: seq<byte> | |raw| == t.Total() ensures Gathered(raw, j, t) == Fetched(raw, j, t) {
        GatheredAlmost(raw, j, t);
      }
    } else {
      ReadIsSent(j, t.sd, t);
      t.SentBound(j, t.sd);
      var raw := seq(t.Total(), (k: nat) => if k == ReadAt(j, t.sd, t) then 1 else 0);
      GatheredAlmost(raw, j, t);
      assert |raw| == t.Total() && raw[ReadAt(j, t.sd, t)] == 1 && raw[t.Sent(j, t.RowOf(j, t.sd))] == 0;
      assert Gathered(raw, j, t) != Fetched(raw, j, t);
    }
  }

  /** At worst one byte of a block is misread. */
  lemma GatheredAlmost(raw: seq<byte>, j: nat, t: Layout)
    requires j < t.Blocks() && |raw| == t.Total() && t.npar > 0
    ensures forall b: nat :: b < t.BlockLen(j) && !(j >= t.ns > 0 && b == t.sd) ==>
              Gathered(raw, j, t)[b] == Fetched(raw, j, t)[b]
    ensures !(j >= t.ns > 0) ==> Gathered(raw, j, t) == Fetched(raw, j, t)
    ensures j >= t.ns && ReadAt(j, t.sd, t) < |raw| && t.Sent(j, t.RowOf(j, t.sd)) < |raw| ==>
              Gathered(raw, j, t)[t.sd] == raw[ReadAt(j, t.sd, t)]
              && Fetched(raw, j, t)[t.sd] == raw[t.Sent(j, t.RowOf(j, t.sd))]
  {
    forall b: nat | b < t.BlockLen(j) && !(j >= t.ns > 0 && b == t.sd)
      ensures Gathered(raw, j, t)[b] == Fetched(raw, j, t)[b]
    {
      ReadIsSent(j, b, t);
    }
  }

  lemma {:induction false} DistanceTriangle(a: seq<byte>, b: seq<byte>, c: seq<byte>)
    requires |a| == |b| == |c|
    ensures Distance(a, c) <= Distance(a, b) + Distance(b, c)
  {
    if a != [] { DistanceTriangle(a[1..], b[1..], c[1..]); }
  }

  lemma {:induction false} DistanceZero(a: seq<byte>, b: seq<byte>)
    requires |a| == |b|
    ensures Distance(a, b) == 0 <==> a == b
  {
    if a != [] {
      DistanceZero(a[1..], b[1..]);
      assert a == [a[0]] + a[1..] && b == [b[0]] + b[1..];
    }
  }

  lemma {:induction false} DistanceOne(a: seq<byte>, b: seq<byte>, k: nat)
    requires |a| == |b| && forall i :: 0 <= i < |a| && i != k ==> a[i] == b[i]
    ensures Distance(a, b) <= 1
  {
    if a != [] {
      if k == 0 {
        assert a[1..] == b[1..];
        DistanceZero(a[1..], b[1..]);
      } else {
        DistanceOne(a[1..], b[1..], k - 1);
      }
    }
  }

  /**
   * Every block has room for its damage: half its parity bytes, less the byte that the reader itself misreads
   * in a large block.
   */
  ghost predicate Recoverable(raw: seq<byte>, ws: seq<seq<byte>>, t: Layout) {
    && t.npar > 0 && |raw| == t.Total() && AreCodewords(ws, t) && |ws| == t.Blocks()
    && forall j :: 0 <= j < |ws| ==>
         2 * (Distance(Fetched(raw, j, t), ws[j]) + if j >= t.ns > 0 then 1 else 0) <= t.npar
  }

  lemma GatheredInReach(raw: seq<byte>, ws: seq<seq<byte>>, t: Layout, j: nat)
    requires Recoverable(raw, ws, t) && j < |ws|
    ensures 2 * Distance(Gathered(raw, j, t), ws[j]) <= t.npar
  {
    hide Gathered, Fetched, Distance, IsCodeword;
    GatheredAlmost(raw, j, t);
    if j >= t.ns > 0 {
      DistanceOne(Gathered(raw, j, t), Fetched(raw, j, t), t.sd);
      DistanceTriangle(Gathered(raw, j, t), Fetched(raw, j, t), ws[j]);
    }
  }

  // ---------- damage ----------

  /** Damage: codeword `k` gets noise[k] added. */
  function Damaged(raw: seq<byte>, noise: seq<byte>): (r: seq<byte>)
    requires |noise| == |raw|
    ensures |r| == |raw|
  {
    seq(|raw|, (k: nat) requires k < |raw| => Add(raw[k], noise[k]))
  }

  /**
   * The noise spares enough of every block: twice the number of damaged bytes, counting the one that the reader
   * itself misreads in a large block, is at most the number of parity bytes.
   */
  predicate WithinReach(noise: seq<byte>, t: Layout) {
    && |noise| == t.Total()
    && forall j :: 0 <= j < t.Blocks() ==>
         2 * (Weight(Fetched(noise, j, t)) + if j >= t.ns > 0 then 1 else 0) <= t.npar
  }

  /** Noise within reach leaves the symbol recoverable. */
  lemma DamageIsRecoverable(sent: seq<byte>, noise: seq<byte>, ws: seq<seq<byte>>, t: Layout)
    requires Carries(sent, ws, t) && t.npar > 0 && WithinReach(noise, t)
    ensures Recoverable(Damaged(sent, noise), ws, t)
  {
    hide IsCodeword, Distance, Weight, Add;
    var raw := Damaged(sent, noise);
    forall j | 0 <= j < |ws|
      ensures Distance(Fetched(raw, j, t), ws[j]) == Weight(Fetched(noise, j, t))
    {
      forall b | 0 <= b < |ws[j]| ensures Fetched(raw, j, t)[b] == Add(ws[j][b], Fetched(noise, j, t)[b]) {
        t.SentBound(j, b);
      }
      NoiseIsDistance(Fetched(raw, j, t), ws[j], Fetched(noise, j, t));
    }
  }

  /** No damage at all is within reach as soon as there are two parity bytes. */
  lemma CleanIsWithinReach(noise: seq<byte>, t: Layout)
    requires |noise| == t.Total() && t.npar >= 2 && forall k :: 0 <= k < |noise| ==> noise[k] == 0
    ensures WithinReach(noise, t)
  {
    hide Weight;
    forall j | 0 <= j < t.Blocks() ensures Weight(Fetched(noise, j, t)) == 0 {
      forall b | 0 <= b < t.BlockLen(j) ensures Fetched(noise, j, t)[b] == 0 { t.SentBound(j, b); }
      ZeroWeight(Fetched(noise, j, t));
    }
  }

  lemma {:induction false} ZeroWeight(s: seq<byte>)
    requires forall k :: 0 <= k < |s| ==> s[k] == 0
    ensures Weight(s) == 0
  {
    if s != [] { ZeroWeight(s[1..]); }
  }

  /** The block structure as the reader derives it from its version table. */
  function ReaderLayout(data_bytes: nat, sb_ecc: RsParams): Layout
    requires sb_ecc.dw <= sb_ecc.bs && sb_ecc.bs * sb_ecc.ns <= data_bytes
  {
    Layout(sb_ecc.ns, (data_bytes - sb_ecc.bs * sb_ecc.ns) / (sb_ecc.bs + 1), sb_ecc.dw, sb_ecc.bs - sb_ecc.dw)
  }

  lemma BlockFits(t: Layout, i: nat)
    requires i < t.Blocks()
    ensures DataStart(i, t) + t.BlockLen(i) <= t.Total()
  {
    DataStartMonotone(i + 1, t.Blocks(), t);
    DataStartClosed(t.Blocks(), t);
    t.RowStartParity(t.npar);
    assert t.sd * t.Blocks() == t.Blocks() * t.sd;
    MulMono(t.npar, 1, t.Blocks());
  }

  /** Copies block `i` out of the symbol. */
  method GatherBlock(raw: seq<byte>, data: array<byte>, dst: nat, i: nat, ecc: RsParams, bc: nat, ecc_offset: nat,
                     ghost t: Layout)
    requires t.npar > 0 && |raw| == t.Total() && i < bc == t.Blocks() && ecc.dw == t.DataLen(i) && ecc.bs == t.BlockLen(i)
    requires ecc_offset == t.sd * bc + t.lb && dst + ecc.bs <= data.Length
    modifies data
    ensures data[dst..dst + ecc.bs] == Gathered(raw, i, t)
    ensures forall k :: 0 <= k < data.Length && !(dst <= k < dst + ecc.bs) ==> data[k] == old(data[k])
  {
    hide Gathered;
    var num_ec := ecc.bs - ecc.dw;
    for j := 0 to ecc.dw
      invariant forall k :: 0 <= k < j ==> data[dst + k] == Gathered(raw, i, t)[k]
      invariant forall k :: 0 <= k < data.Length && !(dst <= k < dst + ecc.bs) ==> data[k] == old(data[k])
    {
      GatheredAt(raw, i, t, j);
      data[dst + j] := raw[j * bc + i];
    }
    for j := 0 to num_ec
      invariant forall k :: 0 <= k < ecc.dw + j ==> data[dst + k] == Gathered(raw, i, t)[k]
      invariant forall k :: 0 <= k < data.Length && !(dst <= k < dst + ecc.bs) ==> data[k] == old(data[k])
    {
      GatheredAt(raw, i, t, ecc.dw + j);
      data[dst + ecc.dw + j] := raw[ecc_offset + j * bc + i];
    }
  }

  lemma GatheredAt(raw: seq<byte>, j: nat, t: Layout, b: nat)
    requires t.npar > 0 && |raw| == t.Total() && j < t.Blocks() && b < t.BlockLen(j)
    ensures ReadAt(j, b, t) < |raw| && Gathered(raw, j, t)[b] == raw[ReadAt(j, b, t)]
  {
    hide ReadAt;
    ReadIsSent(j, b, t);
  }

  /** One round of the loop over the blocks: gather, then correct. */
  method NextBlock(raw: seq<byte>, data: array<byte>, dst: nat, i: nat, ecc: RsParams, bc: nat, ecc_offset: nat,
                   gf: GaloisField, ghost t: Layout, ghost sent: seq<seq<byte>>)
    returns (err: DecodeError, ghost w: seq<byte>)
    requires IsGf256(gf) && 0 < t.npar < MAX_POLY && ecc.bs <= 255
    requires |raw| == t.Total() && i < bc == t.Blocks() && ecc.dw == t.DataLen(i) && ecc.bs == t.BlockLen(i)
    requires ecc_offset == t.sd * bc + t.lb && dst + ecc.bs <= data.Length
    modifies data
    ensures data[..dst] == old(data[..dst]) && |w| == ecc.bs && data[dst..dst + ecc.dw] == w[..ecc.dw]
    ensures err == QUIRC_SUCCESS <==> IsCodeword(w, t.npar)
    ensures Recoverable(raw, sent, t) ==> err == QUIRC_SUCCESS && w == sent[i]
  {
    hide IsCodeword, Distance, Recoverable, IsGf256, Gathered;
    ghost var before := data[..dst];
    GatherBlock(raw, data, dst, i, ecc, bc, ecc_offset, t);
    assert data[..dst] == before;
    err := CorrectBlock(data, dst, ecc, gf);
    assert data[..dst] == before;
    w := data[dst..dst + ecc.bs];
    if Recoverable(raw, sent, t) {
      RecoverableBlock(raw, sent, t, i);
      GatheredInReach(raw, sent, t, i);
    }
  }

  /**
   * Gathers and corrects all blocks, leaving the data bytes in front. Success means that what is left are the
   * data bytes of codewords; and from a recoverable symbol they are the ones that were sent.
   */
  method CodestreamEcc(raw: seq<byte>, data_bytes: nat, sb_ecc: RsParams, data: array<byte>, gf: GaloisField,
                       ghost sent: seq<seq<byte>>)
    returns (err: DecodeError, len: nat, ghost got: seq<seq<byte>>)
    requires IsGf256(gf) && sb_ecc.dw < sb_ecc.bs < 255 && sb_ecc.bs - sb_ecc.dw < MAX_POLY
    requires sb_ecc.bs * sb_ecc.ns <= data_bytes == |raw| == ReaderLayout(data_bytes, sb_ecc).Total()
    requires data.Length >= data_bytes
    modifies data
    ensures err == QUIRC_SUCCESS ==>
      var t := ReaderLayout(data_bytes, sb_ecc);
      AreCodewords(got, t) && |got| == t.Blocks() && len <= data.Length && data[..len] == DataOf(got, t)
    ensures Recoverable(raw, sent, ReaderLayout(data_bytes, sb_ecc)) ==> err == QUIRC_SUCCESS && got == sent
  {
    hide IsCodeword, Recoverable, IsGf256, DataOf, AreCodewords, Layout.Total;
    ghost var t := ReaderLayout(data_bytes, sb_ecc);
    var lb_count := (data_bytes - sb_ecc.bs * sb_ecc.ns) / (sb_ecc.bs + 1);
    assert t.ns == sb_ecc.ns && t.lb == lb_count && t.sd == sb_ecc.dw && t.npar == sb_ecc.bs - sb_ecc.dw;
    hide ReaderLayout;
    var bc := lb_count + sb_ecc.ns;
    var ecc_offset := sb_ecc.dw * bc + lb_count;
    err, len, got := CorrectAll(raw, sb_ecc, bc, ecc_offset, data, gf, t, sent);
  }

  /** The loop over the blocks: small ones first, then those with one more data byte. */
  method CorrectAll(raw: seq<byte>, sb_ecc: RsParams, bc: nat, ecc_offset: nat, data: array<byte>, gf: GaloisField,
                    ghost t: Layout, ghost sent: seq<seq<byte>>)
    returns (err: DecodeError, len: nat, ghost got: seq<seq<byte>>)
    requires IsGf256(gf) && sb_ecc.dw < sb_ecc.bs < 255 && sb_ecc.bs - sb_ecc.dw < MAX_POLY
    requires t.ns == sb_ecc.ns && t.sd == sb_ecc.dw && t.npar == sb_ecc.bs - sb_ecc.dw
    requires bc == t.Blocks() && ecc_offset == t.sd * bc + t.lb && |raw| == t.Total() <= data.Length
    modifies data
    ensures err == QUIRC_SUCCESS ==>
      AreCodewords(got, t) && |got| == t.Blocks() && len <= data.Length && data[..len] == DataOf(got, t)
    ensures Recoverable(raw, sent, t) ==> err == QUIRC_SUCCESS && got == sent
  {
    hide IsCodeword, Recoverable, IsGf256, DataOf, AreCodewords, DataStart, Layout.Total;
    var lb_ecc := sb_ecc.(dw := sb_ecc.dw + 1, bs := sb_ecc.bs + 1);
    len := 0;
    got := [];
    NoData(t);
    RecoverableShape(raw, sent, t);
    assert data[..len] == [];
    for i := 0 to bc
      invariant |got| == i && AreCodewords(got, t) && len == DataStart(i, t) <= data.Length
      invariant data[..len] == DataOf(got, t)
      invariant Recoverable(raw, sent, t) ==> got == sent[..i]
    {
      var ecc := if i < sb_ecc.ns then sb_ecc else lb_ecc;
      BlockFits(t, i);
      ghost var w;
      err, w := NextBlock(raw, data, len, i, ecc, bc, ecc_offset, gf, t, sent);
      if err != QUIRC_SUCCESS {
        return;
      }
      DataOfAppend(got, w, t);
      assert data[..len + ecc.dw] == data[..len] + data[len..len + ecc.dw];
      if Recoverable(raw, sent, t) { assert sent[..i + 1] == sent[..i] + [sent[i]]; }
      got := got + [w];
      len := len + ecc.dw;
    }
    err := QUIRC_SUCCESS;
  }

  lemma NoData(t: Layout)
    ensures AreCodewords([], t) && DataOf([], t) == [] && DataStart(0, t) == 0
  {
  }

  lemma RecoverableShape(raw: seq<byte>, ws: seq<seq<byte>>, t: Layout)
    ensures Recoverable(raw, ws, t) ==> |ws| == t.Blocks()
  {
  }

  lemma RecoverableBlock(raw: seq<byte>, ws: seq<seq<byte>>, t: Layout, j: nat)
    requires Recoverable(raw, ws, t) && j < t.Blocks()
    ensures |ws| == t.Blocks() && |ws[j]| == t.BlockLen(j) && IsCodeword(ws[j], t.npar)
  {
  }

  // ---------- both together ----------

  /** Generator and reader derive the same block structure from one version's constants. */
  lemma LayoutsAgree(numBlocks: nat, blockEccLen: nat, rawCodewords: nat)
    requires numBlocks > 0 && blockEccLen * numBlocks <= rawCodewords
    ensures var q, ns := rawCodewords / numBlocks, numBlocks - rawCodewords % numBlocks;
            && blockEccLen <= q && q * ns <= rawCodewords
            && ReaderLayout(rawCodewords, RsParams(q, q - blockEccLen, ns))
               == LayoutOf(numBlocks, blockEccLen, rawCodewords)
  {
    ShortLength(numBlocks, blockEccLen, rawCodewords);
    var q, r := rawCodewords / numBlocks, rawCodewords % numBlocks;
    assert rawCodewords == numBlocks * q + r;
    assert q * (numBlocks - r) == numBlocks * q - q * r;
    assert rawCodewords - q * (numBlocks - r) == (q + 1) * r;
    MulNonneg(q, r);
    DivUnique((q + 1) * r, q + 1, r, 0);
  }

  /**
   * Data through generator, transmission and reader: the data come back whenever the noise is within reach of every
   * block, and in particular without noise.
   */
  method RoundTrip(data: seq<byte>, numBlocks: nat, blockEccLen: nat, rawCodewords: nat, noise: seq<byte>,
                   gf: GaloisField)
    returns (err: DecodeError, out: seq<byte>)
    requires IsGf256(gf) && numBlocks > 0 && 2 <= blockEccLen < MAX_POLY && blockEccLen * numBlocks < rawCodewords
    requires blockEccLen < rawCodewords / numBlocks < 255
    requires |data| == rawCodewords - blockEccLen * numBlocks && |noise| == rawCodewords
    ensures WithinReach(noise, LayoutOf(numBlocks, blockEccLen, rawCodewords)) ==> err == QUIRC_SUCCESS && out == data
    ensures (forall k :: 0 <= k < |noise| ==> noise[k] == 0) ==> err == QUIRC_SUCCESS && out == data
  {
    hide IsCodeword, Recoverable, WithinReach, IsGf256, Add, DataOf, Damaged;
    ghost var t := LayoutOf(numBlocks, blockEccLen, rawCodewords);
    LayoutTotal(numBlocks, blockEccLen, rawCodewords);
    LayoutsAgree(numBlocks, blockEccLen, rawCodewords);
    var sb_ecc := RsParams(rawCodewords / numBlocks, rawCodewords / numBlocks - blockEccLen,
                           numBlocks - rawCodewords % numBlocks);
    ghost var ws;
    var sent;
    sent, ws := AddEccAndInterleave(data, numBlocks, blockEccLen, rawCodewords);
    hide LayoutOf, ReaderLayout;
    if forall k :: 0 <= k < |noise| ==> noise[k] == 0 { CleanIsWithinReach(noise, t); }
    if WithinReach(noise, t) { DamageIsRecoverable(sent, noise, ws, t); }
    var buffer := new byte[rawCodewords];
    var len;
    ghost var got;
    err, len, got := CodestreamEcc(Damaged(sent, noise), rawCodewords, sb_ecc, buffer, gf, ws);
    out := if err == QUIRC_SUCCESS then buffer[..len] else [];
  }
}
