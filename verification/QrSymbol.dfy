/** A whole symbol: from segments through the drawn and damaged modules back to characters. */
module QrSymbol {
  import opened Arith
  import opened Bits
  import opened Gf256
  import opened QrBits
  import opened QrScan
  import opened QrSegments
  import opened QuircEcc
  import opened QrBlocks
  import QrEncode
  import QrRead
  import opened QrTextRoundTrip

  const RAW_SIZE := 8896

  /** The constants of the versions: blocks, parity bytes per block and raw codewords, and the function patterns. */
  datatype Tables = Tables(blocks: (nat, nat) -> nat, eccLen: (nat, nat) -> nat, rawCodewords: nat -> nat,
                           reserved: (nat, Pos) -> bool)

  function Reserved(t: Tables, v: nat): Pos -> bool {
    p => t.reserved(v, p)
  }

  function DataBytes(t: Tables, v: nat, e: nat): nat {
    var n := t.rawCodewords(v) - t.eccLen(v, e) * t.blocks(v, e);
    if n >= 0 then n else 0
  }

  /** What the tables of the standard satisfy. */
  ghost predicate Sensible(t: Tables) {
    forall v, e :: 1 <= v <= 40 && e <= 3 ==> SensibleAt(t, v, e)
  }

  ghost predicate SensibleAt(t: Tables, v: nat, e: nat) {
    var n, k, raw := t.blocks(v, e), t.eccLen(v, e), t.rawCodewords(v);
    && n > 0 && 2 <= k < MAX_POLY && k * n < raw && k < raw / n < 255
    && DataBytes(t, v, e) <= 2956
    && raw <= RAW_SIZE && 8 * raw <= |Free(Reserved(t, v), Scan(4 * v + 17))| <= 8 * RAW_SIZE
  }

  function LayoutAt(t: Tables, v: nat, e: nat): Layout
    requires SensibleAt(t, v, e)
  {
    LayoutOf(t.blocks(v, e), t.eccLen(v, e), t.rawCodewords(v))
  }

  lemma PackedBytes(bits: seq<bool>, n: nat)
    ensures forall i :: 0 <= i < n ==> Packed(bits, n)[i] < 256
  {
    hide Byte;
    forall i | 0 <= i < n ensures Packed(bits, n)[i] < 256 { ByteShape(Octet(bits, i)); }
  }

  /** The drawn symbol as the reader's camera would deliver it. */
  method Show(t: Tables, v: nat, sent: seq<byte>, msk: nat) returns (raw: seq<byte>)
    requires 1 <= v <= 40 && msk <= 7 && |sent| == t.rawCodewords(v) <= RAW_SIZE
    requires 8 * |sent| <= |Free(Reserved(t, v), Scan(4 * v + 17))| <= 8 * RAW_SIZE
    ensures raw == sent
  {
    hide Free, Scan;
    var size := 4 * v + 17;
    var isFunction := new bool[size, size]((y, x) => t.reserved(v, Pos(y, x)));
    var ds := QrRead.WriteMaskRead(size, isFunction, Reserved(t, v), sent, msk, RAW_SIZE);
    var all := ds.raw[..];
    assert all[..|sent|] == sent;
    raw := all[..|sent|];
  }

  /** The codewords of a symbol, drawn, damaged, read and corrected: the data come back from noise within reach. */
  method SendData(t: Tables, v: nat, e: nat, data: seq<byte>, msk: nat, noise: seq<byte>, gf: GaloisField)
    returns (err: DecodeError, out: seq<byte>)
    requires 1 <= v <= 40 && e <= 3 && SensibleAt(t, v, e) && msk <= 7 && IsGf256(gf)
    requires |data| == DataBytes(t, v, e) && |noise| == t.rawCodewords(v)
    ensures WithinReach(noise, LayoutAt(t, v, e)) ==> err == QUIRC_SUCCESS && out == data
    ensures (forall k :: 0 <= k < |noise| ==> noise[k] == 0) ==> err == QUIRC_SUCCESS && out == data
  {
    hide IsGf256, Recoverable, WithinReach, DataOf, Free, Scan, LayoutOf, ReaderLayout, Add, Damaged;
    var n, k, raw_len := t.blocks(v, e), t.eccLen(v, e), t.rawCodewords(v);
    ghost var layout := LayoutOf(n, k, raw_len);
    LayoutTotal(n, k, raw_len);
    LayoutsAgree(n, k, raw_len);
    ghost var ws;
    var sent;
    sent, ws := AddEccAndInterleave(data, n, k, raw_len);
    var raw := Show(t, v, sent, msk);
    if forall i :: 0 <= i < |noise| ==> noise[i] == 0 { CleanIsWithinReach(noise, layout); }
    if WithinReach(noise, layout) { DamageIsRecoverable(sent, noise, ws, layout); }
    var buffer := new byte[RAW_SIZE];
    var len;
    ghost var got;
    err, len, got := CodestreamEcc(Damaged(raw, noise), raw_len, RsParams(raw_len / n, raw_len / n - k, n - raw_len % n), buffer, gf, ws);
    out := if err == QUIRC_SUCCESS then buffer[..len] else [];
  }

  /** The text of a symbol survives: written at any size, level and mask, with noise within reach of every block. */
  method TextThroughSymbol(ts: seq<Text>, ecl: nat, minVersion: int, maxVersion: int, msk: nat, boostEcl: bool,
                           t: Tables, noise: seq<byte>, gf: GaloisField)
    returns (r: QrEncode.Encoded, chars: seq<nat>)
    requires ecl <= 3 && AllSound(ts) && Sensible(t) && msk <= 7 && IsGf256(gf) && |noise| == RAW_SIZE
    ensures r.Codewords? <==>
              QrEncode.Encodable(SegmentsOf(ts), ecl, minVersion, maxVersion, msk, (v, e) => DataBytes(t, v, e))
    ensures r.Codewords? ==> 1 <= r.version <= 40 && r.ecl <= 3 && SensibleAt(t, r.version, r.ecl)
    ensures r.Codewords? && WithinReach(noise[..t.rawCodewords(r.version)], LayoutAt(t, r.version, r.ecl)) ==>
              chars == AllChars(ts)
    ensures r.Codewords? && (forall k :: 0 <= k < |noise| ==> noise[k] == 0) ==> chars == AllChars(ts)
  {
    hide WithinReach, LayoutAt, IsGf256, Packed, AllChars, AllSound, AllBits, QrEncode.Tail, QrEncode.TotalBits, Payload, BitsOf, Free, Scan;
    chars := [];
    r := QrEncode.EncodeSegments(SegmentsOf(ts), ecl, minVersion, maxVersion, msk, boostEcl, (v, e) => DataBytes(t, v, e));
    if r.Codewords? {
      assert SensibleAt(t, r.version, r.ecl);
      var bits := |AllBits(SegmentsOf(ts), r.version)|;
      UsedBits(SegmentsOf(ts), r.version, |r.data|);
      PackedBytes(AllBits(SegmentsOf(ts), r.version) + QrEncode.Tail(bits, |r.data|), |r.data|);
      QrEncode.SegmentsReadBack(ts, r.version, r.data);
      var err, out := SendData(t, r.version, r.ecl, r.data, msk, noise[..t.rawCodewords(r.version)], gf);
      if err == QUIRC_SUCCESS {
        chars := ReadChars(out, r.version);
      }
    }
  }
}
