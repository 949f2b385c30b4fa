/**
 What deflate writes, and what inflate makes of it: each piece of code is characterised by its
 effect on the output of any stream it stands in front of.
 */
module DeflateCode {
  import opened Bytes
  import opened Bits
  import opened Huffman
  import opened LengthTables
  import opened InflateSpec

  /** Inside a fixed block, `w` turns output `o` into `o'`, whatever follows. */
  ghost predicate Sends(w: BitString, o: Data, o': Data) {
    forall rest: BitString, far: bool ::
      BlockData(FixedLit(), FixedDist(), w + rest, o, far) == BlockData(FixedLit(), FixedDist(), rest, o', far)
  }

  lemma SendsNothing(o: Data)
    ensures Sends([], o, o)
  {
    forall rest: BitString, far: bool
      ensures BlockData(FixedLit(), FixedDist(), [] + rest, o, far) == BlockData(FixedLit(), FixedDist(), rest, o, far)
    {
      assert [] + rest == rest;
    }
  }

  lemma SendsBoth(w: BitString, w': BitString, o: Data, o': Data, o'': Data)
    requires Sends(w, o, o') && Sends(w', o', o'')
    ensures Sends(w + w', o, o'')
  {
    hide BlockData;
    forall rest: BitString, far: bool
      ensures BlockData(FixedLit(), FixedDist(), w + w' + rest, o, far)
           == BlockData(FixedLit(), FixedDist(), rest, o'', far)
    {
      assert w + w' + rest == w + (w' + rest);
    }
  }

  lemma SendsLiteral(b: byte, o: Data)
    ensures Sends(LitCode(b as nat), o, o + [b])
  {
    forall rest: BitString, far: bool
      ensures BlockData(FixedLit(), FixedDist(), LitCode(b as nat) + rest, o, far)
           == BlockData(FixedLit(), FixedDist(), rest, o + [b], far)
    {
      DecodeLit(b as nat, rest);
    }
  }

  lemma EndsBlock(o: Data, rest: BitString, far: bool)
    ensures BlockData(FixedLit(), FixedDist(), LitCode(256) + rest, o, far) == Done(o, rest)
  {
    DecodeLit(256, rest);
  }

  /** write_int's extra bits after the slot's symbol. */
  function Extra(t: Table, value: nat, slot: nat): BitString
    requires slot < |t.base| && slot < |t.bits| && t.base[slot] <= value
  {
    Field(value - t.base[slot], t.bits[slot])
  }

  lemma ReadExtra(t: Table, value: nat, slot: nat, rest: BitString)
    requires |t.base| == |t.bits| && slot < |t.base| && t.base[slot] <= value
    requires value - t.base[slot] < Pow2(t.bits[slot])
    ensures ReadValue(t, slot, Extra(t, value, slot) + rest) == Value(value, rest)
  {
    NumField(value - t.base[slot], t.bits[slot]);
    var e := Extra(t, value, slot);
    assert (e + rest)[..t.bits[slot]] == e && (e + rest)[t.bits[slot]..] == rest;
  }

  function MatchCode(len: nat, i: nat, dist: nat, j: nat): BitString
    requires i < 30 && LengthTable().base[i] <= len && j < 30 && DistTable().base[j] <= dist
  {
    LitCode(257 + i) + Extra(LengthTable(), len, i) + (DistCode(j) + Extra(DistTable(), dist, j))
  }

  lemma ReadMatchCode(len: nat, i: nat, dist: nat, j: nat, rest: BitString)
    requires 3 <= len <= 258 && IsSlot(LengthTable(), len, i)
    requires 1 <= dist <= 32768 && IsSlot(DistTable(), dist, j)
    ensures ReadMatch(FixedDist(), i,
                      Extra(LengthTable(), len, i) + (DistCode(j) + (Extra(DistTable(), dist, j) + rest)))
         == Match(len, dist, rest)
  {
    hide LengthTable, DistTable, Decode, Extra, DistCode;
    LengthSplits(len, i);
    DistSplits(dist, j);
    ReadExtra(LengthTable(), len, i, DistCode(j) + (Extra(DistTable(), dist, j) + rest));
    DecodeDist(j, Extra(DistTable(), dist, j) + rest);
    ReadExtra(DistTable(), dist, j, rest);
  }

  lemma DecodesMatch(len: nat, i: nat, dist: nat, j: nat, o: Data, rest: BitString, far: bool)
    requires 3 <= len <= 258 && IsSlot(LengthTable(), len, i)
    requires 1 <= dist <= |o| && dist <= WINDOW && IsSlot(DistTable(), dist, j)
    ensures BlockData(FixedLit(), FixedDist(), MatchCode(len, i, dist, j) + rest, o, far) ==
      if dist == WINDOW && !far then Refused
      else BlockData(FixedLit(), FixedDist(), rest, CopyBack(o, len, dist), far)
  {
    hide LengthTable, DistTable, Decode, Extra, DistCode, LitCode, ReadMatch, CopyBack;
    LengthSplits(len, i);
    var a, b, c, d := LitCode(257 + i), Extra(LengthTable(), len, i), DistCode(j), Extra(DistTable(), dist, j);
    assert a + b + (c + d) + rest == a + (b + (c + (d + rest)));
    DecodeLit(257 + i, b + (c + (d + rest)));
    ReadMatchCode(len, i, dist, j, rest);
  }

  lemma SendsMatch(len: nat, i: nat, dist: nat, j: nat, o: Data)
    requires 3 <= len <= 258 && IsSlot(LengthTable(), len, i)
    requires 1 <= dist <= |o| && dist < WINDOW && IsSlot(DistTable(), dist, j)
    ensures Sends(MatchCode(len, i, dist, j), o, CopyBack(o, len, dist))
  {
    hide LengthTable, DistTable, MatchCode, BlockData, CopyBack;
    forall rest: BitString, far: bool
      ensures BlockData(FixedLit(), FixedDist(), MatchCode(len, i, dist, j) + rest, o, far)
           == BlockData(FixedLit(), FixedDist(), rest, CopyBack(o, len, dist), far)
    {
      DecodesMatch(len, i, dist, j, o, rest, far);
    }
  }

  // ----- whole blocks -----

  /** `w` holds blocks, none of them final, that turn output `o` into `o'`. */
  ghost predicate Carries(w: BitString, o: Data, o': Data) {
    forall rest: BitString, far: bool :: Blocks(w + rest, o, far) == Blocks(rest, o', far)
  }

  /** The last of the blocks in `w` is final and completes the output to `o'`. */
  ghost predicate Completes(w: BitString, o: Data, o': Data) {
    forall rest: BitString, far: bool :: Blocks(w + rest, o, far) == Done(o', rest)
  }

  function BlockHeader(final: bool, kind: nat): BitString {
    [final] + Field(kind, 2)
  }

  lemma ReadHeader(final: bool, kind: nat, rest: BitString)
    requires kind < 4
    ensures var bits := BlockHeader(final, kind) + rest;
      |bits| >= 3 && bits[0] == final && Num(bits[1..3]) == kind && bits[3..] == rest
  {
    var bits := BlockHeader(final, kind) + rest;
    assert bits[1..3] == Field(kind, 2);
    assert Pow2(2) == 4;
    NumField(kind, 2);
  }

  /** What a fixed block behind `w` adds. */
  lemma FixedBlockAdds(w: BitString, final: bool, sent: BitString, o0: Data, o: Data, o': Data)
    requires Carries(w, o0, o) && Sends(sent, o, o')
    ensures var w' := w + (BlockHeader(final, 1) + (sent + LitCode(256)));
      if final then Completes(w', o0, o') else Carries(w', o0, o')
  {
    hide BlockData, LitCode, BlockHeader;
    var h := BlockHeader(final, 1);
    var w' := w + (h + (sent + LitCode(256)));
    forall rest: BitString, far: bool
      ensures Blocks(w' + rest, o0, far) == if final then Done(o', rest) else Blocks(rest, o', far)
    {
      var tail := LitCode(256) + rest;
      assert w' + rest == w + (h + (sent + tail));
      ReadHeader(final, 1, sent + tail);
      EndsBlock(o', rest, far);
    }
  }

  // ----- stored blocks, which end at byte boundaries -----

  /** `w` is whole bytes of blocks, none of them final, that turn output `o` into `o'`. */
  ghost predicate CarriesBytes(w: BitString, o: Data, o': Data) {
    |w| % 8 == 0 &&
    forall rest: BitString, far: bool | |rest| % 8 == 0 :: Blocks(w + rest, o, far) == Blocks(rest, o', far)
  }

  ghost predicate CompletesBytes(w: BitString, o: Data, o': Data) {
    |w| % 8 == 0 && forall rest: BitString, far: bool | |rest| % 8 == 0 :: Blocks(w + rest, o, far) == Done(o', rest)
  }

  function StoredHeader(len: nat): (s: seq<byte>)
    requires len <= 0xffff
    ensures |s| == 4
  {
    [(len % 256) as byte, (len / 256) as byte, ((0xffff - len) % 256) as byte, ((0xffff - len) / 256) as byte]
  }

  lemma ReadStored(data: Data, o: Data, more: seq<byte>)
    requires |data| <= 0xffff
    ensures StoredBytes(StoredHeader(|data|) + data + more, o) == Done(o + data, Unpack(more))
  {
    hide Unpack;
    var s := StoredHeader(|data|) + data + more;
    assert s[4..4 + |data|] == data && s[4 + |data|..] == more;
  }

  /** Five pad bits in front of whole bytes are dropped. */
  lemma DropPad(pad: BitString, a: BitString, b: BitString)
    requires |pad| == 5 && |a| % 8 == 0 && |b| % 8 == 0
    ensures (a + b)[..] == a + b && |a + b| % 8 == 0
    ensures var bits := pad + (a + b); |bits| % 8 == 5 && bits[5..] == a + b
  {}

  lemma StoredBehindPad(pad: BitString, a: BitString, b: BitString, o: Data)
    requires |pad| == 5 && |a| % 8 == 0 && |b| % 8 == 0
    ensures |a + b| % 8 == 0 && StoredBlock(pad + (a + b), o) == StoredBytes(Pack(a + b), o)
  {
    hide Pack, StoredBytes;
    DropPad(pad, a, b);
  }

  lemma PackBehind(s: seq<byte>, rest: BitString)
    requires |rest| % 8 == 0
    ensures |Unpack(s) + rest| % 8 == 0 && Pack(Unpack(s) + rest) == s + Pack(rest)
  {
    hide Unpack, Pack;
    UnpackPack(rest);
    UnpackConcat(s, Pack(rest));
    PackUnpack(s + Pack(rest));
  }

  lemma ReadStoredBits(data: Data, o: Data, rest: BitString)
    requires |data| <= 0xffff && |rest| % 8 == 0
    ensures StoredBlock(Zeros(5) + (Unpack(StoredHeader(|data|) + data) + rest), o) == Done(o + data, rest)
  {
    hide *;
    var s := StoredHeader(|data|) + data;
    StoredBehindPad(Zeros(5), Unpack(s), rest, o);
    PackBehind(s, rest);
    UnpackPack(rest);
    ReadStored(data, o, Pack(rest));
  }

  /** The bits of a stored block that starts at a byte boundary. */
  function StoredBits(final: bool, data: Data): (bits: BitString)
    requires |data| <= 0xffff
    ensures |bits| % 8 == 0
  {
    BlockHeader(final, 0) + (Zeros(5) + Unpack(StoredHeader(|data|) + data))
  }

  lemma StoredNumbers(len: nat)
    requires len <= 0xffff
    ensures var u := Unpack(StoredHeader(len)); Num(u[..16]) == len && Num(u[16..]) == 0xffff - len
  {
    hide Unpack, Num;
    var s := StoredHeader(len);
    UnpackConcat(s[..2], s[2..]);
    assert s == s[..2] + s[2..];
    TwoBytes(s[0], s[1]);
    TwoBytes(s[2], s[3]);
    assert s[..2] == [s[0], s[1]] && s[2..] == [s[2], s[3]];
  }

  /** The layout of a stored block at a byte boundary: the header in the first byte, the length and its
      complement in 16 bits each, and the data. */
  lemma StoredLayout(final: bool, data: Data)
    requires |data| <= 0xffff
    ensures var bits := StoredBits(final, data);
      && |bits| == 40 + 8 * |data|
      && bits[..8] == [final, false, false, false, false, false, false, false]
      && Num(bits[8..24]) == |data| && Num(bits[24..40]) == 0xffff - |data|
      && bits[40..] == Unpack(data)
  {
    hide Unpack, Num, StoredHeader, BlockHeader, Zeros;
    var s, bits := StoredHeader(|data|), StoredBits(final, data);
    var u := Unpack(s);
    UnpackConcat(s, data);
    StoredNumbers(|data|);
    var pad := BlockHeader(final, 0) + Zeros(5);
    PadBits(final);
    assert bits == pad + (u + Unpack(data));
    Slices(pad, u, Unpack(data));
  }

  lemma Slices(pad: BitString, u: BitString, d: BitString)
    requires |pad| == 8 && |u| == 32
    ensures var bits := pad + (u + d);
      bits[..8] == pad && bits[8..24] == u[..16] && bits[24..40] == u[16..] && bits[40..] == d
  {}

  lemma PadBits(final: bool)
    ensures BlockHeader(final, 0) + Zeros(5) == [final, false, false, false, false, false, false, false]
  {
    FieldPad(0, 0, 2);
    assert Zeros(2) == [false, false];
    assert Zeros(5) == [false] + ([false] + ([false] + Zeros(2)));
  }

  lemma StoredBitsRead(final: bool, data: Data, o: Data, rest: BitString, far: bool)
    requires |data| <= 0xffff && |rest| % 8 == 0
    ensures Blocks(StoredBits(final, data) + rest, o, far)
         == if final then Done(o + data, rest) else Blocks(rest, o + data, far)
  {
    hide Unpack, StoredBlock, BlockHeader, Zeros, StoredHeader;
    var h, s := BlockHeader(final, 0), Unpack(StoredHeader(|data|) + data);
    var tail := Zeros(5) + (s + rest);
    assert h + (Zeros(5) + s) + rest == h + tail;
    ReadHeader(final, 0, tail);
    ReadStoredBits(data, o, rest);
  }

  /** What a stored block behind `w` adds. */
  lemma StoredBlockAdds(w: BitString, final: bool, data: Data, o0: Data, o: Data)
    requires CarriesBytes(w, o0, o) && |data| <= 0xffff
    ensures if final then CompletesBytes(w + StoredBits(final, data), o0, o + data)
            else CarriesBytes(w + StoredBits(final, data), o0, o + data)
  {
    hide Blocks, StoredBits;
    var b := StoredBits(final, data);
    forall rest: BitString, far: bool | |rest| % 8 == 0
      ensures Blocks((w + b) + rest, o0, far) == if final then Done(o + data, rest) else Blocks(rest, o + data, far)
    {
      Associative(w, b, rest);
      DropPad(Zeros(5), b, rest);
      StoredBitsRead(final, data, o, rest, far);
    }
    DropPad(Zeros(5), w, b);
  }

  /** On a big-endian machine cputole16 swaps the two bytes of length and complement before they are
      written low byte first, so they arrive swapped: whatever follows, the block is read back only if both
      bytes of its length are equal. */
  lemma SwappedHeader(data: Data, o: Data, more: seq<byte>)
    requires |data| <= 0xffff
    ensures var h := StoredHeader(|data|);
      (StoredBytes([h[1], h[0], h[3], h[2]] + data + more, o) == Done(o + data, Unpack(more)))
      <==> |data| % 256 == |data| / 256
  {
    hide Unpack;
    var h := StoredHeader(|data|);
    var s := [h[1], h[0], h[3], h[2]] + data + more;
    var len := |data| / 256 + 256 * (|data| % 256);
    assert s[0] as nat + 256 * s[1] as nat == len;
    assert s[2] as nat + 256 * s[3] as nat == 0xffff - len;
    assert |data| == 256 * (|data| / 256) + |data| % 256;
    if len == |data| {
      assert s[4..4 + len] == data && s[4 + len..] == more;
    } else if 4 + len <= |s| {
      assert |o + s[4..4 + len]| == |o| + len != |o + data|;
    }
  }

  // ----- the largest distance -----

  /** A stored block of WINDOW bytes and a final block with a match of three bytes at distance WINDOW. */
  function FarStream(data: Data, i: nat, j: nat): BitString
    requires |data| == WINDOW && IsSlot(LengthTable(), 3, i) && IsSlot(DistTable(), WINDOW, j)
  {
    StoredBits(false, data) + (BlockHeader(true, 1) + (MatchCode(3, i, WINDOW, j) + LitCode(256)))
  }

  /** Such a stream, which the format allows, copies the first three bytes -- and is refused. */
  lemma FarMatch(data: Data, i: nat, j: nat, pad: BitString)
    requires |data| == WINDOW && IsSlot(LengthTable(), 3, i) && IsSlot(DistTable(), WINDOW, j)
    requires |FarStream(data, i, j) + pad| % 8 == 0
    ensures Blocks(FarStream(data, i, j) + pad, [], true) == Done(CopyBack(data, 3, WINDOW), pad)
    ensures Blocks(FarStream(data, i, j) + pad, []) == Refused
  {
    hide BlockData, StoredBits, BlockHeader, MatchCode, LitCode, CopyBack, LengthTable, DistTable;
    var b, h, m, e := StoredBits(false, data), BlockHeader(true, 1), MatchCode(3, i, WINDOW, j), LitCode(256);
    var tail := h + (m + (e + pad));
    assert b + (h + (m + e)) + pad == b + tail;
    forall far: bool
      ensures Blocks(b + tail, [], far) == if far then Done(CopyBack(data, 3, WINDOW), pad) else Refused
    {
      assert [] + data == data;
      StoredBitsRead(false, data, [], tail, far);
      ReadHeader(true, 1, m + (e + pad));
      DecodesMatch(3, i, WINDOW, j, data, e + pad, far);
      EndsBlock(CopyBack(data, 3, WINDOW), pad, far);
    }
  }
}
