/** Inflate as a program: bit input, symbol decoding and the three block kinds, each shown to compute
    what InflateSpec says the stream means. */
module Inflation {
  import opened Bytes
  import opened Bits
  import opened Huffman
  import opened LengthTables
  import opened CodeLengths
  import opened DynamicTrees
  import opened InflateSpec
  import opened InflateDrains

  class BitReader {
    const data: seq<byte>
    /** What the source returns at its end: 255 for a file, 0 for memory. */
    const eof: byte
    /** The data and as many end bytes as may be asked for. */
    ghost const stream: seq<byte>
    var pos: nat
    var tag: nat
    var bitcount: nat

    ghost predicate Valid()
      reads this
    {
      && |data| <= |stream| && pos <= |stream|
      && (forall i | 0 <= i < |stream| :: stream[i] == if i < |data| then data[i] else eof)
      && bitcount < 8
    }

    ghost function Remaining(): BitString
      requires Valid()
      reads this
    {
      Field(tag, bitcount) + Unpack(stream[pos..])
    }

    constructor (data: seq<byte>, eof: byte, ghost extra: nat)
      ensures Valid() && this.data == data && pos == 0 && bitcount == 0
      ensures stream == data + seq(extra, _ => eof) && Remaining() == Unpack(stream)
    {
      this.data := data;
      this.eof := eof;
      stream := data + seq(extra, _ => eof);
      pos, tag, bitcount := 0, 0, 0;
      new;
      assert stream[0..] == stream;
    }

    /** InflateSource::get. */
    method Get() returns (b: byte)
      requires Valid() && pos < |stream|
      modifies this`pos
      ensures Valid() && pos == old(pos) + 1 && b == stream[old(pos)]
    {
      b := if pos < |data| then data[pos] else eof;
      pos := pos + 1;
    }

    method GetBit() returns (bit: bool)
      requires Valid() && |Remaining()| > 0
      modifies this`pos, this`tag, this`bitcount
      ensures Valid() && [bit] + Remaining() == old(Remaining())
    {
      if bitcount == 0 {
        assert stream[pos..] == [stream[pos]] + stream[pos + 1..];
        var b := Get();
        tag := b as nat;
        assert Pow2(8) == 256;
        bitcount := 7;
      } else {
        bitcount := bitcount - 1;
      }
      bit := tag % 2 == 1;
      tag := tag / 2;
    }

    method ReadBits(num: nat, base: nat) returns (v: nat)
      requires Valid() && num <= |Remaining()|
      modifies this`pos, this`tag, this`bitcount
      ensures Valid() && Remaining() == old(Remaining())[num..]
      ensures v == base + Num(old(Remaining())[..num])
    {
      hide Num, Field;
      ghost var bits, k := Remaining(), 0;
      var val, mask, limit := 0, 1, Pow2(num);
      assert bits[..0] == [];
      NumNil();
      while mask < limit
        invariant k <= num && mask == Pow2(k) && (k < num ==> Pow2(k) < Pow2(num))
        invariant Valid() && Remaining() == bits[k..] && val == Num(bits[..k])
        decreases num - k
      {
        var b := GetBit();
        assert bits[k] == b && bits[k + 1..] == Remaining();
        assert bits[..k + 1] == bits[..k] + [b];
        NumSnoc(bits[..k], b);
        if b {
          val := val + mask;
        }
        mask := mask * 2;
        k := k + 1;
        Pow2Less(k, num);
      }
      v := val + base;
    }

    /** The decoding loop. */
    method DecodeSymbol(t: Tree) returns (sym: nat)
      requires Valid() && Decode(t, Remaining()).Symbol?
      modifies this`pos, this`tag, this`bitcount
      ensures Valid() && Decode(t, old(Remaining())) == Symbol(sym, Remaining())
    {
      hide Remaining;
      var sum, cur, len := 0, 0, 0;
      ghost var result := Decode(t, Remaining());
      while true
        invariant Valid() && DecodeFrom(t, Remaining(), cur, sum, len) == result
        decreases |Remaining()|
      {
        ghost var before := Remaining();
        var b := GetBit();
        assert before[1..] == Remaining() && before[0] == b;
        cur := 2 * cur + Bit(b);
        len := len + 1;
        sum := sum + t.table[len];
        cur := cur - t.table[len];
        if cur < 0 {
          break;
        }
      }
      sym := t.trans[sum + cur];
    }
  }

  lemma NumNil()
    ensures Num([]) == 0
  {}

  lemma {:induction false} Pow2Less(k: nat, n: nat)
    ensures k < n <==> Pow2(k) < Pow2(n)
    ensures k == n ==> Pow2(k) == Pow2(n)
    decreases k + n
  {
    if k > 0 && n > 0 { Pow2Less(k - 1, n - 1); }
  }

  // ----- blocks -----

  /** A drain whose window reaches as far back as any window can. */
  ghost predicate Ready(drain: FileInflateDrain)
    reads drain, drain.buf
  {
    drain.Valid() && drain.window == Min(|drain.file|, WINDOW)
  }

  lemma ReadyPut(drain: FileInflateDrain, n: nat)
    requires drain.Valid() && |drain.file| == n + 1 && drain.window == Min(Min(n, WINDOW) + 1, WINDOW)
    ensures Ready(drain)
  {}

  method PutByte(drain: FileInflateDrain, c: byte)
    requires Ready(drain)
    modifies drain, drain.buf
    ensures Ready(drain) && drain.file == old(drain.file) + [c]
  {
    hide FileInflateDrain.Valid;
    drain.Put(c);
    ReadyPut(drain, |old(drain.file)|);
  }

  method GetByte(drain: FileInflateDrain, offs: nat) returns (c: byte, refused: bool)
    requires Ready(drain) && 1 <= offs <= |drain.file|
    ensures refused <==> offs >= WINDOW
    ensures !refused ==> c == drain.file[|drain.file| - offs]
  {
    hide FileInflateDrain.Valid;
    c, refused := drain.Get(offs);
  }

  /** Copies a match byte by byte; the copied bytes may be copied again. */
  method CopyMatch(drain: FileInflateDrain, length: nat, offs: nat) returns (refused: bool)
    requires Ready(drain) && 1 <= offs <= |drain.file|
    modifies drain, drain.buf
    ensures Ready(drain) && (refused <==> length > 0 && offs >= WINDOW)
    ensures !refused ==> drain.file == CopyBack(old(drain.file), length, offs)
  {
    hide Ready;
    for i := 0 to length
      invariant Ready(drain) && |drain.file| >= offs && (i > 0 ==> offs < WINDOW)
      invariant CopyBack(drain.file, length - i, offs) == CopyBack(old(drain.file), length, offs)
    {
      var c;
      c, refused := GetByte(drain, offs);
      if refused { return; }
      PutByte(drain, c);
    }
    refused := false;
  }

  /** Lines 273-278: the rest of a match after its length symbol. */
  method ReadMatchFields(r: BitReader, dt: Tree, slot: nat, length: Table, dist: Table)
    returns (len: nat, offs: nat)
    requires r.Valid() && length == LengthTable() && dist == DistTable()
    requires ReadMatch(dt, slot, r.Remaining()).Match?
    modifies r
    ensures r.Valid() && ReadMatch(dt, slot, old(r.Remaining())) == Match(len, offs, r.Remaining())
  {
    hide Decode, LengthTable, DistTable, BitReader.Remaining, BitReader.Valid;
    len := r.ReadBits(length.bits[slot], length.base[slot]);
    var d := r.DecodeSymbol(dt);
    offs := r.ReadBits(dist.bits[d], dist.base[d]);
  }

  /** inflate_block_data. */
  method InflateBlockData(r: BitReader, drain: FileInflateDrain, lt: Tree, dt: Tree, length: Table, dist: Table)
    returns (refused: bool)
    requires r.Valid() && Ready(drain) && length == LengthTable() && dist == DistTable()
    requires BlockData(lt, dt, r.Remaining(), drain.file) != Undefined
    modifies r, drain, drain.buf
    ensures r.Valid() && Ready(drain)
    ensures BlockData(lt, dt, old(r.Remaining()), old(drain.file)) ==
      if refused then Refused else Done(drain.file, r.Remaining())
  {
    hide Decode, LengthTable, DistTable, Ready, ReadMatch, CopyBack, BitReader.Remaining, BitReader.Valid;
    ghost var result := BlockData(lt, dt, r.Remaining(), drain.file);
    while true
      invariant r.Valid() && Ready(drain)
      invariant BlockData(lt, dt, r.Remaining(), drain.file) == result
      decreases |r.Remaining()|
    {
      var sym := r.DecodeSymbol(lt);
      if sym == 256 {
        return false;
      }
      if sym < 256 {
        PutByte(drain, sym as byte);
      } else {
        var len, offs := ReadMatchFields(r, dt, sym - 257, length, dist);
        refused := CopyMatch(drain, len, offs);
        if refused {
          return;
        }
      }
    }
  }

  /** Dropping the bits left over in the current byte leaves whole bytes. */
  lemma Aligned(r: BitReader, out: Data)
    requires r.Valid()
    ensures StoredBlock(r.Remaining(), out) == StoredBytes(r.stream[r.pos..], out)
  {
    hide StoredBytes, Unpack, Pack;
    assert |r.Remaining()| % 8 == r.bitcount;
    assert r.Remaining()[r.bitcount..] == Unpack(r.stream[r.pos..]);
    PackUnpack(r.stream[r.pos..]);
  }

  /** Copies bytes from the source to the drain. */
  method CopyBytes(r: BitReader, drain: FileInflateDrain, length: nat)
    requires r.Valid() && Ready(drain) && r.pos + length <= |r.stream|
    modifies r`pos, drain, drain.buf
    ensures r.Valid() && Ready(drain) && r.pos == old(r.pos) + length
    ensures drain.file == old(drain.file) + r.stream[old(r.pos)..r.pos]
  {
    hide Ready;
    ghost var p, f := r.pos, drain.file;
    for i := 0 to length
      invariant r.Valid() && Ready(drain) && r.pos == p + i && drain.file == f + r.stream[p..p + i]
    {
      var b := r.Get();
      PutByte(drain, b);
    }
  }

  /** inflate_uncompressed_block. */
  method InflateStored(r: BitReader, drain: FileInflateDrain) returns (ok: bool)
    requires r.Valid() && Ready(drain) && StoredBlock(r.Remaining(), drain.file) != Undefined
    modifies r, drain, drain.buf
    ensures r.Valid() && Ready(drain)
    ensures StoredBlock(old(r.Remaining()), old(drain.file)) == if ok then Done(drain.file, r.Remaining()) else Failed
  {
    hide Ready, StoredBlock, Unpack, Field;
    Aligned(r, drain.file);
    ghost var s := r.stream[r.pos..];
    var b0 := r.Get();
    var b1 := r.Get();
    var length := b0 as nat + 256 * b1 as nat;
    var b2 := r.Get();
    var b3 := r.Get();
    var invlength := b2 as nat + 256 * b3 as nat;
    if length != 0xffff - invlength {
      return false;
    }
    CopyBytes(r, drain, length);
    assert r.stream[r.pos - length..r.pos] == s[4..4 + length] && r.stream[r.pos..] == s[4 + length..];
    r.bitcount := 0;
    AtBoundary(r);
    return true;
  }

  lemma AtBoundary(r: BitReader)
    requires r.Valid() && r.bitcount == 0
    ensures r.Remaining() == Unpack(r.stream[r.pos..])
  {}

  /** build_fixed_trees: literals and lengths first by code, as in the fixed code of deflate. */
  method BuildFixedTrees() returns (lt: Tree, dt: Tree)
    ensures lt == FixedLit() && dt == FixedDist()
  {
    var trans := new nat[288];
    for i := 0 to 24
      invariant forall j | 0 <= j < i :: trans[j] == FixedLitSymbol(j)
    {
      trans[i] := 256 + i;
    }
    for i := 0 to 144
      invariant forall j | 0 <= j < 24 + i :: trans[j] == FixedLitSymbol(j)
    {
      trans[24 + i] := i;
    }
    for i := 0 to 8
      invariant forall j | 0 <= j < 168 + i :: trans[j] == FixedLitSymbol(j)
    {
      trans[24 + 144 + i] := 280 + i;
    }
    for i := 0 to 112
      invariant forall j | 0 <= j < 176 + i :: trans[j] == FixedLitSymbol(j)
    {
      trans[24 + 144 + 8 + i] := 144 + i;
    }
    lt := Tree([0, 0, 0, 0, 0, 0, 0, 24, 152, 112, 0, 0, 0, 0, 0, 0], trans[..]);
    assert lt.trans == FixedLit().trans;
    var dtrans := new nat[32];
    for i := 0 to 32
      invariant forall j | 0 <= j < i :: dtrans[j] == j
    {
      dtrans[i] := i;
    }
    dt := Tree([0, 0, 0, 0, 0, 32, 0, 0, 0, 0, 0, 0, 0, 0, 0, 0], dtrans[..]);
    assert dt.trans == FixedDist().trans;
  }

  // ----- dynamic blocks -----

  method ReadClcLengths(r: BitReader, hclen: nat) returns (cl: seq<nat>)
    requires r.Valid() && hclen <= 19 && ReadClc(r.Remaining(), 0, hclen, seq(19, _ => 0)).Lengths?
    modifies r
    ensures r.Valid() && ReadClc(old(r.Remaining()), 0, hclen, seq(19, _ => 0)) == Lengths(cl, r.Remaining())
  {
    hide BitReader.Remaining, BitReader.Valid, Num;
    ghost var result := ReadClc(r.Remaining(), 0, hclen, seq(19, _ => 0));
    var lengths := new nat[19](_ => 0);
    assert lengths[..] == seq(19, _ => 0);
    for i := 0 to hclen
      invariant r.Valid() && lengths.Length == 19 && ReadClc(r.Remaining(), i, hclen, lengths[..]) == result
    {
      var clen := r.ReadBits(3, 0);
      lengths[CLCIDX[i]] := clen;
    }
    cl := lengths[..];
  }

  method Fill(lengths: array<nat>, num: nat, v: nat, k: nat)
    requires num + k <= lengths.Length
    modifies lengths
    ensures lengths[..num + k] == old(lengths[..num]) + seq(k, _ => v)
  {
    for i := 0 to k
      invariant lengths[..num] == old(lengths[..num])
      invariant forall j | num <= j < num + i :: lengths[j] == v
    {
      lengths[num + i] := v;
    }
    assert lengths[..num + k] == lengths[..num] + lengths[num..num + k];
    assert lengths[num..num + k] == seq(k, _ => v);
  }

  /** A run of equal lengths. */
  method FillRun(r: BitReader, lengths: array<nat>, num: nat, bits: nat, base: nat, v: nat) returns (num': nat)
    requires r.Valid() && num <= lengths.Length == MAX_LENGTHS
    requires ReadRepeat(r.Remaining(), bits, base, v, lengths[..num]).Lengths?
    modifies r, lengths
    ensures r.Valid() && num' <= MAX_LENGTHS
    ensures ReadRepeat(old(r.Remaining()), bits, base, v, old(lengths[..num]))
         == Lengths(lengths[..num'], r.Remaining())
  {
    hide BitReader.Remaining, BitReader.Valid, Num;
    var k := r.ReadBits(bits, base);
    Fill(lengths, num, v, k);
    num' := num + k;
  }

  /** One round of the loop over the code lengths. */
  method ReadSomeLengths(r: BitReader, t: Tree, lengths: array<nat>, num: nat) returns (num': nat)
    requires r.Valid() && num < lengths.Length == MAX_LENGTHS && Decode(t, r.Remaining()).Symbol?
    requires var d := Decode(t, r.Remaining()); ReadSome(d.sym, d.rest, lengths[..num]).Lengths?
    modifies r, lengths
    ensures r.Valid() && num' <= MAX_LENGTHS
    ensures var d := Decode(t, old(r.Remaining()));
      ReadSome(d.sym, d.rest, old(lengths[..num])) == Lengths(lengths[..num'], r.Remaining())
  {
    hide BitReader.Remaining, BitReader.Valid, Decode, ReadRepeat;
    var sym := r.DecodeSymbol(t);
    match sym {
      case 16 =>
        var prev := lengths[num - 1];
        num' := FillRun(r, lengths, num, 2, 3, prev);
      case 17 => num' := FillRun(r, lengths, num, 3, 3, 0);
      case 18 => num' := FillRun(r, lengths, num, 7, 11, 0);
      case _ =>
        ghost var ls := lengths[..num];
        lengths[num] := sym;
        num' := num + 1;
        assert lengths[..num'] == ls + [sym];
    }
  }

  method ReadCodeLengths(r: BitReader, t: Tree, n: nat) returns (ls: seq<nat>)
    requires r.Valid() && n <= MAX_LENGTHS && ReadLengths(t, r.Remaining(), [], n).Lengths?
    modifies r
    ensures r.Valid() && ReadLengths(t, old(r.Remaining()), [], n) == Lengths(ls, r.Remaining())
  {
    hide BitReader.Remaining, BitReader.Valid, Decode, ReadSome;
    ghost var result := ReadLengths(t, r.Remaining(), [], n);
    var lengths := new nat[MAX_LENGTHS](_ => 0);
    var num: nat := 0;
    assert lengths[..0] == [];
    while num < n
      invariant r.Valid() && lengths.Length == MAX_LENGTHS && num <= MAX_LENGTHS
      invariant ReadLengths(t, r.Remaining(), lengths[..num], n) == result
      decreases |r.Remaining()|
    {
      num := ReadSomeLengths(r, t, lengths, num);
    }
    ls := lengths[..num];
  }

  /** decode_trees. */
  method DecodeTrees(r: BitReader) returns (lt: Tree, dt: Tree)
    requires r.Valid() && ReadTrees(r.Remaining()).Trees?
    modifies r
    ensures r.Valid() && ReadTrees(old(r.Remaining())) == Trees(lt, dt, r.Remaining())
  {
    hide BitReader.Remaining, BitReader.Valid, Num, TreeOf, ReadClc, ReadLengths;
    ghost var bits := r.Remaining();
    NumSmall(bits[..5]);
    NumSmall(bits[5..10]);
    NumSmall(bits[10..14]);
    var hlit := r.ReadBits(5, 257);
    var hdist := r.ReadBits(5, 1);
    var hclen := r.ReadBits(4, 4);
    assert bits[5..][..5] == bits[5..10] && bits[5..][5..][..4] == bits[10..14] && bits[5..][5..][4..] == bits[14..];
    ClcValid(bits[14..], 0, hclen, seq(19, _ => 0));
    var cl := ReadClcLengths(r, hclen);
    var codeTree := BuildTree(cl);
    LengthsValid(cl, r.Remaining(), [], hlit + hdist);
    var ls := ReadCodeLengths(r, codeTree, hlit + hdist);
    lt := BuildTree(ls[..hlit]);
    dt := BuildTree(ls[hlit..hlit + hdist]);
  }

  /** inflate_dynamic_block. */
  method InflateDynamic(r: BitReader, drain: FileInflateDrain, length: Table, dist: Table) returns (refused: bool)
    requires r.Valid() && Ready(drain) && length == LengthTable() && dist == DistTable()
    requires var t := ReadTrees(r.Remaining()); t.Trees? && BlockData(t.lt, t.dt, t.rest, drain.file) != Undefined
    modifies r, drain, drain.buf
    ensures r.Valid() && Ready(drain)
    ensures var t := ReadTrees(old(r.Remaining()));
      BlockData(t.lt, t.dt, t.rest, old(drain.file)) == if refused then Refused else Done(drain.file, r.Remaining())
  {
    hide Ready, BlockData, ReadTrees, LengthTable, DistTable, BitReader.Remaining, BitReader.Valid;
    var lt, dt := DecodeTrees(r);
    refused := InflateBlockData(r, drain, lt, dt, length, dist);
  }

  /** How uncompress ends: with its two return values, or in the failed assertion of the drain. */
  datatype Status = Succeeded | Rejected | AssertionFailed

  /** uncompress: every stream with a meaning is inflated to that meaning, except that the assertion fails
      exactly if decoding comes to a match at the largest distance. */
  method Uncompress(r: BitReader, drain: FileInflateDrain) returns (status: Status)
    requires r.Valid() && Ready(drain) && Blocks(r.Remaining(), drain.file) != Undefined
    modifies r, drain, drain.buf
    ensures r.Valid() && Ready(drain)
    ensures Blocks(old(r.Remaining()), old(drain.file)) ==
      match status
      case Succeeded => Done(drain.file, r.Remaining())
      case Rejected => Failed
      case AssertionFailed => Refused
    ensures status == AssertionFailed <==> WINDOW in Distances(old(r.Remaining()), old(drain.file))
    ensures status == Succeeded ==>
      Blocks(old(r.Remaining()), old(drain.file), true) == Done(drain.file, r.Remaining())
  {
    hide Ready, BlockData, StoredBlock, FixedLit, FixedDist, LengthTable, DistTable, Num, ReadTrees, Distances;
    hide BitReader.Remaining, BitReader.Valid;
    var length, dist := BuildTables();
    var lt, dt := BuildFixedTrees();
    RefusedExactly(r.Remaining(), drain.file);
    ghost var result := Blocks(r.Remaining(), drain.file);
    while true
      invariant r.Valid() && Ready(drain)
      invariant Blocks(r.Remaining(), drain.file) == result
      decreases |r.Remaining()|
    {
      ghost var bits := r.Remaining();
      var bfinal := r.GetBit();
      assert bits[1..] == r.Remaining();
      var btype := r.ReadBits(2, 0);
      assert bits[1..][..2] == bits[1..3] && bits[1..][2..] == bits[3..];
      var ok, refused := true, false;
      if btype == 0 {
        ok := InflateStored(r, drain);
      } else if btype == 1 {
        refused := InflateBlockData(r, drain, lt, dt, length, dist);
      } else if btype == 2 {
        refused := InflateDynamic(r, drain, length, dist);
      } else {
        return Rejected;
      }
      if refused {
        return AssertionFailed;
      }
      if !ok {
        return Rejected;
      }
      if bfinal {
        return Succeeded;
      }
    }
  }
}
