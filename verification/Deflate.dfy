/** Deflate as a program: bit output, symbol output, and the search for matches. */
module Deflation {
  import opened Bytes
  import opened Bits
  import opened Huffman
  import opened LengthTables
  import opened InflateSpec
  import opened DeflateCode
  import opened DeflateSources

  /** The encoder's view of a code: symbols from litbase[i] on have length[i] bits, from codebase[i]. */
  datatype CodeTree = CodeTree(litbase: seq<nat>, length: seq<nat>, codebase: seq<nat>)

  const LITERALS: CodeTree := CodeTree([0, 144, 256, 280], [8, 9, 7, 8], [0x30, 0x190, 0, 0xC0])

  /** Only the first entry is used; the second ends the search and the others stay uninitialised. */
  const DISTANCES: CodeTree := CodeTree([0, 32, 0, 0], [5, 0, 0, 0], [0, 0, 0, 0])

  function SymbolCode(t: CodeTree, sym: nat): BitString
    requires (t == LITERALS && sym < 288) || (t == DISTANCES && sym < 32)
  {
    if t == LITERALS then LitCode(sym) else DistCode(sym)
  }

  class BitWriter {
    var file: seq<byte>
    var tag: nat
    var bitcount: nat

    ghost predicate Valid()
      reads this
    {
      bitcount < 8 && tag < Pow2(bitcount)
    }

    /** Everything written so far, in bits. */
    ghost function Written(): BitString
      reads this
    {
      Unpack(file) + Field(tag, bitcount)
    }

    constructor ()
      ensures Valid() && Written() == [] && file == [] && bitcount == 0
    {
      file, tag, bitcount := [], 0, 0;
    }

    method PutByte(b: byte)
      modifies this`file
      ensures file == old(file) + [b]
    {
      file := file + [b];
    }

    /** Pads the last byte with zero bits. */
    method Flush()
      requires Valid()
      modifies this
      ensures Valid() && bitcount == 0 && Written() == Unpack(file)
      ensures Written() == old(Written()) + Zeros(if old(bitcount) == 0 then 0 else 8 - old(bitcount))
      ensures old(bitcount) == 0 ==> file == old(file)
    {
      hide Unpack;
      TagIsByte();
      if bitcount > 0 {
        FieldPad(tag, bitcount, 8 - bitcount);
        UnpackSnoc(file, tag as byte);
        Associative(Unpack(file), Field(tag, bitcount), Zeros(8 - bitcount));
        PutByte(tag as byte);
        tag := 0;
        bitcount := 0;
      }
    }

    lemma CountIsSmall()
      requires Valid()
      ensures bitcount < 8
    {}

    lemma TagIsByte()
      requires Valid()
      ensures tag < 256
    {
      Pow2UpTo8(bitcount);
    }

    method WriteBit(bit: bool)
      requires Valid()
      modifies this
      ensures Valid() && Written() == old(Written()) + [bit] && bitcount == (old(bitcount) + 1) % 8
    {
      hide Unpack, Field, Pow2;
      FieldSnoc(tag, bitcount, bit);
      Associative(Unpack(file), Field(tag, bitcount), [bit]);
      tag := tag + Bit(bit) * Pow2(bitcount);
      bitcount := bitcount + 1;
      if bitcount == 8 {
        EightBits();
        UnpackSnoc(file, tag as byte);
        PutByte(tag as byte);
        tag := 0;
        bitcount := 0;
        assert Field(0, 0) == [];
      }
    }

    method WriteBits(bits: nat, num: nat)
      requires Valid()
      modifies this
      ensures Valid() && Written() == old(Written()) + Field(bits, num)
      ensures bitcount == (old(bitcount) + num) % 8
    {
      hide Written, Valid;
      CountIsSmall();
      var rest := bits;
      ghost var w, c := Written(), bitcount;
      for k := 0 to num
        invariant Valid() && Written() + Field(rest, num - k) == w + Field(bits, num)
        invariant bitcount == (c + k) % 8
      {
        Associative(Written(), [rest % 2 == 1], Field(rest / 2, num - k - 1));
        WriteBit(rest % 2 == 1);
        rest := rest / 2;
      }
    }

    method WriteBitsReverse(bits: nat, num: nat)
      requires Valid()
      modifies this
      ensures Valid() && Written() == old(Written()) + Code(bits, num)
    {
      hide Written, Valid;
      var n: nat := num;
      ghost var w := Written();
      while n > 0
        invariant n <= num && Valid() && Written() == w + Code(Shr(bits, n), num - n)
      {
        n := n - 1;
        ShrHalves(bits, n);
        Associative(w, Code(Shr(bits, n + 1), num - n - 1), [Shr(bits, n) % 2 == 1]);
        WriteBit(Shr(bits, n) % 2 == 1);
      }
    }
  }

  /** v >> n. */
  function Shr(v: nat, n: nat): nat
    decreases n
  {
    if n == 0 then v else Shr(v / 2, n - 1)
  }

  lemma {:induction false} ShrHalves(v: nat, n: nat)
    ensures Shr(v, n + 1) == Shr(v, n) / 2
    decreases n
  {
    if n > 0 { ShrHalves(v / 2, n - 1); }
  }

  lemma Pow2UpTo8(n: nat)
    requires n < 8
    ensures Pow2(n) <= 128
    decreases 8 - n
  {
    if n < 7 { Pow2UpTo8(n + 1); } else { assert Pow2(5) == 32; }
  }

  // ----- symbols and values -----

  /** write_symbol. */
  method WriteSymbol(w: BitWriter, t: CodeTree, sym: nat)
    requires w.Valid() && ((t == LITERALS && sym < 288) || (t == DISTANCES && sym < 32))
    modifies w
    ensures w.Valid() && w.Written() == old(w.Written()) + SymbolCode(t, sym)
  {
    hide BitWriter.Valid, BitWriter.Written, Code;
    var i := 0;
    while i < 4 && t.litbase[i] <= sym
      invariant 0 <= i <= 4 && forall j | 0 <= j < i :: t.litbase[j] <= sym
    {
      i := i + 1;
    }
    i := i - 1;
    w.WriteBitsReverse(t.codebase[i] + (sym - t.litbase[i]), t.length[i]);
  }

  /** write_int: the symbol of the slot the value falls into, and the extra bits. */
  method WriteInt(w: BitWriter, t: CodeTree, table: Table, value: nat, add: nat) returns (ghost slot: nat)
    requires w.Valid() && |table.base| == 30 == |table.bits| && table.base[0] <= value
    requires (t == LITERALS && add == 257) || (t == DISTANCES && add == 0)
    modifies w
    ensures w.Valid() && IsSlot(table, value, slot)
    ensures w.Written() == old(w.Written()) + SymbolCode(t, add + slot) + Extra(table, value, slot)
  {
    hide BitWriter.Valid, BitWriter.Written, SymbolCode;
    var i := 0;
    while i < 30 && table.base[i] <= value
      invariant 0 <= i <= 30 && (i > 0 ==> table.base[i - 1] <= value)
    {
      i := i + 1;
    }
    i := i - 1;
    slot := i;
    WriteSymbol(w, t, add + i);
    w.WriteBits(value - table.base[i], table.bits[i]);
  }

  /** `sent` is the code of a match of `len` bytes from `dist` bytes back. */
  ghost predicate IsMatchCode(sent: BitString, len: nat, dist: nat) {
    exists i, j :: IsSlot(LengthTable(), len, i) && IsSlot(DistTable(), dist, j) && i < 30 && j < 30
                   && sent == MatchCode(len, i, dist, j)
  }

  /** write_symbol_chain: what it writes makes inflate copy `len` bytes from `dist` bytes back. */
  method WriteMatch(w: BitWriter, length: Table, distance: Table, len: nat, dist: nat, ghost o: Data)
    returns (ghost sent: BitString)
    requires w.Valid() && length == LengthTable() && distance == DistTable()
    requires 3 <= len <= 258 && 1 <= dist <= |o| && dist < WINDOW
    modifies w
    ensures w.Valid() && w.Written() == old(w.Written()) + sent && Sends(sent, o, CopyBack(o, len, dist))
    ensures IsMatchCode(sent, len, dist)
  {
    hide BitWriter.Valid, BitWriter.Written, LitCode, DistCode, Extra, LengthTable, DistTable, Sends, CopyBack;
    FirstBases();
    ghost var before := w.Written();
    var i := WriteInt(w, LITERALS, length, len, 257);
    var j := WriteInt(w, DISTANCES, distance, dist, 0);
    SendsMatch(len, i, dist, j, o);
    sent := MatchCode(len, i, dist, j);
    ghost var a, b, c, d := LitCode(257 + i), Extra(length, len, i), DistCode(j), Extra(distance, dist, j);
    assert before + a + b + c + d == before + (a + b + (c + d));
  }

  lemma FirstBases()
    ensures LengthTable().base[0] == 3 && DistTable().base[0] == 1
  {}

  // ----- matches -----

  /** The data from `p` on repeats what is `dist` bytes before, for `len` bytes. */
  ghost predicate Repeats(data: seq<byte>, p: nat, len: nat, dist: nat) {
    && 1 <= dist <= p && p + len <= |data|
    && forall q | p <= q < p + len :: data[q] == data[q - dist]
  }

  /** Copying a repetition reproduces the data, even where source and copy overlap. */
  lemma {:induction false} CopyReproduces(data: seq<byte>, p: nat, len: nat, dist: nat)
    requires Repeats(data, p, len, dist)
    ensures CopyBack(data[..p], len, dist) == data[..p + len]
    decreases len
  {
    if len > 0 {
      assert data[..p] + [data[p]] == data[..p + 1];
      CopyReproduces(data, p + 1, len - 1, dist);
    }
  }

  /** Where the source stands while a block is compressed: `done` of its bytes are read, `len` are
      left, and nothing is loaded meanwhile. */
  ghost predicate InBlock(src: FileDeflateSource, done: nat, len: nat)
    reads src, src.cache, src.next
  {
    src.Valid() && src.pos == done && src.cached == done + len && src.total + len <= |src.file| && src.total >= done
  }

  method PeekAt(src: FileDeflateSource, off: int, ghost done: nat, ghost len: nat) returns (c: byte)
    requires InBlock(src, done, len) && -(done as int) <= off < len && len > 0
    modifies src, src.cache, src.next
    ensures InBlock(src, done, len) && {src.cache, src.next} == old({src.cache, src.next})
    ensures src.total == old(src.total) && c == src.file[src.total + off]
  {
    hide FileDeflateSource.Valid;
    c := src.Peek(off);
  }

  /** Lines 111-118: the most bytes below distance and limit that match `dist` bytes before. */
  method MatchLength(src: FileDeflateSource, dist: nat, end: nat, ghost done: nat, ghost len: nat) returns (y: nat)
    requires InBlock(src, done, len) && 1 <= dist <= done && 1 <= end <= len
    modifies src, src.cache, src.next
    ensures InBlock(src, done, len) && {src.cache, src.next} == old({src.cache, src.next})
    ensures src.total == old(src.total) && y < end && y < dist && Repeats(src.file, src.total, y, dist)
    ensures forall z: nat | z < dist && z < end && Repeats(src.file, src.total, z, dist) :: z <= y
  {
    hide FileDeflateSource.Valid;
    y := 0;
    while y < dist && y < end
      invariant y <= end && y <= dist && InBlock(src, done, len) && src.total == old(src.total)
      invariant {src.cache, src.next} == old({src.cache, src.next})
      invariant Repeats(src.file, src.total, y, dist)
    {
      var a := PeekAt(src, y - dist, done, len);
      var b := PeekAt(src, y, done, len);
      if a != b {
        break;
      }
      y := y + 1;
    }
    if y >= dist || y >= end {
      y := y - 1;
    }
  }

  /** A repetition that FindMatch may choose: within the block, from at most 29 bytes back, not overlapping. */
  ghost predicate Candidate(data: seq<byte>, p: nat, done: nat, end: nat, d: nat, z: nat) {
    d <= 29 && d <= done && z < d && z < end && Repeats(data, p, z, d)
  }

  /** The longest of them, from the farthest place. */
  ghost predicate Longest(data: seq<byte>, p: nat, done: nat, end: nat, d: nat, z: nat) {
    && Candidate(data, p, done, end, d, z)
    && forall e: nat, y: nat | Candidate(data, p, done, end, e, y) :: y <= z && (y == z ==> e <= d)
  }

  /** Lines 103-125: the longest match among the 29 bytes before the position, the farthest if several
      are equally long. */
  method FindMatch(src: FileDeflateSource, end: nat, done: nat, ghost len: nat) returns (maxlen: nat, dist: nat)
    requires InBlock(src, done, len) && 1 <= end <= len
    modifies src, src.cache, src.next
    ensures InBlock(src, done, len) && {src.cache, src.next} == old({src.cache, src.next})
    ensures src.total == old(src.total) && maxlen < end
    ensures forall d: nat, z: nat | Candidate(src.file, src.total, done, end, d, z) :: z <= maxlen
    ensures maxlen > 0 ==> Longest(src.file, src.total, done, end, dist, maxlen)
  {
    hide FileDeflateSource.Valid, Repeats;
    maxlen, dist := 0, 0;
    var d := Min(29, done);
    while d > 0
      invariant 0 <= d <= 29 && d <= done && InBlock(src, done, len) && src.total == old(src.total)
      invariant {src.cache, src.next} == old({src.cache, src.next}) && maxlen < end
      invariant maxlen > 0 ==> d < dist && Candidate(src.file, src.total, done, end, dist, maxlen)
      invariant forall e: nat, z: nat | d < e && Candidate(src.file, src.total, done, end, e, z) ::
        z <= maxlen && (z == maxlen > 0 ==> e <= dist)
    {
      var y := MatchLength(src, d, end, done, len);
      if y > maxlen {
        maxlen, dist := y, d;
      }
      d := d - 1;
    }
    NoneFromNowhere(src.file, src.total);
  }

  lemma NoneFromNowhere(data: seq<byte>, p: nat)
    ensures forall z: nat :: !Repeats(data, p, z, 0)
  {}

  /** Lines 136-143: how often the current byte is repeated right behind itself. */
  method RunLength(src: FileDeflateSource, sym: byte, end: nat, ghost done: nat, ghost len: nat) returns (x: nat)
    requires InBlock(src, done, len) && 1 <= end <= len && sym == src.file[src.total]
    modifies src, src.cache, src.next
    ensures InBlock(src, done, len) && {src.cache, src.next} == old({src.cache, src.next})
    ensures src.total == old(src.total) && x < end && Repeats(src.file, src.total + 1, x, 1)
    ensures x + 1 < end ==> src.total + x + 1 < |src.file| && src.file[src.total + x + 1] != sym
  {
    hide FileDeflateSource.Valid;
    x := 1;
    while x < end
      invariant 1 <= x <= end && InBlock(src, done, len) && src.total == old(src.total)
      invariant {src.cache, src.next} == old({src.cache, src.next})
      invariant forall q | src.total <= q < src.total + x :: src.file[q] == sym
    {
      var c := PeekAt(src, x, done, len);
      if c != sym {
        break;
      }
      x := x + 1;
    }
    // x < end now, so the correction in lines 142-143 never applies
    x := x - 1;
  }

  /** Lines 155-157: takes the bytes that have been encoded from the source. */
  method Skip(src: FileDeflateSource, x: nat, ghost done: nat, ghost len: nat)
    requires InBlock(src, done, len) && x <= len
    modifies src, src.cache, src.next
    ensures InBlock(src, done + x, len - x) && {src.cache, src.next} == old({src.cache, src.next})
    ensures src.total == old(src.total) + x
  {
    hide FileDeflateSource.Valid;
    for i := 0 to x
      invariant InBlock(src, done + i, len - i) && src.total == old(src.total) + i
      invariant {src.cache, src.next} == old({src.cache, src.next})
    {
      var _ := src.Get();
    }
  }

  /** The byte at `p` is followed by itself n times, up to the limit or another byte. */
  ghost predicate Run(data: seq<byte>, p: nat, end: nat, n: nat) {
    && n < end && p + n < |data| && Repeats(data, p + 1, n, 1)
    && (n + 1 < end ==> p + n + 1 < |data| && data[p + n + 1] != data[p])
  }

  /** Which code deflate chooses for the next `x` bytes: the longest match of at least three bytes if there
      is one, else a literal and the run behind it if that has at least three bytes. */
  ghost predicate Chosen(data: seq<byte>, p: nat, done: nat, end: nat, x: nat, sent: BitString) {
    if exists d: nat, z: nat :: z >= 3 && Candidate(data, p, done, end, d, z)
    then exists d: nat :: Longest(data, p, done, end, d, x) && IsMatchCode(sent, x, d)
    else exists n: nat, run: BitString :: LiteralAndRun(data, p, end, n, run, x, sent)
  }

  ghost predicate LiteralAndRun(data: seq<byte>, p: nat, end: nat, n: nat, run: BitString, x: nat, sent: BitString) {
    && Run(data, p, end, n) && sent == LitCode(data[p] as nat) + run
    && if n >= 3 then x == n + 1 && IsMatchCode(run, n, 1) else x == 1 && run == []
  }

  /** Lines 101-152: encodes the next bytes as a match, or as a literal with a run behind it. */
  method EncodeNext(w: BitWriter, src: FileDeflateSource, length: Table, distance: Table, done: nat, len: nat)
    returns (x: nat, ghost sent: BitString)
    requires w.Valid() && InBlock(src, done, len) && len > 0
    requires length == LengthTable() && distance == DistTable()
    modifies w, src, src.cache, src.next
    ensures w.Valid() && InBlock(src, done, len) && {src.cache, src.next} == old({src.cache, src.next})
    ensures src.total == old(src.total) && 1 <= x <= len
    ensures w.Written() == old(w.Written()) + sent
    ensures Sends(sent, src.file[..src.total], src.file[..src.total + x])
    ensures Chosen(src.file, src.total, done, Min(29, len), x, sent)
  {
    hide FileDeflateSource.Valid, BitWriter.Valid, BitWriter.Written, LengthTable, DistTable, Sends, LitCode, CopyBack;
    hide IsMatchCode, Chosen;
    ghost var p, data := src.total, src.file;
    var sym := PeekAt(src, 0, done, len);
    var end := Min(29, len);
    var maxlen, dist := FindMatch(src, end, done, len);
    if maxlen >= 3 {
      sent := WriteMatch(w, length, distance, maxlen, dist, data[..p]);
      CopyReproduces(data, p, maxlen, dist);
      x := maxlen;
      ChosenMatch(data, p, done, end, dist, x, sent);
    } else {
      ghost var before := w.Written();
      WriteSymbol(w, LITERALS, sym as nat);
      sent := LitCode(sym as nat);
      SendsLiteral(sym, data[..p]);
      assert data[..p] + [sym] == data[..p + 1];
      x := RunLength(src, sym, end, done, len);
      if x >= 3 {
        ghost var run := WriteMatch(w, length, distance, x, 1, data[..p + 1]);
        CopyReproduces(data, p + 1, x, 1);
        SendsBoth(sent, run, data[..p], data[..p + 1], data[..p + 1 + x]);
        Associative(before, sent, run);
        ChosenLiteral(data, p, done, end, x, run);
        sent := sent + run;
        x := x + 1;
      } else {
        ChosenLiteral(data, p, done, end, x, []);
        assert sent + [] == sent;
        x := 1;
      }
    }
  }

  lemma ChosenMatch(data: seq<byte>, p: nat, done: nat, end: nat, d: nat, z: nat, sent: BitString)
    requires z >= 3 && Longest(data, p, done, end, d, z) && IsMatchCode(sent, z, d)
    ensures Chosen(data, p, done, end, z, sent)
  {
    hide Candidate, IsMatchCode;
  }

  lemma ChosenLiteral(data: seq<byte>, p: nat, done: nat, end: nat, n: nat, run: BitString)
    requires forall d: nat, z: nat | Candidate(data, p, done, end, d, z) :: z < 3
    requires Run(data, p, end, n) && if n >= 3 then IsMatchCode(run, n, 1) else run == []
    ensures Chosen(data, p, done, end, if n >= 3 then n + 1 else 1, LitCode(data[p] as nat) + run)
  {
    hide Candidate, IsMatchCode, LitCode, Repeats;
    assert LiteralAndRun(data, p, end, n, run, if n >= 3 then n + 1 else 1, LitCode(data[p] as nat) + run);
  }

  /** deflate_fixed_block: one block of the source, whatever it holds, is sent as such. */
  method DeflateFixedBlock(w: BitWriter, src: FileDeflateSource, length: Table, distance: Table)
    returns (ghost sent: BitString)
    requires w.Valid() && InBlock(src, 0, src.cached) && src.cached > 0
    requires length == LengthTable() && distance == DistTable()
    modifies w, src, src.cache, src.next
    ensures w.Valid() && src.Valid() && {src.cache, src.next} == old({src.cache, src.next})
    ensures src.total == old(src.total + src.cached) <= |src.file|
    ensures src.pos == src.cached == old(src.cached)
    ensures w.Written() == old(w.Written()) + (sent + LitCode(256))
    ensures Sends(sent, src.file[..old(src.total)], src.file[..src.total])
  {
    hide FileDeflateSource.Valid, BitWriter.Valid, BitWriter.Written, LengthTable, DistTable, Sends, LitCode;
    var len := src.Cached();
    var orglen := len;
    sent := [];
    SendsNothing(src.file[..src.total]);
    ghost var t, before := src.total, w.Written();
    assert before + [] == before;
    while len > 0
      invariant len <= orglen && w.Valid() && InBlock(src, orglen - len, len)
      invariant {src.cache, src.next} == old({src.cache, src.next}) && src.total == t + orglen - len
      invariant w.Written() == before + sent && Sends(sent, src.file[..t], src.file[..src.total])
    {
      var x, more := EncodeNext(w, src, length, distance, orglen - len, len);
      SendsBoth(sent, more, src.file[..t], src.file[..src.total], src.file[..src.total + x]);
      Associative(before, sent, more);
      sent := sent + more;
      Skip(src, x, orglen - len, len);
      len := len - x;
    }
    WriteSymbol(w, LITERALS, 256);
    Associative(before, sent, LitCode(256));
  }

  /** Lines 171-181: the header of a stored block on a little-endian machine. */
  method WriteStoredHeader(w: BitWriter, len: nat)
    requires len <= 0xffff
    modifies w`file
    ensures w.file == old(w.file) + StoredHeader(len)
  {
    var invlength := 0xffff - len;
    w.PutByte((len % 256) as byte);
    w.PutByte((len / 256) as byte);
    w.PutByte((invlength % 256) as byte);
    w.PutByte((invlength / 256) as byte);
  }

  /** Lines 184-185: copies the rest of the block. */
  method CopyBlock(w: BitWriter, src: FileDeflateSource, len: nat)
    requires InBlock(src, 0, len)
    modifies w`file, src, src.cache, src.next
    ensures InBlock(src, len, 0) && {src.cache, src.next} == old({src.cache, src.next})
    ensures src.total == old(src.total) + len && w.file == old(w.file) + src.file[old(src.total)..src.total]
  {
    hide FileDeflateSource.Valid;
    ghost var t, f := src.total, w.file;
    for i := 0 to len
      invariant InBlock(src, i, len - i) && src.total == t + i
      invariant {src.cache, src.next} == old({src.cache, src.next}) && w.file == f + src.file[t..t + i]
    {
      var b := src.Get();
      w.PutByte(b);
    }
  }

  lemma AtByteBoundary(w: BitWriter)
    requires w.bitcount == 0
    ensures w.Written() == Unpack(w.file)
    ensures w.tag == 0 ==> w.Valid()
  {}

  lemma EmptyTag(w: BitWriter)
    requires w.Valid() && w.bitcount == 0
    ensures w.tag == 0
  {}

  /** deflate_uncompressed_block, behind the three header bits of a block at a byte boundary. */
  method DeflateStoredBlock(w: BitWriter, src: FileDeflateSource)
    requires w.Valid() && w.bitcount == 3 && InBlock(src, 0, src.cached) && src.cached > 0
    modifies w, src, src.cache, src.next
    ensures w.Valid() && w.bitcount == 0
    ensures src.Valid() && {src.cache, src.next} == old({src.cache, src.next})
    ensures src.total == old(src.total + src.cached) <= |src.file| && src.pos == src.cached == old(src.cached)
    ensures src.cached <= 0xffff
    ensures w.Written() == old(w.Written()) +
      (Zeros(5) + Unpack(StoredHeader(src.cached) + src.file[old(src.total)..src.total]))
  {
    hide FileDeflateSource.Valid, BitWriter.Valid, BitWriter.Written, Unpack, StoredHeader, Zeros;
    ghost var before := w.Written();
    w.Flush();
    EmptyTag(w);
    var length := src.Cached();
    BlockSize(src);
    ghost var f, t := w.file, src.total;
    WriteStoredHeader(w, length);
    CopyBlock(w, src, length);
    AtByteBoundary(w);
    assert w.file == f + (StoredHeader(length) + src.file[t..src.total]);
    UnpackConcat(f, StoredHeader(length) + src.file[t..src.total]);
    Associative(before, Zeros(5), Unpack(StoredHeader(length) + src.file[t..src.total]));
  }

  lemma BlockSize(src: FileDeflateSource)
    requires src.Valid()
    ensures src.cached <= 2048
  {}

  // ----- compress -----

  /** NONE, FIXED and DYN; the last is accepted but not implemented. */
  datatype Level = NoCompression | FixedCodes | DynamicCodes

  function Kind(level: Level): nat {
    match level
    case NoCompression => 0
    case FixedCodes => 1
    case DynamicCodes => 2
  }

  /** How much of the source is left after a round of compress. */
  function AfterRound(level: Level, left: nat): nat {
    if level == DynamicCodes then left else left - Min(HALF, left)
  }

  function AfterRounds(level: Level, left: nat, n: nat): nat {
    if n == 0 then left else AfterRound(level, AfterRounds(level, left, n - 1))
  }

  lemma {:induction false} RoundsTake(level: Level, left: nat, n: nat)
    ensures level == DynamicCodes ==> AfterRounds(level, left, n) == left
    ensures level != DynamicCodes ==> AfterRounds(level, left, n) <= if n <= left then left - n else 0
  {
    if n > 0 { RoundsTake(level, left, n - 1); }
  }

  /** compress comes to an end exactly if the level is implemented or the file is empty. */
  lemma CompressEndsExactly(level: Level, left: nat)
    ensures (exists n: nat :: AfterRounds(level, left, n) == 0) <==> level != DynamicCodes || left == 0
  {
    forall n: nat ensures level == DynamicCodes ==> AfterRounds(level, left, n) == left { RoundsTake(level, left, n); }
    RoundsTake(level, left, left);
    assert level != DynamicCodes || left == 0 ==> AfterRounds(level, left, left) == 0;
  }

  /** The first `n` bytes of the data have been sent, in complete blocks. */
  ghost predicate Sent(level: Level, bits: BitString, data: Data, n: nat)
    requires n <= |data|
  {
    if n == |data| > 0 then
      if level == NoCompression then CompletesBytes(bits, [], data) else Completes(bits, [], data)
    else
      if level == NoCompression then CarriesBytes(bits, [], data[..n]) else Carries(bits, [], data[..n])
  }

  lemma NothingSent(level: Level, data: Data)
    ensures Sent(level, [], data, 0)
  {
    assert forall rest: BitString :: [] + rest == rest;
    assert data[..0] == [];
  }

  lemma FixedSent(w: BitString, sent: BitString, data: Data, n: nat, n': nat)
    requires n < n' <= |data| && Sent(FixedCodes, w, data, n) && Sends(sent, data[..n], data[..n'])
    ensures Sent(FixedCodes, w + (BlockHeader(n' == |data|, 1) + (sent + LitCode(256))), data, n')
  {
    hide Carries, Completes, Sends, LitCode, BlockHeader;
    FixedBlockAdds(w, n' == |data|, sent, [], data[..n], data[..n']);
    assert data[..|data|] == data;
  }

  lemma StoredSent(w: BitString, data: Data, n: nat, n': nat)
    requires n < n' <= |data| && n' - n <= 0xffff && Sent(NoCompression, w, data, n)
    ensures Sent(NoCompression, w + StoredBits(n' == |data|, data[n..n']), data, n')
  {
    hide CarriesBytes, CompletesBytes, StoredBits;
    StoredBlockAdds(w, n' == |data|, data[n..n'], [], data[..n]);
    assert data[..n] + data[n..n'] == data[..n'];
    assert data[..|data|] == data;
  }

  /** Lines 226-242: one block. */
  method CompressBlock(w: BitWriter, src: FileDeflateSource, level: Level, length: Table, distance: Table)
    requires w.Valid() && InBlock(src, 0, src.cached) && src.cached > 0
    requires length == LengthTable() && distance == DistTable()
    requires level == NoCompression ==> w.bitcount == 0
    requires level != DynamicCodes ==> Sent(level, w.Written(), src.file, src.total)
    modifies w, src, src.cache, src.next
    ensures w.Valid() && src.Valid() && {src.cache, src.next} == old({src.cache, src.next})
    ensures src.total <= |src.file| && |src.file| - src.total == AfterRound(level, old(|src.file| - src.total))
    ensures level != DynamicCodes ==> src.total == old(src.total + src.cached) && src.pos == src.cached
    ensures level == NoCompression ==> w.bitcount == 0
    ensures level != DynamicCodes ==> Sent(level, w.Written(), src.file, src.total)
  {
    hide FileDeflateSource.Valid, BitWriter.Valid, BitWriter.Written, LengthTable, DistTable, Sends, LitCode;
    hide Sent, Field, Unpack, StoredHeader, Zeros;
    BlockPlace(src);
    ghost var before, t := w.Written(), src.total;
    var more := src.More();
    w.WriteBit(!more);
    w.WriteBits(Kind(level), 2);
    Associative(before, [!more], Field(Kind(level), 2));
    ghost var h := BlockHeader(!more, Kind(level));
    if level == NoCompression {
      DeflateStoredBlock(w, src);
      ghost var s := Zeros(5) + Unpack(StoredHeader(src.cached) + src.file[t..src.total]);
      Associative(before, h, s);
      StoredSent(before, src.file, t, src.total);
    } else if level == FixedCodes {
      ghost var sent := DeflateFixedBlock(w, src, length, distance);
      Associative(before, h, sent + LitCode(256));
      FixedSent(before, sent, src.file, t, src.total);
    }
  }

  lemma BlockPlace(src: FileDeflateSource)
    requires InBlock(src, 0, src.cached) && src.cached > 0
    ensures src.base == src.total && src.cached <= 0xffff && src.cached == Min(HALF, |src.file| - src.total)
  {}

  /** Inflating these bytes, whatever follows them, yields the data and stops behind them. */
  ghost predicate Holds(file: seq<byte>, data: Data) {
    exists n: nat | n < 8 ::
      forall more: seq<byte> :: Blocks(Unpack(file + more), []) == Done(data, Zeros(n) + Unpack(more))
  }

  /** compress: the whole file is sent in complete blocks, the last of them marked final; nothing at
      all is written for an empty file.  The unimplemented level only ends there, as CompressEndsExactly
      shows. */
  method Compress(src: FileDeflateSource, level: Level) returns (w: BitWriter)
    requires src.Valid() && src.total == 0 && src.pos == src.cached
    requires level == DynamicCodes ==> src.file == []
    modifies src, src.cache, src.next
    ensures fresh(w) && w.Valid() && w.bitcount == 0
    ensures src.Valid() && src.total == |src.file| && src.pos == src.cached == 0
    ensures src.file == [] ==> w.file == []
    ensures src.file != [] ==> Holds(w.file, src.file)
  {
    hide FileDeflateSource.Valid, BitWriter.Valid, BitWriter.Written, LengthTable, DistTable, Sent, Blocks, Unpack;
    hide Zeros;
    var length, distance := BuildTables();
    w := new BitWriter();
    NothingSent(level, src.file);
    while true
      invariant fresh(w) && w.Valid() && src.Valid() && {src.cache, src.next} == old({src.cache, src.next})
      invariant src.pos == src.cached && src.total <= |src.file|
      invariant level == NoCompression ==> w.bitcount == 0
      invariant Sent(level, w.Written(), src.file, src.total)
      invariant src.total == 0 ==> w.file == [] && w.bitcount == 0
      decreases |src.file| - src.total
    {
      var more := src.More();
      if !more {
        var n := src.Cached();
        if n == 0 {
          break;
        }
      }
      BlockFits(src);
      CompressBlock(w, src, level, length, distance);
    }
    ghost var bits := w.Written();
    ghost var n := if w.bitcount == 0 then 0 else 8 - w.bitcount;
    w.CountIsSmall();
    w.Flush();
    if src.file != [] {
      AllSent(level, bits, src.file, w.file, n);
    }
  }

  lemma BlockFits(src: FileDeflateSource)
    requires src.Valid()
    ensures src.total + (src.cached - src.pos) <= |src.file| && src.total >= src.pos
    ensures src.base + src.cached < |src.file| ==> (src.pos == src.cached ==> src.total < |src.file|)
  {}

  /** Bits that complete the data still do so when padded to whole bytes, whatever follows. */
  lemma AllSent(level: Level, bits: BitString, data: Data, file: seq<byte>, n: nat)
    requires data != [] && Sent(level, bits, data, |data|)
    requires Unpack(file) == bits + Zeros(n) && n < 8
    ensures Holds(file, data)
  {
    hide Blocks, Unpack, Zeros;
    forall more: seq<byte> ensures Blocks(Unpack(file + more), []) == Done(data, Zeros(n) + Unpack(more)) {
      UnpackConcat(file, more);
      Associative(bits, Zeros(n), Unpack(more));
      var rest := Zeros(n) + Unpack(more);
      if level == NoCompression { RestAligned(bits, rest, |Unpack(file + more)|); }
      assert Blocks(bits + rest, []) == Done(data, rest);
    }
  }

  lemma RestAligned(a: BitString, b: BitString, n: nat)
    requires |a| + |b| == n && n % 8 == 0 && |a| % 8 == 0
    ensures |b| % 8 == 0
  {}
}
