/** Compressing a file and uncompressing the result. */
module GzipRoundTrip {
  import opened Bytes
  import opened Bits
  import opened Crc
  import opened Huffman
  import opened LengthTables
  import opened InflateSpec
  import opened InflateDrains
  import opened Inflation
  import opened DeflateCode
  import opened DeflateSources
  import opened Deflation

  /** What inflate makes of end bytes only: a file source delivers 255 for ever and a memory source 0, and
      either is refused. */
  lemma NoInputFails(eof: byte, more: seq<byte>)
    requires eof == 255 || eof == 0
    ensures Blocks(Unpack([eof] + ([eof, eof, eof, eof] + more)), []) == Failed
  {
    var tail := [eof, eof, eof, eof] + more;
    var bits, f := Unpack([eof] + tail), Field(eof as nat, 8);
    UnpackConcat([eof], tail);
    UnpackOne(eof);
    assert bits == f + Unpack(tail);
    assert bits[..3] == f[..3];
    if eof == 255 {
      assert f[0] && f[1] && f[2];
      assert Num(bits[1..3]) == 3;
    } else {
      assert !f[0] && !f[1] && !f[2];
      assert Num(bits[1..3]) == 0;
      assert |bits[3..]| % 8 == 5;
      assert bits[3..][5..] == Unpack(tail);
      PackUnpack(tail);
    }
  }

  /** The size of a file as gzip appends it, low byte first. */
  function SizeBytes(n: nat): (s: seq<byte>)
    ensures |s| == 4
  {
    [(n % 256) as byte, (n / 0x100 % 256) as byte, (n / 0x1_0000 % 256) as byte, (n / 0x100_0000 % 256) as byte]
  }

  /** Read as a number of 32 bits they are the size. */
  lemma SizeIsRead(n: nat)
    ensures Num(Unpack(SizeBytes(n))) == n % 0x1_0000_0000
  {
    hide Unpack, Num;
    var s := SizeBytes(n);
    FourBytes(s[0], s[1], s[2], s[3]);
    assert s == [s[0], s[1], s[2], s[3]];
    Digits(n);
  }

  lemma Digits(n: nat)
    ensures n % 0x1_0000_0000 ==
      n % 256 + 256 * (n / 0x100 % 256) + 0x1_0000 * (n / 0x1_0000 % 256) + 0x100_0000 * (n / 0x100_0000 % 256)
  {
    assert n / 0x1_0000 == n / 0x100 / 256 && n / 0x100_0000 == n / 0x1_0000 / 256;
    assert n / 0x1_0000_0000 == n / 0x100_0000 / 256;
  }

  /** A checksum in four bytes, low byte first. */
  function CrcBytes(crc: Register): (s: seq<byte>)
    ensures |s| == 4 && Unpack(s) == crc
  {
    UnpackPack(crc);
    Pack(crc)
  }

  /** Where a reader stands when what remains begins with less than a byte of padding. */
  lemma StandsAt(r: BitReader, n: nat, more: seq<byte>)
    requires r.Valid() && n < 8 && r.Remaining() == Zeros(n) + Unpack(more)
    ensures |r.stream| - r.pos == |more|
  {}

  lemma {:induction false} NumZeros(n: nat)
    ensures Num(Zeros(n)) == 0
  {
    if n > 0 { NumZeros(n - 1); }
  }

  lemma {:induction false} ZerosSplit(m: nat, n: nat)
    ensures Zeros(m + n)[..m] == Zeros(m) && Zeros(m + n)[m..] == Zeros(n)
  {
    if m > 0 { ZerosSplit(m - 1, n); }
  }

  lemma {:induction false} PackZeros(n: nat)
    ensures forall i | 0 <= i < |Pack(Zeros(8 * n))| :: Pack(Zeros(8 * n))[i] == 0
  {
    if n > 0 {
      ZerosSplit(8, 8 * (n - 1));
      NumZeros(8);
      PackZeros(n - 1);
    }
  }

  lemma EmptyTrailer()
    ensures CrcBytes(Crc32([])) + SizeBytes(0) == [0] + ([0, 0, 0, 0] + [0, 0, 0])
  {
    hide Pack, Unpack, Zeros, Checksum;
    ChecksumEmpty(Zeros(32));
    PackZeros(4);
  }

  /** The bytes behind an empty file are all zero, so they are refused as a deflate stream. */
  lemma EmptyFails(eof: byte)
    ensures Blocks(Unpack(CrcBytes(Crc32([])) + SizeBytes(0)), []) == Failed
  {
    hide Blocks, Unpack, Crc32, CrcBytes;
    EmptyTrailer();
    NoInputFails(0, [0, 0, 0]);
  }

  /** What the compressed file consists of behind its header: the deflated data, the checksum and the size. */
  method Gzip(file: seq<byte>, level: Level) returns (out: seq<byte>, crc: Register)
    requires level == DynamicCodes ==> file == []
    ensures crc == Crc32(file)
    ensures exists body ::
      out == body + (CrcBytes(crc) + SizeBytes(|file|)) && (if file == [] then body == [] else Holds(body, file))
  {
    hide FileDeflateSource.Valid, BitWriter.Valid, Holds, Crc32;
    var src := new FileDeflateSource(file);
    var w := Compress(src, level);
    crc := src.FinishCrc();
    assert file[..|file|] == file;
    out := w.file + (CrcBytes(crc) + SizeBytes(src.total));
  }

  /** The four bytes behind the deflated data. */
  method ReadChecksum(r: BitReader) returns (s: seq<byte>)
    requires r.Valid() && r.pos + 4 <= |r.stream|
    modifies r
    ensures s == r.stream[old(r.pos)..][..4]
  {
    var b0 := r.Get();
    var b1 := r.Get();
    var b2 := r.Get();
    var b3 := r.Get();
    s := [b0, b1, b2, b3];
  }

  /** gunzip behind the header: inflates, then takes the next four bytes for the checksum. */
  method Gunzip(data: seq<byte>, eof: byte, sizeModulus: nat, ghost body: seq<byte>, ghost file: seq<byte>)
    returns (status: Status, result: seq<byte>, crcValid: bool)
    requires SizeModulus(sizeModulus)
    requires data == body + (CrcBytes(Crc32(file)) + SizeBytes(|file|))
    requires if file == [] then body == [] else Holds(body, file)
    ensures status == if file == [] then Rejected else Succeeded
    ensures status == Succeeded ==> result == file && crcValid
  {
    hide FileInflateDrain.Valid, BitReader.Valid, BitReader.Remaining, Blocks, Unpack, Crc32, Zeros, CrcBytes;
    hide SizeBytes;
    ghost var trailer := CrcBytes(Crc32(file)) + SizeBytes(|file|);
    ghost var n: nat := 0;
    if file == [] {
      EmptyFails(eof);
      assert data == trailer;
    } else {
      n :| n < 8 && forall more: seq<byte> :: Blocks(Unpack(body + more), []) == Done(file, Zeros(n) + Unpack(more));
    }
    var reader := new BitReader(data, eof, 0);
    assert reader.stream == data;
    var drain := new FileInflateDrain(sizeModulus);
    status := Uncompress(reader, drain);
    result, crcValid := drain.file, false;
    if status == Succeeded {
      StandsAt(reader, n, trailer);
      assert data[reader.pos..] == trailer;
      var stored := ReadChecksum(reader);
      assert stored == CrcBytes(Crc32(file));
      var crc := drain.FinishCrc();
      crcValid := Unpack(stored) == crc;
    }
  }

  /** For every file and both implemented levels, gunzip gets back what gzip was given, finds the checksum
      right behind the data and finds it right -- except that the empty file is rejected. */
  method RoundTrip(file: seq<byte>, level: Level, eof: byte, sizeModulus: nat)
    returns (status: Status, result: seq<byte>, crcValid: bool)
    requires SizeModulus(sizeModulus) && (level == DynamicCodes ==> file == [])
    ensures status == if file == [] then Rejected else Succeeded
    ensures status == Succeeded ==> result == file && crcValid
  {
    hide Holds, Crc32, CrcBytes, SizeBytes;
    var out, crc := Gzip(file, level);
    ghost var body :|
      out == body + (CrcBytes(crc) + SizeBytes(|file|)) && if file == [] then body == [] else Holds(body, file);
    status, result, crcValid := Gunzip(out, eof, sizeModulus, body, file);
  }

  // ----- the largest distance -----

  lemma FarSlots()
    ensures IsSlot(LengthTable(), 3, 0) && IsSlot(DistTable(), WINDOW, 29)
  {
    DistBases();
  }

  lemma FarLength(data: seq<byte>, i: nat, j: nat)
    requires |data| == WINDOW && i == 0 && j == 29
    requires IsSlot(LengthTable(), 3, i) && IsSlot(DistTable(), WINDOW, j)
    ensures |FarStream(data, i, j) + Zeros(5)| % 8 == 0
  {
    hide StoredBits, MatchCode, LitCode, LengthTable, DistTable;
    MatchLengths(3, i, WINDOW, j);
    FarBits();
  }

  lemma FarBits()
    ensures LengthTable().bits[0] == 0 && DistTable().bits[29] == 13
  {}

  lemma MatchLengths(len: nat, i: nat, dist: nat, j: nat)
    requires i < 23 && IsSlot(LengthTable(), len, i) && IsSlot(DistTable(), dist, j)
    ensures |MatchCode(len, i, dist, j)| == 12 + LengthTable().bits[i] + DistTable().bits[j]
    ensures |LitCode(256)| == 7
  {
    hide Code, Field, LengthTable, DistTable;
  }

  /** A legal stream with a match at the largest distance: the assertion fails, whatever the data. */
  method RefuseLargestDistance(data: seq<byte>, eof: byte, sizeModulus: nat) returns (status: Status)
    requires |data| == WINDOW && SizeModulus(sizeModulus)
    ensures status == AssertionFailed
  {
    hide FileInflateDrain.Valid, BitReader.Valid, BitReader.Remaining, Blocks, Unpack, Pack, FarStream, Zeros;
    hide Distances, LengthTable, DistTable;
    FarSlots();
    FarLength(data, 0, 29);
    FarMatch(data, 0, 29, Zeros(5));
    var bytes := Pack(FarStream(data, 0, 29) + Zeros(5));
    UnpackPack(FarStream(data, 0, 29) + Zeros(5));
    var reader := new BitReader(bytes, eof, 0);
    assert reader.stream == bytes;
    var drain := new FileInflateDrain(sizeModulus);
    status := Uncompress(reader, drain);
  }

  // ----- a known stream -----

  lemma CodeStep(v: nat, n: nat)
    ensures Code(v, n + 1) == Code(v / 2, n) + [v % 2 == 1]
  {}

  lemma CodeBits()
    ensures LitCode(0x61) == [true, false, false, true, false, false, false, true]
    ensures LitCode(256) == [false, false, false, false, false, false, false]
  {
    hide Code;
    CodeStep(0x91, 7);
    CodeStep(0x48, 6);
    CodeStep(0x24, 5);
    CodeStep(0x12, 4);
    CodeStep(9, 3);
    CodeStep(4, 2);
    CodeStep(2, 1);
    CodeStep(1, 0);
    CodeStep(0, 6);
    CodeStep(0, 5);
    CodeStep(0, 4);
    CodeStep(0, 3);
    CodeStep(0, 2);
    CodeStep(0, 1);
    CodeStep(0, 0);
    NoCode();
  }
  lemma NoCode()
    ensures Code(0, 0) == []
  {}

  lemma CarriesNothing()
    ensures Carries([], [], [])
  {
    forall rest: BitString, far: bool ensures Blocks([] + rest, [], far) == Blocks(rest, [], far) {
      assert [] + rest == rest;
    }
  }

  lemma LetterBits()
    ensures Field(0x4b, 8) + (Field(4, 8) + Field(0, 8))
         == [] + (BlockHeader(true, 1) + (LitCode(0x61) + LitCode(256))) + Zeros(6)
  {
    hide Field, Zeros, LitCode;
    CodeBits();
    FieldByte(0x4b);
    FieldByte(4);
    FieldByte(0);
    FieldStep(1, 1);
    FieldStep(0, 0);
    assert Field(0, 0) == [];
    forall i | 0 <= i < 6 ensures !Zeros(6)[i] { ZerosAt(6, i); }
  }

  lemma LetterBytes()
    ensures Unpack([0x4b, 4, 0]) == Field(0x4b, 8) + (Field(4, 8) + Field(0, 8))
  {
    hide Field;
    assert [0x4b as byte, 4, 0] == [0x4b] + ([4] + [0]);
    UnpackConcat([0x4b], [4] + [0]);
    UnpackConcat([4], [0]);
    UnpackOne(0x4b);
    UnpackOne(4);
    UnpackOne(0);
  }

  /** A stream from outside: three bytes that hold one fixed block with the letter a. */
  lemma OneLetter()
    ensures Blocks(Unpack([0x4b, 4, 0]), []) == Done([0x61], Zeros(6))
  {
    hide Blocks, Unpack, LitCode, Field, BlockHeader, Zeros;
    LetterBytes();
    LetterBits();
    SendsLiteral(0x61, []);
    assert [] + [0x61 as byte] == [0x61];
    CarriesNothing();
    FixedBlockAdds([], true, LitCode(0x61), [], [], [0x61]);
  }
}
