/**
 The CRC-32 of gzip (section 8 of RFC 1952) on a register of 32 bits, least significant first:
 the table-driven update computes the bitwise definition, and a checksum updated piece by piece
 is the checksum of the whole.
 */
module Crc {
  import opened Bytes
  import opened Bits

  type Register = r: BitString | |r| == 32 witness Zeros(32)

  function Polynomial(): Register {
    Field(0xedb88320, 32)
  }

  function Xor(a: BitString, b: BitString): (r: BitString)
    requires |a| == |b|
    ensures |r| == |a| && forall i | 0 <= i < |a| :: r[i] == (a[i] != b[i])
  {
    seq(|a|, i requires 0 <= i < |a| => a[i] != b[i])
  }

  function Invert(a: Register): (r: Register)
    ensures forall i | 0 <= i < 32 :: r[i] == !a[i]
  {
    seq(32, i requires 0 <= i < 32 => !a[i])
  }

  /** c >> n. */
  function Right(c: Register, n: nat): Register
    requires n <= 32
  {
    c[n..] + Zeros(n)
  }

  // ----- the bitwise definition -----

  function Shift(c: Register): Register {
    if c[0] then Xor(Polynomial(), Right(c, 1)) else Right(c, 1)
  }

  function Shifts(c: Register, n: nat): Register
    decreases n
  {
    if n == 0 then c else Shifts(Shift(c), n - 1)
  }

  /** A byte in the low bits of the register. */
  function Low(b: nat): Register {
    Field(b, 8) + Zeros(24)
  }

  /** Each byte is added to the low bits and shifted through. */
  function Feed(c: Register, data: seq<byte>): Register
    decreases |data|
  {
    if data == [] then c else Shifts(Xor(Feed(c, data[..|data| - 1]), Low(data[|data| - 1] as nat)), 8)
  }

  /** The checksum `crc` extended by `data`. */
  function Checksum(crc: Register, data: seq<byte>): Register {
    Invert(Feed(Invert(crc), data))
  }

  function Crc32(data: seq<byte>): Register {
    Checksum(Zeros(32), data)
  }

  // ----- pieces -----

  lemma {:induction false} FeedConcat(c: Register, a: seq<byte>, b: seq<byte>)
    ensures Feed(Feed(c, a), b) == Feed(c, a + b)
    decreases |b|
  {
    hide Shifts, Xor, Low;
    if b == [] {
      assert a + b == a;
    } else {
      var b' := b[..|b| - 1];
      FeedConcat(c, a, b');
      assert (a + b)[..|a + b| - 1] == a + b';
    }
  }

  lemma DoubleInvert(x: Register)
    ensures Invert(Invert(x)) == x
  {}

  /** Updating by two pieces is updating by both together; the inversions cancel. */
  lemma ChecksumConcat(crc: Register, a: seq<byte>, b: seq<byte>)
    ensures Checksum(Checksum(crc, a), b) == Checksum(crc, a + b)
  {
    hide Feed, Invert;
    FeedConcat(Invert(crc), a, b);
    DoubleInvert(Feed(Invert(crc), a));
  }

  lemma ChecksumEmpty(crc: Register)
    ensures Checksum(crc, []) == crc
  {
    DoubleInvert(crc);
  }

  // ----- the table -----

  lemma {:induction false} ZerosAt(n: nat, i: nat)
    requires i < n
    ensures !Zeros(n)[i]
  {
    if i > 0 { ZerosAt(n - 1, i - 1); }
  }

  lemma RightAt(c: Register, n: nat, i: nat)
    requires n <= 32 && i < 32
    ensures Right(c, n)[i] == (i + n < 32 && c[i + n])
  {
    if i + n >= 32 { ZerosAt(n, i + n - 32); }
  }

  lemma ShiftLinear(x: Register, y: Register)
    ensures Shift(Xor(x, y)) == Xor(Shift(x), Shift(y))
  {
    forall i | 0 <= i < 32 ensures Shift(Xor(x, y))[i] == Xor(Shift(x), Shift(y))[i] {
      RightAt(x, 1, i);
      RightAt(y, 1, i);
      RightAt(Xor(x, y), 1, i);
    }
  }

  lemma {:induction false} ShiftsLinear(x: Register, y: Register, n: nat)
    ensures Shifts(Xor(x, y), n) == Xor(Shifts(x, n), Shifts(y, n))
    decreases n
  {
    hide Shift, Xor;
    if n > 0 {
      ShiftLinear(x, y);
      ShiftsLinear(Shift(x), Shift(y), n - 1);
    }
  }

  /** Without low bits there is no feedback. */
  lemma {:induction false} ShiftsHigh(x: Register, n: nat)
    requires n <= 32 && forall i | 0 <= i < n :: !x[i]
    ensures Shifts(x, n) == Right(x, n)
    decreases n
  {
    if n > 0 {
      var y := Shift(x);
      forall i | 0 <= i < n - 1 ensures !y[i] { RightAt(x, 1, i); }
      ShiftsHigh(y, n - 1);
      forall i | 0 <= i < 32 ensures Right(y, n - 1)[i] == Right(x, n)[i] {
        RightAt(x, n, i);
        RightAt(y, n - 1, i);
        if i + n - 1 < 32 { RightAt(x, 1, i + n - 1); }
      }
    }
  }

  /** A register split into its low byte and the rest. */
  lemma SplitLow(x: Register, high: Register)
    requires high == Zeros(8) + x[8..]
    ensures Xor(x[..8] + Zeros(24), high) == x
    ensures (forall i | 0 <= i < 8 :: !high[i]) && Right(high, 8) == Right(x, 8)
  {
    forall i | 0 <= i < 32 ensures Xor(x[..8] + Zeros(24), high)[i] == x[i] {
      if i < 8 { ZerosAt(8, i); } else { ZerosAt(24, i - 8); }
    }
    forall i | 0 <= i < 8 ensures !high[i] { ZerosAt(8, i); }
  }

  /** Eight steps of the register are one table look-up and a shift by a byte. */
  lemma TableStep(x: Register)
    ensures Shifts(x, 8) == Xor(Shifts(Low(Num(x[..8])), 8), Right(x, 8))
  {
    hide Shifts, Right, Xor;
    FieldNum(x[..8]);
    var high: Register := Zeros(8) + x[8..];
    SplitLow(x, high);
    ShiftsLinear(x[..8] + Zeros(24), high, 8);
    ShiftsHigh(high, 8);
  }

  /** The checksum of the one byte 0xff is 0xff000000, that of nothing 0. */
  lemma OneByteCounts()
    ensures Crc32([255])[31] && !Crc32([])[31]
  {
    hide Shifts, Low;
    var c := Invert(Zeros(32));
    var x := Xor(c, Low(255));
    ChecksumEmpty(Zeros(32));
    ZerosAt(32, 31);
    assert [255 as byte][..0] == [];
    assert Feed(c, [255]) == Shifts(x, 8);
    forall i | 0 <= i < 8 ensures !x[i] { Low255(i); ZerosAt(32, i); }
    ShiftsHigh(x, 8);
    RightAt(x, 8, 31);
  }

  lemma Low255(i: nat)
    requires i < 8
    ensures Low(255)[i]
  {
    hide Field;
    FieldByte(255);
  }

  // ----- the polynomial -----

  /** The powers of x below 32 in the polynomial of section 8 of RFC 1952. */
  predicate Power(k: int) {
    k in {26, 23, 22, 16, 12, 11, 10, 8, 7, 5, 4, 2, 1, 0}
  }

  lemma FieldStep(v: nat, n: nat)
    ensures Field(v, n + 1) == [v % 2 == 1] + Field(v / 2, n)
  {}

  /** The lowest four bits. */
  function Nibble(v: nat): (bits: BitString)
    ensures |bits| == 4
  {
    [v % 2 == 1, v / 2 % 2 == 1, v / 2 / 2 % 2 == 1, v / 2 / 2 / 2 % 2 == 1]
  }

  lemma FieldNibble(v: nat, n: nat)
    ensures Field(v, n + 4) == Nibble(v) + Field(v / 2 / 2 / 2 / 2, n)
  {
    hide Field;
    FieldStep(v, n + 3);
    FieldStep(v / 2, n + 2);
    FieldStep(v / 2 / 2, n + 1);
    FieldStep(v / 2 / 2 / 2, n);
  }

  lemma Sixteenth(v: nat)
    ensures v / 2 / 2 / 2 / 2 == v / 16
  {}

  lemma FieldByte(v: nat)
    ensures Field(v, 8) == Nibble(v) + Nibble(v / 16)
  {
    hide Field, Nibble;
    Sixteenth(v);
    FieldNibble(v, 4);
    FieldNibble(v / 16, 0);
    assert Field(v / 16 / 2 / 2 / 2 / 2, 0) == [];
  }

  lemma FieldOctet(v: nat, n: nat)
    ensures Field(v, 8 + n) == Field(v, 8) + Field(v / 256, n)
  {
    hide Field, Nibble;
    FieldByte(v);
    Sixteenth(v);
    Sixteenth(v / 16);
    FieldNibble(v, n + 4);
    FieldNibble(v / 16, n);
    assert v / 16 / 16 == v / 256;
  }

  lemma PolynomialBytes()
    ensures Polynomial() == Field(0xedb88320, 8) + (Field(0xedb883, 8) + (Field(0xedb8, 8) + Field(0xed, 8)))
  {
    hide Field;
    FieldOctet(0xedb88320, 24);
    FieldOctet(0xedb883, 16);
    FieldOctet(0xedb8, 8);
  }

  lemma OctetPowers(i: nat)
    requires i < 8
    ensures Field(0xedb88320, 8)[i] == Power(31 - i) && Field(0xedb883, 8)[i] == Power(23 - i)
    ensures Field(0xedb8, 8)[i] == Power(15 - i) && Field(0xed, 8)[i] == Power(7 - i)
  {
    hide Field;
    FieldByte(0xedb88320);
    FieldByte(0xedb883);
    FieldByte(0xedb8);
    FieldByte(0xed);
  }

  /** The bits of the polynomial, the highest power first. */
  lemma PolynomialAt(i: nat)
    requires i < 32
    ensures Polynomial()[i] == Power(31 - i)
  {
    hide Field, Polynomial, Power;
    PolynomialBytes();
    OctetPowers(i % 8);
    assert i == i / 8 * 8 + i % 8;
  }

  lemma {:induction false} ShiftsOneMore(c: Register, n: nat)
    ensures Shifts(c, n + 1) == Shift(Shifts(c, n))
    decreases n
  {
    hide Shift;
    if n > 0 { ShiftsOneMore(Shift(c), n - 1); }
  }

  /** A register whose lowest seven bits are clear: the eighth step adds the polynomial if bit 7 is set. */
  lemma EighthStep(x: Register, i: nat)
    requires i < 32 && forall k | 0 <= k < 7 :: !x[k]
    ensures Shifts(x, 8)[i] == ((x[7] && Power(31 - i)) != (i < 24 && x[i + 8]))
  {
    hide Shifts, Polynomial, Power;
    ShiftsHigh(x, 7);
    ShiftsOneMore(x, 7);
    var y := Right(x, 7);
    RightAt(x, 7, 0);
    RightAt(y, 1, i);
    if i < 31 { RightAt(x, 7, i + 1); }
    PolynomialAt(i);
  }

  lemma Low128(i: nat)
    requires i < 32
    ensures Low(128)[i] <==> i == 7
  {
    hide Field;
    FieldByte(128);
    if i >= 8 { ZerosAt(24, i - 8); }
  }

  /** Entry 128 of the table, whose bit takes all eight steps to come down, is the polynomial, reflected. */
  lemma FeedbackIs(i: nat)
    requires i < 32
    ensures Shifts(Low(128), 8)[i] <==> Power(31 - i)
  {
    hide Shifts, Low;
    forall k | 0 <= k < 32 ensures Low(128)[k] <==> k == 7 { Low128(k); }
    EighthStep(Low(128), i);
  }

  /** A check value that has passed through the feedback: the checksum of the byte 0x7f. */
  lemma CheckValue(i: nat)
    requires i < 32
    ensures Crc32([0x7f])[i] <==> (i < 24 <==> Power(31 - i))
  {
    hide Shifts, Low;
    var c := Invert(Zeros(32));
    var x := Xor(c, Low(0x7f));
    assert [0x7f as byte][..0] == [];
    assert Feed(c, [0x7f]) == Shifts(x, 8);
    forall k | 0 <= k < 32 ensures x[k] <==> k >= 7 { Low127(k); ZerosAt(32, k); }
    EighthStep(x, i);
  }

  lemma Low127(i: nat)
    requires i < 32
    ensures Low(0x7f)[i] <==> i < 7
  {
    hide Field;
    FieldByte(0x7f);
    if i >= 8 { ZerosAt(24, i - 8); }
  }

  ghost predicate IsTable(table: seq<Register>) {
    |table| == 256 && forall n | 0 <= n < 256 :: table[n] == Shifts(Low(n), 8)
  }

  /** CRC32::CRC32. */
  method BuildTable() returns (table: seq<Register>)
    ensures IsTable(table)
    ensures forall i | 0 <= i < 32 :: table[128][i] <==> Power(31 - i)
  {
    hide Shift, Low, Power;
    forall i | 0 <= i < 32 ensures Shifts(Low(128), 8)[i] <==> Power(31 - i) { FeedbackIs(i); }
    table := [];
    for n := 0 to 256
      invariant |table| == n && forall m | 0 <= m < n :: table[m] == Shifts(Low(m), 8)
    {
      var c := Low(n);
      for k := 0 to 8
        invariant Shifts(c, 8 - k) == Shifts(Low(n), 8)
      {
        c := Shift(c);
      }
      table := table + [c];
    }
  }

  /** CRC32::update: only the low byte of c ^ b[n] selects the entry, and adding the byte leaves the
      bits that are shifted down alone. */
  method Update(table: seq<Register>, crc: Register, buf: seq<byte>) returns (r: Register)
    requires IsTable(table)
    ensures r == Checksum(crc, buf)
  {
    hide Shifts, Xor, Right, Low, Invert;
    var c := Invert(crc);
    for n := 0 to |buf|
      invariant c == Feed(Invert(crc), buf[..n])
    {
      assert buf[..n + 1][..n] == buf[..n];
      var x := Xor(c, Low(buf[n] as nat));
      TableStep(x);
      SameHigh(c, buf[n]);
      NumLess(x[..8]);
      c := Xor(table[Num(x[..8])], Right(c, 8));
    }
    assert buf[..|buf|] == buf;
    r := Invert(c);
  }

  lemma NumLess(bits: BitString)
    requires |bits| == 8
    ensures Num(bits) < 256
  {
    assert Pow2(8) == 256;
  }

  lemma SameHigh(c: Register, b: byte)
    ensures Right(Xor(c, Low(b as nat)), 8) == Right(c, 8)
  {
    var x := Xor(c, Low(b as nat));
    forall i | 0 <= i < 32 ensures Right(x, 8)[i] == Right(c, 8)[i] {
      RightAt(x, 8, i);
      RightAt(c, 8, i);
      if i + 8 < 32 { ZerosAt(24, i); }
    }
  }
}
