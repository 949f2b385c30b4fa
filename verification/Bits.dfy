/** Bit strings: deflate packs fields least significant bit first and Huffman codes most
    significant bit first. */
module Bits {
  import opened Bytes

  type BitString = seq<bool>

  function Pow2(n: nat): (p: nat)
    ensures p > 0
  {
    if n == 0 then 1 else 2 * Pow2(n - 1)
  }

  function Bit(b: bool): nat {
    if b then 1 else 0
  }

  /** The value of a field, least significant bit first. */
  function Num(bits: BitString): (v: nat)
    ensures v < Pow2(|bits|)
  {
    if bits == [] then 0 else Bit(bits[0]) + 2 * Num(bits[1..])
  }

  /** The low `n` bits of `v`, least significant first. */
  function Field(v: nat, n: nat): (bits: BitString)
    ensures |bits| == n
  {
    if n == 0 then [] else [v % 2 == 1] + Field(v / 2, n - 1)
  }

  /** The value of a Huffman code, most significant bit first. */
  function CodeNum(bits: BitString): nat {
    if bits == [] then 0 else 2 * CodeNum(bits[..|bits| - 1]) + Bit(bits[|bits| - 1])
  }

  /** The low `n` bits of `v`, most significant first. */
  function Code(v: nat, n: nat): (bits: BitString)
    ensures |bits| == n
  {
    if n == 0 then [] else Code(v / 2, n - 1) + [v % 2 == 1]
  }

  function Unpack(bytes: seq<byte>): (bits: BitString)
    ensures |bits| == 8 * |bytes| && |bits| % 8 == 0
  {
    if bytes == [] then [] else Field(bytes[0] as nat, 8) + Unpack(bytes[1..])
  }

  function Zeros(n: nat): (bits: BitString)
    ensures |bits| == n
  {
    if n == 0 then [] else [false] + Zeros(n - 1)
  }

  lemma {:induction false} NumField(v: nat, n: nat)
    requires v < Pow2(n)
    ensures Num(Field(v, n)) == v
  {
    if n > 0 { NumField(v / 2, n - 1); }
  }

  lemma {:induction false} FieldNum(bits: BitString)
    ensures Field(Num(bits), |bits|) == bits
  {
    if bits != [] {
      FieldNum(bits[1..]);
      assert Num(bits) / 2 == Num(bits[1..]) && (Num(bits) % 2 == 1) == bits[0];
    }
  }

  lemma {:induction false} CodeNumCode(v: nat, n: nat)
    requires v < Pow2(n)
    ensures CodeNum(Code(v, n)) == v
  {
    if n > 0 {
      CodeNumCode(v / 2, n - 1);
      var c := Code(v, n);
      assert |c| == n && c[..n - 1] == Code(v / 2, n - 1) && c[n - 1] == (v % 2 == 1);
    }
  }

  /** One more significant bit on top of a field. */
  lemma {:induction false} FieldSnoc(v: nat, n: nat, b: bool)
    requires v < Pow2(n)
    ensures v + Bit(b) * Pow2(n) < Pow2(n + 1)
    ensures Field(v + Bit(b) * Pow2(n), n + 1) == Field(v, n) + [b]
  {
    if n > 0 {
      FieldSnoc(v / 2, n - 1, b);
      var w := v + Bit(b) * Pow2(n);
      assert w == v + 2 * (Bit(b) * Pow2(n - 1));
      assert w % 2 == v % 2 && w / 2 == v / 2 + Bit(b) * Pow2(n - 1);
    }
  }

  lemma {:induction false} NumSnoc(bits: BitString, b: bool)
    ensures Num(bits + [b]) == Num(bits) + Bit(b) * Pow2(|bits|)
  {
    if bits == [] {
      assert [] + [b] == [b];
    } else {
      NumSnoc(bits[1..], b);
      assert (bits + [b])[1..] == bits[1..] + [b];
      assert Bit(b) * Pow2(|bits|) == 2 * (Bit(b) * Pow2(|bits| - 1));
    }
  }

  /** A field may be read with more bits than it has; the rest are zero. */
  lemma {:induction false} FieldPad(v: nat, n: nat, m: nat)
    requires v < Pow2(n)
    ensures Field(v, n + m) == Field(v, n) + Zeros(m)
  {
    if n == 0 {
      if m > 0 { FieldPad(0, 0, m - 1); }
    } else {
      FieldPad(v / 2, n - 1, m);
    }
  }

  lemma Associative(a: BitString, b: BitString, c: BitString)
    ensures (a + b) + c == a + (b + c)
  {}

  lemma {:induction false} UnpackConcat(a: seq<byte>, b: seq<byte>)
    ensures Unpack(a + b) == Unpack(a) + Unpack(b)
  {
    hide Field;
    if a == [] {
      assert a + b == b;
      assert Unpack(a) + Unpack(b) == Unpack(b);
    } else {
      UnpackConcat(a[1..], b);
      assert (a + b)[1..] == a[1..] + b && (a + b)[0] == a[0];
      Associative(Field(a[0] as nat, 8), Unpack(a[1..]), Unpack(b));
    }
  }

  lemma UnpackSnoc(a: seq<byte>, b: byte)
    ensures Unpack(a + [b]) == Unpack(a) + Field(b as nat, 8)
  {
    UnpackConcat(a, [b]);
    UnpackOne(b);
  }

  /** The bytes whose bits are `bits`, a multiple of eight. */
  function Pack(bits: BitString): (bytes: seq<byte>)
    requires |bits| % 8 == 0
    ensures |bytes| == |bits| / 8
  {
    if bits == [] then [] else
      assert Pow2(8) == 256; [Num(bits[..8]) as byte] + Pack(bits[8..])
  }

  lemma {:induction false} PackUnpack(bytes: seq<byte>)
    ensures Pack(Unpack(bytes)) == bytes
  {
    if bytes != [] {
      PackUnpack(bytes[1..]);
      assert Pow2(8) == 256;
      NumField(bytes[0] as nat, 8);
      var u := Unpack(bytes);
      assert u[..8] == Field(bytes[0] as nat, 8) && u[8..] == Unpack(bytes[1..]);
    }
  }

  lemma {:induction false} UnpackPack(bits: BitString)
    requires |bits| % 8 == 0
    ensures Unpack(Pack(bits)) == bits
  {
    hide Field, Num;
    if bits != [] {
      UnpackPack(bits[8..]);
      EightBits();
      FieldNum(bits[..8]);
      var p := Pack(bits);
      assert p[0] as nat == Num(bits[..8]) && p[1..] == Pack(bits[8..]);
      assert bits == bits[..8] + bits[8..];
    }
  }

  lemma UnpackOne(b: byte)
    ensures Unpack([b]) == Field(b as nat, 8)
  {
    assert Unpack([b]) == Field(b as nat, 8) + Unpack([]);
  }

  lemma EightBits()
    ensures Pow2(8) == 256
  {}

  lemma {:induction false} NumConcat(a: BitString, b: BitString)
    ensures Num(a + b) == Num(a) + Pow2(|a|) * Num(b)
  {
    if a == [] {
      assert a + b == b;
    } else {
      NumConcat(a[1..], b);
      assert (a + b)[1..] == a[1..] + b && (a + b)[0] == a[0];
      Doubled(Pow2(|a| - 1), Num(b));
    }
  }

  lemma Doubled(p: nat, v: nat)
    ensures (2 * p) * v == 2 * (p * v)
  {}

  /** Bytes as a number, low byte first. */
  lemma NumBytes(b: byte, s: seq<byte>)
    ensures Num(Unpack([b] + s)) == b as nat + 256 * Num(Unpack(s))
  {
    hide Num, Field;
    var f := Field(b as nat, 8);
    assert Unpack([b] + s) == f + Unpack(s) by { assert ([b] + s)[1..] == s; }
    NumConcat(f, Unpack(s));
    EightBits();
    NumField(b as nat, 8);
  }

  lemma FourBytes(a: byte, b: byte, c: byte, d: byte)
    ensures Num(Unpack([a, b, c, d])) == a as nat + 256 * b as nat + 0x1_0000 * c as nat + 0x100_0000 * d as nat
  {
    hide Unpack, Num;
    NumBytes(a, [b, c, d]);
    NumBytes(b, [c, d]);
    NumBytes(c, [d]);
    NumBytes(d, []);
    assert [a] + [b, c, d] == [a, b, c, d] && [b] + [c, d] == [b, c, d] && [c] + [d] == [c, d] && [d] + [] == [d];
    assert Num(Unpack([])) == 0 by { NoBytes(); }
  }

  lemma NoBytes()
    ensures Num(Unpack([])) == 0
  {}

  lemma TwoBytes(a: byte, b: byte)
    ensures Num(Unpack([a, b])) == a as nat + 256 * b as nat
  {
    hide Unpack, Num;
    NumBytes(a, [b]);
    NumBytes(b, []);
    NoBytes();
    assert [a] + [b] == [a, b] && [b] + [] == [b];
  }
}
