/**
 Canonical Huffman codes as inflate decodes them, and the theorem behind its decoding loop: for
 every table of code lengths, decoding the canonical code of a symbol yields that symbol and
 consumes exactly its code.  The fixed trees of deflate are instances.
 */
module Huffman {
  import opened Bits

  /** `table[n]` counts the codes of length n; `trans` lists the symbols by code. */
  datatype Tree = Tree(table: seq<nat>, trans: seq<nat>)

  datatype Decoded = Symbol(sym: nat, rest: BitString) | NoCode

  /** The decoding loop with `len` bits read; NoCode where the loop would leave the bits or tables. */
  function DecodeFrom(t: Tree, bits: BitString, cur: int, sum: int, len: nat): (d: Decoded)
    ensures d.Symbol? ==> |d.rest| < |bits| && d.rest == bits[|bits| - |d.rest|..]
    ensures d.Symbol? ==> d.sym in t.trans
  {
    if bits == [] || len + 1 >= |t.table| then NoCode else
      var sum' := sum + t.table[len + 1];
      var cur' := 2 * cur + Bit(bits[0]) - t.table[len + 1];
      if cur' >= 0 then DecodeFrom(t, bits[1..], cur', sum', len + 1)
      else if 0 <= sum' + cur' < |t.trans| then Symbol(t.trans[sum' + cur'], bits[1..])
      else NoCode
  }

  function Decode(t: Tree, bits: BitString): (d: Decoded)
    ensures d.Symbol? ==> |d.rest| < |bits| && d.rest == bits[|bits| - |d.rest|..]
    ensures d.Symbol? ==> d.sym in t.trans
  {
    DecodeFrom(t, bits, 0, 0, 0)
  }

  // ----- canonical codes (section 3.2.2 of RFC 1951) -----

  /** One more than the last code of length `len`, or the first if there is none. */
  function CodesEnd(table: seq<nat>, len: nat): nat
    requires len < |table|
  {
    if len == 0 then 0 else 2 * CodesEnd(table, len - 1) + table[len]
  }

  function FirstCode(table: seq<nat>, len: nat): nat
    requires 0 < len < |table|
  {
    2 * CodesEnd(table, len - 1)
  }

  /** How many codes are at most `len` bits long. */
  function CodesUpTo(table: seq<nat>, len: nat): nat
    requires len < |table|
  {
    if len == 0 then 0 else CodesUpTo(table, len - 1) + table[len]
  }

  /** Every proper prefix of a code lies behind all shorter codes, so decoding reads on. */
  lemma {:induction false} PrefixBeyond(table: seq<nat>, code: BitString, len: nat)
    requires len < |code| < |table| && CodeNum(code) >= FirstCode(table, |code|)
    ensures CodeNum(code[..len]) >= CodesEnd(table, len)
    decreases |code| - len
  {
    assert code[..len + 1][..len] == code[..len];
    if len + 1 < |code| {
      PrefixBeyond(table, code, len + 1);
    } else {
      assert code[..len + 1] == code;
    }
  }

  lemma CodeNumStep(code: BitString, len: nat)
    requires len < |code|
    ensures CodeNum(code[..len + 1]) == 2 * CodeNum(code[..len]) + Bit(code[len])
  {
    assert code[..len + 1][..len] == code[..len];
  }

  /** One round of the decoding loop in closed form: with the first `len` bits of a code read, `cur`
      is the distance to the end of the codes of that length. */
  lemma DecodeRound(t: Tree, b: bool, bits: BitString, v: nat, len: nat)
    requires len + 1 < |t.table|
    ensures var v' := 2 * v + Bit(b);
      var here := DecodeFrom(t, [b] + bits, v - CodesEnd(t.table, len), CodesUpTo(t.table, len), len);
      && (v' >= CodesEnd(t.table, len + 1) ==>
            here == DecodeFrom(t, bits, v' - CodesEnd(t.table, len + 1), CodesUpTo(t.table, len + 1), len + 1))
      && (FirstCode(t.table, len + 1) <= v' < CodesEnd(t.table, len + 1) <= v' + |t.trans|
            && CodesUpTo(t.table, len + 1) <= |t.trans| ==>
            here == Symbol(t.trans[CodesUpTo(t.table, len) + v' - FirstCode(t.table, len + 1)], bits))
  {
    assert ([b] + bits)[1..] == bits;
  }

  lemma {:induction false} DecodeCanonicalFrom(t: Tree, code: BitString, rest: BitString, len: nat)
    requires len < |code| < |t.table|
    requires FirstCode(t.table, |code|) <= CodeNum(code) < CodesEnd(t.table, |code|)
    requires CodesUpTo(t.table, |code|) <= |t.trans|
    ensures DecodeFrom(t, code[len..] + rest,
                       CodeNum(code[..len]) - CodesEnd(t.table, len), CodesUpTo(t.table, len), len)
         == Symbol(t.trans[CodesUpTo(t.table, |code| - 1) + CodeNum(code) - FirstCode(t.table, |code|)],
                   rest)
    decreases |code| - len
  {
    hide DecodeFrom, CodeNum, FirstCode, CodesEnd, CodesUpTo;
    CodeNumStep(code, len);
    DecodeRound(t, code[len], code[len + 1..] + rest, CodeNum(code[..len]), len);
    HeadBit(code, len, rest);
    if len + 1 < |code| {
      PrefixBeyond(t.table, code, len + 1);
      DecodeCanonicalFrom(t, code, rest, len + 1);
    } else {
      assert code[..len + 1] == code && code[len + 1..] + rest == rest;
      FewerThanAll(t.table, |code|);
    }
  }

  lemma HeadBit(code: BitString, len: nat, rest: BitString)
    requires len < |code|
    ensures code[len..] + rest == [code[len]] + (code[len + 1..] + rest)
  {}

  lemma NoCodesYet(table: seq<nat>)
    requires |table| > 0
    ensures CodeNum([]) == 0 && CodesEnd(table, 0) == 0 && CodesUpTo(table, 0) == 0
  {}

  lemma FewerThanAll(table: seq<nat>, len: nat)
    requires 0 < len < |table|
    ensures CodesEnd(table, len) <= FirstCode(table, len) + CodesUpTo(table, len)
  {}

  /** Decoding inverts canonical coding, for every tree: the code that is number r among those of its
      length yields the r-th symbol of that length and leaves the rest of the bits. */
  lemma DecodeCanonical(t: Tree, code: BitString, rest: BitString)
    requires 0 < |code| < |t.table|
    requires FirstCode(t.table, |code|) <= CodeNum(code) < CodesEnd(t.table, |code|)
    requires CodesUpTo(t.table, |code|) <= |t.trans|
    ensures Decode(t, code + rest) ==
      Symbol(t.trans[CodesUpTo(t.table, |code| - 1) + CodeNum(code) - FirstCode(t.table, |code|)], rest)
  {
    hide DecodeFrom, FirstCode;
    DecodeCanonicalFrom(t, code, rest, 0);
    assert code[0..] == code && code[..0] == [];
    NoCodesYet(t.table);
  }

  // ----- the fixed trees (section 3.2.6 of RFC 1951) -----

  function FixedLitSymbol(i: nat): nat {
    if i < 24 then 256 + i
    else if i < 168 then i - 24
    else if i < 176 then 280 + (i - 168)
    else 144 + (i - 176)
  }

  /** Entries above 9 are never looked at; the program leaves them uninitialised. */
  function FixedLit(): (t: Tree)
    ensures |t.table| == 16 && |t.trans| == 288
    ensures forall i | 0 <= i < 288 :: t.trans[i] == FixedLitSymbol(i)
  {
    Tree([0, 0, 0, 0, 0, 0, 0, 24, 152, 112, 0, 0, 0, 0, 0, 0], seq(288, i requires i >= 0 => FixedLitSymbol(i)))
  }

  function FixedDist(): (t: Tree)
    ensures |t.table| == 16 && |t.trans| == 32
    ensures forall i | 0 <= i < 32 :: t.trans[i] == i
  {
    Tree([0, 0, 0, 0, 0, 32, 0, 0, 0, 0, 0, 0, 0, 0, 0, 0], seq(32, i requires i >= 0 => i))
  }

  /** The code deflate writes for a literal or length symbol. */
  function LitCode(sym: nat): BitString
    requires sym < 288
  {
    if sym < 144 then Code(0x30 + sym, 8)
    else if sym < 256 then Code(0x190 + (sym - 144), 9)
    else if sym < 280 then Code(sym - 256, 7)
    else Code(0xC0 + (sym - 280), 8)
  }

  function DistCode(sym: nat): BitString
    requires sym < 32
  {
    Code(sym, 5)
  }

  lemma Powers()
    ensures Pow2(5) == 32 && Pow2(7) == 128 && Pow2(8) == 256 && Pow2(9) == 512
  {
    assert Pow2(4) == 16;
    assert Pow2(6) == 64;
  }

  lemma FixedLitCounts()
    ensures var t := FixedLit().table;
      && CodesEnd(t, 6) == 0 && CodesEnd(t, 7) == 24 && CodesEnd(t, 8) == 200 && CodesEnd(t, 9) == 512
      && CodesUpTo(t, 6) == 0 && CodesUpTo(t, 7) == 24 && CodesUpTo(t, 8) == 176 && CodesUpTo(t, 9) == 288
  {
    var t := FixedLit().table;
    assert CodesEnd(t, 1) == 0 && CodesUpTo(t, 1) == 0;
    assert CodesEnd(t, 2) == 0 && CodesUpTo(t, 2) == 0;
    assert CodesEnd(t, 3) == 0 && CodesUpTo(t, 3) == 0;
    assert CodesEnd(t, 4) == 0 && CodesUpTo(t, 4) == 0;
    assert CodesEnd(t, 5) == 0 && CodesUpTo(t, 5) == 0;
    assert CodesEnd(t, 6) == 0 && CodesUpTo(t, 6) == 0;
    assert CodesEnd(t, 7) == 24 && CodesUpTo(t, 7) == 24;
    assert CodesEnd(t, 8) == 200 && CodesUpTo(t, 8) == 176;
  }

  lemma FixedDistCounts()
    ensures var t := FixedDist().table;
      CodesEnd(t, 4) == 0 && CodesEnd(t, 5) == 32 && CodesUpTo(t, 4) == 0 && CodesUpTo(t, 5) == 32
  {
    var t := FixedDist().table;
    assert CodesEnd(t, 1) == 0 && CodesUpTo(t, 1) == 0;
    assert CodesEnd(t, 2) == 0 && CodesUpTo(t, 2) == 0;
    assert CodesEnd(t, 3) == 0 && CodesUpTo(t, 3) == 0;
    assert CodesEnd(t, 4) == 0 && CodesUpTo(t, 4) == 0;
  }

  /** The encoder's table of bases and the decoder's table of counts describe the same code. */
  lemma DecodeLit(sym: nat, rest: BitString)
    requires sym < 288
    ensures Decode(FixedLit(), LitCode(sym) + rest) == Symbol(sym, rest)
  {
    FixedLitCounts();
    Powers();
    if sym < 144 {
      CodeNumCode(0x30 + sym, 8);
    } else if sym < 256 {
      CodeNumCode(0x190 + (sym - 144), 9);
    } else if sym < 280 {
      CodeNumCode(sym - 256, 7);
    } else {
      CodeNumCode(0xC0 + (sym - 280), 8);
    }
    DecodeCanonical(FixedLit(), LitCode(sym), rest);
  }

  lemma DecodeDist(sym: nat, rest: BitString)
    requires sym < 32
    ensures Decode(FixedDist(), DistCode(sym) + rest) == Symbol(sym, rest)
  {
    FixedDistCounts();
    Powers();
    CodeNumCode(sym, 5);
    DecodeCanonical(FixedDist(), DistCode(sym), rest);
  }
}
