/**
 Dynamic blocks as section 3.2.7 of RFC 1951 has them written: whatever code lengths they bring along,
 inflate outputs what their literals and matches mean.
 */
module DynamicBlock {
  import opened Bytes
  import opened Bits
  import opened Huffman
  import opened CodeLengths
  import opened LengthTables
  import opened DynamicTrees
  import opened InflateSpec
  import opened DeflateCode
  import opened TreeHeader

  /** A byte by itself, or a match by the slots and values of its length and its distance. */
  datatype Item = Literal(b: byte) | Copy(len: nat, i: nat, dist: nat, j: nat)

  /** The symbol has a code of up to 15 bits, and no more codes of its length are asked for than fit. */
  predicate Coded(lengths: seq<nat>, s: nat) {
    s < |lengths| && 0 < lengths[s] < 16 && CodesEnd(Counts(lengths), lengths[s]) <= Pow2(lengths[s])
  }

  function SymbolBits(lengths: seq<nat>, s: nat): BitString
    requires Coded(lengths, s)
  {
    Code(CanonicalCode(lengths, s), lengths[s])
  }

  /** The item can be sent behind the output `o`, and its symbols have codes. */
  predicate Sendable(lit: seq<nat>, dist: seq<nat>, x: Item, o: Data, far: bool) {
    match x
    case Literal(b) => Coded(lit, b as nat)
    case Copy(len, i, d, j) =>
      && 3 <= len <= 258 && IsSlot(LengthTable(), len, i) && Coded(lit, 257 + i)
      && 1 <= d <= |o| && (if far then d <= WINDOW else d < WINDOW) && IsSlot(DistTable(), d, j) && Coded(dist, j)
  }

  function ItemBits(lit: seq<nat>, dist: seq<nat>, x: Item, o: Data, far: bool): BitString
    requires Sendable(lit, dist, x, o, far)
  {
    match x
    case Literal(b) => SymbolBits(lit, b as nat)
    case Copy(len, i, d, j) =>
      SymbolBits(lit, 257 + i) + (Extra(LengthTable(), len, i) + (SymbolBits(dist, j) + Extra(DistTable(), d, j)))
  }

  /** What an item means behind the output `o`. */
  function Output(x: Item, o: Data): Data {
    match x
    case Literal(b) => o + [b]
    case Copy(len, _, d, _) => if 1 <= d <= |o| then CopyBack(o, len, d) else o
  }

  predicate AllSendable(lit: seq<nat>, dist: seq<nat>, xs: seq<Item>, o: Data, far: bool) {
    xs == [] || (Sendable(lit, dist, xs[0], o, far) && AllSendable(lit, dist, xs[1..], Output(xs[0], o), far))
  }

  function DataBits(lit: seq<nat>, dist: seq<nat>, xs: seq<Item>, o: Data, far: bool): BitString
    requires AllSendable(lit, dist, xs, o, far) && Coded(lit, 256)
  {
    if xs == [] then SymbolBits(lit, 256)
    else ItemBits(lit, dist, xs[0], o, far) + DataBits(lit, dist, xs[1..], Output(xs[0], o), far)
  }

  function Outputs(xs: seq<Item>, o: Data): Data {
    if xs == [] then o else Outputs(xs[1..], Output(xs[0], o))
  }

  lemma DecodeSymbolBits(lengths: seq<nat>, s: nat, rest: BitString)
    requires Coded(lengths, s)
    ensures Decode(TreeOf(lengths), SymbolBits(lengths, s) + rest) == Symbol(s, rest)
  {
    hide Decode, TreeOf, CanonicalCode;
    DecodeTreeOf(lengths, s, rest);
  }

  lemma ReadCopy(dist: seq<nat>, len: nat, i: nat, d: nat, j: nat, rest: BitString)
    requires 3 <= len <= 258 && IsSlot(LengthTable(), len, i)
    requires 1 <= d <= 32768 && IsSlot(DistTable(), d, j) && Coded(dist, j)
    ensures ReadMatch(TreeOf(dist), i,
                      Extra(LengthTable(), len, i) + (SymbolBits(dist, j) + (Extra(DistTable(), d, j) + rest)))
         == Match(len, d, rest)
  {
    hide LengthTable, DistTable, Decode, Extra, SymbolBits, TreeOf, Coded;
    LengthSplits(len, i);
    DistSplits(d, j);
    ReadExtra(LengthTable(), len, i, SymbolBits(dist, j) + (Extra(DistTable(), d, j) + rest));
    DecodeSymbolBits(dist, j, Extra(DistTable(), d, j) + rest);
    ReadExtra(DistTable(), d, j, rest);
  }

  lemma ReadItem(lit: seq<nat>, dist: seq<nat>, x: Item, o: Data, rest: BitString, far: bool)
    requires Sendable(lit, dist, x, o, far)
    ensures BlockData(TreeOf(lit), TreeOf(dist), ItemBits(lit, dist, x, o, far) + rest, o, far)
         == BlockData(TreeOf(lit), TreeOf(dist), rest, Output(x, o), far)
  {
    hide LengthTable, DistTable, Decode, Extra, SymbolBits, TreeOf, Coded, ReadMatch, CopyBack;
    match x {
      case Literal(b) =>
        DecodeSymbolBits(lit, b as nat, rest);
      case Copy(len, i, d, j) =>
        var a, b, c, e :=
          SymbolBits(lit, 257 + i), Extra(LengthTable(), len, i), SymbolBits(dist, j), Extra(DistTable(), d, j);
        assert a + (b + (c + e)) + rest == a + (b + (c + (e + rest)));
        DecodeSymbolBits(lit, 257 + i, b + (c + (e + rest)));
        ReadCopy(dist, len, i, d, j, rest);
    }
  }

  /** The symbols of a block are read as what they mean. */
  lemma {:induction false} ReadData(lit: seq<nat>, dist: seq<nat>, xs: seq<Item>, o: Data, rest: BitString, far: bool)
    requires AllSendable(lit, dist, xs, o, far) && Coded(lit, 256)
    ensures BlockData(TreeOf(lit), TreeOf(dist), DataBits(lit, dist, xs, o, far) + rest, o, far)
         == Done(Outputs(xs, o), rest)
    decreases |xs|
  {
    hide TreeOf, Coded, SymbolBits, ItemBits, Output, Decode, LengthTable, DistTable, IsSlot;
    if xs == [] {
      DecodeSymbolBits(lit, 256, rest);
    } else {
      var a, b := ItemBits(lit, dist, xs[0], o, far), DataBits(lit, dist, xs[1..], Output(xs[0], o), far);
      assert a + b + rest == a + (b + rest);
      ReadItem(lit, dist, xs[0], o, b + rest, far);
      ReadData(lit, dist, xs[1..], Output(xs[0], o), rest, far);
    }
  }

  /** The three bits in front of a dynamic block. */
  lemma Three(final: bool, h: BitString, d: BitString, rest: BitString)
    ensures var bits := [final, false, true] + (h + d) + rest;
      |bits| >= 3 && bits[0] == final && Num(bits[1..3]) == 2 && bits[3..] == h + (d + rest)
  {
    var bits := [final, false, true] + (h + d) + rest;
    assert bits[1..3] == [false, true];
    assert [false, true][1..] == [true] && [true][1..] == [];
  }

  /** A dynamic block, with any trees and any way of sending them, adds what its symbols mean, and ends the
      stream exactly if it is marked final. */
  lemma DynamicBlockAdds(final: bool, lit: seq<nat>, dist: seq<nat>, n: nat, cl: seq<nat>, ts: seq<Token>,
                         xs: seq<Item>, o: Data, rest: BitString, far: bool)
    requires Describes(lit, dist, n, cl, ts)
    requires AllSendable(lit, dist, xs, o, far) && Coded(lit, 256)
    ensures var block := [final, false, true] +
        (HeaderBits(|lit|, |dist|, n, cl, ts) + DataBits(lit, dist, xs, o, far));
      Blocks(block + rest, o, far)
        == if final then Done(Outputs(xs, o), rest)
           else Blocks(rest, Outputs(xs, o), far)
  {
    hide TreeOf, Coded, HeaderBits, DataBits, AllSendable, Outputs, ReadTrees, BlockData;
    hide HasCode, Spells, Turn, SymbolOf, Num, StoredBlock, FixedLit, FixedDist;
    var h, d := HeaderBits(|lit|, |dist|, n, cl, ts), DataBits(lit, dist, xs, o, far);
    var bits := [final, false, true] + (h + d) + rest;
    Three(final, h, d, rest);
    ReadTreesOf(lit, dist, n, cl, ts, d + rest);
    ReadData(lit, dist, xs, o, rest, far);
  }
}
