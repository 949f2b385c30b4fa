/** The trees that a dynamic block brings along (section 3.2.7 of RFC 1951): code lengths that are
    themselves Huffman-coded. */
module DynamicTrees {
  import opened Bits
  import opened Huffman
  import opened CodeLengths

  /** The order in which the lengths of the length codes are sent. */
  const CLCIDX: seq<nat> := [16, 17, 18, 0, 8, 7, 9, 6, 10, 5, 11, 4, 12, 3, 13, 2, 14, 1, 15]

  /** Room for the lengths of all literal, length and distance codes. */
  const MAX_LENGTHS: nat := 288 + 32

  datatype Lengths = Lengths(ls: seq<nat>, rest: BitString) | NoLengths

  datatype Trees = Trees(lt: Tree, dt: Tree, rest: BitString) | NoTrees

  /** The lengths of the length codes from the i-th on, three bits each. */
  function ReadClc(bits: BitString, i: nat, hclen: nat, cl: seq<nat>): (r: Lengths)
    requires i <= hclen <= 19 == |cl|
    ensures r.Lengths? ==> |r.ls| == 19 && |r.rest| <= |bits|
    decreases hclen - i
  {
    if i == hclen then Lengths(cl, bits)
    else if |bits| < 3 then NoLengths
    else ReadClc(bits[3..], i + 1, hclen, cl[CLCIDX[i] := Num(bits[..3])])
  }

  /** `v` as often as the next `num` bits say, on top of `base`. */
  function ReadRepeat(bits: BitString, num: nat, base: nat, v: nat, ls: seq<nat>): (r: Lengths)
    ensures r.Lengths? ==> |r.rest| <= |bits| && |r.ls| <= MAX_LENGTHS
  {
    if |bits| < num then NoLengths else
      var k := base + Num(bits[..num]);
      if |ls| + k > MAX_LENGTHS then NoLengths else Lengths(ls + seq(k, _ => v), bits[num..])
  }

  /** What symbol `sym` adds to the lengths. */
  function ReadSome(sym: nat, bits: BitString, ls: seq<nat>): (r: Lengths)
    requires |ls| < MAX_LENGTHS
    ensures r.Lengths? ==> |r.rest| <= |bits| && |r.ls| <= MAX_LENGTHS
  {
    match sym
    case 16 => if ls == [] then NoLengths else ReadRepeat(bits, 2, 3, ls[|ls| - 1], ls)
    case 17 => ReadRepeat(bits, 3, 3, 0, ls)
    case 18 => ReadRepeat(bits, 7, 11, 0, ls)
    case _ => Lengths(ls + [sym], bits)
  }

  /** At least n lengths, the first of them `ls`. */
  function ReadLengths(t: Tree, bits: BitString, ls: seq<nat>, n: nat): (r: Lengths)
    requires n <= MAX_LENGTHS && |ls| <= MAX_LENGTHS
    ensures r.Lengths? ==> |r.rest| <= |bits| && |r.ls| >= n
    decreases |bits|
  {
    if |ls| >= n then Lengths(ls, bits) else
      var d := Decode(t, bits);
      if d.NoCode? then NoLengths else
        var r := ReadSome(d.sym, d.rest, ls);
        if r.NoLengths? then NoLengths else ReadLengths(t, r.rest, r.ls, n)
  }

  lemma NumSmall(bits: BitString)
    ensures |bits| == 3 ==> Num(bits) < 8
    ensures |bits| == 4 ==> Num(bits) < 16
    ensures |bits| == 5 ==> Num(bits) < 32
  {
    assert Pow2(3) == 8;
  }

  /** The trees of a dynamic block; NoTrees where reading them would leave the bits or the tables. */
  function ReadTrees(bits: BitString): (r: Trees)
    ensures r.Trees? ==> |r.rest| <= |bits|
  {
    if |bits| < 14 then NoTrees else
      NumSmall(bits[..5]); NumSmall(bits[5..10]); NumSmall(bits[10..14]);
      var hlit, hdist, hclen := 257 + Num(bits[..5]), 1 + Num(bits[5..10]), 4 + Num(bits[10..14]);
      var c := ReadClc(bits[14..], 0, hclen, seq(19, _ => 0));
      if c.NoLengths? then NoTrees else
        var l := ReadLengths(TreeOf(c.ls), c.rest, [], hlit + hdist);
        if l.NoLengths? then NoTrees
        else Trees(TreeOf(l.ls[..hlit]), TreeOf(l.ls[hlit..hlit + hdist]), l.rest)
  }

  // ----- all lengths are proper -----

  lemma {:induction false} ClcValid(bits: BitString, i: nat, hclen: nat, cl: seq<nat>)
    requires i <= hclen <= 19 == |cl| && ValidLengths(cl)
    ensures var r := ReadClc(bits, i, hclen, cl); r.Lengths? ==> ValidLengths(r.ls)
    decreases hclen - i
  {
    if i < hclen && |bits| >= 3 {
      NumSmall(bits[..3]);
      ClcValid(bits[3..], i + 1, hclen, cl[CLCIDX[i] := Num(bits[..3])]);
    }
  }

  lemma {:induction false} SymbolsOfSmall(lengths: seq<nat>, l: nat)
    ensures forall s | s in SymbolsOf(lengths, l) :: s < |lengths|
  {
    if lengths != [] { SymbolsOfSmall(lengths[..|lengths| - 1], l); }
  }

  lemma {:induction false} SymbolsSmall(lengths: seq<nat>, m: nat)
    requires m < 16
    ensures forall s | s in SymbolsUpTo(lengths, m) :: s < |lengths|
    decreases m
  {
    SymbolsOfSmall(lengths, m);
    if m > 0 { SymbolsSmall(lengths, m - 1); }
  }

  lemma {:induction false} LengthsValid(cl: seq<nat>, bits: BitString, ls: seq<nat>, n: nat)
    requires |cl| == 19 && n <= MAX_LENGTHS && |ls| <= MAX_LENGTHS && ValidLengths(ls)
    ensures var r := ReadLengths(TreeOf(cl), bits, ls, n); r.Lengths? ==> ValidLengths(r.ls)
    decreases |bits|
  {
    hide Decode, TreeOf;
    if |ls| < n {
      var d := Decode(TreeOf(cl), bits);
      if d.Symbol? {
        LengthSymbol(cl, d.sym);
        var r := ReadSome(d.sym, d.rest, ls);
        if r.Lengths? { LengthsValid(cl, r.rest, r.ls, n); }
      }
    }
  }

  lemma LengthSymbol(cl: seq<nat>, sym: nat)
    requires |cl| == 19 && sym in TreeOf(cl).trans
    ensures sym < 19
  {
    SymbolsSmall(cl, 15);
  }
}
