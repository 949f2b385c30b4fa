/**
 Trees from code lengths (section 3.2.2 of RFC 1951): the tree that build_tree sorts together decodes
 exactly the canonical code that the lengths stand for.
 */
module CodeLengths {
  import opened Bytes
  import opened Bits
  import opened Huffman

  predicate ValidLengths(lengths: seq<nat>) {
    forall i | 0 <= i < |lengths| :: lengths[i] < 16
  }

  /** The symbols whose codes have length l, in ascending order. */
  function SymbolsOf(lengths: seq<nat>, l: nat): (r: seq<nat>)
    ensures |r| <= |lengths|
  {
    if lengths == [] then [] else
      var n := |lengths| - 1;
      SymbolsOf(lengths[..n], l) + if lengths[n] == l then [n] else []
  }

  /** How many codes there are of each length; length 0 means that a symbol has none. */
  function Counts(lengths: seq<nat>): (t: seq<nat>)
    ensures |t| == 16 && t[0] == 0 && forall l | 1 <= l < 16 :: t[l] == |SymbolsOf(lengths, l)|
  {
    seq(16, l requires l >= 0 => if l == 0 then 0 else |SymbolsOf(lengths, l)|)
  }

  /** The symbols with codes of up to l bits, by code length and then by number. */
  function SymbolsUpTo(lengths: seq<nat>, l: nat): (r: seq<nat>)
    requires l < 16
    ensures |r| == CodesUpTo(Counts(lengths), l)
  {
    if l == 0 then [] else SymbolsUpTo(lengths, l - 1) + SymbolsOf(lengths, l)
  }

  function TreeOf(lengths: seq<nat>): Tree {
    Tree(Counts(lengths), SymbolsUpTo(lengths, 15))
  }

  // ----- the code -----

  lemma {:induction false} SymbolAt(lengths: seq<nat>, s: nat)
    requires s < |lengths|
    ensures var l := lengths[s]; var k := |SymbolsOf(lengths[..s], l)|;
      k < |SymbolsOf(lengths, l)| && SymbolsOf(lengths, l)[k] == s
    decreases |lengths|
  {
    var n := |lengths| - 1;
    if s < n {
      assert lengths[..n][..s] == lengths[..s];
      SymbolAt(lengths[..n], s);
    }
  }

  lemma {:induction false} SymbolsUpToAt(lengths: seq<nat>, l: nat, k: nat, m: nat)
    requires 0 < l <= m < 16 && k < |SymbolsOf(lengths, l)|
    ensures var p := CodesUpTo(Counts(lengths), l - 1) + k;
      p < |SymbolsUpTo(lengths, m)| && SymbolsUpTo(lengths, m)[p] == SymbolsOf(lengths, l)[k]
    decreases m
  {
    if l < m { SymbolsUpToAt(lengths, l, k, m - 1); }
  }

  /** The code of a symbol: codes of one length are consecutive numbers in symbol order. */
  function CanonicalCode(lengths: seq<nat>, s: nat): nat
    requires s < |lengths| && 0 < lengths[s] < 16
  {
    FirstCode(Counts(lengths), lengths[s]) + |SymbolsOf(lengths[..s], lengths[s])|
  }

  /** For all code lengths, decoding the canonical code of a symbol yields that symbol -- as long as
      there are not more codes of its length than fit. */
  lemma DecodeTreeOf(lengths: seq<nat>, s: nat, rest: BitString)
    requires s < |lengths| && 0 < lengths[s] < 16
    requires CodesEnd(Counts(lengths), lengths[s]) <= Pow2(lengths[s])
    ensures Decode(TreeOf(lengths), Code(CanonicalCode(lengths, s), lengths[s]) + rest) == Symbol(s, rest)
  {
    hide Decode, SymbolsOf;
    var l, t := lengths[s], Counts(lengths);
    SymbolAt(lengths, s);
    SymbolsUpToAt(lengths, l, |SymbolsOf(lengths[..s], l)|, 15);
    CodeNumCode(CanonicalCode(lengths, s), l);
    assert |Code(CanonicalCode(lengths, s), l)| == l;
    UpToGrows(t, l, 15);
    DecodeCanonical(TreeOf(lengths), Code(CanonicalCode(lengths, s), l), rest);
  }

  lemma {:induction false} UpToGrows(table: seq<nat>, l: nat, m: nat)
    requires l <= m < |table|
    ensures CodesUpTo(table, l) <= CodesUpTo(table, m)
    decreases m
  {
    if l < m { UpToGrows(table, l, m - 1); }
  }

  // ----- the fixed trees -----

  /** The code lengths of section 3.2.6 of RFC 1951. */
  function FixedLength(s: nat): nat {
    if s < 144 then 8 else if s < 256 then 9 else if s < 280 then 7 else 8
  }

  function FixedLengths(n: nat): (r: seq<nat>)
    ensures |r| == n && forall s | 0 <= s < n :: r[s] == FixedLength(s)
  {
    seq(n, s requires s >= 0 => FixedLength(s))
  }

  /** The numbers from a up to but not including b. */
  function Range(a: nat, b: nat): (r: seq<nat>)
    ensures |r| == (if a <= b then b - a else 0) && forall i | 0 <= i < |r| :: r[i] == a + i
  {
    if a <= b then seq(b - a, i requires i >= 0 => a + i) else []
  }

  /** The symbols below n that have codes of length l. */
  function FixedSymbols(n: nat, l: nat): seq<nat> {
    match l
    case 7 => Range(256, Min(n, 280))
    case 8 => Range(0, Min(n, 144)) + Range(280, n)
    case 9 => Range(144, Min(n, 256))
    case _ => []
  }

  lemma FixedSymbolsNext(n: nat, l: nat)
    ensures FixedSymbols(n + 1, l) == FixedSymbols(n, l) + if FixedLength(n) == l then [n] else []
  {}

  lemma {:induction false} FixedSymbolsOf(n: nat, l: nat)
    ensures SymbolsOf(FixedLengths(n), l) == FixedSymbols(n, l)
  {
    if n > 0 {
      FixedSymbolsOf(n - 1, l);
      assert FixedLengths(n)[..n - 1] == FixedLengths(n - 1);
      FixedSymbolsNext(n - 1, l);
    }
  }

  lemma {:induction false} NothingBeyond(m: nat)
    requires 9 <= m < 16
    ensures SymbolsUpTo(FixedLengths(288), m) == SymbolsUpTo(FixedLengths(288), 9)
    decreases m
  {
    if m > 9 {
      FixedSymbolsOf(288, m);
      NothingBeyond(m - 1);
    }
  }

  lemma {:induction false} NothingBelow(m: nat)
    requires m < 7
    ensures SymbolsUpTo(FixedLengths(288), m) == []
    decreases m
  {
    if m > 0 {
      FixedSymbolsOf(288, m);
      NothingBelow(m - 1);
    }
  }

  /** The tree of literals that the program writes down is the one of those lengths. */
  lemma FixedLitIsTree()
    ensures FixedLit() == TreeOf(FixedLengths(288))
  {
    hide SymbolsOf, Range;
    var lengths := FixedLengths(288);
    forall l | 1 <= l < 16 ensures Counts(lengths)[l] == FixedLit().table[l] { FixedSymbolsOf(288, l); }
    assert Counts(lengths) == FixedLit().table;
    NothingBelow(6);
    NothingBeyond(15);
    FixedSymbolsOf(288, 7);
    FixedSymbolsOf(288, 8);
    FixedSymbolsOf(288, 9);
    assert SymbolsUpTo(lengths, 7) == Range(256, 280);
    assert SymbolsUpTo(lengths, 8) == Range(256, 280) + (Range(0, 144) + Range(280, 288));
    assert SymbolsUpTo(lengths, 9) == Range(256, 280) + (Range(0, 144) + Range(280, 288)) + Range(144, 256);
    assert FixedLit().trans == SymbolsUpTo(lengths, 9);
  }

  /** What the encoder writes for a literal or length symbol is the canonical code of those lengths. */
  lemma LitCodeIsCanonical(s: nat)
    requires s < 288
    ensures LitCode(s) == Code(CanonicalCode(FixedLengths(288), s), FixedLength(s))
  {
    hide SymbolsOf, Code;
    var l := FixedLength(s);
    FixedLitIsTree();
    FixedLitCounts();
    assert FixedLengths(288)[..s] == FixedLengths(s);
    FixedSymbolsOf(s, l);
  }

  lemma {:induction false} FiveBitSymbols(n: nat, l: nat)
    ensures SymbolsOf(seq(n, _ => 5), l) == if l == 5 then Range(0, n) else []
  {
    if n > 0 {
      FiveBitSymbols(n - 1, l);
      assert seq(n, _ => 5)[..n - 1] == seq(n - 1, _ => 5);
      if l == 5 { assert Range(0, n) == Range(0, n - 1) + [n - 1]; }
    }
  }

  lemma {:induction false} FiveBitsUpTo(n: nat, m: nat)
    requires m < 16
    ensures SymbolsUpTo(seq(n, _ => 5), m) == if m >= 5 then Range(0, n) else []
    decreases m
  {
    if m > 0 {
      FiveBitSymbols(n, m);
      FiveBitsUpTo(n, m - 1);
    }
  }

  /** The tree of distances has 32 codes of five bits. */
  lemma FixedDistIsTree()
    ensures FixedDist() == TreeOf(seq(32, _ => 5))
  {
    hide SymbolsOf, Range;
    var lengths := seq(32, _ => 5);
    forall l | 1 <= l < 16 ensures Counts(lengths)[l] == FixedDist().table[l] { FiveBitSymbols(32, l); }
    assert Counts(lengths) == FixedDist().table;
    FiveBitsUpTo(32, 15);
    assert FixedDist().trans == Range(0, 32);
  }

  // ----- build_tree -----

  lemma {:induction false} SymbolsGrow(lengths: seq<nat>, n: nat, l: nat)
    requires n <= |lengths|
    ensures |SymbolsOf(lengths[..n], l)| <= |SymbolsOf(lengths, l)|
    decreases |lengths|
  {
    if n < |lengths| {
      var m := |lengths| - 1;
      assert lengths[..m][..n] == lengths[..n];
      SymbolsGrow(lengths[..m], n, l);
    } else {
      assert lengths[..n] == lengths;
    }
  }

  /** One more length adds one symbol to one list. */
  lemma SymbolsNext(lengths: seq<nat>, i: nat, l: nat)
    requires i < |lengths|
    ensures SymbolsOf(lengths[..i + 1], l) == SymbolsOf(lengths[..i], l) + if lengths[i] == l then [i] else []
  {
    assert lengths[..i + 1][..i] == lengths[..i];
  }

  lemma {:induction false} UpToOneMore(lengths: seq<nat>, m: nat)
    requires lengths != [] && m < 16
    ensures var n := |lengths| - 1;
      CodesUpTo(Counts(lengths), m) <= CodesUpTo(Counts(lengths[..n]), m) + if lengths[n] <= m then 1 else 0
    decreases m
  {
    if m > 0 { UpToOneMore(lengths, m - 1); }
  }

  lemma {:induction false} NotMoreThanSymbols(lengths: seq<nat>)
    ensures CodesUpTo(Counts(lengths), 15) <= |lengths|
  {
    if lengths == [] {
      NoneUpTo(15);
    } else {
      NotMoreThanSymbols(lengths[..|lengths| - 1]);
      UpToOneMore(lengths, 15);
    }
  }

  lemma {:induction false} NoneUpTo(m: nat)
    requires m < 16
    ensures CodesUpTo(Counts([]), m) == 0
  {
    if m > 0 { NoneUpTo(m - 1); }
  }

  method CountLengths(lengths: seq<nat>) returns (table: array<nat>)
    requires ValidLengths(lengths)
    ensures fresh(table) && table[..] == Counts(lengths)
  {
    table := new nat[16](_ => 0);
    for i := 0 to |lengths|
      invariant table.Length == 16
      invariant forall l | 0 <= l < 16 :: table[l] == |SymbolsOf(lengths[..i], l)|
    {
      forall l | 0 <= l < 16
        ensures SymbolsOf(lengths[..i + 1], l) == SymbolsOf(lengths[..i], l) + if lengths[i] == l then [i] else []
      {
        SymbolsNext(lengths, i, l);
      }
      table[lengths[i]] := table[lengths[i]] + 1;
    }
    assert lengths[..|lengths|] == lengths;
    table[0] := 0;
  }

  /** Where the symbols with codes of length l begin. */
  function Begin(lengths: seq<nat>, l: nat): nat
    requires l < 16
  {
    if l == 0 then 0 else CodesUpTo(Counts(lengths), l - 1)
  }

  method Offsets(lengths: seq<nat>, table: array<nat>) returns (offs: array<nat>)
    requires table[..] == Counts(lengths)
    ensures fresh(offs) && offs.Length == 16 && forall l | 0 <= l < 16 :: offs[l] == Begin(lengths, l)
  {
    offs := new nat[16](_ => 0);
    var sum := 0;
    for i := 0 to 16
      invariant offs.Length == 16 && table[..] == Counts(lengths)
      invariant forall l | 0 <= l < i :: offs[l] == Begin(lengths, l)
      invariant sum == if i == 0 then 0 else CodesUpTo(Counts(lengths), i - 1)
    {
      offs[i] := sum;
      assert table[i] == table[..][i];
      sum := sum + table[i];
    }
  }

  /** The places of the symbols of length l sorted so far. */
  ghost predicate Placed(lengths: seq<nat>, i: nat, trans: seq<nat>, offs: seq<nat>, l: nat)
    requires i <= |lengths| && 0 < l < 16 && |offs| == 16
  {
    && offs[l] == Begin(lengths, l) + |SymbolsOf(lengths[..i], l)| <= |trans|
    && trans[Begin(lengths, l)..offs[l]] == SymbolsOf(lengths[..i], l)
  }

  ghost predicate PlacedAll(lengths: seq<nat>, n: nat, trans: seq<nat>, offs: seq<nat>)
    requires n <= |lengths| && |offs| == 16
  {
    forall l | 0 < l < 16 :: Placed(lengths, n, trans, offs, l)
  }

  /** A symbol without a code has no place. */
  lemma NothingPlaced(lengths: seq<nat>, i: nat, trans: seq<nat>, offs: seq<nat>)
    requires i < |lengths| && lengths[i] == 0 && |offs| == 16 && PlacedAll(lengths, i, trans, offs)
    ensures PlacedAll(lengths, i + 1, trans, offs)
  {
    hide SymbolsOf;
    ghost var n := i + 1;
    forall l | 0 < l < 16 ensures Placed(lengths, n, trans, offs, l) {
      assert Placed(lengths, i, trans, offs, l);
      SymbolsNext(lengths, i, l);
    }
  }

  /** Symbols of different lengths have different places. */
  lemma PlacesApart(lengths: seq<nat>, i: nat, l: nat, m: nat)
    requires i < |lengths| && 0 < l < 16 && 0 < m < 16 && lengths[i] == l
    ensures var p := Begin(lengths, l) + |SymbolsOf(lengths[..i], l)|;
      && p < CodesUpTo(Counts(lengths), 15)
      && (m < l ==> Begin(lengths, m) + |SymbolsOf(lengths[..i], m)| <= p)
      && (m > l ==> p < Begin(lengths, m))
  {
    hide SymbolsOf, Counts;
    SymbolsNext(lengths, i, l);
    SymbolsGrow(lengths, i + 1, l);
    SymbolsGrow(lengths, i, m);
    UpToGrows(Counts(lengths), l, 15);
    if m < l { UpToGrows(Counts(lengths), m, l - 1); }
    if m > l { UpToGrows(Counts(lengths), l, m - 1); }
  }

  method Place(lengths: seq<nat>, i: nat, trans: array<nat>, offs: array<nat>)
    requires i < |lengths| <= trans.Length && 0 < lengths[i] < 16 && offs.Length == 16 && trans != offs
    requires PlacedAll(lengths, i, trans[..], offs[..])
    modifies trans, offs
    ensures PlacedAll(lengths, i + 1, trans[..], offs[..])
  {
    hide SymbolsOf, Begin;
    ghost var l, was, ts := lengths[i], offs[..], trans[..];
    assert Placed(lengths, i, ts, was, l);
    NotMoreThanSymbols(lengths);
    PlacesApart(lengths, i, l, l);
    var p := offs[lengths[i]];
    trans[p] := i;
    offs[lengths[i]] := p + 1;
    ghost var n := i + 1;
    forall m | 0 < m < 16 ensures Placed(lengths, n, trans[..], offs[..], m) {
      assert Placed(lengths, i, ts, was, m);
      SymbolsNext(lengths, i, m);
      PlacesApart(lengths, i, l, m);
      ghost var b := Begin(lengths, m);
      if m == l {
        assert trans[..][b..p + 1] == ts[b..p] + [i];
      } else {
        assert trans[..][b..was[m]] == ts[b..was[m]];
      }
    }
  }

  lemma PlacedNone(lengths: seq<nat>, trans: seq<nat>, offs: seq<nat>, l: nat)
    requires 0 < l < 16 && |offs| == 16 && offs[l] == Begin(lengths, l) && |lengths| <= |trans|
    ensures Placed(lengths, 0, trans, offs, l)
  {
    NotMoreThanSymbols(lengths);
    UpToGrows(Counts(lengths), l - 1, 15);
  }

  /** With all symbols placed, the lists of symbols follow each other. */
  lemma {:induction false} AllPlaced(lengths: seq<nat>, trans: seq<nat>, offs: seq<nat>, m: nat)
    requires m < 16 && |offs| == 16 && |lengths| <= |trans|
    requires PlacedAll(lengths, |lengths|, trans, offs)
    ensures CodesUpTo(Counts(lengths), m) <= |trans|
    ensures trans[..CodesUpTo(Counts(lengths), m)] == SymbolsUpTo(lengths, m)
    decreases m
  {
    hide SymbolsOf, Counts;
    NotMoreThanSymbols(lengths);
    UpToGrows(Counts(lengths), m, 15);
    if m > 0 {
      AllPlaced(lengths, trans, offs, m - 1);
      assert Placed(lengths, |lengths|, trans, offs, m);
      assert lengths[..|lengths|] == lengths;
      var b, e := CodesUpTo(Counts(lengths), m - 1), CodesUpTo(Counts(lengths), m);
      assert trans[..e] == trans[..b] + trans[b..e];
    }
  }

  /** build_tree: a counting sort of the symbols by code length. */
  method BuildTree(lengths: seq<nat>) returns (t: Tree)
    requires ValidLengths(lengths) && |lengths| <= 288
    ensures t == TreeOf(lengths)
  {
    hide SymbolsOf;
    var table := CountLengths(lengths);
    var offs := Offsets(lengths, table);
    var trans := new nat[288];
    forall l | 0 < l < 16 ensures Placed(lengths, 0, trans[..], offs[..], l) {
      PlacedNone(lengths, trans[..], offs[..], l);
    }
    for i := 0 to |lengths|
      invariant offs.Length == 16 && table[..] == Counts(lengths)
      invariant PlacedAll(lengths, i, trans[..], offs[..])
    {
      if lengths[i] != 0 {
        Place(lengths, i, trans, offs);
      } else {
        NothingPlaced(lengths, i, trans[..], offs[..]);
      }
    }
    NotMoreThanSymbols(lengths);
    AllPlaced(lengths, trans[..], offs[..], 15);
    t := Tree(table[..], trans[..CodesUpTo(table[..], 15)]);
  }
}
