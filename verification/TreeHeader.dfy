/**
 An encoder for the trees in front of a dynamic block, written after section 3.2.7 of RFC 1951:
 whatever code lengths it is given, and however it sends them, inflate reads back their trees.
 */
module TreeHeader {
  import opened Bits
  import opened Huffman
  import opened CodeLengths
  import opened DynamicTrees

  /** The order in which the lengths of the length codes are sent: 16, 17, 18, 0, then the lengths from 8
      upwards and from 7 downwards in turn. */
  function Order(i: nat): (s: nat)
    requires i < 19
    ensures s < 19
  {
    if i < 3 then 16 + i
    else if i == 3 then 0
    else if i % 2 == 0 then 8 + (i - 4) / 2
    else 7 - (i - 5) / 2
  }

  lemma OrderIs(i: nat)
    requires i < 19
    ensures CLCIDX[i] == Order(i)
  {}

  /** When the length of each length code is sent. */
  function Turn(s: nat): (i: nat)
    requires s < 19
    ensures i < 19 && Order(i) == s
  {
    if s >= 16 then s - 16
    else if s == 0 then 3
    else if s >= 8 then 4 + 2 * (s - 8)
    else 5 + 2 * (7 - s)
  }

  /** The lengths of the first n length codes from the i-th on. */
  function ClcBits(cl: seq<nat>, i: nat, n: nat): BitString
    requires |cl| == 19 && i <= n <= 19
    decreases n - i
  {
    if i == n then [] else Field(cl[Order(i)], 3) + ClcBits(cl, i + 1, n)
  }

  /** The ways to send lengths: one by itself, 3 to 6 copies of the previous one, 3 to 10 zeros, or 11 to
      138 zeros; `k` is the number beyond the least one. */
  datatype Token = One(len: nat) | Again(k: nat) | FewZeros(k: nat) | ManyZeros(k: nat)

  predicate Proper(t: Token, ls: seq<nat>) {
    match t
    case One(len) => len < 16
    case Again(k) => 3 + k <= 6 && ls != []
    case FewZeros(k) => 3 + k <= 10
    case ManyZeros(k) => 11 + k <= 138
  }

  /** What is meant behind the lengths `ls`. */
  function Meant(t: Token, ls: seq<nat>): (r: seq<nat>)
    requires Proper(t, ls)
    ensures r != []
  {
    match t
    case One(len) => [len]
    case Again(k) => seq(3 + k, _ => ls[|ls| - 1])
    case FewZeros(k) => seq(3 + k, _ => 0)
    case ManyZeros(k) => seq(11 + k, _ => 0)
  }

  /** Behind `ls` the tokens send the rest of `all`. */
  predicate Spells(ts: seq<Token>, ls: seq<nat>, all: seq<nat>) {
    if ts == [] then ls == all
    else Proper(ts[0], ls) && Spells(ts[1..], ls + Meant(ts[0], ls), all)
  }

  function SymbolOf(t: Token): nat {
    match t
    case One(len) => len
    case Again(_) => 16
    case FewZeros(_) => 17
    case ManyZeros(_) => 18
  }

  function CountBits(t: Token): BitString {
    match t
    case One(_) => []
    case Again(k) => Field(k, 2)
    case FewZeros(k) => Field(k, 3)
    case ManyZeros(k) => Field(k, 7)
  }

  /** The symbol has a code, and no more codes of its length are asked for than fit. */
  predicate HasCode(cl: seq<nat>, s: nat) {
    |cl| == 19 && s < 19 && 0 < cl[s] < 8 && CodesEnd(Counts(cl), cl[s]) <= Pow2(cl[s])
  }

  function TokenBits(cl: seq<nat>, t: Token): BitString
    requires HasCode(cl, SymbolOf(t))
  {
    Code(CanonicalCode(cl, SymbolOf(t)), cl[SymbolOf(t)]) + CountBits(t)
  }

  function TokensBits(cl: seq<nat>, ts: seq<Token>): BitString
    requires forall i | 0 <= i < |ts| :: HasCode(cl, SymbolOf(ts[i]))
  {
    if ts == [] then [] else TokenBits(cl, ts[0]) + TokensBits(cl, ts[1..])
  }

  /** The numbers of lengths, the lengths of the first n length codes, and the lengths. */
  function HeaderBits(literals: nat, distances: nat, n: nat, cl: seq<nat>, ts: seq<Token>): BitString
    requires 257 <= literals && 1 <= distances && 4 <= n <= 19 && |cl| == 19
    requires forall i | 0 <= i < |ts| :: HasCode(cl, SymbolOf(ts[i]))
  {
    Field(literals - 257, 5) + (Field(distances - 1, 5) + (Field(n - 4, 4) + (ClcBits(cl, 0, n) + TokensBits(cl, ts))))
  }

  /** The parts of a header that sends the lengths `lit` and `dist`. */
  ghost predicate Describes(lit: seq<nat>, dist: seq<nat>, n: nat, cl: seq<nat>, ts: seq<Token>) {
    && 257 <= |lit| <= 288 && 1 <= |dist| <= 32 && 4 <= n <= 19
    && |cl| == 19 && (forall s | 0 <= s < 19 :: cl[s] < 8 && (Turn(s) >= n ==> cl[s] == 0))
    && (forall i | 0 <= i < |ts| :: HasCode(cl, SymbolOf(ts[i])))
    && Spells(ts, [], lit + dist)
  }

  // ----- reading it back -----

  /** `part` holds the first i lengths in the order of sending. */
  ghost predicate ReadSoFar(cl: seq<nat>, part: seq<nat>, i: nat)
    requires |cl| == 19 == |part| && i <= 19
  {
    forall s | 0 <= s < 19 :: part[s] == if Turn(s) < i then cl[s] else 0
  }

  lemma TurnOf(i: nat)
    requires i < 19
    ensures Turn(Order(i)) == i
  {}

  lemma FieldBehind(v: nat, n: nat, rest: BitString)
    requires v < Pow2(n)
    ensures (Field(v, n) + rest)[n..] == rest && Num((Field(v, n) + rest)[..n]) == v
  {
    hide Field, Num;
    NumField(v, n);
    assert (Field(v, n) + rest)[..n] == Field(v, n);
  }

  lemma ReadOneMore(cl: seq<nat>, part: seq<nat>, i: nat)
    requires |cl| == 19 == |part| && i < 19 && ReadSoFar(cl, part, i)
    ensures ReadSoFar(cl, part[Order(i) := cl[Order(i)]], i + 1)
  {
    hide Order, Turn;
    var part' := part[Order(i) := cl[Order(i)]];
    TurnOf(i);
    forall s | 0 <= s < 19 ensures part'[s] == if Turn(s) < i + 1 then cl[s] else 0 {}
  }

  lemma {:induction false} ReadClcBits(cl: seq<nat>, part: seq<nat>, i: nat, n: nat, rest: BitString)
    requires |cl| == 19 == |part| && i <= n <= 19 && ReadSoFar(cl, part, i)
    requires forall s | 0 <= s < 19 :: cl[s] < 8 && (Turn(s) >= n ==> cl[s] == 0)
    ensures ReadClc(ClcBits(cl, i, n) + rest, i, n, part) == Lengths(cl, rest)
    decreases n - i
  {
    hide Order, Turn, Field, Num;
    if i == n {
      assert part == cl;
      assert [] + rest == rest;
    } else {
      var s, more := Order(i), ClcBits(cl, i + 1, n) + rest;
      assert ClcBits(cl, i, n) + rest == Field(cl[s], 3) + more;
      assert cl[s] < Pow2(3) by { assert Pow2(3) == 8; }
      FieldBehind(cl[s], 3, more);
      OrderIs(i);
      ReadOneMore(cl, part, i);
      ReadClcBits(cl, part[s := cl[s]], i + 1, n, rest);
    }
  }

  /** One token is read as what it means. */
  lemma ReadToken(t: Token, ls: seq<nat>, rest: BitString)
    requires Proper(t, ls) && |ls| < MAX_LENGTHS && |ls + Meant(t, ls)| <= MAX_LENGTHS
    ensures ReadSome(SymbolOf(t), CountBits(t) + rest, ls) == Lengths(ls + Meant(t, ls), rest)
  {
    hide Field, Num;
    CountPowers();
    match t {
      case One(len) => assert [] + rest == rest;
      case Again(k) => FieldBehind(k, 2, rest);
      case FewZeros(k) => FieldBehind(k, 3, rest);
      case ManyZeros(k) => FieldBehind(k, 7, rest);
    }
  }

  lemma CountPowers()
    ensures Pow2(2) == 4 && Pow2(3) == 8 && Pow2(4) == 16 && Pow2(5) == 32 && Pow2(7) == 128
  {
    assert Pow2(4) == 16;
  }

  lemma DecodeToken(cl: seq<nat>, t: Token, rest: BitString)
    requires HasCode(cl, SymbolOf(t))
    ensures Decode(TreeOf(cl), TokenBits(cl, t) + rest) == Symbol(SymbolOf(t), CountBits(t) + rest)
  {
    hide TreeOf, Decode, CanonicalCode;
    var s := SymbolOf(t);
    DecodeTreeOf(cl, s, CountBits(t) + rest);
    assert TokenBits(cl, t) + rest == Code(CanonicalCode(cl, s), cl[s]) + (CountBits(t) + rest);
  }

  lemma {:induction false} SpellsMore(ts: seq<Token>, ls: seq<nat>, all: seq<nat>)
    requires Spells(ts, ls, all)
    ensures |ls| <= |all| && (ts != [] ==> |ls + Meant(ts[0], ls)| <= |all|)
    decreases |ts|
  {
    if ts != [] { SpellsMore(ts[1..], ls + Meant(ts[0], ls), all); }
  }

  lemma {:induction false} ReadTokens(cl: seq<nat>, ts: seq<Token>, ls: seq<nat>, all: seq<nat>, rest: BitString)
    requires forall i | 0 <= i < |ts| :: HasCode(cl, SymbolOf(ts[i]))
    requires Spells(ts, ls, all) && |all| <= MAX_LENGTHS
    ensures |ls| <= |all|
    ensures ReadLengths(TreeOf(cl), TokensBits(cl, ts) + rest, ls, |all|) == Lengths(all, rest)
    decreases |ts|
  {
    hide TreeOf, Decode, HasCode, TokenBits, ReadSome, Meant, Proper, CountBits, SymbolOf;
    SpellsMore(ts, ls, all);
    if ts == [] {
      assert [] + rest == rest;
    } else {
      var t, more := ts[0], TokensBits(cl, ts[1..]) + rest;
      assert TokensBits(cl, ts) + rest == TokenBits(cl, t) + more;
      DecodeToken(cl, t, more);
      ReadToken(t, ls, more);
      ReadTokens(cl, ts[1..], ls + Meant(t, ls), all, rest);
    }
  }

  /** Three numbers in front. */
  lemma ReadNumbers(x: nat, y: nat, z: nat, more: BitString)
    requires x < 32 && y < 32 && z < 16
    ensures var bits := Field(x, 5) + (Field(y, 5) + (Field(z, 4) + more));
      && |bits| >= 14 && Num(bits[..5]) == x && Num(bits[5..10]) == y && Num(bits[10..14]) == z
      && bits[14..] == more
  {
    hide Field, Num;
    CountPowers();
    var c := Field(z, 4) + more;
    var b := Field(y, 5) + c;
    var bits := Field(x, 5) + b;
    FieldBehind(x, 5, b);
    FieldBehind(y, 5, c);
    FieldBehind(z, 4, more);
    assert bits[5..10] == bits[5..][..5] && bits[10..14] == bits[5..][5..][..4] && bits[14..] == bits[5..][5..][4..];
  }

  lemma Regroup(a: BitString, b: BitString, c: BitString, d: BitString, e: BitString, rest: BitString)
    ensures a + (b + (c + (d + e))) + rest == a + (b + (c + (d + (e + rest))))
  {
    Associative(d, e, rest);
    Associative(c, d + e, rest);
    Associative(b, c + (d + e), rest);
    Associative(a, b + (c + (d + e)), rest);
  }

  lemma TwoTrees(lit: seq<nat>, dist: seq<nat>, n: nat, cl: seq<nat>, more: BitString, bits: BitString,
                 rest: BitString)
    requires 257 <= |lit| <= 288 && 1 <= |dist| <= 32 && 4 <= n <= 19 && |cl| == 19 && |bits| >= 14
    requires Num(bits[..5]) == |lit| - 257 && Num(bits[5..10]) == |dist| - 1 && Num(bits[10..14]) == n - 4
    requires ReadClc(bits[14..], 0, n, seq(19, _ => 0)) == Lengths(cl, more)
    requires ReadLengths(TreeOf(cl), more, [], |lit + dist|) == Lengths(lit + dist, rest)
    ensures ReadTrees(bits) == Trees(TreeOf(lit), TreeOf(dist), rest)
  {
    hide TreeOf, ReadClc, ReadLengths, Num;
    assert (lit + dist)[..|lit|] == lit && (lit + dist)[|lit|..|lit| + |dist|] == dist;
  }

  /** Inflate reads the trees of the lengths, whichever length codes are chosen and however runs are sent. */
  lemma ReadTreesOf(lit: seq<nat>, dist: seq<nat>, n: nat, cl: seq<nat>, ts: seq<Token>, rest: BitString)
    requires Describes(lit, dist, n, cl, ts)
    ensures ReadTrees(HeaderBits(|lit|, |dist|, n, cl, ts) + rest) == Trees(TreeOf(lit), TreeOf(dist), rest)
  {
    hide TreeOf, HasCode, SymbolOf, Spells, ReadClc, ReadLengths, ReadTrees, ClcBits, TokensBits, Field, Num, Turn;
    hide Decode;
    var a, b, c := Field(|lit| - 257, 5), Field(|dist| - 1, 5), Field(n - 4, 4);
    var d, e := ClcBits(cl, 0, n), TokensBits(cl, ts);
    Regroup(a, b, c, d, e, rest);
    ReadNumbers(|lit| - 257, |dist| - 1, n - 4, d + (e + rest));
    var none := seq(19, _ => 0);
    assert ReadSoFar(cl, none, 0);
    ReadClcBits(cl, none, 0, n, e + rest);
    ReadTokens(cl, ts, [], lit + dist, rest);
    TwoTrees(lit, dist, n, cl, e + rest, a + (b + (c + (d + (e + rest)))), rest);
  }

  // ----- all lengths can be sent -----

  /** Every length by itself. */
  function Singly(ls: seq<nat>): (ts: seq<Token>)
    ensures |ts| == |ls| && forall i | 0 <= i < |ts| :: ts[i] == One(ls[i])
  {
    seq(|ls|, i requires 0 <= i < |ls| => One(ls[i]))
  }

  lemma {:induction false} SinglySpells(ls: seq<nat>, i: nat)
    requires i <= |ls| && ValidLengths(ls)
    ensures Spells(Singly(ls)[i..], ls[..i], ls)
    decreases |ls| - i
  {
    if i < |ls| {
      SinglySpells(ls, i + 1);
      assert Singly(ls)[i..][1..] == Singly(ls)[i + 1..] && ls[..i] + [ls[i]] == ls[..i + 1];
    } else {
      assert ls[..i] == ls;
    }
  }

  /** Nineteen codes of five bits fit. */
  lemma FiveBits(s: nat)
    requires s < 19
    ensures HasCode(seq(19, _ => 5), s)
  {
    var cl: seq<nat> := seq(19, _ => 5);
    forall l | 1 <= l < 6 ensures Counts(cl)[l] == if l == 5 then 19 else 0 { FiveBitSymbols(19, l); }
    var t := Counts(cl);
    assert CodesEnd(t, 1) == 0;
    assert CodesEnd(t, 3) == 0 by { assert CodesEnd(t, 2) == 0; }
    assert CodesEnd(t, 5) == 19 by { assert CodesEnd(t, 4) == 0; }
    CountPowers();
  }

  /** In particular, all lengths of up to 15 bits can be sent. */
  lemma EveryTreeIsSent(lit: seq<nat>, dist: seq<nat>, rest: BitString) returns (header: BitString)
    requires 257 <= |lit| <= 288 && 1 <= |dist| <= 32 && ValidLengths(lit) && ValidLengths(dist)
    ensures ReadTrees(header + rest) == Trees(TreeOf(lit), TreeOf(dist), rest)
  {
    hide TreeOf, HasCode, Spells, ReadTrees;
    var cl: seq<nat> := seq(19, _ => 5);
    var ts := Singly(lit + dist);
    SinglySpells(lit + dist, 0);
    assert ts[0..] == ts;
    forall i | 0 <= i < |ts| ensures HasCode(cl, SymbolOf(ts[i])) { FiveBits(SymbolOf(ts[i])); }
    ReadTreesOf(lit, dist, 19, cl, ts, rest);
    header := HeaderBits(|lit|, |dist|, 19, cl, ts);
  }
}
