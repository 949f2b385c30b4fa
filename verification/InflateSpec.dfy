/**
 What a deflate stream means: the output that inflating a bit string appends to what has been
 output so far.  `Undefined` marks streams on which the program reads past its input or tables or
 refers to bytes that were never output, `Refused` those on which it trips the window assertion.
 With `far` the largest distance is allowed, as the format has it; without, it is refused.
 */
module InflateSpec {
  import opened Bytes
  import opened Bits
  import opened Huffman
  import opened LengthTables
  import opened DynamicTrees

  type Data = seq<byte>

  const WINDOW: nat := 32 * 1024

  datatype Outcome = Done(out: Data, rest: BitString) | Failed | Refused | Undefined

  /** `len` times the byte output `dist` bytes ago; source and copy may overlap. */
  function CopyBack(out: Data, len: nat, dist: nat): (r: Data)
    requires 1 <= dist <= |out|
    ensures |r| == |out| + len
    decreases len
  {
    if len == 0 then out else CopyBack(out + [out[|out| - dist]], len - 1, dist)
  }

  /** A field of extra bits on top of its base value. */
  datatype Value = Value(v: nat, rest: BitString) | NoValue

  function ReadValue(t: Table, slot: nat, bits: BitString): (r: Value)
    requires |t.bits| == |t.base|
    ensures r.Value? ==> |r.rest| <= |bits|
  {
    if slot >= |t.base| || t.bits[slot] > |bits| then NoValue
    else Value(t.base[slot] + Num(bits[..t.bits[slot]]), bits[t.bits[slot]..])
  }

  /** A match: length slot `slot`, then the distance. */
  datatype Match = Match(len: nat, dist: nat, rest: BitString) | NoMatch

  function ReadMatch(dt: Tree, slot: nat, bits: BitString): (m: Match)
    ensures m.Match? ==> |m.rest| < |bits| && m.len >= 3
  {
    var l := ReadValue(LengthTable(), slot, bits);
    if l.NoValue? then NoMatch else
      LengthsFrom3(slot);
      var d := Decode(dt, l.rest);
      if d.NoCode? then NoMatch else
        var o := ReadValue(DistTable(), d.sym, d.rest);
        if o.NoValue? then NoMatch else Match(l.v, o.v, o.rest)
  }

  /** The symbols of a block up to the end-of-block symbol. */
  function BlockData(lt: Tree, dt: Tree, bits: BitString, out: Data, far: bool := false): (r: Outcome)
    ensures r != Failed && (r.Done? ==> |r.rest| < |bits|) && (far ==> r != Refused)
    decreases |bits|
  {
    var d := Decode(lt, bits);
    if d.NoCode? then Undefined
    else if d.sym == 256 then Done(out, d.rest)
    else if d.sym < 256 then BlockData(lt, dt, d.rest, out + [d.sym as byte], far)
    else
      var m := ReadMatch(dt, d.sym - 257, d.rest);
      if m.NoMatch? || !(1 <= m.dist <= |out|) || m.dist > WINDOW then Undefined
      else if m.dist == WINDOW && !far then Refused
      else BlockData(lt, dt, m.rest, CopyBack(out, m.len, m.dist), far)
  }

  /** A stored block consists of bytes from the next byte boundary on: its length, the complement of
      the length, and the data. */
  function StoredBlock(bits: BitString, out: Data): (r: Outcome)
    ensures r != Refused && (r.Done? ==> |r.rest| <= |bits|)
  {
    StoredBytes(Pack(bits[|bits| % 8..]), out)
  }

  function StoredBytes(s: seq<byte>, out: Data): (r: Outcome)
    ensures r != Refused && (r.Done? ==> |r.rest| <= 8 * |s|)
  {
    if |s| < 4 then Undefined else
      var len, inv := s[0] as nat + 256 * s[1] as nat, s[2] as nat + 256 * s[3] as nat;
      if len + inv != 0xffff then Failed
      else if |s| < 4 + len then Undefined
      else Done(out + s[4..4 + len], Unpack(s[4 + len..]))
  }

  function Block(kind: nat, bits: BitString, out: Data, far: bool := false): (r: Outcome)
    ensures (r.Done? ==> |r.rest| <= |bits|) && (far ==> r != Refused)
  {
    match kind
    case 0 => StoredBlock(bits, out)
    case 1 => BlockData(FixedLit(), FixedDist(), bits, out, far)
    case 2 =>
      var t := ReadTrees(bits);
      if t.NoTrees? then Undefined else BlockData(t.lt, t.dt, t.rest, out, far)
    case _ => Failed
  }

  /** Blocks up to and including the one marked final. */
  function Blocks(bits: BitString, out: Data, far: bool := false): (r: Outcome)
    ensures (r.Done? ==> |r.rest| < |bits|) && (far ==> r != Refused)
    decreases |bits|
  {
    if |bits| < 3 then Undefined else
      var r := Block(Num(bits[1..3]), bits[3..], out, far);
      if r.Done? && !bits[0] then Blocks(r.rest, r.out, far) else r
  }

  // ----- the largest distance -----

  /** The distances of the matches that decoding comes to. */
  function BlockDistances(lt: Tree, dt: Tree, bits: BitString, out: Data): seq<nat>
    decreases |bits|
  {
    var d := Decode(lt, bits);
    if d.NoCode? || d.sym == 256 then []
    else if d.sym < 256 then BlockDistances(lt, dt, d.rest, out + [d.sym as byte])
    else
      var m := ReadMatch(dt, d.sym - 257, d.rest);
      if m.NoMatch? || !(1 <= m.dist <= |out|) || m.dist > WINDOW then []
      else [m.dist] + BlockDistances(lt, dt, m.rest, CopyBack(out, m.len, m.dist))
  }

  function Distances(bits: BitString, out: Data): seq<nat>
    decreases |bits|
  {
    if |bits| < 3 then [] else
      var kind, t, r := Num(bits[1..3]), ReadTrees(bits[3..]), Block(Num(bits[1..3]), bits[3..], out, true);
      var here :=
        if kind == 1 then BlockDistances(FixedLit(), FixedDist(), bits[3..], out)
        else if kind == 2 && t.Trees? then BlockDistances(t.lt, t.dt, t.rest, out)
        else [];
      if r.Done? && !bits[0] then here + Distances(r.rest, r.out) else here
  }

  lemma {:induction false} BlockRefused(lt: Tree, dt: Tree, bits: BitString, out: Data)
    ensures BlockData(lt, dt, bits, out) ==
      if WINDOW in BlockDistances(lt, dt, bits, out) then Refused else BlockData(lt, dt, bits, out, true)
    decreases |bits|
  {
    hide Decode, ReadMatch, CopyBack;
    var d := Decode(lt, bits);
    if d.Symbol? && d.sym < 256 {
      BlockRefused(lt, dt, d.rest, out + [d.sym as byte]);
    } else if d.Symbol? && d.sym > 256 {
      var m := ReadMatch(dt, d.sym - 257, d.rest);
      if m.Match? && 1 <= m.dist <= |out| && m.dist <= WINDOW {
        BlockRefused(lt, dt, m.rest, CopyBack(out, m.len, m.dist));
      }
    }
  }

  /** A stream is refused exactly if decoding comes to a match at the largest distance; every other one
      means what it means where that distance is allowed. */
  lemma {:induction false} RefusedExactly(bits: BitString, out: Data)
    ensures Blocks(bits, out) == if WINDOW in Distances(bits, out) then Refused else Blocks(bits, out, true)
    decreases |bits|
  {
    hide BlockData, BlockDistances, ReadTrees, FixedLit, FixedDist, Num, StoredBlock;
    if |bits| >= 3 {
      var kind, t := Num(bits[1..3]), ReadTrees(bits[3..]);
      if kind == 1 { BlockRefused(FixedLit(), FixedDist(), bits[3..], out); }
      if kind == 2 && t.Trees? { BlockRefused(t.lt, t.dt, t.rest, out); }
      var r := Block(kind, bits[3..], out, true);
      if r.Done? && !bits[0] { RefusedExactly(r.rest, r.out); }
    }
  }
}
