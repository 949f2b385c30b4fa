/** The tables of base values and extra bits for match lengths and distances (DeflateBase), and the
    split of a value into a slot and extra bits (section 3.2.5 of RFC 1951). */
module LengthTables {
  import opened Bits

  datatype Table = Table(bits: seq<nat>, base: seq<nat>)

  function ExtraBits(delta: nat, i: nat): nat
    requires delta > 0
  {
    if i < delta then 0 else (i - delta) / delta
  }

  function Base(delta: nat, first: nat, i: nat): nat
    requires delta > 0
  {
    if i == 0 then first else Base(delta, first, i - 1) + Pow2(ExtraBits(delta, i - 1))
  }

  /** What build_bits_base computes. */
  function Built(delta: nat, first: nat): (t: Table)
    requires delta > 0
    ensures |t.bits| == 30 && |t.base| == 30
    ensures forall i | 0 <= i < 30 :: t.bits[i] == ExtraBits(delta, i) && t.base[i] == Base(delta, first, i)
  {
    Table(seq(30, i requires i >= 0 => ExtraBits(delta, i)),
          seq(30, i requires i >= 0 => Base(delta, first, i)))
  }

  lemma {:induction false} BaseFrom(delta: nat, first: nat, i: nat)
    requires delta > 0
    ensures Base(delta, first, i) >= first
  {
    if i > 0 { BaseFrom(delta, first, i - 1); }
  }

  function LengthTable(): (t: Table)
    ensures |t.bits| == 30 && |t.base| == 30
  {
    var t := Built(4, 3);
    Table(t.bits[28 := 0], t.base[28 := 258])
  }

  lemma LengthsFrom3(i: nat)
    requires i < 30
    ensures LengthTable().base[i] >= 3
  {
    BaseFrom(4, 3, i);
  }

  function DistTable(): (t: Table)
    ensures |t.bits| == 30 && |t.base| == 30
  {
    Built(2, 1)
  }

  method BuildBits(delta: nat) returns (bits: seq<nat>)
    requires 0 < delta < 30
    ensures |bits| == 30 && forall j | 0 <= j < 30 :: bits[j] == ExtraBits(delta, j)
  {
    var a := new nat[30];
    for i := 0 to delta
      invariant forall j | 0 <= j < i :: a[j] == ExtraBits(delta, j)
    {
      a[i] := 0;
    }
    for i := 0 to 30 - delta
      invariant forall j | 0 <= j < i + delta :: a[j] == ExtraBits(delta, j)
    {
      a[i + delta] := i / delta;
    }
    bits := a[..];
  }

  method BuildBitsBase(delta: nat, first: nat) returns (t: Table)
    requires 0 < delta < 30
    ensures t == Built(delta, first)
  {
    hide ExtraBits, Pow2, Built;
    var bits := BuildBits(delta);
    var base, sum := new nat[30], first;
    for i := 0 to 30
      invariant sum == Base(delta, first, i)
      invariant forall j | 0 <= j < i :: base[j] == Base(delta, first, j)
    {
      base[i] := sum;
      sum := sum + Pow2(bits[i]);
    }
    t := Table(bits, base[..]);
    assert t.bits == Built(delta, first).bits && t.base == Built(delta, first).base;
  }

  /** DeflateBase::DeflateBase. */
  method BuildTables() returns (length: Table, dist: Table)
    ensures length == LengthTable() && dist == DistTable()
  {
    length := BuildBitsBase(4, 3);
    dist := BuildBitsBase(2, 1);
    length := Table(length.bits[28 := 0], length.base[28 := 258]);
  }

  // ----- slots -----

  /** The slot write_int chooses: the last one whose base does not exceed the value. */
  predicate IsSlot(t: Table, value: nat, i: nat) {
    i < |t.base| && t.base[i] <= value && (i + 1 < |t.base| ==> value < t.base[i + 1])
  }

  lemma LengthBases()
    ensures Base(4, 3, 27) == 227 && Base(4, 3, 28) == 259 && Base(4, 3, 29) == 323
    ensures Pow2(5) == 32 && Pow2(6) == 64
  {
    assert Pow2(2) == 4 && Pow2(3) == 8;
    assert Pow2(4) == 16;
    assert Base(4, 3, 4) == 7 by { assert Base(4, 3, 2) == 5; }
    assert Base(4, 3, 8) == 11 by { assert Base(4, 3, 6) == 9; }
    assert Base(4, 3, 12) == 19 by { assert Base(4, 3, 10) == 15; }
    assert Base(4, 3, 16) == 35 by { assert Base(4, 3, 14) == 27; }
    assert Base(4, 3, 20) == 67 by { assert Base(4, 3, 18) == 51; }
    assert Base(4, 3, 24) == 131 by { assert Base(4, 3, 22) == 99; }
    assert Base(4, 3, 27) == 227 by { assert Base(4, 3, 26) == 195; }
  }

  lemma DistBases()
    ensures Base(2, 1, 29) == 24577 && Pow2(13) == 8192
  {
    assert Pow2(2) == 4 && Pow2(3) == 8;
    assert Pow2(5) == 32;
    assert Pow2(7) == 128;
    assert Pow2(9) == 512;
    assert Pow2(11) == 2048;
    assert Base(2, 1, 4) == 5 by { assert Base(2, 1, 2) == 3; }
    assert Base(2, 1, 6) == 9;
    assert Base(2, 1, 8) == 17;
    assert Base(2, 1, 10) == 33;
    assert Base(2, 1, 12) == 65;
    assert Base(2, 1, 14) == 129;
    assert Base(2, 1, 16) == 257;
    assert Base(2, 1, 18) == 513;
    assert Base(2, 1, 20) == 1025;
    assert Base(2, 1, 22) == 2049;
    assert Base(2, 1, 24) == 4097;
    assert Base(2, 1, 26) == 8193;
    assert Base(2, 1, 28) == 16385;
  }

  /** Every match length deflate may use has a slot whose extra bits can hold the rest. */
  lemma LengthSplits(value: nat, i: nat)
    requires 3 <= value <= 258 && IsSlot(LengthTable(), value, i)
    ensures i < 29 && value - LengthTable().base[i] < Pow2(LengthTable().bits[i])
  {
    LengthBases();
    if i < 27 {
      assert Base(4, 3, i + 1) == Base(4, 3, i) + Pow2(ExtraBits(4, i));
    }
  }

  /** Every distance up to the window size has one, too. */
  lemma DistSplits(value: nat, i: nat)
    requires 1 <= value <= 32768 && IsSlot(DistTable(), value, i)
    ensures i < 30 && value - DistTable().base[i] < Pow2(DistTable().bits[i])
  {
    DistBases();
    if i < 29 {
      assert Base(2, 1, i + 1) == Base(2, 1, i) + Pow2(ExtraBits(2, i));
    }
  }

  // ----- what the symbols mean -----

  lemma SmallPowers()
    ensures Pow2(0) == 1 && Pow2(1) == 2 && Pow2(2) == 4 && Pow2(3) == 8 && Pow2(4) == 16 && Pow2(5) == 32
    ensures Pow2(6) == 64 && Pow2(7) == 128 && Pow2(8) == 256 && Pow2(9) == 512 && Pow2(10) == 1024
    ensures Pow2(11) == 2048 && Pow2(12) == 4096 && Pow2(13) == 8192
  {
    assert Pow2(2) == 4;
    assert Pow2(4) == 16;
    assert Pow2(6) == 64;
    assert Pow2(8) == 256;
    assert Pow2(10) == 1024;
    assert Pow2(12) == 4096;
  }

  ghost predicate GrowsAt(delta: nat, t: Table, i: nat)
    requires delta > 0 && |t.bits| == 30 == |t.base| && i < 30
  {
    t.bits[i] == ExtraBits(delta, i) && (i < 29 ==> t.base[i + 1] == t.base[i] + Pow2(t.bits[i]))
  }

  /** A table that starts at `first` and grows by the slot sizes is the one that is built. */
  ghost predicate Grows(delta: nat, first: nat, t: Table)
    requires delta > 0
  {
    |t.bits| == 30 == |t.base| && t.base[0] == first && forall i | 0 <= i < 30 :: GrowsAt(delta, t, i)
  }

  lemma {:induction false} BaseGrown(delta: nat, first: nat, t: Table, i: nat)
    requires delta > 0 && Grows(delta, first, t) && i < 30
    ensures Base(delta, first, i) == t.base[i]
  {
    hide Pow2, ExtraBits;
    if i > 0 {
      assert GrowsAt(delta, t, i - 1);
      BaseGrown(delta, first, t, i - 1);
    }
  }

  lemma GrownIsBuilt(delta: nat, first: nat, t: Table)
    requires delta > 0 && Grows(delta, first, t)
    ensures Built(delta, first) == t
  {
    hide Pow2, ExtraBits, Base;
    forall i | 0 <= i < 30 ensures Base(delta, first, i) == t.base[i] && ExtraBits(delta, i) == t.bits[i] {
      BaseGrown(delta, first, t, i);
      assert GrowsAt(delta, t, i);
    }
    assert Built(delta, first).bits == t.bits && Built(delta, first).base == t.base;
  }

  /** The lengths in the table of section 3.2.5 of RFC 1951, and a last slot that no legal symbol selects. */
  function LengthsOfStandard(): (t: Table)
    ensures |t.bits| == 30 && |t.base| == 30
  {
    Table([0, 0, 0, 0, 0, 0, 0, 0, 1, 1, 1, 1, 2, 2, 2, 2, 3, 3, 3, 3, 4, 4, 4, 4, 5, 5, 5, 5, 0, 6],
          [3, 4, 5, 6, 7, 8, 9, 10, 11, 13, 15, 17, 19, 23, 27, 31, 35, 43, 51, 59, 67, 83, 99, 115,
           131, 163, 195, 227, 258, 323])
  }

  /** The distances there. */
  function DistancesOfStandard(): (t: Table)
    ensures |t.bits| == 30 && |t.base| == 30
  {
    Table([0, 0, 0, 0, 1, 1, 2, 2, 3, 3, 4, 4, 5, 5, 6, 6, 7, 7, 8, 8, 9, 9, 10, 10, 11, 11, 12, 12, 13, 13],
          [1, 2, 3, 4, 5, 7, 9, 13, 17, 25, 33, 49, 65, 97, 129, 193, 257, 385, 513, 769, 1025, 1537,
           2049, 3073, 4097, 6145, 8193, 12289, 16385, 24577])
  }

  /** The lengths before slot 28 is changed. */
  function UnchangedLengths(): (t: Table)
    ensures |t.bits| == 30 && |t.base| == 30
  {
    Table(LengthsOfStandard().bits[28 := 6], LengthsOfStandard().base[28 := 259])
  }

  lemma LengthGrows(i: nat)
    requires i < 30
    ensures GrowsAt(4, UnchangedLengths(), i) && UnchangedLengths().base[0] == 3
  {
    hide Pow2;
    SmallPowers();
  }

  lemma DistanceGrows(i: nat)
    requires i < 30
    ensures GrowsAt(2, DistancesOfStandard(), i) && DistancesOfStandard().base[0] == 1
  {
    hide Pow2;
    SmallPowers();
  }

  lemma BothGrow()
    ensures Grows(4, 3, UnchangedLengths()) && Grows(2, 1, DistancesOfStandard())
  {
    hide GrowsAt, UnchangedLengths, DistancesOfStandard;
    forall i | 0 <= i < 30 ensures GrowsAt(4, UnchangedLengths(), i) { LengthGrows(i); }
    forall i | 0 <= i < 30 ensures GrowsAt(2, DistancesOfStandard(), i) { DistanceGrows(i); }
    LengthGrows(0);
    DistanceGrows(0);
  }

  /** Both tables are those of the standard. */
  lemma TablesOfStandard()
    ensures LengthTable() == LengthsOfStandard() && DistTable() == DistancesOfStandard()
  {
    hide Built, Grows, DistancesOfStandard;
    BothGrow();
    GrownIsBuilt(4, 3, UnchangedLengths());
    GrownIsBuilt(2, 1, DistancesOfStandard());
    assert LengthTable().bits == LengthsOfStandard().bits && LengthTable().base == LengthsOfStandard().base;
  }

  lemma {:induction false} BaseUpTo(delta: nat, first: nat, i: nat, n: nat)
    requires delta > 0 && i <= n
    ensures Base(delta, first, i) <= Base(delta, first, n)
    decreases n
  {
    if i < n { BaseUpTo(delta, first, i, n - 1); }
  }

  /** Every length symbol means a legal length whatever its extra bits say, and belongs to the slot of that
      length -- except 258, which slot 27 can express as well. */
  lemma EverySlotIsLength(i: nat, e: nat)
    requires i < 29 && e < Pow2(LengthTable().bits[i])
    ensures var value := LengthTable().base[i] + e;
      3 <= value <= 258 && (IsSlot(LengthTable(), value, i) <==> !(i == 27 && value == 258))
  {
    hide Pow2;
    SmallPowers();
    LengthBases();
    LengthsFrom3(i);
    if i < 28 {
      assert Base(4, 3, i + 1) == Base(4, 3, i) + Pow2(ExtraBits(4, i));
      BaseUpTo(4, 3, i + 1, 28);
    }
  }

  lemma EverySlotIsDistance(i: nat, e: nat)
    requires i < 30 && e < Pow2(DistTable().bits[i])
    ensures var value := DistTable().base[i] + e; 1 <= value <= 32768 && IsSlot(DistTable(), value, i)
  {
    hide Pow2;
    DistBases();
    BaseFrom(2, 1, i);
    assert Base(2, 1, i + 1) == Base(2, 1, i) + Pow2(ExtraBits(2, i));
    BaseUpTo(2, 1, i + 1, 30);
    assert Base(2, 1, 30) == Base(2, 1, 29) + Pow2(ExtraBits(2, 29));
  }
}
