/** Ring buffers: a bounded queue, or one that drops its oldest elements to make room. */
module RingBuffers {
  import opened Bytes

  /** The last n elements, or all of them. */
  function Last<T>(s: seq<T>, n: nat): (r: seq<T>)
    ensures |r| == Min(|s|, n) && r == s[|s| - |r|..]
  {
    if |s| <= n then s else s[|s| - n..]
  }

  /** What the buffer holds after a write of all of `es`, one at a time. */
  function Stored<T>(c: seq<T>, es: seq<T>, max: nat, overwrite: bool): seq<T>
    requires |c| <= max
  {
    if overwrite then Last(c + es, max) else c + es[..Min(|es|, max - |c|)]
  }

  /** Writing one part and then the next is writing both. */
  lemma StoredConcat<T>(c: seq<T>, a: seq<T>, b: seq<T>, max: nat, overwrite: bool)
    requires |c| <= max
    ensures Stored(Stored(c, a, max, overwrite), b, max, overwrite) == Stored(c, a + b, max, overwrite)
  {
    if overwrite {
      LastConcat(c + a, b, max);
      assert c + a + b == c + (a + b);
    } else {
      var n := Min(|a|, max - |c|);
      if n == |a| {
        assert a[..n] == a;
        assert c + a + b[..Min(|b|, max - |c + a|)] == c + (a + b)[..Min(|a + b|, max - |c|)];
      } else {
        assert (a + b)[..n] == a[..n];
        assert b[..0] == [];
      }
    }
  }

  lemma LastConcat<T>(s: seq<T>, b: seq<T>, n: nat)
    ensures Last(Last(s, n) + b, n) == Last(s + b, n)
  {
    if |s| > n {
      hide Last;
      var k, j, sb := |s| - n, |b|, s + b;
      LastIs(s, n);
      LastIs(sb, n);
      assert s[k..] + b == sb[k..];
      LastIs(sb[k..], n);
      assert sb[k..][j..] == sb[k + j..];
    }
  }

  lemma LastIs<T>(s: seq<T>, n: nat)
    requires |s| >= n
    ensures Last(s, n) == s[|s| - n..]
  {}

  /** (a + i) % m without division. */
  ghost function Wrap(a: nat, i: nat, m: nat): (r: nat)
    requires a < m && i <= m
    ensures r < m && r == (a + i) % m
  {
    if a + i < m then a + i
    else
      assert (a + i) % m == a + i - m by { ModMinus(a + i, m); }
      a + i - m
  }

  lemma ModMinus(x: nat, m: nat)
    requires m <= x < 2 * m
    ensures x % m == x - m
  {
    assert x / m == 1;
  }

  class RingBuffer<T(0)> {
    var count: nat
    var readPos: nat
    var writePos: nat
    const eMax: nat
    const overwrite: bool
    const data: array<T>

    ghost predicate Valid()
      reads this
    {
      && data.Length == eMax && count <= eMax && (overwrite ==> eMax > 0)
      && (if eMax == 0 then readPos == writePos == 0
          else readPos < eMax && writePos == Wrap(readPos, count, eMax))
    }

    /** The unread elements, oldest first. */
    ghost function Contents(): (c: seq<T>)
      requires Valid()
      reads this, data
      ensures |c| == count <= eMax
    {
      seq(count, i requires 0 <= i < count reads this, data requires Valid() => data[Wrap(readPos, i, eMax)])
    }

    constructor (max: nat, overwrite: bool)
      requires overwrite ==> max > 0
      ensures Valid() && Contents() == [] && eMax == max && this.overwrite == overwrite && fresh(data)
    {
      count, readPos, writePos := 0, 0, 0;
      eMax, this.overwrite := max, overwrite;
      data := new T[max];
    }

    /** Where a write goes: behind the last element, which in a full buffer is the place of the first. */
    lemma Places()
      requires Valid() && eMax > 0
      ensures count < eMax ==>
        && Wrap(writePos, 1, eMax) == Wrap(readPos, count + 1, eMax)
        && (forall i | 0 <= i < count :: Wrap(readPos, i, eMax) != writePos)
      ensures count == eMax ==>
        var r := Wrap(readPos, 1, eMax);
        && writePos == readPos && Wrap(r, eMax, eMax) == r && Wrap(r, eMax - 1, eMax) == writePos
        && forall i | 0 <= i < eMax - 1 :: Wrap(r, i, eMax) == Wrap(readPos, i + 1, eMax) != writePos
    {}

    method Write(e: T) returns (ok: bool)
      requires Valid()
      modifies this, data
      ensures Valid() && ok == (overwrite || old(count) < eMax) && (!ok ==> Contents() == old(Contents()))
      ensures Contents() == Stored(old(Contents()), [e], eMax, overwrite) && count == Min(old(count) + 1, eMax)
    {
      hide Stored, Last, Wrap;
      StoredOne(Contents(), e, eMax, overwrite);
      var maxReached := count >= eMax;
      if !overwrite && maxReached { return false; }
      ghost var c := Contents();
      Places();
      data[writePos] := e;
      ghost var w, r := Wrap(writePos, 1, eMax), Wrap(readPos, 1, eMax);
      writePos := (writePos + 1) % eMax;
      if overwrite && maxReached {
        readPos := (readPos + 1) % eMax;
      } else {
        count := count + 1;
      }
      ok := true;
      assert Contents() == if maxReached then c[1..] + [e] else c + [e];
    }

    method Writen(e: array<T>, off: nat, n: nat) returns (k: nat)
      requires Valid() && e != data && off + n <= e.Length
      modifies this, data
      ensures Valid() && k == if overwrite then n else Min(n, eMax - old(count))
      ensures count == if overwrite then Min(old(count) + k, eMax) else old(count) + k
      ensures Contents() == Stored(old(Contents()), e[off..off + n], eMax, overwrite)
    {
      hide Valid, Contents, Stored, Last;
      k := 0;
      ghost var c := Contents();
      StoredNone(c, eMax, overwrite);
      assert e[off..off + 0] == [];
      while k < n
        invariant k <= n && Valid() && (!overwrite ==> old(count) + k <= eMax)
        invariant count == if overwrite then Min(old(count) + k, eMax) else old(count) + k
        invariant Contents() == Stored(c, e[off..off + k], eMax, overwrite)
      {
        var ok := Write(e[off + k]);
        if !ok {
          assert e[off..off + n][..k] == e[off..off + k];
          StoredFull(c, e[off..off + n], k, eMax);
          break;
        }
        assert e[off..off + k] + [e[off + k]] == e[off..off + (k + 1)];
        StoredConcat(c, e[off..off + k], [e[off + k]], eMax, overwrite);
        k := k + 1;
      }
    }

    method Read(dflt: T) returns (ok: bool, e: T)
      requires Valid()
      modifies this
      ensures Valid() && ok == (old(count) > 0)
      ensures !ok ==> Contents() == old(Contents()) && e == dflt
      ensures ok ==> [e] + Contents() == old(Contents())
    {
      e := dflt;
      if count == 0 { return false, e; }
      ghost var c := Contents();
      e := data[readPos];
      ghost var r := Wrap(readPos, 1, eMax);
      readPos := (readPos + 1) % eMax;
      count := count - 1;
      ok := true;
      assert Contents() == c[1..];
    }

    /** Elements that lie in one piece of the array. */
    lemma Segment(k: nat)
      requires Valid() && k <= count && readPos + k <= eMax
      ensures Contents()[..k] == data[readPos..readPos + k]
    {}

    lemma Shifted(k: nat)
      requires Valid() && k <= count && eMax > 0
      ensures var r := Wrap(readPos, k, eMax);
        forall i | 0 <= i <= count - k :: Wrap(r, i, eMax) == Wrap(readPos, k + i, eMax)
    {}

    /** Takes out k elements that lie in one piece. */
    method Advance(k: nat)
      requires Valid() && k <= count && readPos + k <= eMax && eMax > 0
      modifies this
      ensures Valid() && count == old(count) - k && Contents() == old(Contents())[k..]
      ensures readPos == (old(readPos) + k) % eMax
    {
      hide Wrap;
      ghost var r, c := Wrap(readPos, k, eMax), Contents();
      Shifted(k);
      count := count - k;
      readPos := (readPos + k) % eMax;
      assert Contents() == c[k..];
    }

    /** memcpy of one piece. */
    method CopyOut(e: array<T>, at: nat, k: nat)
      requires Valid() && k <= count && readPos + k <= eMax && at + k <= e.Length && e != data
      modifies e
      ensures e[..at + k] == old(e[..at]) + Contents()[..k] && e[at + k..] == old(e[at + k..])
    {
      Segment(k);
      forall i | 0 <= i < k { e[at + i] := data[readPos + i]; }
      assert e[..at + k] == e[..at] + e[at..at + k];
    }

    /** readn: repeated reads, done by copying at most two pieces. */
    method Readn(e: array<T>, n: nat) returns (k: nat)
      requires Valid() && n <= e.Length && e != data
      modifies this, e
      ensures Valid() && k == Min(n, old(count))
      ensures e[..k] == old(Contents())[..k] && e[k..] == old(e[k..])
      ensures Contents() == old(Contents())[k..]
    {
      ghost var c, d := Contents(), e[..];
      k := 0;
      while k < n && count > 0
        invariant Valid() && k <= n && k + count == |c|
        invariant e[..k] == c[..k] && e[k..] == d[k..] && Contents() == c[k..]
        decreases count
      {
        var m := Min(eMax - readPos, n - k);
        m := Min(count, m);
        CopyOut(e, k, m);
        Advance(m);
        Taken(c, k, m);
        assert e[k + m..] == d[k..][m..];
        k := k + m;
      }
    }

    /** One round of move: as much of what lies in one piece as the buffer takes. */
    method MovePiece(src: RingBuffer<T>, n: nat) returns (k: nat)
      requires Valid() && src.Valid() && src != this && src.data != data && src.count > 0 && n > 0
      modifies this, data, src
      ensures Valid() && src.Valid() && k <= Min(n, old(src.count))
      ensures k == 0 <==> !overwrite && old(count) == eMax
      ensures src.Contents() == old(src.Contents())[k..]
      ensures Contents() == Stored(old(Contents()), old(src.Contents())[..k], eMax, overwrite)
      ensures count == if overwrite then Min(old(count) + k, eMax) else old(count) + k
      ensures var s := Moving(old(Contents()), old(src.Contents()), old(src.readPos), n);
        && s.Fits(eMax, src.eMax)
        && s.Round(eMax, overwrite, src.eMax) == Moving(Contents(), src.Contents(), src.readPos, n - k)
    {
      hide Stored, Last, Contents, Wrap;
      var m := Min(src.eMax - src.readPos, n);
      m := Min(src.count, m);
      src.Segment(m);
      ghost var c, theirs := Contents(), src.Contents();
      k := Writen(src.data, src.readPos, m);
      StoredPart(c, theirs[..m], k, eMax, overwrite);
      assert theirs[..m][..k] == theirs[..k];
      assert Contents() == Stored(c, theirs[..k], eMax, overwrite);
      src.Advance(k);
    }

    /** move: needs a destination that overwrites or has room, because it would not end otherwise, as
        MoveEndsExactly shows. */
    method Move(src: RingBuffer<T>, n: nat) returns (c: nat)
      requires Valid() && src.Valid() && src != this && src.data != data
      requires overwrite || count + Min(n, src.count) <= eMax
      modifies this, data, src
      ensures Valid() && src.Valid() && c == Min(n, old(src.count))
      ensures src.Contents() == old(src.Contents())[c..]
      ensures Contents() == Stored(old(Contents()), old(src.Contents())[..c], eMax, overwrite)
    {
      hide Valid, Contents, Stored, Last;
      ghost var mine, theirs := Contents(), src.Contents();
      assert theirs[..0] == [] && theirs[0..] == theirs;
      StoredNone(mine, eMax, overwrite);
      c := 0;
      while c < n && src.count > 0
        invariant Valid() && src.Valid() && c <= n && c + src.count == |theirs|
        invariant src.Contents() == theirs[c..] && Contents() == Stored(mine, theirs[..c], eMax, overwrite)
        invariant count == if overwrite then Min(|mine| + c, eMax) else |mine| + c
        decreases src.count
      {
        assert overwrite || count < eMax;
        var k := MovePiece(src, n - c);
        MovedOn(mine, theirs, c, k, eMax, overwrite);
        c := c + k;
      }
    }
  }

  lemma StoredOne<T>(c: seq<T>, e: T, max: nat, overwrite: bool)
    requires |c| <= max && (overwrite ==> max > 0)
    ensures Stored(c, [e], max, overwrite) == if |c| < max then c + [e] else if overwrite then c[1..] + [e] else c
  {
    if overwrite { assert |c| == max ==> (c + [e])[1..] == c[1..] + [e]; } else { assert [e][..1] == [e]; }
  }

  lemma MovedOn<T>(mine: seq<T>, theirs: seq<T>, c: nat, k: nat, max: nat, overwrite: bool)
    requires |mine| <= max && c + k <= |theirs|
    ensures Stored(Stored(mine, theirs[..c], max, overwrite), theirs[c..][..k], max, overwrite)
      == Stored(mine, theirs[..c + k], max, overwrite)
    ensures theirs[c..][k..] == theirs[c + k..]
  {
    Taken(theirs, c, k);
    StoredConcat(mine, theirs[..c], theirs[c..][..k], max, overwrite);
  }

  lemma StoredNone<T>(c: seq<T>, max: nat, overwrite: bool)
    requires |c| <= max
    ensures Stored(c, [], max, overwrite) == c
  {}

  lemma StoredFull<T>(c: seq<T>, es: seq<T>, k: nat, max: nat)
    requires k <= |es| && |c| + k == max
    ensures Stored(c, es, max, false) == Stored(c, es[..k], max, false)
  {
    assert es[..k][..k] == es[..k];
  }

  lemma Taken<T>(c: seq<T>, k: nat, m: nat)
    requires k + m <= |c|
    ensures c[..k] + c[k..][..m] == c[..k + m] && c[k..][m..] == c[k + m..]
  {}

  /** Only what is stored counts as written. */
  lemma StoredPart<T>(c: seq<T>, es: seq<T>, k: nat, max: nat, overwrite: bool)
    requires |c| <= max && k == (if overwrite then |es| else Min(|es|, max - |c|))
    ensures Stored(c, es, max, overwrite) == Stored(c, es[..k], max, overwrite)
  {
    if overwrite { assert es[..k] == es; } else { assert es[..k][..k] == es[..k]; }
  }

  // ----- the rounds of move -----

  /** Between two rounds of move: the elements of both buffers, the source's read position, and how many
      elements are still to be moved. */
  datatype Moving<T> = Moving(mine: seq<T>, theirs: seq<T>, pos: nat, left: nat) {
    predicate Fits(max: nat, size: nat) {
      |mine| <= max && |theirs| <= size && pos < size
    }

    predicate Ended() {
      left == 0 || theirs == []
    }

    /** How much the round moves: what lies in one piece and finds room. */
    function Amount(max: nat, overwrite: bool, size: nat): (k: nat)
      requires Fits(max, size)
      ensures k <= left && k <= |theirs|
    {
      var piece := Min(|theirs|, Min(size - pos, left));
      if overwrite then piece else Min(piece, max - |mine|)
    }

    function Round(max: nat, overwrite: bool, size: nat): (s: Moving<T>)
      requires Fits(max, size)
      ensures s.Fits(max, size)
    {
      if Ended() then this else
        var k := Amount(max, overwrite, size);
        StoredSize(mine, theirs[..k], max, overwrite);
        Moving(Stored(mine, theirs[..k], max, overwrite), theirs[k..], (pos + k) % size, left - k)
    }

    function Rounds(n: nat, max: nat, overwrite: bool, size: nat): (s: Moving<T>)
      requires Fits(max, size)
      ensures s.Fits(max, size)
    {
      if n == 0 then this else Rounds(n - 1, max, overwrite, size).Round(max, overwrite, size)
    }

    /** The destination overwrites or has room for all that is to come. */
    predicate HasRoom(max: nat, overwrite: bool) {
      overwrite || |mine| + Min(left, |theirs|) <= max
    }
  }

  lemma StoredSize<T>(c: seq<T>, es: seq<T>, max: nat, overwrite: bool)
    requires |c| <= max
    ensures |Stored(c, es, max, overwrite)| <= max
    ensures !overwrite ==> |Stored(c, es, max, overwrite)| == |c| + Min(|es|, max - |c|)
  {}

  /** With room every round moves something and leaves room for the rest; without, there never is any. */
  lemma RoomStays<T>(s: Moving<T>, max: nat, overwrite: bool, size: nat)
    requires s.Fits(max, size) && !s.Ended()
    ensures var s' := s.Round(max, overwrite, size);
      && (s.HasRoom(max, overwrite) <==> s'.HasRoom(max, overwrite))
      && (s.HasRoom(max, overwrite) ==> s'.left < s.left)
  {
    hide Stored;
    var k := s.Amount(max, overwrite, size);
    StoredSize(s.mine, s.theirs[..k], max, overwrite);
  }

  lemma {:induction false} RoundsWithRoom<T>(s: Moving<T>, n: nat, max: nat, overwrite: bool, size: nat)
    requires s.Fits(max, size) && s.HasRoom(max, overwrite)
    ensures var s' := s.Rounds(n, max, overwrite, size);
      s'.HasRoom(max, overwrite) && (s'.Ended() || s'.left + n <= s.left)
  {
    if n > 0 {
      hide Moving.Round, Moving.HasRoom;
      RoundsWithRoom(s, n - 1, max, overwrite, size);
      var s' := s.Rounds(n - 1, max, overwrite, size);
      if s'.Ended() { EndedStays(s', max, overwrite, size); } else { RoomStays(s', max, overwrite, size); }
    }
  }

  lemma EndedStays<T>(s: Moving<T>, max: nat, overwrite: bool, size: nat)
    requires s.Fits(max, size) && s.Ended()
    ensures s.Round(max, overwrite, size) == s
  {}

  lemma {:induction false} RoundsWithoutRoom<T>(s: Moving<T>, n: nat, max: nat, overwrite: bool, size: nat)
    requires s.Fits(max, size) && !s.HasRoom(max, overwrite)
    ensures var s' := s.Rounds(n, max, overwrite, size); !s'.HasRoom(max, overwrite) && !s'.Ended()
  {
    if n > 0 {
      RoundsWithoutRoom(s, n - 1, max, overwrite, size);
      RoomStays(s.Rounds(n - 1, max, overwrite, size), max, overwrite, size);
    }
  }

  /** move comes to an end exactly if the destination overwrites or has room for all that is moved. */
  lemma MoveEndsExactly<T>(s: Moving<T>, max: nat, overwrite: bool, size: nat)
    requires s.Fits(max, size)
    ensures (exists n: nat :: s.Rounds(n, max, overwrite, size).Ended()) <==> s.HasRoom(max, overwrite)
  {
    if s.HasRoom(max, overwrite) {
      RoundsWithRoom(s, s.left, max, overwrite, size);
      assert s.Rounds(s.left, max, overwrite, size).Ended();
    } else {
      forall n: nat ensures !s.Rounds(n, max, overwrite, size).Ended() {
        RoundsWithoutRoom(s, n, max, overwrite, size);
      }
    }
  }

  lemma FullStays<T>(s: Moving<T>, max: nat, size: nat)
    requires s.Fits(max, size) && |s.mine| == max
    ensures s.Round(max, false, size) == s
  {
    if !s.Ended() {
      StoredNone(s.mine, max, false);
      assert s.theirs[..0] == [] && s.theirs[0..] == s.theirs;
    }
  }

  lemma {:induction false} FillsUp<T>(s: Moving<T>, n: nat, max: nat, size: nat)
    requires s.Fits(max, size) && !s.HasRoom(max, false)
    ensures |s.Rounds(n, max, false, size).mine| >= Min(|s.mine| + n, max)
  {
    if n > 0 {
      FillsUp(s, n - 1, max, size);
      RoundsWithoutRoom(s, n - 1, max, false, size);
      var s' := s.Rounds(n - 1, max, false, size);
      StoredSize(s'.mine, s'.theirs[..s'.Amount(max, false, size)], max, false);
    }
  }

  /** Without room, move reaches a full destination, and then every further round leaves everything as it
      is, with elements still to be moved. */
  lemma {:induction false} MoveGetsStuck<T>(s: Moving<T>, n: nat, max: nat, size: nat)
    requires s.Fits(max, size) && !s.HasRoom(max, false) && n >= max - |s.mine|
    ensures var full := s.Rounds(max - |s.mine|, max, false, size);
      |full.mine| == max && !full.Ended() && s.Rounds(n, max, false, size) == full
    decreases n
  {
    var k := max - |s.mine|;
    FillsUp(s, k, max, size);
    RoundsWithoutRoom(s, k, max, false, size);
    if n > k {
      MoveGetsStuck(s, n - 1, max, size);
      FullStays(s.Rounds(n - 1, max, false, size), max, size);
    }
  }

  // ----- whole runs -----

  datatype Op<T> = Put(e: T) | Take

  /** What a buffer holds, everything it accepted, the position behind the last element read and
      everything read. */
  datatype History<T> = History(held: seq<T>, written: seq<T>, cursor: nat, taken: seq<T>)

  function Step<T>(h: History<T>, op: Op<T>, max: nat, overwrite: bool): History<T>
    requires |h.held| <= max && |h.held| <= |h.written|
  {
    match op
    case Put(e) =>
      if !overwrite && |h.held| >= max then h
      else h.(held := Stored(h.held, [e], max, overwrite), written := h.written + [e])
    case Take =>
      if h.held == [] then h
      else History(h.held[1..], h.written, |h.written| - |h.held| + 1, h.taken + [h.held[0]])
  }

  /** The buffer holds the end of what was written, as much as there is behind the cursor and fits;
      without overwriting, the rest was read. */
  ghost predicate Holds<T>(h: History<T>, max: nat, overwrite: bool) {
    && h.cursor <= |h.written| && |h.held| == Min(|h.written| - h.cursor, max)
    && h.held == h.written[|h.written| - |h.held|..]
    && (!overwrite ==> h.taken == h.written[..|h.written| - |h.held|] && |h.taken| == h.cursor)
  }

  function Run<T>(ops: seq<Op<T>>, max: nat, overwrite: bool): (h: History<T>)
    ensures |h.held| <= max && |h.held| <= |h.written|
  {
    if ops == [] then History([], [], 0, [])
    else Step(Run(ops[..|ops| - 1], max, overwrite), ops[|ops| - 1], max, overwrite)
  }

  lemma PutHolds<T>(h: History<T>, e: T, max: nat, overwrite: bool)
    requires Holds(h, max, overwrite) && (overwrite ==> max > 0)
    ensures Holds(Step(h, Put(e), max, overwrite), max, overwrite)
  {
    hide Last, Stored;
    var w, n := h.written, |h.written| - |h.held|;
    StoredOne(h.held, e, max, overwrite);
    assert (w + [e])[n..] == h.held + [e] && (w + [e])[..n] == w[..n];
    if |h.held| > 0 { assert (w + [e])[n + 1..] == h.held[1..] + [e]; }
  }

  lemma TakeHolds<T>(h: History<T>, max: nat, overwrite: bool)
    requires Holds(h, max, overwrite)
    ensures Holds(Step(h, Take, max, overwrite), max, overwrite)
  {
    hide Last, Stored;
    if h.held != [] {
      var w, n := h.written, |h.written| - |h.held|;
      assert w[n] == h.held[0] && w[n + 1..] == h.held[1..] && w[..n + 1] == w[..n] + [w[n]];
    }
  }

  lemma StepHolds<T>(h: History<T>, op: Op<T>, max: nat, overwrite: bool)
    requires Holds(h, max, overwrite) && (overwrite ==> max > 0)
    ensures Holds(Step(h, op, max, overwrite), max, overwrite)
  {
    if op.Put? { PutHolds(h, op.e, max, overwrite); } else { TakeHolds(h, max, overwrite); }
  }

  lemma {:induction false} RunHolds<T>(ops: seq<Op<T>>, max: nat, overwrite: bool)
    requires overwrite ==> max > 0
    ensures Holds(Run(ops, max, overwrite), max, overwrite)
    decreases |ops|
  {
    hide Step, Holds;
    if ops == [] {
      NothingHolds<T>(max, overwrite);
    } else {
      RunHolds(ops[..|ops| - 1], max, overwrite);
      StepHolds(Run(ops[..|ops| - 1], max, overwrite), ops[|ops| - 1], max, overwrite);
    }
  }

  lemma NothingHolds<T>(max: nat, overwrite: bool)
    ensures Holds<T>(History([], [], 0, []), max, overwrite)
  {}

  /** In every run the buffer holds exactly the last `max` of the elements written behind the last one
      read; without overwriting, what was read and what is held is all that was accepted, in order. */
  lemma RunKeepsLast<T>(ops: seq<Op<T>>, max: nat, overwrite: bool)
    requires overwrite ==> max > 0
    ensures var h := Run(ops, max, overwrite);
      && h.cursor <= |h.written| && h.held == Last(h.written[h.cursor..], max)
      && (!overwrite ==> h.taken + h.held == h.written)
  {
    hide Run;
    RunHolds(ops, max, overwrite);
    var h := Run(ops, max, overwrite);
    var n := |h.written| - |h.held|;
    assert h.written[h.cursor..][n - h.cursor..] == h.written[n..];
    assert h.written[..n] + h.written[n..] == h.written;
  }
}
