/**
 Least-recently-used exactness of the block cache: after any run from the empty cache, the
 cached numbers are the `capacity` most recently requested distinct ones, in that order.
 Consequently a held block is never evicted while fewer than `capacity` distinct other
 blocks have been requested since it was.
 */
module LruOrder {
  import opened LruModel

  function Numbers(used: seq<Entry>): (r: seq<nat>)
    ensures |r| == |used| && forall i | 0 <= i < |r| :: r[i] == used[i].no
  {
    seq(|used|, i requires 0 <= i < |used| => used[i].no)
  }

  function Without(s: seq<nat>, b: nat): seq<nat> {
    if s == [] then [] else if s[0] == b then Without(s[1..], b) else [s[0]] + Without(s[1..], b)
  }

  /** The distinct numbers of `hist`, most recently requested first. */
  function Recent(hist: seq<nat>): seq<nat> {
    if hist == [] then [] else
      var b := hist[|hist| - 1];
      [b] + Without(Recent(hist[..|hist| - 1]), b)
  }

  /** The numbers requested after the last request of `b`. */
  function Since(hist: seq<nat>, b: nat): set<nat> {
    if hist == [] then {} else
      var last := hist[|hist| - 1];
      if last == b then {} else {last} + Since(hist[..|hist| - 1], b)
  }

  function Prefix(s: seq<nat>, n: nat): seq<nat> {
    if |s| <= n then s else s[..n]
  }

  predicate NoDuplicates(s: seq<nat>) {
    forall i, j | 0 <= i < j < |s| :: s[i] != s[j]
  }

  ghost predicate InLruOrder(r: Run) {
    Numbers(r.cache.used) == Prefix(Recent(r.hist), r.cache.capacity)
  }

  // ----- the recency list -----

  lemma {:induction false} WithoutAbsent(s: seq<nat>, b: nat)
    requires b !in s
    ensures Without(s, b) == s
  {
    if s != [] { WithoutAbsent(s[1..], b); }
  }

  lemma {:induction false} WithoutAt(s: seq<nat>, k: nat)
    requires NoDuplicates(s) && k < |s|
    ensures Without(s, s[k]) == s[..k] + s[k + 1..]
  {
    if k == 0 {
      WithoutAbsent(s[1..], s[0]);
    } else {
      WithoutAt(s[1..], k - 1);
      assert s[1..][..k - 1] == s[1..k];
      assert [s[0]] + s[1..k] == s[..k];
    }
  }

  lemma {:induction false} WithoutMembers(s: seq<nat>, b: nat, x: nat)
    ensures x in Without(s, b) <==> x in s && x != b
  {
    if s != [] { WithoutMembers(s[1..], b, x); }
  }

  lemma WithoutKeeps(s: seq<nat>, b: nat)
    requires NoDuplicates(s)
    ensures NoDuplicates([b] + Without(s, b))
    ensures forall x :: x in [b] + Without(s, b) <==> x == b || x in s
  {
    forall x ensures x in Without(s, b) <==> x in s && x != b { WithoutMembers(s, b, x); }
    if b in s {
      var k :| 0 <= k < |s| && s[k] == b;
      WithoutAt(s, k);
    } else {
      WithoutAbsent(s, b);
    }
  }

  lemma {:induction false} RecentShape(hist: seq<nat>)
    ensures NoDuplicates(Recent(hist))
    ensures forall x :: x in Recent(hist) <==> x in hist
  {
    if hist != [] {
      var h, b := hist[..|hist| - 1], hist[|hist| - 1];
      RecentShape(h);
      WithoutKeeps(Recent(h), b);
      assert hist == h + [b];
    }
  }

  function Elems(s: seq<nat>): set<nat> {
    set x | x in s
  }

  /** `b` stands in the recency list right behind exactly the numbers requested since. */
  lemma {:induction false} RecentPosition(hist: seq<nat>, b: nat)
    requires b in hist
    ensures |Since(hist, b)| < |Recent(hist)| && Recent(hist)[|Since(hist, b)|] == b
    ensures Since(hist, b) == Elems(Recent(hist)[..|Since(hist, b)|])
  {
    var h, last := hist[..|hist| - 1], hist[|hist| - 1];
    assert hist == h + [last];
    if last != b {
      RecentPosition(h, b);
      RecentShape(h);
      BumpedPosition(Recent(h), last, |Since(h, b)|);
    }
  }

  /** Position `k` of `s` after `b` is moved, or newly put, to the front. */
  lemma BumpedPosition(s: seq<nat>, b: nat, k: nat)
    requires NoDuplicates(s) && k < |s| && s[k] != b && |Elems(s[..k])| == k
    ensures var t := [b] + Without(s, b);
      var before := {b} + Elems(s[..k]);
      |before| < |t| && t[|before|] == s[k] && before == Elems(t[..|before|])
  {
    hide Without, NoDuplicates;
    if b in s {
      var m :| 0 <= m < |s| && s[m] == b;
      WithoutAt(s, m);
      MovedBefore(s, m, k);
    } else {
      WithoutAbsent(s, b);
      PutBefore(s, b, k);
    }
  }

  lemma PutBefore(s: seq<nat>, b: nat, k: nat)
    requires k < |s| && b !in s && |Elems(s[..k])| == k
    ensures var t := [b] + s;
      var before := {b} + Elems(s[..k]);
      |before| < |t| && t[|before|] == s[k] && before == Elems(t[..|before|])
  {
    assert b !in s[..k];
    assert ([b] + s)[..k + 1] == [b] + s[..k];
  }

  lemma MovedBefore(s: seq<nat>, m: nat, k: nat)
    requires NoDuplicates(s) && m < |s| && k < |s| && m != k && |Elems(s[..k])| == k
    ensures var t := [s[m]] + (s[..m] + s[m + 1..]);
      var before := {s[m]} + Elems(s[..k]);
      |before| < |t| && t[|before|] == s[k] && before == Elems(t[..|before|])
  {
    var t := [s[m]] + (s[..m] + s[m + 1..]);
    if m < k {
      MovedFromLeft(s, m, k);
    } else {
      assert s[m] !in s[..k];
      assert t[..k + 1] == [s[m]] + s[..k];
    }
  }

  lemma MovedFromLeft(s: seq<nat>, m: nat, k: nat)
    requires m < k <= |s|
    ensures {s[m]} + Elems(s[..k]) == Elems(s[..k])
    ensures Elems(([s[m]] + (s[..m] + s[m + 1..]))[..k]) == Elems(s[..k])
  {
    assert s[..k][m] == s[m];
    assert s[..k] == s[..m] + [s[m]] + s[m + 1..k];
    assert ([s[m]] + (s[..m] + s[m + 1..]))[..k] == [s[m]] + s[..m] + s[m + 1..k];
  }

  // ----- one request -----

  /** What a request does to the numbers of the used list. */
  function Bumped(s: seq<nat>, b: nat, capacity: nat): seq<nat>
    requires capacity > 0
  {
    Prefix([b] + Without(s, b), capacity)
  }

  lemma BumpedPrefix(s: seq<nat>, b: nat, capacity: nat)
    requires capacity > 0 && NoDuplicates(s)
    ensures Bumped(Prefix(s, capacity), b, capacity) == Bumped(s, b, capacity)
  {
    if |s| > capacity {
      var p := s[..capacity];
      if b in p {
        BumpedInside(s, b, capacity);
      } else {
        WithoutAbsent(p, b);
        WithoutPrefix(s, b, capacity);
        assert ([b] + Without(s, b))[..capacity] == [b] + Without(s, b)[..capacity - 1];
      }
    }
  }

  lemma BumpedInside(s: seq<nat>, b: nat, capacity: nat)
    requires 0 < capacity < |s| && NoDuplicates(s) && b in s[..capacity]
    ensures Bumped(s[..capacity], b, capacity) == Bumped(s, b, capacity)
  {
    hide Without, NoDuplicates;
    var p := s[..capacity];
    var k :| 0 <= k < |p| && p[k] == b;
    PrefixDistinct(s, capacity);
    WithoutAt(p, k);
    WithoutAt(s, k);
    var x, y := p[..k] + p[k + 1..], s[..k] + s[k + 1..];
    assert x == y[..capacity - 1];
    assert ([b] + y)[..capacity] == [b] + y[..capacity - 1];
  }

  lemma PrefixDistinct(s: seq<nat>, n: nat)
    requires NoDuplicates(s) && n <= |s|
    ensures NoDuplicates(s[..n])
  {}

  lemma WithoutPrefix(s: seq<nat>, b: nat, n: nat)
    requires n < |s| && NoDuplicates(s) && b !in s[..n]
    ensures |Without(s, b)| >= n && Without(s, b)[..n] == s[..n]
  {
    if b in s {
      var k :| 0 <= k < |s| && s[k] == b;
      assert forall i | 0 <= i < n :: s[i] in s[..n];
      WithoutAt(s, k);
    } else {
      WithoutAbsent(s, b);
    }
  }

  lemma HitBumps(c: Cache, no: nat)
    requires Shape(c) && Cached(c, no)
    ensures Numbers(Hit(c, no).used) == Bumped(Numbers(c.used), no, c.capacity)
  {
    hide Without, Distinct, ToFront, Total, NoDuplicates;
    var k, n := Find(c.used, no), Numbers(c.used);
    DistinctNumbers(c.used);
    WithoutAt(n, k);
    var t := [n[k]] + (n[..k] + n[k + 1..]);
    forall i | 0 <= i < |n| ensures Hit(c, no).used[i].no == t[i] {
      ToFrontAt(c.used, k, i);
    }
    assert Numbers(Hit(c, no).used) == t;
  }

  lemma DistinctNumbers(used: seq<Entry>)
    requires Distinct(used)
    ensures NoDuplicates(Numbers(used))
  {
    forall i, j | 0 <= i < j < |used| ensures used[i].no != used[j].no {
      assert Find(used, used[i].no) == i && Find(used, used[j].no) == j;
    }
  }

  lemma MissBumps(c: Cache, no: nat)
    requires Shape(c) && !Cached(c, no)
    ensures Numbers(Admitted(c, no).used) == Bumped(Numbers(c.used), no, c.capacity)
  {
    WithoutAbsent(Numbers(c.used), no);
  }

  lemma StepBumps(r: Run, op: Op)
    requires Inv(r) && Legal(r, op)
    ensures Next(r, op).cache.capacity == r.cache.capacity
    ensures Numbers(Next(r, op).cache.used) ==
      if op.Request? || op.Create? then Bumped(Numbers(r.cache.used), op.no, r.cache.capacity)
      else Numbers(r.cache.used)
  {
    if op.Request? || op.Create? {
      if Cached(r.cache, op.no) { HitBumps(r.cache, op.no); } else { MissBumps(r.cache, op.no); }
    }
  }

  lemma StepKeepsOrder(r: Run, op: Op)
    requires Inv(r) && Legal(r, op) && InLruOrder(r)
    ensures InLruOrder(Next(r, op))
  {
    StepBumps(r, op);
    if op.Request? || op.Create? {
      RecentShape(r.hist);
      BumpedPrefix(Recent(r.hist), op.no, r.cache.capacity);
      assert (r.hist + [op.no])[..|r.hist|] == r.hist;
    }
  }

  // ----- whole runs -----

  predicate Empty(r: Run) {
    r.cache.used == [] && r.hist == []
  }

  lemma {:induction false} RunKeepsOrder(rs: seq<Run>, ops: seq<Op>)
    requires Trace(rs, ops) && Inv(rs[0]) && InLruOrder(rs[0])
    ensures Inv(rs[|ops|]) && InLruOrder(rs[|ops|])
  {
    if ops != [] {
      var n := |ops| - 1;
      assert Trace(rs[..n + 1], ops[..n]);
      RunKeepsOrder(rs[..n + 1], ops[..n]);
      StepTransparent(rs[n], ops[n]);
      StepKeepsOrder(rs[n], ops[n]);
    }
  }

  lemma CachedIffRecent(r: Run, b: nat)
    requires Inv(r) && InLruOrder(r)
    ensures Cached(r.cache, b) <==> b in r.hist && |Since(r.hist, b)| < r.cache.capacity
    ensures Cached(r.cache, b) ==> Find(r.cache.used, b) == |Since(r.hist, b)|
  {
    var n, i := Numbers(r.cache.used), Find(r.cache.used, b);
    RecentShape(r.hist);
    assert i < |n| ==> Recent(r.hist)[i] == b;
    if b in r.hist {
      RecentPosition(r.hist, b);
      var k := |Since(r.hist, b)|;
      if k < |n| {
        assert n[k] == b;
        assert Find(r.cache.used, r.cache.used[k].no) == k;
      }
    }
  }

  /** LRU exactness: after every legal run from an empty cache, a block is cached exactly when it
      was requested and fewer than `capacity` distinct blocks were requested since; its place in
      the used list is that number. */
  lemma LruExact(rs: seq<Run>, ops: seq<Op>, b: nat)
    requires Trace(rs, ops) && Inv(rs[0]) && Empty(rs[0])
    ensures var r := rs[|ops|];
      && (Cached(r.cache, b) <==> b in r.hist && |Since(r.hist, b)| < r.cache.capacity)
      && (Cached(r.cache, b) ==> Find(r.cache.used, b) == |Since(r.hist, b)|)
  {
    RunKeepsOrder(rs, ops);
    CachedIffRecent(rs[|ops|], b);
  }

  lemma SinceNext(hist: seq<nat>, no: nat, b: nat)
    requires b != no
    ensures Since(hist + [no], b) == {no} + Since(hist, b)
  {
    assert (hist + [no])[..|hist|] == hist;
  }

  /** What was requested since a cached number is what stands before it. */
  lemma SinceBefore(r: Run, no: nat, i: nat)
    requires Inv(r) && InLruOrder(r) && !Cached(r.cache, no) && i < |r.cache.used|
    ensures var s := Since(r.hist, r.cache.used[i].no); |s| == i && no !in s
  {
    hide Recent, Since, Elems;
    var b := r.cache.used[i].no;
    assert Find(r.cache.used, b) == i;
    CachedIffRecent(r, b);
    RecentPosition(r.hist, b);
    assert Recent(r.hist)[..i] == Numbers(r.cache.used)[..i];
    NotAmong(r.cache.used, no, i);
  }

  /** Requesting a number that is not cached puts every cached one a place further back. */
  lemma OneFurther(r: Run, no: nat, i: nat)
    requires Inv(r) && InLruOrder(r) && !Cached(r.cache, no) && i < |r.cache.used|
    ensures |Since(r.hist + [no], r.cache.used[i].no)| == i + 1
  {
    hide Since, Inv, InLruOrder;
    SinceBefore(r, no, i);
    SinceNext(r.hist, no, r.cache.used[i].no);
  }

  lemma NotAmong(used: seq<Entry>, no: nat, i: nat)
    requires Find(used, no) == |used| && i <= |used|
    ensures no !in Elems(Numbers(used)[..i])
  {}

  /** getBlock's assertion that the victim is not held passes exactly if every held block was requested
      recently enough: fewer than capacity distinct blocks since, counting the one now asked for. */
  lemma HeldIsNeverEvicted(r: Run, no: nat)
    requires Inv(r) && InLruOrder(r) && !Cached(r.cache, no)
    ensures Admissible(r.cache, no, true) <==>
      forall i | 0 <= i < |r.cache.used| && r.cache.used[i].refs > 0 ::
        |Since(r.hist + [no], r.cache.used[i].no)| < r.cache.capacity
  {
    hide Since, Distinct, InLruOrder;
    forall i | 0 <= i < |r.cache.used| ensures |Since(r.hist + [no], r.cache.used[i].no)| == i + 1 {
      OneFurther(r, no, i);
    }
  }

  /** A run in which it fails: in a cache of two entries blocks 1 and 2 are held and 3 is asked for. */
  lemma HeldIsEvicted(a: Block, b: Block, disk: imap<nat, Block>) returns (rs: seq<Run>, ops: seq<Op>)
    requires Total(disk)
    ensures Trace(rs, ops) && Inv(rs[0]) && Empty(rs[0])
    ensures Inv(rs[|ops|]) && !Admissible(rs[|ops|].cache, 3, false)
  {
    var c := Cache(2, [], [a, b], disk);
    var r0 := Run(c, {}, []);
    var r1 := Next(r0, Request(1, false));
    var r2 := Next(r1, Request(2, false));
    rs, ops := [r0, r1, r2], [Request(1, false), Request(2, false)];
  }
}
