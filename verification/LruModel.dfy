/**
 The value-level specification of the block cache: a recency-ordered list of entries in
 front of a disk.  The pointer structure in BlockCache.dfy refines `Requested`, `Created`,
 `Flushed` and the other functions here; this module proves what whole runs of those
 functions guarantee, namely that the cache is invisible and that it is exactly LRU.
 */
module LruModel {
  import opened Bytes

  type Block = seq<byte>

  datatype Entry = Entry(no: nat, data: Block, dirty: bool, refs: nat)

  /** `used` runs from the newest to the oldest entry; `spare` holds the stale buffers of
      the free list, in free-list order. */
  datatype Cache = Cache(capacity: nat, used: seq<Entry>, spare: seq<Block>, disk: imap<nat, Block>)

  // ----- the operations -----

  function Find(used: seq<Entry>, no: nat): (i: nat)
    ensures i <= |used|
    ensures i < |used| ==> used[i].no == no
    ensures forall j | 0 <= j < i :: used[j].no != no
  {
    if used == [] || used[0].no == no then 0 else 1 + Find(used[1..], no)
  }

  predicate Cached(c: Cache, no: nat) {
    Find(c.used, no) < |c.used|
  }

  function ToFront<T>(s: seq<T>, i: nat): (r: seq<T>)
    requires i < |s|
    ensures |r| == |s|
  {
    [s[i]] + s[..i] + s[i + 1..]
  }

  ghost predicate Total(disk: imap<nat, Block>) {
    forall b: nat :: b in disk
  }

  /** The cache has entries, and every one is either used or spare. */
  predicate Sized(c: Cache) {
    c.capacity >= 2 && |c.used| + |c.spare| == c.capacity
  }

  function WriteBack(disk: imap<nat, Block>, e: Entry): imap<nat, Block> {
    if e.dirty then disk[e.no := e.data] else disk
  }

  /** Takes a spare entry, or else the oldest used one (written back first if dirty), renumbers
      it and puts it in front.  Its buffer still has the stale contents. */
  function Admitted(c: Cache, no: nat): (r: Cache)
    requires Sized(c)
    ensures Sized(r) && |r.used| > 0
  {
    if |c.spare| > 0 then
      c.(used := [Entry(no, c.spare[0], false, 0)] + c.used, spare := c.spare[1..])
    else
      var victim := c.used[|c.used| - 1];
      c.(used := [Entry(no, victim.data, false, 0)] + c.used[..|c.used| - 1],
         disk := WriteBack(c.disk, victim))
  }

  function Hit(c: Cache, no: nat): (r: Cache)
    requires Cached(c, no)
    ensures |r.used| == |c.used|
  {
    var front := ToFront(c.used, Find(c.used, no));
    c.(used := front[0 := front[0].(refs := front[0].refs + 1)])
  }

  /** The admitted front entry with `data` in its buffer and one reference. */
  function Filled(a: Cache, data: Block): (r: Cache)
    requires |a.used| > 0
    ensures |r.used| == |a.used|
  {
    a.(used := a.used[0 := a.used[0].(data := data, refs := 1)])
  }

  function Requested(c: Cache, no: nat): (r: Cache)
    requires Sized(c)
    requires no in Admitted(c, no).disk
    ensures Sized(r) && |r.used| > 0
  {
    if Cached(c, no) then Hit(c, no) else
      var a := Admitted(c, no); Filled(a, a.disk[no])
  }

  /** A failed read renumbers the admitted entry to 0 and drops the reference; it stays linked. */
  function ReadFailed(c: Cache, no: nat): (r: Cache)
    requires Sized(c)
    ensures Sized(r) && |r.used| > 0
  {
    var a := Admitted(c, no); a.(used := a.used[0 := a.used[0].(no := 0)])
  }

  function Created(c: Cache, no: nat): (r: Cache)
    requires Sized(c)
    ensures Sized(r) && |r.used| > 0
  {
    if Cached(c, no) then Hit(c, no) else
      var a := Admitted(c, no); Filled(a, a.used[0].data)
  }

  function Updated(c: Cache, e: Entry): (r: Cache)
    requires Cached(c, e.no)
    ensures |r.used| == |c.used|
  {
    c.(used := c.used[Find(c.used, e.no) := e])
  }

  function EntryOf(c: Cache, no: nat): (e: Entry)
    requires Cached(c, no)
    ensures e.no == no && e in c.used
  {
    c.used[Find(c.used, no)]
  }

  function FlushedDisk(used: seq<Entry>, disk: imap<nat, Block>): imap<nat, Block> {
    if used == [] then disk else FlushedDisk(used[1..], WriteBack(disk, used[0]))
  }

  lemma FlushOne(e: seq<Entry>, i: nat, disk: imap<nat, Block>)
    requires i < |e|
    ensures FlushedDisk(e[i..], disk) == FlushedDisk(e[i + 1..], WriteBack(disk, e[i]))
  {
    assert e[i..][1..] == e[i + 1..];
  }

  lemma FlushNone(disk: imap<nat, Block>)
    ensures FlushedDisk([], disk) == disk
  {}

  lemma TotalWriteBack(disk: imap<nat, Block>, e: Entry)
    requires Total(disk)
    ensures Total(WriteBack(disk, e))
  {}

  function Cleaned(used: seq<Entry>): (r: seq<Entry>)
    ensures |r| == |used|
    ensures forall i | 0 <= i < |r| :: r[i] == used[i].(dirty := false)
  {
    seq(|used|, i requires 0 <= i < |used| => used[i].(dirty := false))
  }

  function Flushed(c: Cache): Cache {
    c.(used := Cleaned(c.used), disk := FlushedDisk(c.used, c.disk))
  }

  lemma HitIs(c: Cache, no: nat)
    requires Cached(c, no)
    ensures var front := ToFront(c.used, Find(c.used, no));
      Hit(c, no) == c.(used := front[0 := front[0].(refs := front[0].refs + 1)])
  {}

  /** A miss that finds room: the admitted entry is filled, or keeps its stale buffer, and is acquired. */
  lemma LoadedIs(c: Cache, no: nat, read: bool, a: Cache, r: Cache)
    requires Sized(c) && !Cached(c, no) && a == Admitted(c, no) && no in a.disk
    requires r == a.(used := a.used[0 := a.used[0].(data := if read then a.disk[no] else a.used[0].data, refs := 1)])
    ensures r == if read then Requested(c, no) else Created(c, no)
  {}

  // ----- client operations and runs -----

  /** `Create` is create() followed by filling the whole buffer, as its callers do. */
  datatype Op =
    | Request(no: nat, write: bool)
    | Create(no: nat, fill: Block)
    | Modify(no: nat, data: Block)
    | MarkDirty(no: nat)
    | Release(no: nat)
    | Flush

  /** `touched` holds the cached blocks whose buffer a client changed since it last agreed with
      the disk; `hist` is every block number requested or created so far. */
  datatype Run = Run(cache: Cache, touched: set<nat>, hist: seq<nat>)

  /** Every number is found at its own position, so no two entries share one. */
  ghost predicate Distinct(used: seq<Entry>) {
    forall i | 0 <= i < |used| :: Find(used, used[i].no) == i
  }

  ghost predicate Shape(c: Cache) {
    Sized(c) && Total(c.disk) && Distinct(c.used)
  }

  /** No cached entry may lose a change: it is dirty, or equals the disk, or a client still holds it. */
  ghost predicate Safe(e: Entry, disk: imap<nat, Block>, touched: set<nat>)
    requires Total(disk)
  {
    e.dirty || e.data == disk[e.no] || (e.no in touched && e.refs > 0)
  }

  ghost predicate Inv(r: Run) {
    && Shape(r.cache)
    && forall i | 0 <= i < |r.cache.used| :: Safe(r.cache.used[i], r.cache.disk, r.touched)
  }

  /** The assertions of getBlock and acquire (blockcache.cc:173 and :78) for a request of `no`. */
  predicate Admissible(c: Cache, no: nat, write: bool)
    requires Sized(c)
  {
    if Cached(c, no) then write ==> EntryOf(c, no).refs == 0
    else |c.spare| > 0 || c.used[|c.used| - 1].refs == 0
  }

  /** What a client owes: hold what it changes, and call markDirty before the last release. */
  predicate Legal(r: Run, op: Op)
    requires Sized(r.cache)
  {
    match op
    case Request(no, write) => Admissible(r.cache, no, write)
    case Create(no, _) => Admissible(r.cache, no, true)
    case Modify(no, _) => Cached(r.cache, no) && EntryOf(r.cache, no).refs > 0
    case MarkDirty(no) => Cached(r.cache, no) && EntryOf(r.cache, no).refs > 0
    case Release(no) =>
      && Cached(r.cache, no)
      && var e := EntryOf(r.cache, no);
         e.refs > 0 && (e.refs == 1 && no in r.touched ==> e.dirty)
    case Flush => true
  }

  ghost function StepCache(c: Cache, op: Op): Cache
    requires Shape(c)
    requires op.Modify? || op.MarkDirty? || op.Release? ==> Cached(c, op.no)
    requires op.Release? ==> EntryOf(c, op.no).refs > 0
  {
    match op
    case Request(no, _) => Requested(c, no)
    case Create(no, fill) =>
      var r := Created(c, no);
      r.(used := r.used[0 := r.used[0].(data := fill)])
    case Modify(no, data) => Updated(c, EntryOf(c, no).(data := data))
    case MarkDirty(no) => Updated(c, EntryOf(c, no).(dirty := true))
    case Release(no) => Updated(c, EntryOf(c, no).(refs := EntryOf(c, no).refs - 1))
    case Flush => Flushed(c)
  }

  ghost function Next(r: Run, op: Op): Run
    requires Shape(r.cache) && Legal(r, op)
  {
    var c := StepCache(r.cache, op);
    var t := match op
      case Create(no, _) => r.touched + {no}
      case Modify(no, _) => r.touched + {no}
      case Flush => StillUnmarked(r)
      case _ => r.touched;
    Run(c, set b | b in t && Cached(c, b),
        if op.Request? || op.Create? then r.hist + [op.no] else r.hist)
  }

  /** What block `b` holds: the buffer if cached, else the disk. */
  ghost function Contents(c: Cache, b: nat): Block
    requires Total(c.disk)
  {
    if Cached(c, b) then EntryOf(c, b).data else c.disk[b]
  }

  ghost function View(c: Cache): imap<nat, Block>
    requires Total(c.disk)
  {
    imap b: nat :: Contents(c, b)
  }

  /** The same client operation on a plain array of blocks. */
  ghost function Plain(m: imap<nat, Block>, op: Op): imap<nat, Block> {
    match op
    case Create(no, fill) => m[no := fill]
    case Modify(no, data) => m[no := data]
    case _ => m
  }

  // ----- lookup -----

  lemma FindIs(used: seq<Entry>, b: nat, i: nat)
    requires i <= |used| && (i < |used| ==> used[i].no == b)
    requires forall j | 0 <= j < i :: used[j].no != b
    ensures Find(used, b) == i
  {}

  lemma SameNumbers(u: seq<Entry>, u': seq<Entry>, b: nat)
    requires |u| == |u'| && forall i | 0 <= i < |u| :: u'[i].no == u[i].no
    ensures Find(u', b) == Find(u, b)
  {
    FindIs(u', b, Find(u, b));
  }

  lemma SameNumbersDistinct(u: seq<Entry>, u': seq<Entry>)
    requires |u| == |u'| && Distinct(u) && forall i | 0 <= i < |u| :: u'[i].no == u[i].no
    ensures Distinct(u')
  {
    forall i | 0 <= i < |u'| ensures Find(u', u'[i].no) == i {
      SameNumbers(u, u', u'[i].no);
    }
  }

  /** A list stays distinct under a new first number exactly when the rest does not have it. */
  lemma RenumberedDistinct(u: seq<Entry>, e: Entry)
    requires Distinct(u) && u != []
    ensures Distinct(u[0 := e]) <==> Find(u[1..], e.no) == |u| - 1
  {
    var u' := u[0 := e];
    if Find(u[1..], e.no) == |u| - 1 {
      forall i | 0 <= i < |u'| ensures Find(u', u'[i].no) == i {
        if i > 0 {
          assert u[i] == u[1..][i - 1];
          forall j | 0 <= j < i ensures u'[j].no != u'[i].no {
            assert Find(u, u[i].no) == i;
          }
          FindIs(u', u'[i].no, i);
        }
      }
    } else {
      var k := Find(u[1..], e.no);
      assert u'[k + 1] == u[1..][k];
      assert Find(u', u'[k + 1].no) == 0;
    }
  }

  // ----- moving an entry to the front -----

  lemma ToFrontAt<T>(s: seq<T>, k: nat, i: nat)
    requires k < |s| && i < |s|
    ensures ToFront(s, k)[i] == if i == 0 then s[k] else if i <= k then s[i - 1] else s[i]
  {}

  lemma FindToFront(u: seq<Entry>, k: nat, b: nat)
    requires Distinct(u) && k < |u|
    ensures var i := Find(u, b);
      Find(ToFront(u, k), b) ==
        if i == |u| then |u| else if i == k then 0 else if i < k then i + 1 else i
  {
    hide ToFront;
    var i := Find(u, b);
    var i' := if i == |u| then |u| else if i == k then 0 else if i < k then i + 1 else i;
    if i < |u| { ToFrontAt(u, k, i'); }
    forall j | 0 <= j < i' ensures ToFront(u, k)[j].no != b {
      ToFrontAt(u, k, j);
      var j0 := if j == 0 then k else if j <= k then j - 1 else j;
      assert u[j0] == ToFront(u, k)[j] && Find(u, u[j0].no) == j0;
    }
    FindIs(ToFront(u, k), b, i');
  }

  lemma ToFrontDistinct(u: seq<Entry>, k: nat)
    requires Distinct(u) && k < |u|
    ensures Distinct(ToFront(u, k))
  {
    forall i | 0 <= i < |u| ensures Find(ToFront(u, k), ToFront(u, k)[i].no) == i {
      ToFrontAt(u, k, i);
      FindToFront(u, k, ToFront(u, k)[i].no);
    }
  }

  lemma HitContents(c: Cache, no: nat, b: nat)
    requires Shape(c) && Cached(c, no)
    ensures Contents(Hit(c, no), b) == Contents(c, b)
    ensures Cached(Hit(c, no), b) <==> Cached(c, b)
  {
    var k := Find(c.used, no);
    FindToFront(c.used, k, b);
    SameNumbers(ToFront(c.used, k), Hit(c, no).used, b);
    if Cached(c, b) { ToFrontAt(c.used, k, Find(ToFront(c.used, k), b)); }
  }

  lemma HitDistinct(c: Cache, no: nat)
    requires Distinct(c.used) && Cached(c, no)
    ensures Distinct(Hit(c, no).used)
  {
    var k := Find(c.used, no);
    ToFrontDistinct(c.used, k);
    SameNumbersDistinct(ToFront(c.used, k), Hit(c, no).used);
  }

  lemma HitKeeps(r: Run, no: nat)
    requires Inv(r) && Cached(r.cache, no)
    ensures Inv(r.(cache := Hit(r.cache, no)))
    ensures View(Hit(r.cache, no)) == View(r.cache)
  {
    var c, c' := r.cache, Hit(r.cache, no);
    var k := Find(c.used, no);
    HitDistinct(c, no);
    forall i | 0 <= i < |c'.used| ensures Safe(c'.used[i], c'.disk, r.touched) {
      ToFrontAt(c.used, k, i);
    }
    forall b: nat ensures Contents(c', b) == Contents(c, b) { HitContents(c, no, b); }
  }

  // ----- admitting a block in front, over the oldest one if need be -----

  lemma FindPushed(u: seq<Entry>, n: nat, e: Entry, b: nat)
    requires Distinct(u) && n <= |u|
    ensures var i := Find(u, b);
      Find([e] + u[..n], b) == if e.no == b then 0 else if i < n then i + 1 else n + 1
  {
    var i := Find(u, b);
    FindIs([e] + u[..n], b, if e.no == b then 0 else if i < n then i + 1 else n + 1);
  }

  lemma PushedDistinct(u: seq<Entry>, n: nat, e: Entry)
    requires Distinct(u) && n <= |u| && Find(u, e.no) == |u|
    ensures Distinct([e] + u[..n])
  {
    var u' := [e] + u[..n];
    forall i | 0 <= i < |u'| ensures Find(u', u'[i].no) == i {
      FindPushed(u, n, e, u'[i].no);
    }
  }

  /** The list part of `Admitted`: which entries stay, and in which order. */
  lemma AdmittedUsed(c: Cache, no: nat)
    requires Sized(c)
    ensures var n := if |c.spare| > 0 then |c.used| else |c.used| - 1;
      Admitted(c, no).used == [Admitted(c, no).used[0]] + c.used[..n]
  {
    assert c.used == c.used[..|c.used|];
  }

  /** Eviction is invisible: a clean victim equals the disk, a dirty one is written first. */
  lemma AdmittedContents(r: Run, no: nat, b: nat)
    requires Inv(r) && !Cached(r.cache, no) && b != no
    requires |r.cache.spare| == 0 ==> r.cache.used[|r.cache.used| - 1].refs == 0
    ensures Contents(Admitted(r.cache, no), b) == Contents(r.cache, b)
  {
    hide Distinct, Safe;
    var c, c' := r.cache, Admitted(r.cache, no);
    var n, i := |c'.used| - 1, Find(c.used, b);
    AdmittedDisk(r, no, b);
    assert Find(c'.used, b) == if i < n then i + 1 else n + 1 by {
      AdmittedUsed(c, no);
      FindPushed(c.used, n, c'.used[0], b);
    }
    if i < n { assert c'.used[i + 1] == c.used[i]; }
  }

  /** The disk changes only at a dirty victim, which it then agrees with. */
  lemma AdmittedDisk(r: Run, no: nat, b: nat)
    requires Inv(r)
    requires |r.cache.spare| == 0 ==> r.cache.used[|r.cache.used| - 1].refs == 0
    ensures var i := Find(r.cache.used, b);
      && b in Admitted(r.cache, no).disk
      && (|r.cache.spare| == 0 && i == |r.cache.used| - 1 ==>
            Admitted(r.cache, no).disk[b] == r.cache.used[i].data)
      && (|r.cache.spare| > 0 || i != |r.cache.used| - 1 ==>
            Admitted(r.cache, no).disk[b] == r.cache.disk[b])
  {
    var c := r.cache;
    if |c.spare| == 0 {
      var n := |c.used| - 1;
      assert Find(c.used, c.used[n].no) == n;
      assert Safe(c.used[n], c.disk, r.touched);
    }
  }

  lemma AdmittedSafe(r: Run, no: nat, i: nat)
    requires Inv(r) && !Cached(r.cache, no) && 1 <= i < |Admitted(r.cache, no).used|
    requires |r.cache.spare| == 0 ==> r.cache.used[|r.cache.used| - 1].refs == 0
    ensures Safe(Admitted(r.cache, no).used[i], Admitted(r.cache, no).disk, r.touched)
  {
    var c := r.cache;
    AdmittedUsed(c, no);
    assert Admitted(c, no).used[i] == c.used[i - 1];
    assert Find(c.used, c.used[i - 1].no) == i - 1;
    assert Safe(c.used[i - 1], c.disk, r.touched);
  }

  lemma AdmittedShape(c: Cache, no: nat)
    requires Shape(c) && !Cached(c, no)
    ensures Shape(Admitted(c, no)) && Admitted(c, no).used[0].no == no
  {
    AdmittedUsed(c, no);
    PushedDistinct(c.used, |Admitted(c, no).used| - 1, Admitted(c, no).used[0]);
  }

  // ----- replacing one entry by another of the same number -----

  lemma ReplacedContents(c: Cache, k: nat, e: Entry, b: nat)
    requires Shape(c) && k < |c.used| && e.no == c.used[k].no
    ensures Contents(c.(used := c.used[k := e]), b) == if b == e.no then e.data else Contents(c, b)
  {
    SameNumbers(c.used, c.used[k := e], b);
    assert Find(c.used, c.used[k].no) == k;
  }

  lemma ReplacedKeeps(r: Run, k: nat, e: Entry)
    requires Shape(r.cache) && k < |r.cache.used| && e.no == r.cache.used[k].no
    requires forall i | 0 <= i < |r.cache.used| && i != k :: Safe(r.cache.used[i], r.cache.disk, r.touched)
    requires Safe(e, r.cache.disk, r.touched)
    ensures Inv(r.(cache := r.cache.(used := r.cache.used[k := e])))
    ensures View(r.cache.(used := r.cache.used[k := e])) == View(r.cache)[e.no := e.data]
  {
    var c := r.cache;
    var c' := c.(used := c.used[k := e]);
    SameNumbersDistinct(c.used, c'.used);
    forall b: nat ensures Contents(c', b) == View(c)[e.no := e.data][b] {
      ReplacedContents(c, k, e, b);
    }
  }

  lemma MoreTouched(r: Run, t: set<nat>)
    requires Inv(r) && r.touched <= t
    ensures Inv(r.(touched := t))
  {
    forall i | 0 <= i < |r.cache.used| ensures Safe(r.cache.used[i], r.cache.disk, t) {
      assert Safe(r.cache.used[i], r.cache.disk, r.touched);
    }
  }

  /** Dropping numbers that are not cached from `touched` loses nothing. */
  lemma TouchedTrim(r: Run, t: set<nat>)
    requires Inv(r) && t == (set b | b in r.touched && Cached(r.cache, b))
    ensures Inv(r.(touched := t))
  {
    forall i | 0 <= i < |r.cache.used| ensures Safe(r.cache.used[i], r.cache.disk, t) {
      assert Safe(r.cache.used[i], r.cache.disk, r.touched);
      assert Find(r.cache.used, r.cache.used[i].no) == i;
    }
  }

  // ----- the client operations -----

  lemma AdmittedSafeAll(r: Run, no: nat, t: set<nat>)
    requires Inv(r) && !Cached(r.cache, no) && r.touched <= t
    requires |r.cache.spare| == 0 ==> r.cache.used[|r.cache.used| - 1].refs == 0
    ensures var a := Admitted(r.cache, no);
      && Shape(a) && |a.used| > 0 && a.used[0].no == no
      && (forall i | 1 <= i < |a.used| :: Safe(a.used[i], a.disk, t))
  {
    var a := Admitted(r.cache, no);
    AdmittedShape(r.cache, no);
    forall i | 1 <= i < |a.used| ensures Safe(a.used[i], a.disk, t) {
      AdmittedSafe(r, no, i);
    }
  }

  lemma AdmittedView(r: Run, no: nat, data: Block)
    requires Inv(r) && !Cached(r.cache, no)
    requires |r.cache.spare| == 0 ==> r.cache.used[|r.cache.used| - 1].refs == 0
    ensures Total(Admitted(r.cache, no).disk)
    ensures View(Admitted(r.cache, no))[no := data] == View(r.cache)[no := data]
  {
    forall b: nat | b != no ensures Contents(Admitted(r.cache, no), b) == Contents(r.cache, b) {
      AdmittedContents(r, no, b);
    }
    SameElsewhere(Admitted(r.cache, no), r.cache, no, data);
  }

  lemma SameElsewhere(a: Cache, c: Cache, no: nat, data: Block)
    requires Total(a.disk) && Total(c.disk)
    requires forall b: nat | b != no :: Contents(a, b) == Contents(c, b)
    ensures View(a)[no := data] == View(c)[no := data]
  {}

  lemma FilledKeeps(r: Run, data: Block)
    requires Shape(r.cache) && |r.cache.used| > 0
    requires forall i | 1 <= i < |r.cache.used| :: Safe(r.cache.used[i], r.cache.disk, r.touched)
    requires data == r.cache.disk[r.cache.used[0].no] || r.cache.used[0].no in r.touched
    ensures Inv(r.(cache := Filled(r.cache, data)))
    ensures View(Filled(r.cache, data)) == View(r.cache)[r.cache.used[0].no := data]
  {
    ReplacedKeeps(r, 0, r.cache.used[0].(data := data, refs := 1));
  }

  lemma RequestKeeps(r: Run, no: nat, write: bool)
    requires Inv(r) && Admissible(r.cache, no, write)
    ensures Inv(r.(cache := Requested(r.cache, no)))
    ensures View(Requested(r.cache, no)) == View(r.cache)
    ensures Requested(r.cache, no).used[0].no == no
    ensures Requested(r.cache, no).used[0].data == Contents(r.cache, no)
  {
    if Cached(r.cache, no) {
      HitKeeps(r, no);
    } else {
      var a := Admitted(r.cache, no);
      AdmittedDisk(r, no, no);
      AdmittedShape(r.cache, no);
      AdmittedSafeAll(r, no, r.touched);
      FilledKeeps(Run(a, r.touched, r.hist), a.disk[no]);
      AdmittedView(r, no, a.disk[no]);
      assert View(r.cache)[no := a.disk[no]] == View(r.cache);
    }
  }

  lemma CreateKeeps(r: Run, no: nat, fill: Block)
    requires Inv(r) && Admissible(r.cache, no, true)
    ensures var c' := StepCache(r.cache, Create(no, fill));
      Inv(Run(c', r.touched + {no}, r.hist)) && View(c') == View(r.cache)[no := fill]
  {
    var t := r.touched + {no};
    var c' := StepCache(r.cache, Create(no, fill));
    if Cached(r.cache, no) {
      MoreTouched(r, t);
      HitKeeps(r.(touched := t), no);
      var h := Hit(r.cache, no);
      ReplacedKeeps(Run(h, t, r.hist), 0, h.used[0].(data := fill));
    } else {
      AdmittedShape(r.cache, no);
      AdmittedSafeAll(r, no, t);
      FilledKeeps(Run(Admitted(r.cache, no), t, r.hist), fill);
      AdmittedView(r, no, fill);
      assert c'.used == Filled(Admitted(r.cache, no), fill).used;
    }
  }

  /** Replacing the entry of a cached block by a safe one changes just that block. */
  lemma UpdatedKeeps(r: Run, e: Entry, t: set<nat>)
    requires Inv(r) && Cached(r.cache, e.no) && r.touched <= t && Safe(e, r.cache.disk, t)
    ensures Inv(Run(Updated(r.cache, e), t, r.hist))
    ensures View(Updated(r.cache, e)) == View(r.cache)[e.no := e.data]
  {
    hide Distinct, Sized, Safe;
    MoreTouched(r, t);
    ReplacedKeeps(r.(touched := t), Find(r.cache.used, e.no), e);
  }

  /** Writing to a block what it holds leaves the view as it is. */
  lemma SameData(c: Cache, no: nat)
    requires Shape(c) && Cached(c, no)
    ensures View(c)[no := EntryOf(c, no).data] == View(c)
  {
    assert Contents(c, no) == EntryOf(c, no).data;
  }

  lemma EntrySafe(r: Run, no: nat)
    requires Inv(r) && Cached(r.cache, no)
    ensures Safe(EntryOf(r.cache, no), r.cache.disk, r.touched)
  {}

  lemma ModifyKeeps(r: Run, no: nat, data: Block)
    requires Inv(r) && Legal(r, Modify(no, data))
    ensures var c' := StepCache(r.cache, Modify(no, data));
      Inv(Run(c', r.touched + {no}, r.hist)) && View(c') == View(r.cache)[no := data]
  {
    hide View, Updated, Distinct, Find;
    UpdatedKeeps(r, EntryOf(r.cache, no).(data := data), r.touched + {no});
  }

  lemma MarkDirtyKeeps(r: Run, no: nat)
    requires Inv(r) && Legal(r, MarkDirty(no))
    ensures var c' := StepCache(r.cache, MarkDirty(no));
      Inv(Run(c', r.touched, r.hist)) && View(c') == View(r.cache)
  {
    hide View, Updated, Distinct, Find;
    UpdatedKeeps(r, EntryOf(r.cache, no).(dirty := true), r.touched);
    SameData(r.cache, no);
  }

  lemma ReleaseKeeps(r: Run, no: nat)
    requires Inv(r) && Legal(r, Release(no))
    ensures var c' := StepCache(r.cache, Release(no));
      Inv(Run(c', r.touched, r.hist)) && View(c') == View(r.cache)
  {
    hide View, Updated, Distinct, Find;
    var e := EntryOf(r.cache, no);
    EntrySafe(r, no);
    UpdatedKeeps(r, e.(refs := e.refs - 1), r.touched);
    SameData(r.cache, no);
  }

  lemma {:induction false} FlushedDiskAt(used: seq<Entry>, disk: imap<nat, Block>, b: nat)
    requires Total(disk)
    requires forall i, j | 0 <= i < j < |used| :: used[i].no != used[j].no
    ensures b in FlushedDisk(used, disk)
    ensures var i := Find(used, b);
      FlushedDisk(used, disk)[b] == if i < |used| && used[i].dirty then used[i].data else disk[b]
  {
    if used != [] {
      FlushedDiskAt(used[1..], WriteBack(disk, used[0]), b);
      if used[0].no == b { FindIs(used[1..], b, |used| - 1); }
    }
  }

  lemma FlushedAt(c: Cache, b: nat)
    requires Shape(c)
    ensures b in Flushed(c).disk
    ensures Flushed(c).disk[b] ==
      if Cached(c, b) && EntryOf(c, b).dirty then EntryOf(c, b).data else c.disk[b]
    ensures Find(Flushed(c).used, b) == Find(c.used, b)
  {
    forall i, j | 0 <= i < j < |c.used| ensures c.used[i].no != c.used[j].no {
      assert Find(c.used, c.used[i].no) == i && Find(c.used, c.used[j].no) == j;
    }
    FlushedDiskAt(c.used, c.disk, b);
    SameNumbers(c.used, Cleaned(c.used), b);
  }

  ghost function StillUnmarked(r: Run): set<nat>
    requires Sized(r.cache)
  {
    set b | b in r.touched && Cached(r.cache, b) && !EntryOf(r.cache, b).dirty
  }

  lemma FlushKeeps(r: Run)
    requires Inv(r)
    ensures Inv(Run(Flushed(r.cache), StillUnmarked(r), r.hist))
    ensures View(Flushed(r.cache)) == View(r.cache)
  {
    var c, c' := r.cache, Flushed(r.cache);
    SameNumbersDistinct(c.used, c'.used);
    forall b: nat ensures b in c'.disk { FlushedAt(c, b); }
    forall b: nat ensures Contents(c', b) == Contents(c, b) { FlushedAt(c, b); }
    forall i | 0 <= i < |c'.used| ensures Safe(c'.used[i], c'.disk, StillUnmarked(r)) {
      FlushedAt(c, c.used[i].no);
      assert Find(c.used, c.used[i].no) == i;
      assert Safe(c.used[i], c.disk, r.touched);
    }
  }

  /** One client step: nothing is lost, and the client sees a plain map of blocks. */
  lemma StepTransparent(r: Run, op: Op)
    requires Inv(r) && Legal(r, op)
    ensures Inv(Next(r, op))
    ensures View(Next(r, op).cache) == Plain(View(r.cache), op)
    ensures op.Request? ==>
      var front := Next(r, op).cache.used[0]; front.no == op.no && front.data == View(r.cache)[op.no]
  {
    var t := match op
      case Create(no, _) => r.touched + {no}
      case Modify(no, _) => r.touched + {no}
      case Flush => StillUnmarked(r)
      case _ => r.touched;
    match op {
      case Request(no, write) => RequestKeeps(r, no, write);
      case Create(no, fill) => CreateKeeps(r, no, fill);
      case Flush => FlushKeeps(r);
      case Modify(no, data) => ModifyKeeps(r, no, data);
      case MarkDirty(no) => MarkDirtyKeeps(r, no);
      case Release(no) => ReleaseKeeps(r, no);
    }
    TouchedTrim(Run(StepCache(r.cache, op), t, Next(r, op).hist), Next(r, op).touched);
  }

  // ----- whole runs -----

  /** `rs` are the states of a run in which every client step was legal when it was made. */
  ghost predicate Trace(rs: seq<Run>, ops: seq<Op>) {
    && |rs| == |ops| + 1
    && forall i | 0 <= i < |ops| ::
         Shape(rs[i].cache) && Legal(rs[i], ops[i]) && rs[i + 1] == Next(rs[i], ops[i])
  }

  ghost function PlainExec(m: imap<nat, Block>, ops: seq<Op>): imap<nat, Block> {
    if ops == [] then m else Plain(PlainExec(m, ops[..|ops| - 1]), ops[|ops| - 1])
  }

  /** Over every legal run the cache in front of the disk is indistinguishable from the plain map. */
  lemma {:induction false} RunTransparent(rs: seq<Run>, ops: seq<Op>)
    requires Trace(rs, ops) && Inv(rs[0])
    ensures Inv(rs[|ops|])
    ensures View(rs[|ops|].cache) == PlainExec(View(rs[0].cache), ops)
  {
    if ops != [] {
      var n := |ops| - 1;
      assert Trace(rs[..n + 1], ops[..n]);
      RunTransparent(rs[..n + 1], ops[..n]);
      StepTransparent(rs[n], ops[n]);
    }
  }

  /** After flush no entry is dirty, and the disk alone is the plain map -- except exactly where a
      client still holds a changed block it has not marked. */
  lemma FlushPersists(r: Run, b: nat)
    requires Inv(r)
    ensures forall i | 0 <= i < |Next(r, Flush).cache.used| :: !Next(r, Flush).cache.used[i].dirty
    ensures b in Next(r, Flush).cache.disk
    ensures b !in Next(r, Flush).touched ==> Next(r, Flush).cache.disk[b] == View(r.cache)[b]
    ensures b in Next(r, Flush).touched <==>
      b in r.touched && Cached(r.cache, b) && !EntryOf(r.cache, b).dirty
  {
    FlushKeeps(r);
    FlushedAt(r.cache, b);
    if Cached(r.cache, b) {
      assert Safe(EntryOf(r.cache, b), r.cache.disk, r.touched);
    }
  }

  // ----- references -----

  /** The references to block `b`, none if it is not cached. */
  function Refs(c: Cache, b: nat): nat {
    if Cached(c, b) then EntryOf(c, b).refs else 0
  }

  predicate Acquires(op: Op, b: nat) {
    (op.Request? || op.Create?) && op.no == b
  }

  /** How often block `b` was requested or created, and how often released. */
  function Acquired(ops: seq<Op>, b: nat): nat {
    if ops == [] then 0 else Acquired(ops[..|ops| - 1], b) + if Acquires(ops[|ops| - 1], b) then 1 else 0
  }

  function Released(ops: seq<Op>, b: nat): nat {
    if ops == [] then 0 else Released(ops[..|ops| - 1], b) + if ops[|ops| - 1] == Release(b) then 1 else 0
  }

  /** Only the entry in front has another number of references than in the list `u`. */
  lemma HitRefs(c: Cache, no: nat, b: nat)
    requires Shape(c) && Cached(c, no)
    ensures Refs(Hit(c, no), b) == Refs(c, b) + (if b == no then 1 else 0)
  {
    var k := Find(c.used, no);
    FindToFront(c.used, k, b);
    SameNumbers(ToFront(c.used, k), Hit(c, no).used, b);
    if Cached(c, b) { ToFrontAt(c.used, k, Find(ToFront(c.used, k), b)); }
  }

  /** The victim has no references, so admission changes none. */
  lemma AdmittedRefs(c: Cache, no: nat, b: nat)
    requires Shape(c) && !Cached(c, no)
    requires |c.spare| == 0 ==> c.used[|c.used| - 1].refs == 0
    ensures Refs(Admitted(c, no), b) == Refs(c, b)
  {
    hide Distinct;
    var c' := Admitted(c, no);
    var n, i := |c'.used| - 1, Find(c.used, b);
    AdmittedUsed(c, no);
    FindPushed(c.used, n, c'.used[0], b);
    if i < n { assert c'.used[i + 1] == c.used[i]; }
  }

  lemma ReplacedRefs(c: Cache, k: nat, e: Entry, b: nat)
    requires Shape(c) && k < |c.used| && e.no == c.used[k].no
    ensures Refs(c.(used := c.used[k := e]), b) == if b == e.no then e.refs else Refs(c, b)
  {
    SameNumbers(c.used, c.used[k := e], b);
    assert Find(c.used, c.used[k].no) == k;
  }

  lemma AcquireRefs(c: Cache, no: nat, write: bool, data: Block, b: nat)
    requires Shape(c) && !Cached(c, no) && Admissible(c, no, write)
    ensures Refs(Filled(Admitted(c, no), data), b) == Refs(c, b) + (if b == no then 1 else 0)
  {
    var a := Admitted(c, no);
    AdmittedShape(c, no);
    AdmittedRefs(c, no, b);
    ReplacedRefs(a, 0, a.used[0].(data := data, refs := 1), b);
  }

  lemma CreateRefs(c: Cache, no: nat, fill: Block, b: nat)
    requires Shape(c) && Admissible(c, no, true)
    ensures Refs(StepCache(c, Create(no, fill)), b) == Refs(c, b) + (if b == no then 1 else 0)
  {
    if Cached(c, no) {
      var h := Hit(c, no);
      HitRefs(c, no, b);
      HitDistinct(c, no);
      ReplacedRefs(h, 0, h.used[0].(data := fill), b);
    } else {
      AcquireRefs(c, no, true, fill, b);
      assert StepCache(c, Create(no, fill)).used == Filled(Admitted(c, no), fill).used;
    }
  }

  /** One client step changes the references of a block as it acquires or releases it. */
  lemma StepRefs(r: Run, op: Op, b: nat)
    requires Inv(r) && Legal(r, op)
    ensures Refs(Next(r, op).cache, b) ==
      Refs(r.cache, b) + (if Acquires(op, b) then 1 else 0) - (if op == Release(b) then 1 else 0)
  {
    hide Distinct;
    var c := r.cache;
    match op {
      case Request(no, write) =>
        if Cached(c, no) { HitRefs(c, no, b); } else { AcquireRefs(c, no, write, Admitted(c, no).disk[no], b); }
      case Create(no, fill) => CreateRefs(c, no, fill, b);
      case Modify(no, data) => ReplacedRefs(c, Find(c.used, no), EntryOf(c, no).(data := data), b);
      case MarkDirty(no) => ReplacedRefs(c, Find(c.used, no), EntryOf(c, no).(dirty := true), b);
      case Release(no) => ReplacedRefs(c, Find(c.used, no), EntryOf(c, no).(refs := EntryOf(c, no).refs - 1), b);
      case Flush => SameNumbers(c.used, Cleaned(c.used), b);
    }
  }

  /** Over every legal run from an empty cache the references of a block are its requests less its
      releases, and a block that is not cached has none outstanding. */
  lemma {:induction false} RefsCounted(rs: seq<Run>, ops: seq<Op>, b: nat)
    requires Trace(rs, ops) && Inv(rs[0]) && rs[0].cache.used == []
    ensures Refs(rs[|ops|].cache, b) == Acquired(ops, b) - Released(ops, b)
  {
    hide Inv, Next, Legal, Refs, Acquires;
    if ops == [] {
      NoRefs(rs[0].cache, b);
    } else {
      var n := |ops| - 1;
      assert Trace(rs[..n + 1], ops[..n]);
      RefsCounted(rs[..n + 1], ops[..n], b);
      RunTransparent(rs[..n + 1], ops[..n]);
      StepRefs(rs[n], ops[n], b);
      assert rs[n + 1] == Next(rs[n], ops[n]);
    }
  }

  lemma NoRefs(c: Cache, b: nat)
    requires c.used == []
    ensures Refs(c, b) == 0
  {}
}
