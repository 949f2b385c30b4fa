/**
 The block cache as the file systems use it: one pool of entries threaded onto a doubly linked
 recency list, a free list and 256 singly linked hash chains.  Every method is proved to restore
 the whole index (`Valid`) and to act on `Abs()` as the functions of LruModel.
 */
module BlockCaches {
  import opened LruModel

  const HASH_SIZE: nat := 256

  class CBlock {
    var prev: CBlock?
    var next: CBlock?
    var hnext: CBlock?
    var blockNo: nat
    var dirty: bool
    var refs: nat
    var data: Block
    /** The chain this entry is on; HASH_SIZE if none. */
    ghost var home: nat

    constructor (data: Block)
      ensures blockNo == 0 && !dirty && refs == 0 && hnext == null && prev == null && next == null
      ensures this.data == data && home == HASH_SIZE
    {
      prev, next, hnext := null, null, null;
      blockNo, dirty, refs := 0, false, 0;
      this.data := data;
      home := HASH_SIZE;
    }
  }

  // ----- lists over CBlock, as predicates of the sequence they thread -----

  ghost predicate NoDup(s: seq<CBlock>) {
    forall i, j | 0 <= i < j < |s| :: s[i] != s[j]
  }

  ghost predicate Apart(s: seq<CBlock>, t: seq<CBlock>) {
    forall i, j | 0 <= i < |s| && 0 <= j < |t| :: s[i] != t[j]
  }

  ghost function At(s: seq<CBlock>, i: int): CBlock? {
    if 0 <= i < |s| then s[i] else null
  }

  /** next and prev are mutual inverses along `s` and null at its ends. */
  ghost predicate Linked(s: seq<CBlock>)
    reads s`next, s`prev
  {
    && NoDup(s)
    && (forall i {:trigger s[i].next} | 0 <= i < |s| :: s[i].next == At(s, i + 1))
    && (forall i {:trigger s[i].prev} | 0 <= i < |s| :: s[i].prev == At(s, i - 1))
  }

  ghost predicate Chained(s: seq<CBlock>, head: CBlock?, h: nat)
    reads s`hnext, s`home
  {
    && NoDup(s)
    && head == At(s, 0)
    && (forall i {:trigger s[i].hnext} | 0 <= i < |s| :: s[i].hnext == At(s, i + 1))
    && (forall i {:trigger s[i].home} | 0 <= i < |s| :: s[i].home == h)
  }

  ghost function Without(s: seq<CBlock>, b: CBlock): seq<CBlock> {
    if s == [] then [] else if s[0] == b then s[1..] else [s[0]] + Without(s[1..], b)
  }

  /** The first entry of the number on a chain. */
  ghost function First(s: seq<CBlock>, num: map<CBlock, nat>, no: nat): (b: CBlock?)
    requires forall c | c in s :: c in num
    ensures b != null ==> b in s && num[b] == no
  {
    if s == [] then null else if num[s[0]] == no then s[0] else First(s[1..], num, no)
  }

  lemma {:induction false} WithoutAt(s: seq<CBlock>, k: nat)
    requires NoDup(s) && k < |s|
    ensures Without(s, s[k]) == s[..k] + s[k + 1..]
  {
    if k > 0 {
      WithoutAt(s[1..], k - 1);
      assert s[..k] == [s[0]] + s[1..][..k - 1] && s[k + 1..] == s[1..][k..];
    }
  }

  lemma {:induction false} WithoutHas(s: seq<CBlock>, b: CBlock)
    requires NoDup(s)
    ensures forall c :: c in Without(s, b) <==> c in s && c != b
  {
    if s != [] { WithoutHas(s[1..], b); }
  }

  lemma {:induction false} FirstAt(s: seq<CBlock>, num: map<CBlock, nat>, no: nat, i: nat)
    requires forall c | c in s :: c in num
    requires i <= |s| && (i < |s| ==> num[s[i]] == no) && forall j | 0 <= j < i :: num[s[j]] != no
    ensures First(s, num, no) == At(s, i)
  {
    if i > 0 { FirstAt(s[1..], num, no, i - 1); }
  }

  lemma {:induction false} FirstNone(s: seq<CBlock>, num: map<CBlock, nat>, no: nat)
    requires (forall c | c in s :: c in num) && First(s, num, no) == null
    ensures forall i | 0 <= i < |s| :: num[s[i]] != no
  {
    if s != [] { FirstNone(s[1..], num, no); }
  }

  /** The chains of all used entries: distinct, at home, and no number twice. */
  ghost predicate Index(chains: seq<seq<CBlock>>, num: map<CBlock, nat>) {
    && |chains| == HASH_SIZE
    && (forall h | 0 <= h < HASH_SIZE :: NoDup(chains[h]))
    && (forall h, c | 0 <= h < HASH_SIZE && c in chains[h] :: c in num && num[c] % HASH_SIZE == h)
    && (forall h, c, d | 0 <= h < HASH_SIZE && c in chains[h] && d in chains[h] && num[c] == num[d] :: c == d)
  }

  /** What a walk of the chain for `no` finds. */
  ghost function Finds(chains: seq<seq<CBlock>>, num: map<CBlock, nat>, no: nat): CBlock?
    requires |chains| == HASH_SIZE && forall c | c in chains[no % HASH_SIZE] :: c in num
  {
    First(chains[no % HASH_SIZE], num, no)
  }

  /** No entry of number 0 stands before `v`. */
  ghost predicate ComesFirst(s: seq<CBlock>, num: map<CBlock, nat>, v: CBlock)
    requires forall c | c in s :: c in num
  {
    s != [] && (s[0] == v || (num[s[0]] != 0 && ComesFirst(s[1..], num, v)))
  }

  /** Entry `v` of chain g, put on chain h and renumbered to 0, is found under 0: it is on chain 0, and at
      its head, or has stayed there without an entry of number 0 before it. */
  ghost predicate Shadows(chains: seq<seq<CBlock>>, num: map<CBlock, nat>, g: nat, h: nat, v: CBlock)
    requires |chains| == HASH_SIZE && forall c | c in chains[0] :: c in num
  {
    h == 0 && (g == h ==> ComesFirst(chains[0], num, v))
  }

  lemma {:induction false} FirstSame(s: seq<CBlock>, num: map<CBlock, nat>, num': map<CBlock, nat>, no: nat)
    requires forall c | c in s :: c in num && c in num' && num[c] == num'[c]
    ensures First(s, num, no) == First(s, num', no)
  {
    if s != [] { FirstSame(s[1..], num, num', no); }
  }

  /** Without the only entry of its number a chain shows the others as before. */
  lemma {:induction false} FirstWithout(s: seq<CBlock>, num: map<CBlock, nat>, v: CBlock, no: nat)
    requires forall c | c in s :: c in num
    requires v in num && NoDup(s) && forall c | c in s && num[c] == num[v] :: c == v
    ensures forall c | c in Without(s, v) :: c in s
    ensures v !in Without(s, v)
    ensures First(Without(s, v), num, no) == if First(s, num, no) == v then null else First(s, num, no)
  {
    if s != [] {
      FirstWithout(s[1..], num, v, no);
      assert forall c | c in s[1..] :: c in s;
      if s[0] == v { NotTwice(s, num, v, no); }
    }
  }

  /** Every entry is on the chain its number hashes to. */
  ghost predicate AtHome(s: seq<CBlock>)
    reads s`home, s`blockNo
  {
    forall i {:trigger s[i].home} | 0 <= i < |s| :: s[i].home == s[i].blockNo % HASH_SIZE
  }

  lemma AtHomeToFront(s: seq<CBlock>, k: nat)
    requires AtHome(s) && k < |s|
    ensures AtHome(ToFront(s, k))
  {
    forall i | 0 <= i < |s| ensures ToFront(s, k)[i].home == ToFront(s, k)[i].blockNo % HASH_SIZE {
      ToFrontAt(s, k, i);
    }
  }

  ghost function EntryIn(b: CBlock): Entry
    reads b`blockNo, b`data, b`dirty, b`refs
  {
    Entry(b.blockNo, b.data, b.dirty, b.refs)
  }

  ghost function Entries(s: seq<CBlock>): (r: seq<Entry>)
    reads s`blockNo, s`data, s`dirty, s`refs
    ensures |r| == |s| && forall i | 0 <= i < |s| :: r[i] == EntryIn(s[i])
  {
    if s == [] then [] else [EntryIn(s[0])] + Entries(s[1..])
  }

  ghost function Buffers(s: seq<CBlock>): (r: seq<Block>)
    reads s`data
    ensures |r| == |s| && forall i | 0 <= i < |s| :: r[i] == s[i].data
  {
    if s == [] then [] else [s[0].data] + Buffers(s[1..])
  }

  /** The chains after entry `b` has gone from chain g to the head of chain h, unless that is the same. */
  ghost function Moved(chains: seq<seq<CBlock>>, g: nat, h: nat, b: CBlock): seq<seq<CBlock>>
  {
    if g == h || h >= |chains| then chains
    else
      var cut := if g < |chains| then chains[g := Without(chains[g], b)] else chains;
      cut[h := [b] + cut[h]]
  }

  lemma {:induction false} FirstRenumbered(s: seq<CBlock>, num: map<CBlock, nat>, v: CBlock, no: nat)
    requires (forall c | c in s :: c in num) && v in num && no != 0
    requires NoDup(s) && forall c | c in s && num[c] == num[v] :: c == v
    ensures First(s, num[v := 0], no) == if First(s, num, no) == v then null else First(s, num, no)
  {
    if s != [] {
      assert forall c | c in s[1..] :: c in s;
      FirstRenumbered(s[1..], num, v, no);
      if s[0] == v {
        NotTwice(s, num, v, no);
        FirstSame(s[1..], num, num[v := 0], no);
      }
    }
  }

  lemma {:induction false} FirstZero(s: seq<CBlock>, num: map<CBlock, nat>, v: CBlock)
    requires (forall c | c in s :: c in num) && v in num && v in s
    requires NoDup(s) && forall c | c in s && num[c] == num[v] :: c == v
    ensures First(s, num[v := 0], 0) == if ComesFirst(s, num, v) then v else First(s, num, 0)
    ensures First(s, num, 0) == v ==> ComesFirst(s, num, v)
  {
    if s[0] != v {
      assert forall c | c in s[1..] :: c in s;
      FirstZero(s[1..], num, v);
    }
  }

  /** What walks find after entry `v` has gone from chain g to chain h and has been renumbered to 0: under
      0 that entry if it comes first there, under every other number what they found before, except `v`. */
  lemma FailedFinds(chains: seq<seq<CBlock>>, num: map<CBlock, nat>, g: nat, h: nat, v: CBlock, no: nat)
    requires Index(chains, num) && v in num && h < HASH_SIZE
    requires forall i | 0 <= i < HASH_SIZE :: v in chains[i] <==> i == g
    requires forall i, c | 0 <= i < HASH_SIZE && c in chains[i] && num[c] == num[v] :: g < HASH_SIZE ==> c == v
    ensures var chains', num' := Moved(chains, g, h, v), num[v := 0];
      && |chains'| == HASH_SIZE && (forall c | c in chains'[no % HASH_SIZE] :: c in num')
      && Finds(chains', num', no) ==
           if no == 0 && Shadows(chains, num, g, h, v) then v
           else if Finds(chains, num, no) == v then null else Finds(chains, num, no)
  {
    hide Moved, Without, NoDup, ComesFirst;
    var k := no % HASH_SIZE;
    var s := chains[k];
    FailedChain(chains, g, h, v, k);
    if k == h == g {
      if no == 0 { FirstZero(s, num, v); } else { FirstRenumbered(s, num, v, no); }
    } else {
      if k == g {
        FirstWithout(s, num, v, no);
        FirstSame(Without(s, v), num, num[v := 0], no);
      } else {
        FirstSame(s, num, num[v := 0], no);
      }
      if k == h {
        assert ([v] + s)[1..] == s;
      }
    }
  }

  lemma FailedChain(chains: seq<seq<CBlock>>, g: nat, h: nat, v: CBlock, k: nat)
    requires h < |chains| && k < |chains|
    ensures |Moved(chains, g, h, v)| == |chains|
    ensures Moved(chains, g, h, v)[k] ==
      if g == h then chains[k]
      else if k == h then [v] + chains[k] else if k == g then Without(chains[k], v) else chains[k]
  {}

  lemma NotTwice(s: seq<CBlock>, num: map<CBlock, nat>, v: CBlock, no: nat)
    requires s != [] && s[0] == v && (forall c | c in s :: c in num)
    requires NoDup(s) && forall c | c in s && num[c] == num[v] :: c == v
    ensures v !in s[1..]
    ensures num[v] == no ==> First(s[1..], num, no) == null
  {}

  /** `used` and `free` share out the pool: disjoint, and every entry is on one of them. */
  ghost predicate Shares(pool: set<CBlock>, used: seq<CBlock>, free: seq<CBlock>) {
    && Apart(used, free)
    && (forall i | 0 <= i < |used| :: used[i] in pool)
    && (forall i | 0 <= i < |free| :: free[i] in pool)
    && (forall b | b in pool :: b in used || b in free)
  }

  lemma SharesTake(pool: set<CBlock>, used: seq<CBlock>, free: seq<CBlock>)
    requires Shares(pool, used, free) && NoDup(free) && free != []
    ensures Shares(pool, [free[0]] + used, free[1..])
  {
    assert free == [free[0]] + free[1..];
  }

  lemma SharesRotate(pool: set<CBlock>, used: seq<CBlock>, free: seq<CBlock>)
    requires Shares(pool, used, free) && used != []
    ensures Shares(pool, [used[|used| - 1]] + used[..|used| - 1], free)
  {
    assert used == used[..|used| - 1] + [used[|used| - 1]];
  }

  lemma SharesToFront(pool: set<CBlock>, used: seq<CBlock>, free: seq<CBlock>, k: nat)
    requires Shares(pool, used, free) && k < |used|
    ensures Shares(pool, ToFront(used, k), free)
  {
    forall i | 0 <= i < |used| ensures ToFront(used, k)[i] in used { ToFrontAt(used, k, i); }
    forall b | b in used ensures b in ToFront(used, k) {
      var i :| 0 <= i < |used| && used[i] == b;
      ToFrontAt(used, k, if i == k then 0 else if i < k then i + 1 else i);
    }
  }

  class BlockCache {
    const blockCacheSize: nat
    const pool: set<CBlock>
    const hashmap: array<CBlock?>
    var newestBlock: CBlock?
    var oldestBlock: CBlock?
    var freeBlocks: CBlock?
    var device: imap<nat, Block>

    ghost var used: seq<CBlock>
    ghost var free: seq<CBlock>
    ghost var chains: seq<seq<CBlock>>

    ghost predicate UsedList()
      reads this`used, this`newestBlock, this`oldestBlock, used`next, used`prev
    {
      Linked(used) && newestBlock == At(used, 0) && oldestBlock == At(used, |used| - 1)
    }

    ghost predicate FreeList()
      reads this`free, this`freeBlocks, free`next, free`prev
    {
      Linked(free) && freeBlocks == At(free, 0)
    }

    ghost predicate Partition()
      reads this`used, this`free
    {
      |used| + |free| == blockCacheSize && Shares(pool, used, free)
    }

    /** Every chain is well linked; its members are pool entries at home there. */
    ghost predicate ChainsOk()
      reads this`chains, hashmap, pool`hnext, pool`home
    {
      && |chains| == HASH_SIZE == hashmap.Length
      && (forall h, i | 0 <= h < HASH_SIZE && 0 <= i < |chains[h]| :: chains[h][i] in pool)
      && forall h | 0 <= h < HASH_SIZE :: Chained(chains[h], hashmap[h], h)
    }

    /** An entry is on the chain its home names. */
    ghost predicate Housed()
      reads this`chains, pool`home
    {
      && |chains| == HASH_SIZE
      && (forall b | b in pool && b.home < HASH_SIZE :: b in chains[b.home])
    }

    /** Free entries are on no chain. */
    ghost predicate Unhoused()
      reads this`free, free`home
    {
      forall i {:trigger free[i].home} | 0 <= i < |free| :: free[i].home == HASH_SIZE
    }

    /** Each used entry is on the chain of its own number, and numbers are distinct. */
    ghost predicate Keyed()
      reads this`used, used`blockNo, used`data, used`dirty, used`refs, used`home
    {
      Distinct(Entries(used)) && AtHome(used)
    }

    ghost predicate Struct()
      reads this`used, this`free, this`chains, this`newestBlock, this`oldestBlock, this`freeBlocks
      reads hashmap, pool`hnext, pool`home
      reads used`next, used`prev, free`next, free`prev, free`home
    {
      Partition() && UsedList() && FreeList() && ChainsOk() && Housed() && Unhoused()
    }

    ghost predicate Valid()
      reads this, hashmap, pool`hnext, pool`home
      reads used`next, used`prev, free`next, free`prev, free`home
      reads used`blockNo, used`data, used`dirty, used`refs, used`home
    {
      Struct() && Keyed() && Total(device) && blockCacheSize >= 2
    }

    ghost function Abs(): Cache
      reads this`used, this`free, this`device
      reads used`blockNo, used`data, used`dirty, used`refs, free`data
    {
      Cache(blockCacheSize, Entries(used), Buffers(free), device)
    }

    /** The entry that the next miss takes. */
    ghost function Victim(): CBlock
      requires |free| > 0 || |used| > 0
      reads this`used, this`free
    {
      if |free| > 0 then free[0] else used[|used| - 1]
    }

    /** The used entries that stay. */
    ghost function Rest(): seq<CBlock>
      requires |free| > 0 || |used| > 0
      reads this`used, this`free
    {
      if |free| > 0 then used else used[..|used| - 1]
    }

    /** Renumbered to 0 on the chain of `no`, that entry is found under 0. */
    ghost predicate Shadowing(no: nat)
      requires ChainsOk() && (|free| > 0 || |used| > 0)
      reads this`used, this`free, this`chains, hashmap, pool`hnext, pool`home, pool`blockNo, {Victim()}`home
    {
      Shadows(chains, Numbers(), Victim().home, no % HASH_SIZE, Victim())
    }

    /** The chains after that entry has been put on the one for `no`. */
    ghost function Rehashed(no: nat): seq<seq<CBlock>>
      requires |free| > 0 || |used| > 0
      reads this`used, this`free, this`chains, {Victim()}`home
    {
      Moved(chains, Victim().home, no % HASH_SIZE, Victim())
    }

    static method AllocatePool(memory: seq<Block>) returns (blocks: seq<CBlock>)
      ensures |blocks| == |memory| && NoDup(blocks)
      ensures forall i | 0 <= i < |blocks| ::
        fresh(blocks[i]) && blocks[i].data == memory[i] && blocks[i].home == HASH_SIZE
    {
      blocks := [];
      while |blocks| < |memory|
        invariant |blocks| <= |memory| && NoDup(blocks)
        invariant forall i | 0 <= i < |blocks| ::
          fresh(blocks[i]) && blocks[i].data == memory[i] && blocks[i].home == HASH_SIZE
      {
        var b := new CBlock(memory[|blocks|]);
        blocks := blocks + [b];
      }
    }

    /** Lines 42-53: threads the pool onto the free list, last entry first. */
    static method LinkFree(blocks: seq<CBlock>) returns (head: CBlock?, ghost list: seq<CBlock>)
      requires NoDup(blocks)
      modifies blocks`prev, blocks`next
      ensures Linked(list) && head == At(list, 0) && |list| == |blocks|
      ensures forall j | 0 <= j < |list| :: list[j] == blocks[|blocks| - 1 - j]
    {
      var n, i := |blocks|, 0;
      head, list := null, [];
      while i < n
        invariant 0 <= i <= n && |list| == i && head == At(list, 0)
        invariant forall j | 0 <= j < i :: list[j] == blocks[i - 1 - j]
        invariant forall j {:trigger list[j].next} | 0 <= j < i :: list[j].next == At(list, j + 1)
        invariant forall j {:trigger list[j].prev} | 0 <= j < i ::
          list[j].prev == if j > 0 then list[j - 1] else if i < n then blocks[i] else null
      {
        var b := blocks[i];
        b.prev := if i < n - 1 then blocks[i + 1] else null;
        b.next := head;
        head := b;
        list := [b] + list;
        i := i + 1;
      }
    }

    static method MakePool(memory: seq<Block>)
      returns (blocks: seq<CBlock>, head: CBlock?, ghost list: seq<CBlock>)
      ensures Linked(list) && head == At(list, 0) && |list| == |memory|
      ensures forall b :: b in list <==> b in blocks
      ensures forall j | 0 <= j < |list| ::
        fresh(list[j]) && list[j].home == HASH_SIZE && list[j].data == memory[|memory| - 1 - j]
    {
      hide Linked, NoDup;
      blocks := AllocatePool(memory);
      head, list := LinkFree(blocks);
      assert forall i | 0 <= i < |blocks| :: blocks[i] == list[|blocks| - 1 - i];
    }

    /** Lines 31-54: every entry is free, the last of the pool first.  `memory` is what the shared
        buffers happen to hold. */
    constructor (memory: seq<Block>, device: imap<nat, Block>)
      requires Total(device)
      ensures Struct() && Keyed() && (|memory| >= 2 ==> Valid()) && fresh(pool) && fresh(hashmap)
      ensures used == [] && |free| == |memory|
      ensures Abs().used == [] && |Abs().spare| == |memory| == Abs().capacity && Abs().disk == device
      ensures forall i | 0 <= i < |memory| :: Abs().spare[i] == memory[|memory| - 1 - i]
    {
      hide Valid, Linked, NoDup, Struct, Keyed;
      var blocks, head, list := MakePool(memory);
      blockCacheSize := |memory|;
      pool := set b | b in blocks;
      hashmap := new CBlock?[HASH_SIZE](_ => null);
      newestBlock, oldestBlock, freeBlocks := null, null, head;
      this.device := device;
      used, free := [], list;
      chains := seq(HASH_SIZE, _ => []);
      new;
      AllFreeStruct();
    }

    lemma AllFreeStruct()
      requires used == [] && newestBlock == null && oldestBlock == null && Total(device)
      requires Linked(free) && freeBlocks == At(free, 0) && |free| == blockCacheSize
      requires (forall i | 0 <= i < |free| :: free[i] in pool) && forall b | b in pool :: b in free
      requires forall i | 0 <= i < |free| :: free[i].home == HASH_SIZE
      requires |chains| == HASH_SIZE == hashmap.Length
      requires forall h | 0 <= h < HASH_SIZE :: chains[h] == [] && hashmap[h] == null
      ensures Struct() && Keyed() && (blockCacheSize >= 2 ==> Valid())
    {
      forall b | b in pool ensures b.home == HASH_SIZE {
        assert b in free;
      }
    }

    // ----- the recency list -----

    /** Lines 105-112: unlinks an entry that is not the newest. */
    method Unlink(b: CBlock, ghost k: nat)
      requires UsedList() && 0 < k < |used| && used[k] == b
      modifies this`oldestBlock, this`used, used`next, used`prev
      ensures UsedList() && b !in used && used == old(used[..k] + used[k + 1..])
    {
      if oldestBlock == b {
        oldestBlock := b.prev;
      }
      b.prev.next := b.next;
      if b.next != null {
        b.next.prev := b.prev;
      }
      used := used[..k] + used[k + 1..];
    }

    /** Lines 114-117, 157-160 and 194-198: puts an entry before the newest one. */
    method PushNewest(b: CBlock)
      requires Linked(used) && newestBlock == At(used, 0) && b !in used
      modifies this`newestBlock, this`used, used`prev, b`prev, b`next
      ensures used == [b] + old(used)
      ensures Linked(used) && newestBlock == b
    {
      b.prev := null;
      b.next := newestBlock;
      if b.next != null {
        b.next.prev := b;
      }
      newestBlock := b;
      used := [b] + used;
    }

    lemma HeadPrev(k: nat)
      requires UsedList() && k < |used|
      ensures used[k].prev == null <==> k == 0
      ensures Linked(used) && newestBlock == At(used, 0)
    {}

    /** Lines 105-118: a hit becomes the newest entry. */
    method MoveToFront(b: CBlock, ghost k: nat)
      requires UsedList() && k < |used| && used[k] == b
      modifies this`oldestBlock, this`newestBlock, this`used, used`next, used`prev
      ensures UsedList() && used == old(ToFront(used, k))
    {
      hide Linked;
      ghost var s := used;
      HeadPrev(k);
      if b.prev != null {
        Unlink(b, k);
        ghost var rest := used;
        PushNewest(b);
        assert used[|rest|] == rest[|rest| - 1];
        assert used == ToFront(s, k);
      } else {
        assert ToFront(s, 0) == s;
      }
    }

    /** Lines 150-155: takes the first entry off the free list. */
    method PopFree() returns (block: CBlock)
      requires FreeList() && freeBlocks != null
      modifies this`freeBlocks, this`free, free`prev
      ensures FreeList() && block == old(free[0]) && free == old(free[1..])
    {
      block := freeBlocks;
      freeBlocks := block.next;
      if freeBlocks != null {
        assert freeBlocks == free[1];
        freeBlocks.prev := null;
      }
      free := free[1..];
    }

    /** Lines 150-163: makes the first free entry the newest used one. */
    method TakeFree() returns (block: CBlock)
      requires UsedList() && FreeList() && Shares(pool, used, free) && freeBlocks != null
      modifies this`freeBlocks, this`newestBlock, this`oldestBlock, this`used, this`free
      modifies pool`next, pool`prev
      ensures UsedList() && FreeList()
      ensures block == old(free[0]) && used == [block] + old(used) && free == old(free[1..])
    {
      ghost var u := used;
      block := PopFree();
      assert Linked(u);
      PushNewest(block);
      if oldestBlock == null {
        oldestBlock := block;
      }
      assert u != [] ==> used[|u|] == u[|u| - 1];
    }

    /** Lines 172-175: cuts off the oldest entry. */
    method DetachOldest() returns (block: CBlock)
      requires UsedList() && |used| >= 2
      modifies this`oldestBlock, this`used, used`next
      ensures UsedList() && block == old(used[|used| - 1]) && used == old(used[..|used| - 1])
    {
      block := oldestBlock;
      oldestBlock := block.prev;
      oldestBlock.next := null;
      used := used[..|used| - 1];
    }

    // ----- the hash chains -----

    /** Lines 179-190: walks the chain to the entry before `block`. */
    method ChainPredecessor(block: CBlock, h: nat, ghost k: nat) returns (p: CBlock?)
      requires ChainsOk() && h < HASH_SIZE && k < |chains[h]| && chains[h][k] == block
      ensures p == At(chains[h], k - 1)
    {
      var b: CBlock? := hashmap[h];
      p := null;
      ghost var i := 0;
      while b != null && b != block
        invariant 0 <= i <= k && b == chains[h][i] && p == At(chains[h], i - 1)
        decreases k - i
      {
        p := b;
        b := b.hnext;
        i := i + 1;
      }
    }

    /** Lines 182-188: takes `block` out behind its predecessor `p`. */
    method CutChain(block: CBlock, p: CBlock?, h: nat, ghost s: seq<CBlock>, ghost k: nat)
      requires h < hashmap.Length && Chained(s, hashmap[h], h) && k < |s| && s[k] == block
      requires p == At(s, k - 1) && h < HASH_SIZE
      modifies hashmap, (if p == null then {} else {p})`hnext, block`home
      ensures Chained(s[..k] + s[k + 1..], hashmap[h], h) && block.home == HASH_SIZE
      ensures forall g | 0 <= g < hashmap.Length && g != h :: hashmap[g] == old(hashmap[g])
    {
      if p != null {
        p.hnext := block.hnext;
      } else {
        hashmap[h] := block.hnext;
      }
      block.home := HASH_SIZE;
    }

    /** A link of chain h is on no other chain, and neither is the one before it. */
    lemma OtherChains(h: nat, k: nat)
      requires ChainsOk() && h < HASH_SIZE && k < |chains[h]|
      ensures forall g, j | 0 <= g < HASH_SIZE && g != h && 0 <= j < |chains[g]| ::
        chains[g][j] != chains[h][k] && chains[g][j] != At(chains[h], k - 1)
    {
      forall g, j | 0 <= g < HASH_SIZE && g != h && 0 <= j < |chains[g]|
        ensures chains[g][j] != chains[h][k] && chains[g][j] != At(chains[h], k - 1)
      {
        assert chains[g][j].home == g;
      }
    }

    lemma ChainParts()
      requires ChainsOk()
      ensures |chains| == HASH_SIZE == hashmap.Length
      ensures forall h, b | 0 <= h < HASH_SIZE && b in chains[h] :: b in pool
      ensures forall h | 0 <= h < HASH_SIZE :: Chained(chains[h], hashmap[h], h) && NoDup(chains[h])
    {}

    lemma ChainsWhole()
      requires |chains| == HASH_SIZE == hashmap.Length
      requires forall h, b | 0 <= h < HASH_SIZE && b in chains[h] :: b in pool
      requires forall h | 0 <= h < HASH_SIZE :: Chained(chains[h], hashmap[h], h)
      ensures ChainsOk()
    {}

    /** Lines 179-191: removes an entry from its chain. */
    method Unchain(block: CBlock, h: nat)
      requires ChainsOk() && h < HASH_SIZE && block in chains[h]
      modifies this`chains, hashmap, chains[h]`hnext, block`home
      ensures ChainsOk() && block.home == HASH_SIZE
      ensures chains == old(chains)[h := Without(old(chains[h]), block)]
      ensures forall b :: b in chains[h] <==> b in old(chains[h]) && b != block
    {
      hide ChainsOk, Chained, NoDup, Without;
      ChainParts();
      ghost var s, before := chains[h], chains;
      ghost var k: nat :| k < |s| && s[k] == block;
      var p := ChainPredecessor(block, h, k);
      OtherChains(h, k);
      WithoutAt(s, k);
      WithoutHas(s, block);
      CutChain(block, p, h, s, k);
      chains := chains[h := Without(s, block)];
      assert forall g | 0 <= g < HASH_SIZE && g != h :: Chained(before[g], hashmap[g], g);
      ChainsWhole();
    }

    /** Lines 165-167 and 201-203: puts an entry at the head of a chain. */
    method PushChain(block: CBlock, h: nat)
      requires ChainsOk() && h < HASH_SIZE && block.home == HASH_SIZE && block in pool
      modifies this`chains, hashmap, block`hnext, block`home
      ensures ChainsOk() && block.home == h
      ensures chains == old(chains)[h := [block] + old(chains[h])]
    {
      ghost var before := chains;
      forall g, j | 0 <= g < HASH_SIZE && 0 <= j < |chains[g]| ensures chains[g][j] != block {
        assert chains[g][j].home == g;
      }
      block.hnext := hashmap[h];
      hashmap[h] := block;
      block.home := h;
      chains := chains[h := [block] + chains[h]];
      assert Chained(chains[h], hashmap[h], h);
      assert forall g | 0 <= g < HASH_SIZE && g != h :: Chained(before[g], hashmap[g], g);
    }

    // ----- references and disk -----

    method Acquire(b: CBlock, write: bool)
      requires write ==> b.refs == 0
      modifies b`refs
      ensures b.refs == old(b.refs) + 1
    {
      b.refs := b.refs + 1;
    }

    method Release(b: CBlock)
      requires b.refs > 0
      modifies b`refs
      ensures b.refs == old(b.refs) - 1
    {
      b.refs := b.refs - 1;
    }

    method WriteBlock(data: Block, no: nat)
      modifies this`device
      ensures device == old(device)[no := data]
    {
      device := device[no := data];
    }

    /** Lines 206-210 and 66-69: writes a dirty entry under its present number.  The acquire and
        doRelease around the write cancel out. */
    method WriteOut(b: CBlock)
      modifies this`device
      ensures device == WriteBack(old(device), EntryIn(b))
    {
      if b.dirty {
        WriteBlock(b.data, b.blockNo);
      }
    }

    // ----- getBlock -----

    /** Lines 172-175 and 194-198: the oldest entry becomes the newest. */
    method RotateOldest() returns (block: CBlock)
      requires UsedList() && |used| >= 2 && forall i | 0 <= i < |used| :: used[i] in pool
      modifies this`newestBlock, this`oldestBlock, this`used, pool`prev, pool`next
      ensures UsedList()
      ensures block == old(used[|used| - 1]) && used == [block] + old(used[..|used| - 1])
    {
      block := DetachOldest();
      ghost var rest := used;
      PushNewest(block);
      assert used[|rest|] == rest[|rest| - 1];
    }

    /** Lines 177-192 and 200-204: moves an entry to the chain for `no`, unless it is there already. */
    method Rehash(block: CBlock, no: nat)
      requires ChainsOk() && Housed() && block in pool && block.home == block.blockNo % HASH_SIZE
      modifies this`chains, hashmap, pool`hnext, block`home
      ensures ChainsOk() && Housed() && block.home == no % HASH_SIZE
      ensures chains == Moved(old(chains), old(block.home), no % HASH_SIZE, block)
    {
      var diffhash := block.blockNo % HASH_SIZE != no % HASH_SIZE;
      if diffhash {
        Unchain(block, block.blockNo % HASH_SIZE);
        PushChain(block, no % HASH_SIZE);
      }
    }

    /** Lines 165-167, for an entry from the free list. */
    method ChainNew(block: CBlock, no: nat)
      requires ChainsOk() && Housed() && block in pool && block.home == HASH_SIZE
      modifies this`chains, hashmap, block`hnext, block`home
      ensures ChainsOk() && Housed() && block.home == no % HASH_SIZE
      ensures chains == Moved(old(chains), HASH_SIZE, no % HASH_SIZE, block)
    {
      PushChain(block, no % HASH_SIZE);
    }

    lemma UsedInPool()
      requires Partition()
      ensures (forall i | 0 <= i < |used| :: used[i] in pool) && Apart(used, free)
    {}

    lemma FirstFree()
      requires Partition() && FreeList() && Unhoused() && freeBlocks != null
      ensures |free| > 0 && free[0] == freeBlocks && free[0] in pool && NoDup(free)
      ensures free[0].home == HASH_SIZE && free[0] !in free[1..] && free[0] !in used
    {}

    lemma LastUsed()
      requires UsedList() && Keyed() && |used| > 0
      ensures used[|used| - 1].home == used[|used| - 1].blockNo % HASH_SIZE
      ensures used[|used| - 1] !in used[..|used| - 1]
      ensures AtHome(used[..|used| - 1])
    {
      var u := used[..|used| - 1];
      forall i | 0 <= i < |u| ensures u[i].home == u[i].blockNo % HASH_SIZE { assert u[i] == used[i]; }
    }

    /** Lines 150-168: the free-list branch. */
    method AdmitFree(no: nat) returns (block: CBlock)
      requires Struct() && freeBlocks != null && Keyed()
      modifies this`newestBlock, this`oldestBlock, this`freeBlocks, this`used, this`free, this`chains
      modifies hashmap, pool`prev, pool`next, pool`hnext, pool`home
      ensures Struct() && block.home == no % HASH_SIZE
      ensures block == old(Victim()) && chains == old(Rehashed(no))
      ensures used == [old(free[0])] + old(used) && block == used[0] && free == old(free[1..])
      ensures AtHome(used[1..])
    {
      hide ChainsOk, Housed, Linked, Shares, NoDup, Apart, UsedList, FreeList, Distinct, AtHome;
      ghost var u, f := used, free;
      FirstFree();
      block := TakeFree();
      SharesTake(pool, u, f);
      ChainNew(block, no);
      assert used[1..] == u;
    }

    /** Lines 171-204: the eviction branch, up to the write-back. */
    method AdmitOldest(no: nat) returns (block: CBlock)
      requires Struct() && |free| == 0 && |used| >= 2 && Keyed()
      modifies this`newestBlock, this`oldestBlock, this`used, this`chains
      modifies hashmap, pool`prev, pool`next, pool`hnext, pool`home
      ensures Struct() && block.home == no % HASH_SIZE
      ensures block == old(Victim()) && chains == old(Rehashed(no))
      ensures used == [old(used[|used| - 1])] + old(used[..|used| - 1])
      ensures block == used[0] && AtHome(used[1..])
    {
      hide ChainsOk, Housed, Linked, Shares, NoDup, Apart, UsedList, FreeList, Unhoused;
      hide Distinct, AtHome;
      ghost var u, f := used, free;
      UsedInPool();
      LastUsed();
      block := RotateOldest();
      SharesRotate(pool, u, f);
      Rehash(block, no);
      assert used[1..] == u[..|u| - 1];
    }

    lemma FreeBlocksNull()
      requires FreeList()
      ensures freeBlocks == null <==> |free| == 0
    {}

    /** The oldest entry has one before it exactly if it is not the only one. */
    lemma OldestAlone()
      requires UsedList()
      ensures oldestBlock == null <==> |used| == 0
      ensures oldestBlock != null ==> oldestBlock == used[|used| - 1] && (oldestBlock.prev == null <==> |used| == 1)
    {}

    /** getBlock: an entry for `no`, newest and on its chain, but still with its old number and contents; a
        dirty victim has been written to the disk under that old number.  Without a free entry and with
        fewer than two used ones it dereferences null. */
    method GetBlock(no: nat) returns (block: CBlock?, crashed: bool)
      requires Struct() && Keyed() && (|free| == 0 && |used| > 0 ==> used[|used| - 1].refs == 0)
      modifies this`newestBlock, this`oldestBlock, this`freeBlocks, this`device
      modifies this`used, this`free, this`chains, hashmap
      modifies pool`prev, pool`next, pool`hnext, pool`home
      ensures crashed <==> old(|free| == 0 && |used| < 2)
      ensures !crashed ==> Struct() && |used| > 0 && block == used[0] && block.home == no % HASH_SIZE
      ensures !crashed ==> block == old(Victim()) && chains == old(Rehashed(no)) && AtHome(used[1..])
      ensures old(|free| > 0) ==>
        used == [old(free[0])] + old(used) && free == old(free[1..]) && device == old(device)
      ensures old(|free| == 0 && |used| >= 2) ==>
        && used == [old(used[|used| - 1])] + old(used[..|used| - 1]) && free == []
        && device == old(WriteBack(device, EntryIn(used[|used| - 1])))
    {
      hide ChainsOk, Housed, Linked, Shares, NoDup, Apart, UsedList, FreeList, Unhoused, Keyed;
      hide AtHome, Rehashed;
      FreeBlocksNull();
      OldestAlone();
      block, crashed := null, false;
      if freeBlocks != null {
        block := AdmitFree(no);
      } else if oldestBlock == null || oldestBlock.prev == null {
        crashed := true;
      } else {
        var victim := AdmitOldest(no);
        WriteOut(victim);
        block := victim;
      }
    }

    // ----- doRequest -----

    ghost function Numbers(): map<CBlock, nat>
      reads pool`blockNo
    {
      map c | c in pool :: c.blockNo
    }

    /** The entry that the walk of its chain finds for a number. */
    ghost function Found(no: nat): CBlock?
      requires ChainsOk()
      reads this`chains, hashmap, pool`hnext, pool`home, pool`blockNo
    {
      Finds(chains, Numbers(), no)
    }

    /** What a block is taken to hold: the buffer of the entry found, or else the disk. */
    ghost function Shown(no: nat): Block
      requires ChainsOk() && no in device
      reads this`chains, hashmap, pool`hnext, pool`home, pool`blockNo, pool`data, this`device
    {
      var b := Found(no);
      if b == null then device[no] else b.data
    }

    /** Lines 100-124: walks the chain of `no`. */
    method Walk(no: nat) returns (b: CBlock?)
      requires ChainsOk()
      ensures b == Found(no)
    {
      ghost var s := chains[no % HASH_SIZE];
      b := hashmap[no % HASH_SIZE];
      ghost var i := 0;
      while b != null && b.blockNo != no
        invariant 0 <= i <= |s| && b == At(s, i)
        invariant forall j | 0 <= j < i :: s[j].blockNo != no
        decreases |s| - i
      {
        b := b.hnext;
        i := i + 1;
      }
      FirstAt(s, Numbers(), no, i);
    }

    /** In a valid cache the walk finds the entry of the block if it is cached, and nothing else. */
    method Lookup(no: nat) returns (b: CBlock?)
      requires Valid()
      ensures b == Found(no)
      ensures b != null ==> Cached(Abs(), no) && b == used[Find(Entries(used), no)]
      ensures b == null ==> !Cached(Abs(), no)
    {
      hide Linked, Shares, UsedList, FreeList, Distinct, Entries, Find, Housed, Unhoused, NoDup;
      b := Walk(no);
      FoundMeans(no);
    }

    lemma FoundMeans(no: nat)
      requires Valid()
      ensures var b := Found(no);
        && (b == null <==> !Cached(Abs(), no))
        && (b != null ==> Find(Entries(used), no) < |used| && b == used[Find(Entries(used), no)])
      ensures no in device && Shown(no) == Contents(Abs(), no)
    {
      hide Linked, Shares, UsedList, FreeList, Distinct, Entries, Find, Housed, Unhoused, NoDup;
      var h := no % HASH_SIZE;
      var b := Found(no);
      if b != null {
        var i :| 0 <= i < |chains[h]| && chains[h][i] == b;
        ChainedIsUsed(h, i);
      } else {
        FirstNone(chains[h], Numbers(), no);
        NotChainedNotUsed(no);
      }
    }

    lemma ChainedIsUsed(h: nat, i: nat)
      requires Valid() && h < HASH_SIZE && i < |chains[h]|
      ensures var b := chains[h][i];
        var k := Find(Entries(used), b.blockNo);
        k < |used| && used[k] == b
    {
      var b := chains[h][i];
      assert b.home == h;
      assert b in pool && b !in free;
      var k :| 0 <= k < |used| && used[k] == b;
      assert Entries(used)[k].no == b.blockNo;
    }

    lemma NotChainedNotUsed(no: nat)
      requires Valid() && forall j | 0 <= j < |chains[no % HASH_SIZE]| ::
                 chains[no % HASH_SIZE][j].blockNo != no
      ensures !Cached(Abs(), no)
    {
      forall i | 0 <= i < |used| ensures Entries(used)[i].no != no {
        assert used[i] in chains[used[i].home];
      }
    }

    lemma EntriesToFront(s: seq<CBlock>, k: nat)
      requires k < |s|
      ensures Entries(ToFront(s, k)) == ToFront(Entries(s), k)
    {
      forall i | 0 <= i < |s| ensures Entries(ToFront(s, k))[i] == ToFront(Entries(s), k)[i] {
        ToFrontAt(s, k, i);
        ToFrontAt(Entries(s), k, i);
      }
    }

    method Promote(b: CBlock, ghost k: nat)
      requires Struct() && k < |used| && used[k] == b
      modifies this`oldestBlock, this`newestBlock, this`used, pool`next, pool`prev
      ensures Struct() && used == old(ToFront(used, k))
    {
      hide ChainsOk, Housed, Linked, NoDup, Shares, UsedList, Unhoused;
      ghost var u := used;
      UsedInPool();
      SharesToFront(pool, used, free, k);
      MoveToFront(b, k);
    }

    lemma FrontInPool()
      requires Struct() && |used| > 0
      ensures used[0] in pool && NoDup(used) && used[0] !in free
    {}

    /** acquire() on the newest entry, seen on the whole list. */
    method AcquireNewest(b: CBlock, write: bool)
      requires NoDup(used) && |used| > 0 && b == used[0] && (write ==> b.refs == 0)
      modifies b`refs
      ensures Entries(used) == old(Entries(used)[0 := EntryIn(b).(refs := b.refs + 1)])
    {
      ghost var e := Entries(used);
      Acquire(b, write);
      forall i | 0 <= i < |used|
        ensures Entries(used)[i] == old(e[0 := EntryIn(b).(refs := b.refs + 1)])[i]
      {
        assert i > 0 ==> used[i] != b;
      }
    }

    /** A hit becomes the newest entry, seen on the values. */
    method MoveUp(b: CBlock, ghost k: nat)
      requires Struct() && AtHome(used) && k < |used| && used[k] == b
      modifies this`oldestBlock, this`newestBlock, this`used, pool`next, pool`prev
      ensures Struct() && AtHome(used) && NoDup(used) && |used| > 0 && used[0] == b
      ensures Entries(used) == old(ToFront(Entries(used), k)) && Buffers(free) == old(Buffers(free))
    {
      hide Struct, NoDup, Entries, Buffers, AtHome, ToFront;
      ghost var u := used;
      Promote(b, k);
      ToFrontAt(u, k, 0);
      EntriesToFront(u, k);
      AtHomeToFront(u, k);
      FrontInPool();
    }

    /** Lines 102-121: a hit. */
    method Touch(b: CBlock, write: bool, ghost no: nat)
      requires Valid() && Cached(Abs(), no) && b == used[Find(Entries(used), no)]
      requires write ==> b.refs == 0
      modifies this`oldestBlock, this`newestBlock, this`used, pool`next, pool`prev, b`refs
      ensures Valid() && used[0] == b
      ensures Abs() == Hit(old(Abs()), no)
    {
      hide Valid, Struct, Find, NoDup, Entries, Buffers, Distinct, AtHome, ToFront, Total, Hit, Abs;
      ghost var c := Abs();
      AbsIs();
      ValidParts();
      HitDistinct(c, no);
      MoveUp(b, Find(Entries(used), no));
      AcquireNewest(b, write);
      AbsIs();
      HitIs(c, no);
      ValidIff();
    }

    /** A freshly linked front entry gets its number and clean flags (lines 128-130). */
    method Reset(block: CBlock, no: nat)
      requires NoDup(used) && |used| > 0 && block == used[0]
      requires AtHome(used[1..]) && block.home == no % HASH_SIZE
      modifies block`blockNo, block`dirty, block`refs
      ensures block.blockNo == no && !block.dirty && block.refs == 0
      ensures Entries(used) == [Entry(no, block.data, false, 0)] + old(Entries(used[1..]))
      ensures AtHome(used)
    {
      ghost var e := Entries(used[1..]);
      block.blockNo := no;
      block.dirty := false;
      block.refs := 0;
      assert forall i | 1 <= i < |used| :: used[i] != block && used[i] == used[1..][i - 1];
      assert Entries(used[1..]) == e;
      RestAtHome(block);
    }

    lemma OneIsDistinct()
      requires |used| == 1 && AtHome(used)
      ensures Keyed()
    {}

    lemma RestAtHome(block: CBlock)
      requires |used| > 0 && used[0] == block && block.home == block.blockNo % HASH_SIZE
      requires AtHome(used[1..])
      ensures AtHome(used)
    {
      forall i | 0 <= i < |used| ensures used[i].home == used[i].blockNo % HASH_SIZE {
        if i > 0 { assert used[1..][i - 1] == used[i]; }
      }
    }

    lemma OldShape()
      requires Valid()
      ensures Shape(Abs())
    {}

    lemma AbsPieces()
      ensures |used| > 0 ==> Entries(used[..|used| - 1]) == Entries(used)[..|used| - 1]
      ensures |free| > 0 ==> Buffers(free[1..]) == Buffers(free)[1..]
    {}

    /** getBlock, seen on the values: the new front entry stands before the others that stay. */
    method TakeBlock(no: nat) returns (block: CBlock)
      requires Struct() && Keyed() && (|free| == 0 ==> |used| >= 2 && used[|used| - 1].refs == 0)
      modifies this`newestBlock, this`oldestBlock, this`freeBlocks, this`device
      modifies this`used, this`free, this`chains, hashmap
      modifies pool`prev, pool`next, pool`hnext, pool`home
      ensures Struct() && |used| > 0 && NoDup(used) && block == used[0] && block in pool && block !in free
      ensures block == old(Victim()) && chains == old(Rehashed(no))
      ensures block.home == no % HASH_SIZE && AtHome(used[1..])
      ensures Entries(used[1..]) == old(Entries(Rest())) && block.data == old(Victim().data)
      ensures old(|free| > 0) ==> Buffers(free) == old(Buffers(free[1..])) && device == old(device)
      ensures old(|free| == 0) ==> free == [] && device == old(WriteBack(device, EntryIn(Victim())))
    {
      hide Struct, NoDup, Entries, Buffers, AtHome, Keyed, Rehashed;
      ghost var u, f := used, free;
      var b, crashed := GetBlock(no);
      block := b;
      FrontInPool();
      assert used[1..] == if |f| > 0 then u else u[..|u| - 1];
    }

    /** A miss up to line 130, in terms of the threaded lists. */
    method Enter(no: nat) returns (block: CBlock)
      requires Struct() && Keyed() && (|free| == 0 ==> |used| >= 2 && used[|used| - 1].refs == 0)
      modifies this`newestBlock, this`oldestBlock, this`freeBlocks, this`device
      modifies this`used, this`free, this`chains, hashmap
      modifies pool`prev, pool`next, pool`hnext, pool`home, pool`refs, pool`blockNo, pool`dirty
      ensures Struct() && AtHome(used) && |used| > 0 && block == used[0] && block.refs == 0
      ensures block.home == no % HASH_SIZE && block == old(Victim()) && chains == old(Rehashed(no))
      ensures forall c | c in pool && c != block :: c.blockNo == old(c.blockNo)
      ensures old(|free| > 0) ==>
        && Entries(used) == [Entry(no, old(free[0].data), false, 0)] + old(Entries(used))
        && Buffers(free) == old(Buffers(free[1..])) && device == old(device)
      ensures old(|free| == 0) ==>
        && Entries(used) == [Entry(no, old(used[|used| - 1].data), false, 0)]
                            + old(Entries(used[..|used| - 1]))
        && free == [] && device == old(WriteBack(device, EntryIn(used[|used| - 1])))
    {
      hide Struct, NoDup, Entries, Buffers, AtHome, Keyed, Rehashed;
      block := TakeBlock(no);
      Reset(block, no);
    }

    /** A miss up to line 130: the entry is linked, numbered and clean, its contents still stale. */
    method Admit(no: nat) returns (block: CBlock)
      requires Valid() && !Cached(Abs(), no) && (|free| == 0 ==> |used| > 0 && used[|used| - 1].refs == 0)
      modifies this`newestBlock, this`oldestBlock, this`freeBlocks, this`device
      modifies this`used, this`free, this`chains, hashmap
      modifies pool`prev, pool`next, pool`hnext, pool`home, pool`refs, pool`blockNo, pool`dirty
      ensures Valid() && |used| > 0 && block == used[0] && block.refs == 0
      ensures block.home == no % HASH_SIZE && block == old(Victim()) && chains == old(Rehashed(no))
      ensures forall c | c in pool && c != block :: c.blockNo == old(c.blockNo)
      ensures Abs() == Admitted(old(Abs()), no)
    {
      hide Struct, Find, Entries, Buffers, Distinct, AtHome, Rehashed, Victim;
      OldShape();
      AdmittedShape(Abs(), no);
      AbsPieces();
      block := Enter(no);
    }

    /** Changes to the newest entry's own fields, seen on the whole list. */
    twostate lemma FrontOnly(b: CBlock)
      requires |used| > 0 && used == old(used) && used[0] == b && NoDup(used)
      requires forall c: CBlock | c in used && c != b :: EntryIn(c) == old(EntryIn(c))
      ensures Entries(used) == old(Entries(used))[0 := EntryIn(b)]
    {
      forall i | 1 <= i < |used| ensures Entries(used)[i] == old(Entries(used))[i] {
        assert used[i] in used;
      }
    }

    /** Lines 132-142: reads the block into the newest entry; a failed read renumbers it to 0. */
    method Fill(block: CBlock, no: nat, readFails: bool)
      requires |used| > 0 && used[0] == block && NoDup(used) && block.refs == 0 && no in device
      modifies block`data, block`refs, block`blockNo
      ensures Entries(used) == old(Entries(used))[0 :=
        if readFails then old(EntryIn(block)).(no := 0) else old(EntryIn(block)).(data := device[no])]
      ensures readFails ==> block.data == old(block.data)
    {
      hide Entries, NoDup;
      Acquire(block, true);
      if readFails {
        block.blockNo := 0;
      } else {
        block.data := device[no];
      }
      Release(block);
      FrontOnly(block);
    }

    /** Lines 133-144 after a successful read, or without one. */
    method FillAndAcquire(block: CBlock, no: nat, doRead: bool, write: bool)
      requires |used| > 0 && used[0] == block && NoDup(used) && block.refs == 0 && no in device
      requires Distinct(Entries(used)) && AtHome(used)
      modifies block`data, block`refs, block`blockNo
      ensures Entries(used) == old(Entries(used))[0 := old(EntryIn(block)).(
        data := if doRead then device[no] else old(block.data), refs := 1)]
      ensures Distinct(Entries(used)) && AtHome(used)
    {
      hide Entries, Distinct, NoDup;
      ghost var e := Entries(used);
      if doRead {
        Fill(block, no, false);
      }
      AcquireNewest(block, write);
      SameNumbersDistinct(e, Entries(used));
    }

    /** Lines 127-146 when the block need not be read, or is read successfully. */
    method Load(no: nat, doRead: bool, write: bool) returns (block: CBlock)
      requires Valid() && !Cached(Abs(), no) && (|free| == 0 ==> |used| > 0 && used[|used| - 1].refs == 0)
      modifies this`newestBlock, this`oldestBlock, this`freeBlocks, this`device
      modifies this`used, this`free, this`chains, hashmap, pool
      ensures Valid() && |used| > 0 && block == used[0]
      ensures Sized(old(Abs())) && no in Admitted(old(Abs()), no).disk
      ensures Abs() == if doRead then Requested(old(Abs()), no) else Created(old(Abs()), no)
    {
      hide Valid, Struct, Entries, Buffers, Distinct, AtHome, NoDup, Admitted, Total, Sized, Requested, Created, Abs;
      OldShape();
      ghost var c := Abs();
      block := Admit(no);
      ghost var a := Abs();
      ValidParts();
      AbsIs();
      OnDevice(no);
      FrontInPool();
      FillAndAcquire(block, no, doRead, write);
      AbsIs();
      ValidIff();
      LoadedIs(c, no, doRead, a, Abs());
    }

    lemma AbsIs()
      ensures Abs() == Cache(blockCacheSize, Entries(used), Buffers(free), device)
    {}

    lemma FailedAtHome(block: CBlock, no: nat)
      requires |used| > 0 && used[0] == block && block.blockNo == 0 && block.home == no % HASH_SIZE
      requires AtHome(used[1..])
      ensures AtHome(used) <==> no % HASH_SIZE == 0
    {
      if no % HASH_SIZE == 0 { RestAtHome(block); } else { assert used[0].home != 0; }
    }

    lemma ValidParts()
      requires Valid()
      ensures Struct() && AtHome(used) && Distinct(Entries(used)) && Total(device) && blockCacheSize >= 2
    {}

    lemma ValidIff()
      requires Struct() && Total(device) && blockCacheSize >= 2
      ensures Valid() <==> AtHome(used) && Distinct(Entries(used))
    {}

    lemma OnDevice(no: nat)
      requires Total(device)
      ensures no in device
    {}

    lemma RestOfAtHome()
      requires AtHome(used) && |used| > 0
      ensures AtHome(used[1..])
    {
      ghost var rest := used[1..];
      forall i | 0 <= i < |rest| ensures rest[i].home == rest[i].blockNo % HASH_SIZE {
        assert rest[i] == used[i + 1];
      }
    }

    /** Lines 127-139 when the read fails: the admitted entry is renumbered to 0. */
    method FailedFill(no: nat) returns (block: CBlock, ghost e: seq<Entry>)
      requires Valid() && !Cached(Abs(), no) && (|free| == 0 ==> |used| > 0 && used[|used| - 1].refs == 0)
      modifies this`newestBlock, this`oldestBlock, this`freeBlocks, this`device
      modifies this`used, this`free, this`chains, hashmap, pool
      ensures Struct() && Total(device) && Sized(old(Abs())) && Abs() == ReadFailed(old(Abs()), no)
      ensures e != [] && Distinct(e) && Entries(used) == e[0 := e[0].(no := 0)]
      ensures e == Admitted(old(Abs()), no).used
      ensures |used| > 0 && block == used[0] && block.blockNo == 0 && block.home == no % HASH_SIZE
      ensures AtHome(used[1..]) && block == old(Victim()) && chains == old(Rehashed(no))
      ensures forall c | c in pool :: c.data == old(c.data) && (c != block ==> c.blockNo == old(c.blockNo))
    {
      hide Valid, Struct, Find, Entries, Buffers, Distinct, AtHome, NoDup, Admitted, Total, Sized, Rehashed, Victim;
      OldShape();
      block := Admit(no);
      ValidParts();
      e := Entries(used);
      FrontInPool();
      RestOfAtHome();
      OnDevice(no);
      Fill(block, no, true);
    }

    /** In a valid cache the chains hold exactly the used entries, each on its own. */
    lemma IndexHolds()
      requires Valid()
      ensures Index(chains, Numbers())
      ensures var v := Victim();
        && v in pool && (forall i | 0 <= i < HASH_SIZE :: v in chains[i] <==> i == v.home)
        && (forall i, c | 0 <= i < HASH_SIZE && c in chains[i] && c.blockNo == v.blockNo ::
              v.home < HASH_SIZE ==> c == v)
    {
    }

    /** After a failed read a walk finds the renumbered entry under 0 if it comes first there, and under
        every other number what it found before, except for the entry that was taken. */
    method FailedWalk(no: nat) returns (block: CBlock, ghost e: seq<Entry>)
      requires Valid() && !Cached(Abs(), no) && (|free| == 0 ==> |used| > 0 && used[|used| - 1].refs == 0)
      modifies this`newestBlock, this`oldestBlock, this`freeBlocks, this`device
      modifies this`used, this`free, this`chains, hashmap, pool
      ensures Struct() && Total(device) && Sized(old(Abs())) && Abs() == ReadFailed(old(Abs()), no)
      ensures e != [] && Distinct(e) && Entries(used) == e[0 := e[0].(no := 0)]
      ensures e == Admitted(old(Abs()), no).used
      ensures |used| > 0 && block == used[0] && block.blockNo == 0 && block.home == no % HASH_SIZE
      ensures AtHome(used[1..]) && block == old(Victim())
      ensures forall c | c in pool :: c.data == old(c.data)
      ensures forall x: nat ::
        Found(x) == if x == 0 && old(Shadowing(no)) then block
                    else if old(Found(x)) == block then null else old(Found(x))
    {
      hide Valid, Struct, Find, Entries, Buffers, Distinct, AtHome, Admitted, Total, Sized, Rehashed, Victim, Index;
      hide ReadFailed, Abs, Moved, Shadows, Finds;
      IndexHolds();
      ValidParts();
      ghost var cs, num, v := chains, Numbers(), Victim();
      ghost var g := v.home;
      RehashedIs(no);
      block, e := FailedFill(no);
      StructChains();
      assert Numbers() == num[v := 0];
      forall x: nat
        ensures Found(x) == if x == 0 && Shadows(cs, num, g, no % HASH_SIZE, v) then block
                            else if Finds(cs, num, x) == block then null else Finds(cs, num, x)
      {
        FailedFinds(cs, num, g, no % HASH_SIZE, v, x);
      }
    }

    lemma StructChains()
      requires Struct()
      ensures ChainsOk()
    {}

    lemma RehashedIs(no: nat)
      requires |free| > 0 || |used| > 0
      ensures Rehashed(no) == Moved(chains, Victim().home, no % HASH_SIZE, Victim())
    {}

    /** The entry found for a number is a used one of that number, and the next victim is found under its own. */
    ghost predicate FoundFits(x: nat)
      requires ChainsOk() && (|free| > 0 || |used| > 0)
      reads this`used, this`free, this`chains, hashmap, pool`hnext, pool`home, pool`blockNo, {Victim()}`blockNo
    {
      var b, v := Found(x), Victim();
      && (b != null ==> b in pool && b.blockNo == x && (|free| > 0 ==> b != v))
      && (|free| == 0 && v.blockNo == x ==> b == v)
    }

    lemma OldFound(x: nat)
      requires Valid()
      ensures FoundFits(x)
    {
      hide Index, Linked, Distinct, Find, Entries;
      IndexHolds();
      FoundMeans(x);
      if |free| == 0 && Victim().blockNo == x { IndexOf(|used| - 1); }
    }

    twostate lemma ShownKept(new x: nat, new shadows: bool)
      requires old(ChainsOk() && (|free| > 0 || |used| > 0) && FoundFits(x) && x in device)
      requires ChainsOk() && x in device && old(Victim()) in pool && forall c | c in pool :: c.data == old(c.data)
      requires device == old(if |free| > 0 then device else WriteBack(device, EntryIn(Victim())))
      requires old(|free| > 0 || Victim().dirty
        || (Victim().blockNo in device && Victim().data == device[Victim().blockNo]))
      requires var v := old(Victim());
        Found(x) == if x == 0 && shadows then v else if old(Found(x)) == v then null else old(Found(x))
      ensures Shown(x) == if x == 0 && shadows then old(Victim().data) else old(Shown(x))
    {
      hide Finds;
    }

    /** The disk after a failed read: a dirty victim has been written. */
    lemma FailedDisk(no: nat)
      requires Valid()
      ensures ReadFailed(Abs(), no).disk == if |free| > 0 then device else WriteBack(device, EntryIn(Victim()))
    {}

    lemma FrontUnheld(c: Cache, no: nat)
      requires |used| > 0 && Sized(c) && Entries(used) == ReadFailed(c, no).used
      ensures used[0].refs == 0 && !used[0].dirty
    {
      assert Entries(used)[0] == EntryIn(used[0]);
    }

    /** After a failed read every block is taken to hold what it did before -- the victim having been dirty
        or equal to the disk -- except that block 0 shows the stale buffer exactly if the renumbered entry
        is found under 0.  The entry keeps its place on the chain of `no`, so the index survives only if that
        is the right chain for block 0 and no other cached entry is numbered 0. */
    method LoadFails(no: nat)
      requires Valid() && !Cached(Abs(), no) && (|free| == 0 ==> |used| > 0 && used[|used| - 1].refs == 0)
      modifies this`newestBlock, this`oldestBlock, this`freeBlocks, this`device
      modifies this`used, this`free, this`chains, hashmap, pool
      ensures Struct() && Total(device) && Sized(old(Abs())) && Abs() == ReadFailed(old(Abs()), no)
      ensures Valid() <==>
        no % 256 == 0 && forall e | e in Admitted(old(Abs()), no).used[1..] :: e.no != 0
      ensures |used| > 0 && used[0] == old(Victim()) && used[0].refs == 0 && !used[0].dirty
      ensures Total(old(device)) && forall x: nat ::
        Found(x) == if x == 0 && old(Shadowing(no)) then used[0]
                    else if old(Found(x)) == used[0] then null else old(Found(x))
      ensures old(|free| > 0 || Victim().dirty || Victim().data == device[Victim().blockNo]) ==> forall x: nat ::
        Shown(x) == if x == 0 && old(Shadowing(no)) then old(Victim().data) else old(Shown(x))
    {
      hide Valid, Struct, Entries, Buffers, Distinct, AtHome, Admitted, Total, Sized, ReadFailed, Abs, Finds;
      hide Victim, Shadows;
      ValidParts();
      StructChains();
      AbsIs();
      FailedDisk(no);
      forall x: nat ensures FoundFits(x) { OldFound(x); }
      var block;
      ghost var e;
      block, e := FailedWalk(no);
      AbsIs();
      StructChains();
      RenumberedDistinct(e, e[0].(no := 0));
      FailedAtHome(block, no);
      ValidIff();
      FrontInPool();
      FrontUnheld(old(Abs()), no);
      if old(|free| > 0 || Victim().dirty || Victim().data == device[Victim().blockNo]) {
        forall x: nat
          ensures Shown(x) == if x == 0 && old(Shadowing(no)) then old(Victim().data) else old(Shown(x))
        {
          ShownKept(x, old(Shadowing(no)));
        }
      }
    }

    /** doRequest: on success the entry is in front and the cache has done what the model says; on a
        failed read of an uncached block null is returned and the index may be damaged. */
    method DoRequest(no: nat, doRead: bool, write: bool, readFails: bool) returns (r: CBlock?)
      requires Valid() && Admissible(Abs(), no, write)
      modifies this`newestBlock, this`oldestBlock, this`freeBlocks, this`device
      modifies this`used, this`free, this`chains, hashmap, pool
      ensures r == null <==> doRead && readFails && !Cached(old(Abs()), no)
      ensures Shape(old(Abs())) && (doRead ==> no in Admitted(old(Abs()), no).disk)
      ensures r != null ==>
        && Valid() && |used| > 0 && r == used[0]
        && Abs() == (if doRead then Requested(old(Abs()), no) else Created(old(Abs()), no))
        && (doRead ==> Abs() == StepCache(old(Abs()), Op.Request(no, write)))
      ensures r == null ==>
        && Struct() && Total(device) && Abs() == ReadFailed(old(Abs()), no)
        && (Valid() <==>
              no % 256 == 0 && forall e | e in Admitted(old(Abs()), no).used[1..] :: e.no != 0)
    {
      hide Struct, Find, Entries, Buffers, Distinct, AtHome;
      OldShape();
      AdmittedHas(Abs(), no);
      r := Lookup(no);
      if r != null {
        UsedHas(no);
        Touch(r, write, no);
      } else if doRead && readFails {
        LoadFails(no);
      } else {
        r := Load(no, doRead, write);
      }
    }

    lemma AdmittedHas(c: Cache, no: nat)
      requires Shape(c)
      ensures no in Admitted(c, no).disk
    {}

    lemma UsedHas(no: nat)
      requires Struct() && Cached(Abs(), no)
      ensures var k := Find(Entries(used), no);
        k < |used| && used[k] in pool && EntryOf(Abs(), no) == EntryIn(used[k])
    {}

    // ----- what a client does with an entry it holds -----

    lemma IndexOf(k: nat)
      requires Valid() && k < |used|
      ensures Find(Entries(used), used[k].blockNo) == k
    {
      assert Entries(used)[k].no == used[k].blockNo;
    }

    /** Replacing the entry at `k` by one of the same number keeps the keys. */
    twostate lemma OneChanged(k: nat)
      requires used == old(used) && k < |used| && NoDup(used)
      requires forall c: CBlock | c in used && c != used[k] :: EntryIn(c) == old(EntryIn(c))
      ensures Entries(used) == old(Entries(used))[k := EntryIn(used[k])]
    {
      forall i | 0 <= i < |used| && i != k ensures Entries(used)[i] == old(Entries(used))[i] {
        assert used[i] in used && used[i] != used[k];
      }
    }

    lemma UsedAt(k: nat)
      requires Struct() && k < |used|
      ensures used[k] in pool && NoDup(used) && used[k] !in free
    {}

    /** The entry is the one that the model's steps for its number change. */
    lemma Held(b: CBlock, k: nat)
      requires Valid() && k < |used| && used[k] == b
      ensures Shape(Abs()) && Cached(Abs(), b.blockNo) && EntryOf(Abs(), b.blockNo) == EntryIn(b)
    {
      hide Struct;
      OldShape();
      IndexOf(k);
    }

    /** Sets the fields of a used entry other than its number and links. */
    method Change(b: CBlock, ghost k: nat, data: Block, dirty: bool, refs: nat)
      requires Valid() && k < |used| && used[k] == b
      modifies b`data, b`dirty, b`refs
      ensures Valid() && Cached(old(Abs()), b.blockNo)
      ensures Abs() == Updated(old(Abs()), Entry(b.blockNo, data, dirty, refs))
    {
      hide Struct, Find, Entries, Buffers, Distinct, AtHome, NoDup;
      IndexOf(k);
      UsedAt(k);
      SameNumbersDistinct(Entries(used), Entries(used)[k := Entry(b.blockNo, data, dirty, refs)]);
      b.data := data;
      b.dirty := dirty;
      b.refs := refs;
      OneChanged(k);
    }

    method MarkDirty(b: CBlock, ghost k: nat)
      requires Valid() && k < |used| && used[k] == b
      modifies b`data, b`dirty, b`refs
      ensures Valid() && Cached(old(Abs()), b.blockNo)
      ensures Shape(old(Abs())) && EntryOf(old(Abs()), old(b.blockNo)) == old(EntryIn(b))
      ensures Abs() == StepCache(old(Abs()), Op.MarkDirty(old(b.blockNo)))
    {
      hide Valid, Abs, Cached, Updated;
      Held(b, k);
      Change(b, k, b.data, true, b.refs);
    }

    /** A client overwrites the buffer of an entry it holds. */
    method Modify(b: CBlock, ghost k: nat, data: Block)
      requires Valid() && k < |used| && used[k] == b
      modifies b`data, b`dirty, b`refs
      ensures Valid() && Cached(old(Abs()), b.blockNo)
      ensures Shape(old(Abs())) && EntryOf(old(Abs()), old(b.blockNo)) == old(EntryIn(b))
      ensures Abs() == StepCache(old(Abs()), Op.Modify(old(b.blockNo), data))
    {
      hide Valid, Abs, Cached, Updated;
      Held(b, k);
      Change(b, k, data, b.dirty, b.refs);
    }

    method DoRelease(b: CBlock, ghost k: nat)
      requires Valid() && k < |used| && used[k] == b && b.refs > 0
      modifies b`data, b`dirty, b`refs
      ensures Valid() && Cached(old(Abs()), b.blockNo)
      ensures Shape(old(Abs())) && EntryOf(old(Abs()), old(b.blockNo)) == old(EntryIn(b))
      ensures Abs() == StepCache(old(Abs()), Op.Release(old(b.blockNo)))
    {
      hide Valid, Abs, Cached, Updated;
      Held(b, k);
      Change(b, k, b.data, b.dirty, b.refs - 1);
    }

    // ----- flush -----

    lemma UsedLinks(i: nat)
      requires Struct() && i < |used|
      ensures newestBlock == used[0] && used[i].next == At(used, i + 1) && used[i] in pool && NoDup(used)
    {}

    lemma FirstUsed()
      requires Struct()
      ensures newestBlock == At(used, 0)
    {}

    /** How far a flush has come: the first `i` entries of `e` are clean and on the disk. */
    ghost predicate FlushedTo(e: seq<Entry>, i: nat)
      reads this`used, used`blockNo, used`data, used`dirty, used`refs
    {
      && i <= |used| == |e|
      && forall j | 0 <= j < |used| ::
           EntryIn(used[j]) == if j < i then e[j].(dirty := false) else e[j]
    }

    /** Lines 66-71. */
    method FlushEntry(b: CBlock, ghost e: seq<Entry>, ghost i: nat)
      requires FlushedTo(e, i) && i < |used| && used[i] == b && NoDup(used)
      modifies this`device, b`dirty
      ensures FlushedTo(e, i + 1) && device == WriteBack(old(device), e[i])
    {
      assert EntryIn(b) == e[i];
      WriteOut(b);
      b.dirty := false;
    }

    lemma AllFlushed(e: seq<Entry>)
      requires FlushedTo(e, |used|)
      ensures Entries(used) == Cleaned(e)
    {}

    /** Writes every dirty entry in list order and clears its flag. */
    method Flush()
      requires Valid()
      modifies this`device, pool`dirty
      ensures Valid() && Shape(old(Abs())) && Abs() == StepCache(old(Abs()), Op.Flush)
    {
      hide Struct, Find, Distinct, AtHome, NoDup, Entries, Buffers, FlushedDisk, FlushedTo, WriteBack;
      hide Total, Cleaned;
      ghost var e, i, disk := Entries(used), 0, device;
      OldShape();
      FirstUsed();
      FlushStart();
      var b := newestBlock;
      while b != null
        invariant i <= |used| && b == At(used, i)
        invariant Struct() && FlushedTo(e, i) && Total(device)
        invariant FlushedDisk(e[i..], device) == FlushedDisk(e, disk)
        decreases |used| - i
      {
        UsedLinks(i);
        FlushOne(e, i, device);
        TotalWriteBack(device, e[i]);
        FlushEntry(b, e, i);
        b := b.next;
        i := i + 1;
      }
      AllFlushed(e);
      assert e[i..] == [];
      FlushNone(device);
      SameNumbersDistinct(e, Entries(used));
    }

    lemma FlushStart()
      ensures FlushedTo(Entries(used), 0)
    {}
  }

  /** In a pool of one entry the first eviction -- here for block b, after block a -- dereferences null. */
  method EvictTheOnlyEntry(memory: Block, device: imap<nat, Block>, a: nat, b: nat) returns (crashed: bool)
    requires Total(device)
    ensures crashed
  {
    hide BlockCache.Struct, AtHome;
    var cache := new BlockCache([memory], device);
    var _ := cache.Enter(a);
    cache.OneIsDistinct();
    var block;
    block, crashed := cache.GetBlock(b);
  }
}
