/**
 The kernel's counting semaphore with direct hand-off, and its FIFO list of blocked threads.
 Each locked section is one step; a blocked thread continues only when an up takes it off the
 list.  Downs are uninterruptible.
 */
module Semaphores {
  import opened Bytes

  type Tid = nat

  datatype Sem = Sem(value: int, waiters: seq<Tid>)

  // ----- the locked sections as functions -----

  /** The value goes down in any case; the thread queues if that made it negative. */
  function Down(s: Sem, t: Tid): Sem {
    if s.value - 1 < 0 || |s.waiters| > 0 then Sem(s.value - 1, s.waiters + [t])
    else Sem(s.value - 1, s.waiters)
  }

  predicate Blocks(s: Sem) {
    s.value - 1 < 0 || |s.waiters| > 0
  }

  predicate CanTake(s: Sem) {
    s.value > 0 && |s.waiters| == 0
  }

  function TryDown(s: Sem): Sem {
    if CanTake(s) then s.(value := s.value - 1) else s
  }

  function Up(s: Sem): Sem {
    Sem(s.value + 1, if s.waiters == [] then [] else s.waiters[1..])
  }

  function Woken(s: Sem): Option<Tid> {
    if s.waiters == [] then None else Some(s.waiters[0])
  }

  // ----- the classes -----

  class BlockedList {
    var list: seq<Tid>

    constructor ()
      ensures list == []
    {
      list := [];
    }

    method Block(t: Tid)
      modifies this
      ensures list == old(list) + [t]
    {
      list := list + [t];
    }

    /** Returns the thread to unblock. */
    method Wakeup() returns (t: Option<Tid>)
      modifies this
      ensures old(list) == [] ==> t == None && list == []
      ensures old(list) != [] ==> t == Some(old(list[0])) && list == old(list[1..])
    {
      if list == [] {
        t := None;
      } else {
        t := Some(list[0]);
        list := list[1..];
      }
    }

    /** Returns the threads to unblock, in order. */
    method WakeupAll() returns (ts: seq<Tid>)
      modifies this
      ensures ts == old(list) && list == []
    {
      ts := [];
      for i := 0 to |list|
        invariant ts == list[..i] && list == old(list)
      {
        ts := ts + [list[i]];
      }
      list := [];
    }
  }

  class BaseSem {
    var value: int
    const waiters: BlockedList

    ghost function Abs(): Sem
      reads this, waiters
    {
      Sem(value, waiters.list)
    }

    constructor (value: int)
      ensures Abs() == Sem(value, []) && fresh(waiters)
    {
      this.value := value;
      waiters := new BlockedList();
    }

    /** Up to the point where the thread either returns or has been switched away. */
    method DownEnter(t: Tid) returns (blocked: bool)
      modifies this, waiters
      ensures Abs() == Down(old(Abs()), t) && blocked == Blocks(old(Abs()))
    {
      value := value - 1;
      blocked := value < 0 || |waiters.list| > 0;
      if blocked {
        waiters.Block(t);
      }
    }

    method TryEnter() returns (res: bool)
      modifies this
      ensures Abs() == TryDown(old(Abs())) && res == CanTake(old(Abs()))
    {
      res := false;
      if value > 0 && |waiters.list| == 0 {
        value := value - 1;
        res := true;
      }
    }

    method Leave() returns (woken: Option<Tid>)
      modifies this, waiters
      ensures Abs() == Up(old(Abs())) && woken == Woken(old(Abs()))
    {
      value := value + 1;
      woken := waiters.Wakeup();
    }
  }

  // ----- runs -----

  datatype Event = DownBy(t: Tid) | TryDownBy(t: Tid) | UpNow

  /** A semaphore with the record of everything that happened to it: who called down, whom it was
      granted to (immediately or by a wake-up), and how many ups and successful tryDowns there were. */
  datatype Log = Log(sem: Sem, arrivals: seq<Tid>, granted: seq<Tid>, taken: nat, ups: nat)

  function Logged(l: Log, e: Event): Log {
    match e
    case DownBy(t) =>
      l.(sem := Down(l.sem, t), arrivals := l.arrivals + [t],
         granted := if Blocks(l.sem) then l.granted else l.granted + [t])
    case TryDownBy(_) =>
      l.(sem := TryDown(l.sem), taken := if CanTake(l.sem) then l.taken + 1 else l.taken)
    case UpNow =>
      l.(sem := Up(l.sem), ups := l.ups + 1,
         granted := match Woken(l.sem) case None => l.granted case Some(t) => l.granted + [t])
  }

  function Exec(l: Log, es: seq<Event>): Log {
    if es == [] then l else Logged(Exec(l, es[..|es| - 1]), es[|es| - 1])
  }

  function Start(value: int): Log {
    Log(Sem(value, []), [], [], 0, 0)
  }

  function Positive(x: int): nat {
    if x > 0 then x else 0
  }

  /** What every run from `init` keeps. */
  ghost predicate Conserved(init: nat, l: Log) {
    && l.sem.value == init - |l.arrivals| - l.taken + l.ups
    && |l.sem.waiters| == Positive(-l.sem.value)
    && l.arrivals == l.granted + l.sem.waiters
    && |l.granted| + l.taken - l.ups == init - Positive(l.sem.value)
  }

  lemma StepConserves(init: nat, l: Log, e: Event)
    requires Conserved(init, l)
    ensures Conserved(init, Logged(l, e))
  {
    if e.UpNow? && l.sem.waiters != [] {
      assert l.granted + l.sem.waiters == l.granted + [l.sem.waiters[0]] + l.sem.waiters[1..];
    }
  }

  /** Conservation and fairness over every run: the value accounts for all downs and ups, the queue
      is as long as the value is negative, threads are granted the semaphore in the order they
      called down, and never more permits are out than there were. */
  lemma {:induction false} RunConserves(init: nat, es: seq<Event>)
    ensures Conserved(init, Exec(Start(init), es))
    ensures var l := Exec(Start(init), es); |l.granted| + l.taken <= init + l.ups
  {
    if es != [] {
      RunConserves(init, es[..|es| - 1]);
      StepConserves(init, Exec(Start(init), es[..|es| - 1]), es[|es| - 1]);
    }
  }

  /** The queue is as long as the value is negative in every run exactly if the semaphore does not start
      below zero. */
  lemma QueueLawExactly(init: int)
    ensures (forall es :: QueueLaw(Exec(Start(init), es).sem)) <==> init >= 0
  {
    if init >= 0 {
      forall es ensures QueueLaw(Exec(Start(init), es).sem) { RunConserves(init, es); }
    } else {
      assert !QueueLaw(Exec(Start(init), []).sem);
    }
  }

  predicate QueueLaw(s: Sem) {
    |s.waiters| == Positive(-s.value)
  }

  function Ups(es: seq<Event>): nat {
    if es == [] then 0 else Ups(es[..|es| - 1]) + if es[|es| - 1].UpNow? then 1 else 0
  }

  /** A waiter moves up by one place per up and by nothing else, and the up that finds it first
      wakes it: the waiter at place k is granted the semaphore by exactly the (k+1)-th later up. */
  lemma {:induction false} WaiterMovesUp(l: Log, es: seq<Event>, k: nat)
    requires k < |l.sem.waiters| && Ups(es) <= k
    ensures var s := Exec(l, es).sem;
      && k - Ups(es) < |s.waiters| && s.waiters[k - Ups(es)] == l.sem.waiters[k]
      && (Woken(s) == Some(l.sem.waiters[k]) <== Ups(es) == k)
  {
    if es != [] {
      WaiterMovesUp(l, es[..|es| - 1], k);
    }
  }

  /** In every reachable state a tryDown succeeds only if nobody waits, and a failing one changes
      nothing: it never overtakes a waiter. */
  lemma TryDownNeverOvertakes(init: nat, es: seq<Event>, t: Tid)
    ensures var l := Exec(Start(init), es);
      && (CanTake(l.sem) <==> l.sem.value > 0)
      && (CanTake(l.sem) ==> l.granted == l.arrivals)
      && (!CanTake(l.sem) ==> Logged(l, TryDownBy(t)) == l)
  {
    RunConserves(init, es);
  }
}
