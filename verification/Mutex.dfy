/**
 The recursive kernel mutex as a protocol of any number of threads.  Every access to the shared
 fields `holder`, `depth` and the semaphore is one step, and steps of different threads
 interleave freely.
 */
module MutexProtocol {
  import opened Bytes
  import opened Semaphores

  const INVALID: Tid := 0xFFFF

  /** The deepest nesting that a 16-bit signed `depth` can count. */
  const MAX_NEST: nat := 32767

  function Wrap16(x: int): int {
    (x + 32768) % 65536 - 32768
  }

  /** Where a thread is: Idle between calls; Enqueue before and Waiting inside Semaphore::down;
      TryTake before Semaphore::tryDown; Granted before the assertion and Claim before the write of
      holder; Inc before depth++; Dec before --depth; Clear before holder = INVALID; Release before
      Semaphore::up. */
  datatype Pc = Idle | Enqueue | Waiting | TryTake | Granted | Claim | Inc | Dec | Clear | Release

  /** `nest` counts each thread's unmatched successful downs, `res` is what its last down or tryDown has
      returned (down always gets in), and `failed` records a failed assertion. */
  datatype State = State(sem: Sem, holder: Tid, depth: int, pc: map<Tid, Pc>, nest: map<Tid, nat>,
                         res: map<Tid, bool>, failed: bool)

  /** What an idle thread calls next. */
  datatype Call = CallDown | CallTryDown | CallUp

  predicate WellFormed(s: State) {
    s.pc.Keys == s.nest.Keys && INVALID !in s.pc && forall w | w in s.sem.waiters :: w in s.pc
  }

  /** A thread can move unless it waits in the queue, and an idle one may call anything. */
  predicate Enabled(s: State, t: Tid, call: Call) {
    t in s.pc && t in s.nest && s.pc[t] != Waiting
  }

  function At(s: State, t: Tid, pc: Pc): State {
    s.(pc := s.pc[t := pc])
  }

  function Check(s: State, ok: bool): State {
    s.(failed := s.failed || !ok)
  }

  /** The step of an idle thread: the first test of down, tryDown or up. */
  function Begin(s: State, t: Tid, call: Call): State {
    match call
    case CallDown => At(s, t, if s.holder != t then Enqueue else Inc)
    case CallTryDown => At(s, t, if s.holder == t then Inc else TryTake)
    case CallUp => At(Check(s, s.holder == t && s.depth > 0), t, Dec)
  }

  /** --depth, and whether that was the outermost level. */
  function Decrement(s: State, t: Tid): State
    requires t in s.nest
  {
    var d := Wrap16(s.depth - 1);
    At(s.(depth := d, nest := s.nest[t := if s.nest[t] > 0 then s.nest[t] - 1 else 0]), t,
       if d == 0 then Clear else Idle)
  }

  /** One step of thread `t`. */
  function Next(s: State, t: Tid, call: Call): State
    requires Enabled(s, t, call)
  {
    match s.pc[t]
    case Idle => Begin(s, t, call)
    case Enqueue => At(s.(sem := Down(s.sem, t)), t, if Blocks(s.sem) then Waiting else Granted)
    case TryTake =>
      var s' := s.(sem := TryDown(s.sem));
      if CanTake(s.sem) then At(s', t, Claim) else At(s'.(res := s.res[t := false]), t, Idle)
    case Granted => At(Check(s, s.holder == INVALID && s.depth == 0), t, Claim)
    case Claim => At(s.(holder := t), t, Inc)
    case Inc =>
      At(s.(depth := Wrap16(s.depth + 1), nest := s.nest[t := s.nest[t] + 1], res := s.res[t := true]), t, Idle)
    case Dec => Decrement(s, t)
    case Clear => At(s.(holder := INVALID), t, Release)
    case Release =>
      var s' := At(s.(sem := Up(s.sem)), t, Idle);
      if Woken(s.sem).Some? then At(s', Woken(s.sem).value, Granted) else s'
    case Waiting => s
  }

  ghost predicate Initial(s: State) {
    && s.sem == Sem(1, []) && s.holder == INVALID && s.depth == 0 && !s.failed
    && WellFormed(s)
    && forall t | t in s.pc :: s.pc[t] == Idle && s.nest[t] == 0
  }

  /** `t` is about to give the mutex away although it has entered more often than it has left. */
  predicate GivesAway(s: State, t: Tid) {
    t in s.pc && t in s.nest && s.pc[t] == Dec && Wrap16(s.depth - 1) == 0 && s.nest[t] > 1
  }

  // ----- the invariant -----

  /** Between being granted the semaphore and giving it up. */
  predicate Inside(s: State, t: Tid)
    requires t in s.pc && t in s.nest
  {
    s.nest[t] > 0 || s.pc[t] in {Granted, Claim, Inc, Dec, Clear, Release}
  }

  /** holder and depth as seen by the one thread inside. */
  predicate OwnerView(s: State, o: Tid)
    requires o in s.pc && o in s.nest
  {
    match s.pc[o]
    case Granted => s.holder == INVALID && s.depth == 0 && s.nest[o] == 0
    case Claim => s.holder == INVALID && s.depth == 0 && s.nest[o] == 0
    case Inc => s.holder == o && s.depth == Wrap16(s.nest[o])
    case Idle => s.holder == o && s.depth == Wrap16(s.nest[o]) && s.nest[o] > 0
    case Dec => s.holder == o && s.depth == Wrap16(s.nest[o]) && s.depth > 0
    case Clear => s.holder == o && s.depth == 0 && s.nest[o] == 0
    case Release => s.holder == INVALID && s.depth == 0 && s.nest[o] == 0
    case _ => false
  }

  predicate Outside(s: State, t: Tid)
    requires t in s.pc && t in s.nest
  {
    s.nest[t] == 0 && s.pc[t] in {Idle, Enqueue, TryTake, Waiting}
  }

  /** The queue holds exactly the waiting threads, once each. */
  ghost predicate Queue(s: State) {
    && (forall i, j | 0 <= i < j < |s.sem.waiters| :: s.sem.waiters[i] != s.sem.waiters[j])
    && (forall t | t in s.pc :: t in s.sem.waiters <==> s.pc[t] == Waiting)
  }

  /** `owner` is the thread inside, if any. */
  ghost predicate Inv(s: State, owner: Option<Tid>) {
    && WellFormed(s) && !s.failed && Queue(s)
    && match owner
       case None =>
         && s.sem == Sem(1, []) && s.holder == INVALID && s.depth == 0
         && forall t | t in s.pc :: Outside(s, t)
       case Some(o) =>
         && o in s.pc && s.sem.value == -|s.sem.waiters| && OwnerView(s, o)
         && forall t | t in s.pc && t != o :: Outside(s, t)
  }

  /** Who is inside after a step: a grant lets `t` in, a release hands over to the first waiter. */
  function NewOwner(s: State, owner: Option<Tid>, t: Tid): Option<Tid>
    requires t in s.pc
  {
    match s.pc[t]
    case Enqueue => if Blocks(s.sem) then owner else Some(t)
    case TryTake => if CanTake(s.sem) then Some(t) else owner
    case Release => Woken(s.sem)
    case _ => owner
  }

  /** The owner changes only what is its own. */
  lemma OwnerMoved(s: State, s': State, t: Tid)
    requires Inv(s, Some(t)) && t in s'.pc && t in s'.nest
    requires s'.sem == s.sem && !s'.failed
    requires s'.pc == s.pc[t := s'.pc[t]] && s'.nest == s.nest[t := s'.nest[t]]
    requires OwnerView(s', t)
    ensures Inv(s', Some(t))
  {
    forall u | u in s'.pc && u != t ensures Outside(s', u) { assert Outside(s, u); }
  }

  lemma StepByOwner(s: State, t: Tid, call: Call)
    requires Inv(s, Some(t)) && Enabled(s, t, call) && s.pc[t] != Release
    requires !Next(s, t, call).failed && !GivesAway(s, t)
    ensures Inv(Next(s, t, call), Some(t)) && NewOwner(s, Some(t), t) == Some(t)
  {
    hide Queue, Outside;
    WrapSteps(s.nest[t]);
    OwnerMoved(s, Next(s, t, call), t);
  }

  lemma StepIdle(s: State, owner: Option<Tid>, t: Tid, call: Call)
    requires Inv(s, owner) && owner != Some(t) && Enabled(s, t, call) && s.pc[t] == Idle
    requires !Next(s, t, call).failed
    ensures Inv(Next(s, t, call), NewOwner(s, owner, t))
  {}

  lemma StepTryTake(s: State, owner: Option<Tid>, t: Tid, call: Call)
    requires Inv(s, owner) && owner != Some(t) && Enabled(s, t, call) && s.pc[t] == TryTake
    ensures Inv(Next(s, t, call), NewOwner(s, owner, t))
  {}

  lemma QueueJoined(s: State, s': State, t: Tid)
    requires Queue(s) && t in s.pc && s.pc[t] != Waiting
    requires s'.sem.waiters == s.sem.waiters + [t] && s'.pc == s.pc[t := Waiting]
    ensures Queue(s')
  {}

  lemma StepEnqueue(s: State, owner: Option<Tid>, t: Tid, call: Call)
    requires Inv(s, owner) && owner != Some(t) && Enabled(s, t, call) && s.pc[t] == Enqueue
    ensures Inv(Next(s, t, call), NewOwner(s, owner, t))
  {
    if Blocks(s.sem) {
      EnqueueBlocks(s, owner.value, t, call);
    } else {
      EnqueueGrants(s, t, call);
    }
  }

  lemma EnqueueBlocks(s: State, o: Tid, t: Tid, call: Call)
    requires Inv(s, Some(o)) && o != t && Enabled(s, t, call) && s.pc[t] == Enqueue && Blocks(s.sem)
    ensures Inv(Next(s, t, call), Some(o))
  {
    hide Queue;
    QueueJoined(s, Next(s, t, call), t);
  }

  lemma EnqueueGrants(s: State, t: Tid, call: Call)
    requires Inv(s, None) && Enabled(s, t, call) && s.pc[t] == Enqueue
    ensures Inv(Next(s, t, call), Some(t))
  {}

  lemma QueueLeft(s: State, s': State, t: Tid)
    requires Queue(s) && s.sem.waiters != [] && s.sem.waiters[0] in s.pc && t in s.pc && s.pc[t] != Waiting
    requires s'.sem.waiters == s.sem.waiters[1..]
    requires s'.pc == s.pc[t := Idle][s.sem.waiters[0] := Granted]
    ensures Queue(s')
  {
    assert s.sem.waiters == [s.sem.waiters[0]] + s'.sem.waiters;
  }

  lemma StepRelease(s: State, t: Tid, call: Call)
    requires Inv(s, Some(t)) && Enabled(s, t, call) && s.pc[t] == Release
    ensures Inv(Next(s, t, call), NewOwner(s, Some(t), t))
  {
    if s.sem.waiters == [] {
      ReleaseFrees(s, t, call);
    } else {
      ReleaseHandsOver(s, t, call);
    }
  }

  lemma ReleaseFrees(s: State, t: Tid, call: Call)
    requires Inv(s, Some(t)) && Enabled(s, t, call) && s.pc[t] == Release && s.sem.waiters == []
    ensures Inv(Next(s, t, call), None)
  {}

  lemma ReleaseHandsOver(s: State, t: Tid, call: Call)
    requires Inv(s, Some(t)) && Enabled(s, t, call) && s.pc[t] == Release && s.sem.waiters != []
    ensures Inv(Next(s, t, call), Some(s.sem.waiters[0]))
  {
    var w, s' := s.sem.waiters[0], Next(s, t, call);
    assert w != t && Outside(s, w) by { assert s.pc[w] == Waiting; }
    QueueLeft(s, s', t);
  }

  /** Every step keeps the invariant unless it fails an assertion or gives the mutex away too early. */
  lemma StepKeeps(s: State, owner: Option<Tid>, t: Tid, call: Call)
    requires Inv(s, owner) && Enabled(s, t, call)
    requires !Next(s, t, call).failed && !GivesAway(s, t)
    ensures Inv(Next(s, t, call), NewOwner(s, owner, t))
  {
    if owner == Some(t) {
      if s.pc[t] == Release { StepRelease(s, t, call); } else { StepByOwner(s, t, call); }
    } else {
      assert Outside(s, t);
      match s.pc[t] {
        case Enqueue => StepEnqueue(s, owner, t, call);
        case TryTake => StepTryTake(s, owner, t, call);
        case _ => StepIdle(s, owner, t, call);
      }
    }
  }

  // ----- the 16-bit depth -----

  lemma WrapForm(x: int)
    ensures var r := x % 65536; Wrap16(x) == if r <= MAX_NEST then r else r - 65536
  {
    assert (x + 32768) % 65536 == (x % 65536 + 32768) % 65536;
  }

  lemma ModSteps(x: int)
    ensures var r := x % 65536;
      && (x + 1) % 65536 == (if r == 65535 then 0 else r + 1)
      && (x - 1) % 65536 == (if r == 0 then 65535 else r - 1)
  {}

  /** 16-bit counting up and down, and what the tests of up see. */
  lemma WrapSteps(n: nat)
    ensures Wrap16(Wrap16(n) + 1) == Wrap16(n + 1) && Wrap16(Wrap16(n) - 1) == Wrap16(n - 1)
    ensures Wrap16(n) > 0 <==> 1 <= n % 65536 <= MAX_NEST
    ensures Wrap16(n - 1) == 0 <==> n % 65536 == 1
    ensures n <= MAX_NEST ==> Wrap16(n) == n
  {
    hide Wrap16;
    WrapForm(n);
    WrapForm(n + 1);
    WrapForm(n - 1);
    WrapForm(Wrap16(n) + 1);
    WrapForm(Wrap16(n) - 1);
    ModSteps(n);
    ModSteps(Wrap16(n));
  }

  /** The nestings at which up does what it should. */
  predicate Allowed(n: nat) {
    1 <= n % 65536 <= MAX_NEST && (n > 1 ==> n % 65536 != 1)
  }

  lemma AllowedMeans(n: nat)
    ensures Allowed(n) <==> 1 <= n % 65536 <= MAX_NEST && !(n > 1 && n % 65536 == 1)
  {}

  /** The call of up by `t`. */
  predicate CallsUp(s: State, m: Move) {
    m.t in s.pc && m.t in s.nest && s.pc[m.t] == Idle && m.call.CallUp?
  }

  /** An assertion fails exactly at an up whose nesting the 16 bits do not show as positive. */
  lemma FailsExactly(s: State, owner: Option<Tid>, m: Move)
    requires Inv(s, owner) && Enabled(s, m.t, m.call)
    ensures Next(s, m.t, m.call).failed <==> CallsUp(s, m) && !(1 <= s.nest[m.t] % 65536 <= MAX_NEST)
  {
    WrapSteps(s.nest[m.t]);
    if owner != Some(m.t) { assert Outside(s, m.t); }
  }

  lemma GivesAwayExactly(s: State, owner: Option<Tid>, t: Tid)
    requires Inv(s, owner) && t in s.pc
    ensures GivesAway(s, t) <==> s.pc[t] == Dec && s.nest[t] > 1 && s.nest[t] % 65536 == 1
  {
    WrapSteps(s.nest[t]);
    if owner != Some(t) { assert Outside(s, t); }
  }

  // ----- every interleaving -----

  datatype Move = Move(t: Tid, call: Call)

  ghost predicate Trace(ss: seq<State>, ms: seq<Move>) {
    && |ss| == |ms| + 1 && Initial(ss[0])
    && forall i | 0 <= i < |ms| ::
         Enabled(ss[i], ms[i].t, ms[i].call) && ss[i + 1] == Next(ss[i], ms[i].t, ms[i].call)
  }

  /** No assertion fails, and nobody gives the mutex away that it has still entered. */
  ghost predicate Sound(ss: seq<State>, ms: seq<Move>)
    requires |ss| == |ms| + 1
  {
    (forall i | 0 <= i < |ss| :: !ss[i].failed) && forall i | 0 <= i < |ms| :: !GivesAway(ss[i], ms[i].t)
  }

  ghost predicate UpsAllowed(ss: seq<State>, ms: seq<Move>)
    requires |ss| == |ms| + 1
  {
    forall i | 0 <= i < |ms| && CallsUp(ss[i], ms[i]) :: Allowed(ss[i].nest[ms[i].t])
  }

  lemma {:induction false} SoundInv(ss: seq<State>, ms: seq<Move>) returns (owner: Option<Tid>)
    requires Trace(ss, ms) && Sound(ss, ms)
    ensures Inv(ss[|ms|], owner)
  {
    if ms == [] {
      owner := None;
    } else {
      var n := |ms| - 1;
      var ss', ms' := ss[..n + 1], ms[..n];
      assert Trace(ss', ms') && Sound(ss', ms');
      var o := SoundInv(ss', ms');
      assert ss[n + 1] == Next(ss[n], ms[n].t, ms[n].call);
      StepKeeps(ss[n], o, ms[n].t, ms[n].call);
      owner := NewOwner(ss[n], o, ms[n].t);
    }
  }

  /** The invariant in the middle of a sound run. */
  lemma SoundInvAt(ss: seq<State>, ms: seq<Move>, i: nat) returns (owner: Option<Tid>)
    requires Trace(ss, ms) && Sound(ss, ms) && i <= |ms|
    ensures Inv(ss[i], owner)
  {
    var ss', ms' := ss[..i + 1], ms[..i];
    assert Trace(ss', ms') && Sound(ss', ms');
    owner := SoundInv(ss', ms');
  }

  // ----- soundness exactly -----

  /** A thread before --depth has called up at the nesting it still has. */
  lemma {:induction false} DecFrom(ss: seq<State>, ms: seq<Move>, t: Tid, i: nat) returns (j: nat)
    requires Trace(ss, ms) && i <= |ms| && t in ss[i].pc && t in ss[i].nest && ss[i].pc[t] == Dec
    ensures j < i && ms[j].t == t && CallsUp(ss[j], ms[j]) && ss[j].nest[t] == ss[i].nest[t]
  {
    assert i > 0;
    var k := i - 1;
    assert ss[k + 1] == Next(ss[k], ms[k].t, ms[k].call);
    if ms[k].t == t { j := k; } else { j := DecFrom(ss, ms, t, k); }
  }

  /** A thread that has called up goes on to decrement at that nesting, if the run lasts. */
  lemma {:induction false} DecComes(ss: seq<State>, ms: seq<Move>, t: Tid, i: nat) returns (j: nat)
    requires Trace(ss, ms) && Sound(ss, ms)
    requires i <= |ms| && t in ss[i].pc && t in ss[i].nest && ss[i].pc[t] == Dec
    requires t in ss[|ms|].pc ==> ss[|ms|].pc[t] != Dec
    ensures i <= j < |ms| && ms[j].t == t && t in ss[j].pc && t in ss[j].nest
    ensures ss[j].pc[t] == Dec && ss[j].nest[t] == ss[i].nest[t]
    decreases |ms| - i
  {
    assert i < |ms|;
    if ms[i].t == t {
      j := i;
    } else {
      assert ss[i + 1] == Next(ss[i], ms[i].t, ms[i].call);
      var owner := SoundInvAt(ss, ms, i);
      j := DecComes(ss, ms, t, i + 1);
    }
  }

  /** While all steps so far were sound, a step is unsound exactly at an up that is not allowed. */
  lemma {:induction false} AllowedSound(ss: seq<State>, ms: seq<Move>)
    requires Trace(ss, ms) && UpsAllowed(ss, ms)
    ensures Sound(ss, ms)
  {
    hide Next, Inv, GivesAway, Allowed;
    if ms != [] {
      var n := |ms| - 1;
      var ss', ms' := ss[..n + 1], ms[..n];
      assert Trace(ss', ms') && UpsAllowed(ss', ms');
      AllowedSound(ss', ms');
      var owner := SoundInv(ss', ms');
      var t := ms[n].t;
      assert ss[n + 1] == Next(ss[n], t, ms[n].call);
      FailsExactly(ss[n], owner, ms[n]);
      GivesAwayExactly(ss[n], owner, t);
      AllowedMeans(ss[n].nest[t]);
      if t in ss[n].nest && ss[n].pc[t] == Dec { var j := DecFrom(ss, ms, t, n); }
      assert forall i | 0 <= i < n :: !GivesAway(ss'[i], ms'[i].t);
      assert forall i | 0 <= i <= n :: !ss'[i].failed;
    }
  }

  /** A run in which every up that was called has decremented is sound exactly if every up was called
      at a nesting that the 16 bits tell from less. */
  lemma SoundExactly(ss: seq<State>, ms: seq<Move>)
    requires Trace(ss, ms) && forall t | t in ss[|ms|].pc :: ss[|ms|].pc[t] != Dec
    ensures Sound(ss, ms) <==> UpsAllowed(ss, ms)
  {
    if UpsAllowed(ss, ms) {
      AllowedSound(ss, ms);
    } else if Sound(ss, ms) {
      var i :| 0 <= i < |ms| && CallsUp(ss[i], ms[i]) && !Allowed(ss[i].nest[ms[i].t]);
      var t := ms[i].t;
      var owner := SoundInvAt(ss, ms, i);
      FailsExactly(ss[i], owner, ms[i]);
      assert ss[i + 1] == Next(ss[i], t, ms[i].call);
      var j := DecComes(ss, ms, t, i + 1);
      var o := SoundInvAt(ss, ms, j);
      GivesAwayExactly(ss[j], o, t);
      assert false;
    }
  }

  /** In every interleaving whose ups are made at allowed nestings -- in particular if nobody nests deeper
      than 32767 and only leaves what it has entered -- no assertion fails, at most one thread is inside,
      and between its calls a thread that has entered is the holder with `depth` counting its nesting. */
  lemma MutualExclusion(ss: seq<State>, ms: seq<Move>, t: Tid, u: Tid)
    requires Trace(ss, ms) && UpsAllowed(ss, ms)
    ensures var s := ss[|ms|];
      && WellFormed(s) && !s.failed
      && (t in s.pc && u in s.pc && Inside(s, t) && Inside(s, u) ==> t == u)
      && (t in s.pc && s.pc[t] == Idle && s.nest[t] > 0 ==> s.holder == t && s.depth == Wrap16(s.nest[t]))
      && (t in s.pc && s.pc[t] == Idle && 0 < s.nest[t] <= MAX_NEST ==> s.depth == s.nest[t])
      && (t in s.pc && s.pc[t] == Idle && s.nest[t] == 0 ==> s.holder != t)
  {
    AllowedSound(ss, ms);
    var owner := SoundInv(ss, ms);
    var s := ss[|ms|];
    if t in s.pc {
      WrapSteps(s.nest[t]);
      if owner != Some(t) { assert Outside(s, t); }
    }
    if u in s.pc && owner != Some(u) { assert Outside(s, u); }
  }

  /** Nobody waits for a mutex that no one will release: if a thread waits, some thread is inside and
      can move, and the release it ends with hands the mutex to the longest-waiting thread. */
  lemma WaitersHaveAnOwner(ss: seq<State>, ms: seq<Move>) returns (o: Tid)
    requires Trace(ss, ms) && UpsAllowed(ss, ms) && ss[|ms|].sem.waiters != []
    ensures var s := ss[|ms|];
      && o in s.pc && o in s.nest && Inside(s, o) && s.pc[o] != Waiting
      && (s.pc[o] == Release ==>
            Next(s, o, CallUp).pc == s.pc[o := Idle][s.sem.waiters[0] := Granted])
  {
    AllowedSound(ss, ms);
    var owner := SoundInv(ss, ms);
    o := owner.value;
    assert OwnerView(ss[|ms|], o);
  }

  // ----- whole calls -----

  lemma QueueKept(s: State, t: Tid, call: Call)
    requires WellFormed(s) && Queue(s) && Enabled(s, t, call)
    ensures WellFormed(Next(s, t, call)) && Queue(Next(s, t, call))
  {
    var s' := Next(s, t, call);
    if s.pc[t] == Enqueue && Blocks(s.sem) {
      EnqueueKept(s, t, call);
    } else if s.pc[t] == Release && s.sem.waiters != [] {
      ReleaseKept(s, t, call);
    } else {
      QueueStays(s, t, call);
    }
  }

  lemma EnqueueKept(s: State, t: Tid, call: Call)
    requires WellFormed(s) && Queue(s) && Enabled(s, t, call) && s.pc[t] == Enqueue && Blocks(s.sem)
    ensures WellFormed(Next(s, t, call)) && Queue(Next(s, t, call))
  {
    hide Queue;
    QueueJoined(s, Next(s, t, call), t);
  }

  lemma ReleaseKept(s: State, t: Tid, call: Call)
    requires WellFormed(s) && Queue(s) && Enabled(s, t, call) && s.pc[t] == Release && s.sem.waiters != []
    ensures WellFormed(Next(s, t, call)) && Queue(Next(s, t, call))
  {
    hide Queue;
    assert s.sem.waiters[0] in s.pc;
    QueueLeft(s, Next(s, t, call), t);
  }

  lemma QueueStays(s: State, t: Tid, call: Call)
    requires WellFormed(s) && Queue(s) && Enabled(s, t, call)
    requires !(s.pc[t] == Enqueue && Blocks(s.sem)) && !(s.pc[t] == Release && s.sem.waiters != [])
    ensures WellFormed(Next(s, t, call)) && Queue(Next(s, t, call))
  {
    var s' := Next(s, t, call);
    assert s'.sem.waiters == s.sem.waiters && s'.pc == s.pc[t := s'.pc[t]] && s'.pc[t] != Waiting;
  }

  lemma {:induction false} QueueAt(ss: seq<State>, ms: seq<Move>, i: nat)
    requires Trace(ss, ms) && i <= |ms|
    ensures WellFormed(ss[i]) && Queue(ss[i])
  {
    hide WellFormed, Queue, Next, Enabled;
    if i > 0 {
      QueueAt(ss, ms, i - 1);
      assert ss[i - 1 + 1] == Next(ss[i - 1], ms[i - 1].t, ms[i - 1].call);
      QueueKept(ss[i - 1], ms[i - 1].t, ms[i - 1].call);
    } else {
      InitialQueue(ss[0]);
    }
  }

  lemma InitialQueue(s: State)
    requires Initial(s)
    ensures WellFormed(s) && Queue(s)
  {}

  /** Another thread's step leaves `t` where it is, unless it wakes it up. */
  lemma OthersStep(s: State, t: Tid, u: Tid, call: Call)
    requires WellFormed(s) && Queue(s) && Enabled(s, u, call) && t in s.pc && t != u
    ensures var s' := Next(s, u, call);
      && t in s'.pc && t in s'.nest && s'.nest[t] == s.nest[t]
      && (t in s'.res <==> t in s.res) && (t in s.res ==> s'.res[t] == s.res[t])
      && (s'.pc[t] == s.pc[t] || (s.pc[t] == Waiting && s'.pc[t] == Granted))
  {
    var s' := Next(s, u, call);
    if s.pc[u] == Release && s.sem.waiters != [] {
      assert s'.pc == s.pc[u := Idle][s.sem.waiters[0] := Granted];
    } else {
      assert s'.pc == s.pc[u := s'.pc[u]];
    }
  }

  /** From move i to state j thread `t` makes one call: it begins it with move i and begins no other one. */
  ghost predicate InCall(ss: seq<State>, ms: seq<Move>, t: Tid, i: nat, j: nat) {
    && Trace(ss, ms) && i < j <= |ms| && ms[i].t == t && t in ss[i].pc && ss[i].pc[t] == Idle
    && forall k | i < k < j && ms[k].t == t :: t in ss[k].pc && ss[k].pc[t] != Idle
  }

  /** How many of the moves from i up to j are its own. */
  function Own(ms: seq<Move>, t: Tid, i: nat, j: nat): nat
    requires i <= j <= |ms|
    decreases j - i
  {
    if i == j then 0 else Own(ms, t, i, j - 1) + if ms[j - 1].t == t then 1 else 0
  }

  /** How many steps tryDown has still to make at most. */
  function Left(pc: Pc): nat {
    match pc
    case TryTake => 3
    case Claim => 2
    case Inc => 1
    case _ => 0
  }

  /** It has taken the mutex: it was the holder already, or found the semaphore free. */
  ghost predicate Took(ss: seq<State>, ms: seq<Move>, t: Tid, i: nat, j: nat)
    requires InCall(ss, ms, t, i, j)
  {
    ss[i].holder == t || exists k | i < k < j :: Takes(ss, ms, t, k)
  }

  ghost predicate Takes(ss: seq<State>, ms: seq<Move>, t: Tid, k: nat)
    requires k < |ss| && k < |ms|
  {
    ms[k].t == t && t in ss[k].pc && ss[k].pc[t] == TryTake && CanTake(ss[k].sem)
  }

  lemma TryDownSteps(s: State, t: Tid, call: Call)
    requires Enabled(s, t, call) && s.pc[t] in {TryTake, Claim, Inc}
    ensures var s' := Next(s, t, call);
      && t in s'.pc && t in s'.nest
      && s'.pc[t] == (match s.pc[t]
                      case TryTake => if CanTake(s.sem) then Claim else Idle
                      case Claim => Inc
                      case _ => Idle)
      && (s'.pc[t] == Idle ==> t in s'.res && s'.res[t] == (s.pc[t] == Inc))
      && s'.nest[t] == s.nest[t] + (if s.pc[t] == Inc then 1 else 0)
  {}

  /** A thread in tryDown never waits, gets at least one step further with every step of its own, and what
      it has done so far shows where it is. */
  lemma {:induction false} InTryDown(ss: seq<State>, ms: seq<Move>, t: Tid, i: nat, j: nat)
    requires InCall(ss, ms, t, i, j) && ms[i].call == CallTryDown
    ensures t in ss[j].pc && t in ss[j].nest && t in ss[i].nest
    ensures var pc, took := ss[j].pc[t], Took(ss, ms, t, i, j);
      && pc in {Idle, TryTake, Claim, Inc}
      && Own(ms, t, i, j) + Left(pc) <= 4
      && (pc == TryTake ==> !took) && (pc in {Claim, Inc} ==> took)
      && ss[j].nest[t] == ss[i].nest[t] + (if pc == Idle && took then 1 else 0)
      && (pc == Idle ==> t in ss[j].res && ss[j].res[t] == took)
    decreases j
  {
    hide Next, Queue, WellFormed;
    QueueAt(ss, ms, j - 1);
    var k := j - 1;
    assert ss[k + 1] == Next(ss[k], ms[k].t, ms[k].call);
    if k == i {
      assert Own(ms, t, i, k) == 0;
      Begun(ss[i], t, ms[i].call);
    } else {
      InTryDown(ss, ms, t, i, k);
      if ms[k].t != t {
        OthersStep(ss[k], t, ms[k].t, ms[k].call);
      } else {
        TryDownSteps(ss[k], t, ms[k].call);
      }
      assert Took(ss, ms, t, i, j) <==> Took(ss, ms, t, i, k) || Takes(ss, ms, t, k);
    }
  }

  /** A failing tryDown leaves the mutex alone. */
  lemma {:induction false} FailingTryDown(ss: seq<State>, ms: seq<Move>, t: Tid, i: nat, j: nat, k: nat)
    requires InCall(ss, ms, t, i, j) && ms[i].call == CallTryDown && !Took(ss, ms, t, i, j)
    requires i <= k < j && ms[k].t == t
    ensures ss[k + 1].sem == ss[k].sem && ss[k + 1].holder == ss[k].holder && ss[k + 1].depth == ss[k].depth
  {
    assert ss[k + 1] == Next(ss[k], ms[k].t, ms[k].call);
    if k > i {
      InTryDown(ss, ms, t, i, k);
      assert !Takes(ss, ms, t, k);
    }
  }

  /** tryDown never waits and is back after at most four steps of its own.  It returns true exactly if its
      thread was the holder or it found the semaphore free, and then the thread has entered once more and is
      the holder; otherwise it changes neither the semaphore nor holder nor depth. */
  lemma TryDownReturns(ss: seq<State>, ms: seq<Move>, t: Tid, i: nat, j: nat)
    requires InCall(ss, ms, t, i, j) && ms[i].call == CallTryDown
    ensures var s, took := ss[j], ss[i].holder == t || exists k | i < k < j :: Takes(ss, ms, t, k);
      && t in s.pc && t in s.nest && t in ss[i].nest
      && s.pc[t] != Waiting && t !in s.sem.waiters
      && Own(ms, t, i, j) <= 4 && (Own(ms, t, i, j) == 4 ==> s.pc[t] == Idle)
      && (s.pc[t] == Idle ==>
            && t in s.res && s.res[t] == took && s.nest[t] == ss[i].nest[t] + (if took then 1 else 0)
            && (took && UpsAllowed(ss[..j + 1], ms[..j]) ==> s.holder == t && s.depth == Wrap16(s.nest[t])))
      && (!took ==> forall k | i <= k < j && ms[k].t == t ::
            ss[k + 1].sem == ss[k].sem && ss[k + 1].holder == ss[k].holder && ss[k + 1].depth == ss[k].depth)
  {
    hide Next, Inv, Allowed;
    InTryDown(ss, ms, t, i, j);
    QueueAt(ss, ms, j);
    if !Took(ss, ms, t, i, j) {
      forall k | i <= k < j && ms[k].t == t
        ensures ss[k + 1].sem == ss[k].sem && ss[k + 1].holder == ss[k].holder && ss[k + 1].depth == ss[k].depth
      {
        FailingTryDown(ss, ms, t, i, j, k);
      }
    } else if ss[j].pc[t] == Idle && UpsAllowed(ss[..j + 1], ms[..j]) {
      assert Trace(ss[..j + 1], ms[..j]);
      MutualExclusion(ss[..j + 1], ms[..j], t, t);
    }
  }

  /** Where down can be, and how many steps it has still to make. */
  function LeftOfDown(pc: Pc): nat {
    match pc
    case Enqueue => 4
    case Waiting => 3
    case Granted => 3
    case Claim => 2
    case Inc => 1
    case _ => 0
  }

  lemma DownSteps(s: State, t: Tid, call: Call)
    requires WellFormed(s) && Queue(s) && Enabled(s, t, call) && t in s.pc
    requires s.pc[t] in {Enqueue, Granted, Claim, Inc}
    ensures var s' := Next(s, t, call);
      && t in s'.pc && t in s'.nest && s'.pc[t] in {Idle, Waiting, Granted, Claim, Inc}
      && LeftOfDown(s'.pc[t]) < LeftOfDown(s.pc[t])
      && s'.nest[t] == s.nest[t] + (if s'.pc[t] == Idle then 1 else 0)
  {}

  /** down returns only with the thread having entered once more, after at most five steps of its own. */
  lemma {:induction false} DownReturns(ss: seq<State>, ms: seq<Move>, t: Tid, i: nat, j: nat)
    requires InCall(ss, ms, t, i, j) && ms[i].call == CallDown
    ensures t in ss[j].pc && t in ss[j].nest && t in ss[i].nest
    ensures var pc := ss[j].pc[t];
      && pc in {Idle, Enqueue, Waiting, Granted, Claim, Inc}
      && Own(ms, t, i, j) + LeftOfDown(pc) <= 5
      && ss[j].nest[t] == ss[i].nest[t] + (if pc == Idle then 1 else 0)
    decreases j
  {
    hide Next, Queue, WellFormed;
    QueueAt(ss, ms, j - 1);
    var k := j - 1;
    assert ss[k + 1] == Next(ss[k], ms[k].t, ms[k].call);
    if k == i {
      assert Own(ms, t, i, k) == 0;
      Begun(ss[i], t, ms[i].call);
    } else {
      DownReturns(ss, ms, t, i, k);
      if ms[k].t != t {
        OthersStep(ss[k], t, ms[k].t, ms[k].call);
      } else {
        DownSteps(ss[k], t, ms[k].call);
      }
    }
  }

  function LeftOfUp(pc: Pc): nat {
    match pc
    case Dec => 3
    case Clear => 2
    case Release => 1
    case _ => 0
  }

  lemma UpSteps(s: State, t: Tid, call: Call)
    requires WellFormed(s) && Queue(s) && Enabled(s, t, call) && t in s.pc
    requires s.pc[t] in {Dec, Clear, Release}
    ensures var s' := Next(s, t, call);
      && t in s'.pc && t in s'.nest && s'.pc[t] in {Idle, Clear, Release}
      && LeftOfUp(s'.pc[t]) < LeftOfUp(s.pc[t])
      && s'.nest[t] == if s.pc[t] == Dec && s.nest[t] > 0 then s.nest[t] - 1 else s.nest[t]
  {}

  lemma Begun(s: State, t: Tid, call: Call)
    requires Enabled(s, t, call) && s.pc[t] == Idle
    ensures var s' := Next(s, t, call);
      && t in s'.pc && t in s'.nest && s'.nest[t] == s.nest[t]
      && match call
         case CallDown => s'.pc[t] in {Enqueue, Inc}
         case CallTryDown => s'.pc[t] == if s.holder == t then Inc else TryTake
         case CallUp => s'.pc[t] == Dec
  {}

  /** up never waits, is back after at most four steps of its own, and takes one level off. */
  lemma {:induction false} UpReturns(ss: seq<State>, ms: seq<Move>, t: Tid, i: nat, j: nat)
    requires InCall(ss, ms, t, i, j) && ms[i].call == CallUp
    ensures t in ss[j].pc && t in ss[j].nest && t in ss[i].nest
    ensures var pc := ss[j].pc[t];
      && pc in {Idle, Dec, Clear, Release}
      && Own(ms, t, i, j) + LeftOfUp(pc) <= 4
      && ss[j].nest[t] == if pc == Dec || ss[i].nest[t] == 0 then ss[i].nest[t] else ss[i].nest[t] - 1
    decreases j
  {
    hide Next, Queue, WellFormed;
    QueueAt(ss, ms, j - 1);
    var k := j - 1;
    assert ss[k + 1] == Next(ss[k], ms[k].t, ms[k].call);
    if k == i {
      assert Own(ms, t, i, k) == 0;
      Begun(ss[i], t, ms[i].call);
    } else {
      UpReturns(ss, ms, t, i, k);
      if ms[k].t != t {
        OthersStep(ss[k], t, ms[k].t, ms[k].call);
      } else {
        UpSteps(ss[k], t, ms[k].call);
      }
    }
  }

  // ----- runs that reach every nesting -----

  lemma Extend(ss: seq<State>, ms: seq<Move>, m: Move) returns (ss': seq<State>, ms': seq<Move>)
    requires Trace(ss, ms) && Enabled(ss[|ms|], m.t, m.call)
    ensures Trace(ss', ms') && ms' == ms + [m] && ss' == ss + [Next(ss[|ms|], m.t, m.call)]
  {
    ss', ms' := ss + [Next(ss[|ms|], m.t, m.call)], ms + [m];
  }

  /** Thread 0 has entered n times, thread 1 not at all. */
  function Nested(n: nat): State {
    State(if n == 0 then Sem(1, []) else Sem(0, []), if n == 0 then INVALID else 0, Wrap16(n),
          map[0 := Idle, 1 := Idle], map[0 := n, 1 := 0], if n == 0 then map[] else map[0 := true], false)
  }

  /** Thread 0 has been granted the semaphore. */
  function Entering(): State {
    State(Sem(0, []), INVALID, 0, map[0 := Granted, 1 := Idle], map[0 := 0, 1 := 0], map[], false)
  }

  lemma EnterFirst()
    ensures var s1 := Next(Nested(0), 0, CallDown);
      Enabled(s1, 0, CallDown) && Next(s1, 0, CallDown) == Entering()
  {}

  lemma EnterThen()
    ensures var s1 := Next(Entering(), 0, CallDown);
      Enabled(s1, 0, CallDown) && var s2 := Next(s1, 0, CallDown);
      Enabled(s2, 0, CallDown) && Next(s2, 0, CallDown) == Nested(1)
  {
    WrapSteps(0);
  }

  lemma EnterAgain(n: nat)
    requires n > 0
    ensures var s1 := Next(Nested(n), 0, CallDown);
      Enabled(s1, 0, CallDown) && Next(s1, 0, CallDown) == Nested(n + 1)
  {
    WrapSteps(n);
  }

  lemma {:induction false} RunTo(n: nat) returns (ss: seq<State>, ms: seq<Move>)
    ensures Trace(ss, ms) && ss[|ms|] == Nested(n)
  {
    if n == 0 {
      ss, ms := [Nested(0)], [];
    } else {
      hide Next, Trace;
      var m := Move(0, CallDown);
      ss, ms := RunTo(n - 1);
      ss, ms := Extend(ss, ms, m);
      if n == 1 {
        EnterFirst();
        EnterThen();
        ss, ms := Extend(ss, ms, m);
        ss, ms := Extend(ss, ms, m);
        ss, ms := Extend(ss, ms, m);
      } else {
        EnterAgain(n - 1);
      }
      ss, ms := Extend(ss, ms, m);
    }
  }

  /** At every nesting that the 16 bits do not show as positive -- first at 32768 -- up fails. */
  lemma FailingRun(n: nat) returns (ss: seq<State>, ms: seq<Move>)
    requires !(1 <= n % 65536 <= MAX_NEST)
    ensures Trace(ss, ms) && ms != [] && ss[|ms|].failed
    ensures ss[|ms| - 1] == Nested(n) && ms[|ms| - 1] == Move(0, CallUp)
  {
    ss, ms := RunTo(n);
    WrapSteps(n);
    ss, ms := Extend(ss, ms, Move(0, CallUp));
  }

  lemma LeavesEarly(n: nat)
    requires n > 1 && n % 65536 == 1
    ensures var s1 := Next(Nested(n), 0, CallUp);
      Enabled(s1, 0, CallUp) && var s2 := Next(s1, 0, CallUp);
      Enabled(s2, 0, CallUp) && var s3 := Next(s2, 0, CallUp);
      Enabled(s3, 0, CallUp) && Next(s3, 0, CallUp)
        == State(Sem(1, []), INVALID, 0, map[0 := Idle, 1 := Idle], map[0 := n - 1, 1 := 0], map[0 := true], false)
  {
    WrapSteps(n);
  }

  lemma GetsInside(n: nat)
    requires n > 0
    ensures
      var s := State(Sem(1, []), INVALID, 0, map[0 := Idle, 1 := Idle], map[0 := n, 1 := 0], map[0 := true], false);
      Enabled(s, 1, CallTryDown) && var s1 := Next(s, 1, CallTryDown);
      Enabled(s1, 1, CallTryDown) && var s2 := Next(s1, 1, CallTryDown);
      s2.pc.Keys == {0, 1} == s2.nest.Keys && !s2.failed && Inside(s2, 0) && Inside(s2, 1)
  {}

  /** At every nesting that the 16 bits take for the outermost one -- first at 65537 -- up gives the mutex
      away, no assertion fails, and another thread gets inside as well. */
  lemma TwoInside(n: nat) returns (ss: seq<State>, ms: seq<Move>)
    requires n > 1 && n % 65536 == 1
    ensures Trace(ss, ms) && !ss[|ms|].failed
    ensures ss[|ms|].pc.Keys == {0, 1} == ss[|ms|].nest.Keys && Inside(ss[|ms|], 0) && Inside(ss[|ms|], 1)
  {
    hide Next, Trace, Inside;
    ss, ms := RunTo(n);
    LeavesEarly(n);
    GetsInside(n - 1);
    ss, ms := Extend(ss, ms, Move(0, CallUp));
    ss, ms := Extend(ss, ms, Move(0, CallUp));
    ss, ms := Extend(ss, ms, Move(0, CallUp));
    ss, ms := Extend(ss, ms, Move(0, CallUp));
    ss, ms := Extend(ss, ms, Move(1, CallTryDown));
    ss, ms := Extend(ss, ms, Move(1, CallTryDown));
  }
}
