/**
 The TLB shootdown of kernel/src/mm/vmm.cpp under the page-table lock, as a state machine over the atomic
 steps of any number of cores (section 4.10.5 of the Intel SDM, volume 3A). Every interleaving is allowed;
 cores may cache translations at any moment.
 */
module Shootdown {
  import opened Machine

  /** Where a core is inside map_page / unmap_page. */
  datatype Phase =
    | Idle
    | Spin                              // SpinLock::lock
    | Edit                              // holding the lock, between page-table stores
    | Freed(page: nat)                  // frame returned by unmap_page_locked, entry still to be cleared
    | Invalidate(page: nat)             // entry stored, invlpg still to come
    | Count(i: nat, pending: nat)       // first loop of flush_remote_tlbs
    | Publish(pending: nat)             // tlb_shootdown_pending.store
    | Send(i: nat)                      // second loop
    | Wait                              // polling the counter
    | Release                           // SpinLock::unlock

  datatype State = State(
    ids: seq<nat>,                      // apic id of each core
    initialized: seq<bool>,
    phase: seq<Phase>,
    locked: bool,
    pending: nat,                       // tlb_shootdown_pending
    latched: seq<bool>,                 // IPI delivered, handler not entered
    handling: seq<bool>,                // CR3 reloaded, counter not yet decremented
    table: map<nat, nat>,               // present translations
    version: nat,                       // number of page-table stores so far
    tlb: seq<map<nat, nat>>,
    reloaded: seq<nat>,                 // version seen by the core's last CR3 reload
    free: set<nat>,                     // frames the frame allocator may hand out
    returned: set<nat>                  // frames given back since the lock was taken
  )

  datatype Step =
    | Begin(c: nat)
    | TryLock(c: nat)
    | FreeFrame(c: nat, page: nat)
    | StoreEntry(c: nat, page: nat, present: bool, frame: nat)
    | Invlpg(c: nat)
    | StartFlush(c: nat)
    | CountOne(c: nat)
    | PublishCount(c: nat)
    | SendOne(c: nat)
    | Poll(c: nat)
    | Unlock(c: nat)
    | EnterHandler(c: nat)
    | Acknowledge(c: nat)
    | Cache(c: nat, page: nat)
    | AllocFrame(c: nat, frame: nat)
    | Boot(c: nat)

  ghost predicate Shape(s: State)
  {
    var n := |s.ids|;
    && n < W32 && |s.initialized| == |s.phase| == |s.latched| == |s.handling| == |s.tlb| == |s.reloaded| == n
    && forall i, j :: 0 <= i < j < n ==> s.ids[i] != s.ids[j]
  }

  /** Core k gets an IPI when core c shoots down: initialised and a different apic id. */
  predicate Target(ids: seq<nat>, initialized: seq<bool>, c: nat, k: nat)
    requires c < |ids| && k < |ids| == |initialized|
  {
    ids[k] != ids[c] && initialized[k]
  }

  predicate InFlush(p: Phase) { p.Count? || p.Publish? || p.Send? || p.Wait? }

  predicate Holding(p: Phase) { !p.Idle? && !p.Spin? }

  ghost predicate Enabled(s: State, t: Step)
    requires Shape(s)
  {
    && t.c < |s.ids|
    && (t.Boot? || s.initialized[t.c])
    && var p := s.phase[t.c];
       match t
       case Begin(_) => p.Idle?
       case TryLock(_) => p.Spin?
       // a frame that is not in use would panic in the allocator
       case FreeFrame(_, page) => p.Edit? && page in s.table && s.table[page] !in s.free
       case StoreEntry(_, page, present, _) => p.Edit? || (p == Freed(page) && !present)
       case Invlpg(_) => p.Invalidate?
       case StartFlush(_) => p.Edit?
       case CountOne(_) => p.Count?
       case PublishCount(_) => p.Publish?
       case SendOne(_) => p.Send?
       case Poll(_) => p.Wait?
       case Unlock(_) => p.Release?
       case EnterHandler(c) => s.latched[c] && !s.handling[c]
       case Acknowledge(c) => s.handling[c]
       case Cache(_, page) => page in s.table
       // outside the lock, or in ensure_page_table
       case AllocFrame(_, frame) => (p.Idle? || p.Edit?) && frame in s.free
       // flags are stable during one shootdown
       case Boot(c) => !s.initialized[c] && forall k :: 0 <= k < |s.ids| ==> !InFlush(s.phase[k])
  }

  function With(m: map<nat, nat>, p: nat, f: nat): map<nat, nat> { m[p := f] }

  function Goto(s: State, c: nat, p: Phase): State
    requires c < |s.phase|
  {
    s.(phase := s.phase[c := p])
  }

  ghost function Apply(s: State, t: Step): State
    requires Shape(s) && Enabled(s, t)
  {
    var n, p := |s.ids|, s.phase[t.c];
    match t
    case Begin(c) => Goto(s, c, Spin)
    // locked_.exchange(true): the old value decides, a loser keeps spinning
    case TryLock(c) => if s.locked then s else Goto(s.(locked := true, returned := {}), c, Edit)
    case FreeFrame(c, page) =>
      Goto(s.(free := s.free + {s.table[page]}, returned := s.returned + {s.table[page]}), c, Freed(page))
    case StoreEntry(c, page, present, frame) =>
      Goto(s.(table := if present then With(s.table, page, frame) else s.table - {page}, version := s.version + 1),
           c, Invalidate(page))
    case Invlpg(c) => Goto(s.(tlb := s.tlb[c := s.tlb[c] - {p.page}]), c, Edit)
    case StartFlush(c) => Goto(s, c, Count(0, 0))
    case CountOne(c) =>
      if p.i < n then Goto(s, c, Count(p.i + 1, p.pending + if Target(s.ids, s.initialized, c, p.i) then 1 else 0))
      else if p.pending == 0 then Goto(s, c, Release)
      else Goto(s, c, Publish(p.pending))
    case PublishCount(c) => Goto(s.(pending := p.pending), c, Send(0))
    case SendOne(c) =>
      if p.i < n then Goto(if Target(s.ids, s.initialized, c, p.i) then s.(latched := s.latched[p.i := true])
         else s, c, Send(p.i + 1))
      else Goto(s, c, Wait)
    case Poll(c) => if s.pending == 0 then Goto(s, c, Release) else s
    case Unlock(c) => Goto(s.(locked := false), c, Idle)
    case EnterHandler(c) =>
      s.(latched := s.latched[c := false], handling := s.handling[c := true],
         tlb := s.tlb[c := map[]], reloaded := s.reloaded[c := s.version])
    // fetch_sub(1) on a uint32_t
    case Acknowledge(c) =>
      s.(pending := if s.pending == 0 then W32 - 1 else s.pending - 1, handling := s.handling[c := false])
    case Cache(c, page) => s.(tlb := s.tlb[c := With(s.tlb[c], page, s.table[page])])
    case AllocFrame(c, frame) => s.(free := s.free - {frame})
    // the core has just loaded CR3
    case Boot(c) =>
      s.(initialized := s.initialized[c := true], tlb := s.tlb[c := map[]], reloaded := s.reloaded[c := s.version])
  }

  // ---- invariant ---------------------------------------------------------------------------------

  ghost predicate Coherent(tlb: map<nat, nat>, table: map<nat, nat>)
  {
    forall p :: p in tlb ==> p in table && table[p] == tlb[p]
  }

  /** Cores with an IPI that is not acknowledged yet. */
  ghost function Unacknowledged(latched: seq<bool>, handling: seq<bool>): set<nat>
    requires |latched| == |handling|
  {
    set k: nat | k < |latched| && (latched[k] || handling[k])
  }

  /** Targets among the cores from i on. */
  ghost function TargetsFrom(ids: seq<nat>, initialized: seq<bool>, c: nat, i: nat): set<nat>
    requires c < |ids| == |initialized|
  {
    set k: nat | i <= k < |ids| && Target(ids, initialized, c, k)
  }

  ghost function TargetsBelow(ids: seq<nat>, initialized: seq<bool>, c: nat, i: nat): set<nat>
    requires c < |ids| == |initialized|
  {
    set k: nat | k < i && k < |ids| && Target(ids, initialized, c, k)
  }

  ghost predicate Quiet(s: State)
    requires Shape(s)
  {
    s.pending == 0 && forall k :: 0 <= k < |s.ids| ==> !s.latched[k] && !s.handling[k]
  }

  /** Nothing stale, and CR3 reloaded since the last page-table store. */
  ghost predicate Flushed(tlb: map<nat, nat>, table: map<nat, nat>, reloaded: nat, version: nat)
  {
    Coherent(tlb, table) && reloaded == version
  }

  /** IPIs in flight while core c sends (up to i) or waits (i == |ids|). */
  ghost predicate InFlight(s: State, c: nat, i: nat)
    requires Shape(s) && c < |s.ids|
  {
    && s.pending == |TargetsFrom(s.ids, s.initialized, c, i)| + |Unacknowledged(s.latched, s.handling)|
    && (forall k: nat :: k < |s.ids| && (s.latched[k] || s.handling[k]) ==>
        k < i && Target(s.ids, s.initialized, c, k) && !(s.latched[k] && s.handling[k]))
    && (forall k: nat :: k < |s.ids| && k < i && Target(s.ids, s.initialized, c, k) && !s.latched[k] ==>
        Flushed(s.tlb[k], s.table, s.reloaded[k], s.version))
  }

  /** What holds while core c owns the lock. */
  ghost predicate HolderInv(s: State, c: nat)
    requires Shape(s) && c < |s.ids|
  {
    var n := |s.ids|;
    match s.phase[c]
    case Idle => true
    case Spin => true
    case Edit => Quiet(s) && Coherent(s.tlb[c], s.table)
    case Freed(_) => Quiet(s) && Coherent(s.tlb[c], s.table)
    case Invalidate(page) => Quiet(s) && Coherent(s.tlb[c] - {page}, s.table)
    case Count(i, pending) => i <= n && pending == |TargetsBelow(s.ids, s.initialized, c, i)| && Quiet(s)
      && Coherent(s.tlb[c], s.table)
    case Publish(pending) => pending == |TargetsFrom(s.ids, s.initialized, c, 0)| && Quiet(s)
      && Coherent(s.tlb[c], s.table)
    case Send(i) => i <= n && InFlight(s, c, i) && Coherent(s.tlb[c], s.table)
    case Wait => InFlight(s, c, n) && Coherent(s.tlb[c], s.table)
    case Release =>
      && Quiet(s) && Coherent(s.tlb[c], s.table)
      && forall k: nat :: k < n && Target(s.ids, s.initialized, c, k) ==>
          Flushed(s.tlb[k], s.table, s.reloaded[k], s.version)
  }

  /** The flag is set exactly while some core is inside, and never two are. */
  ghost predicate Mutex(s: State)
  {
    && Shape(s)
    && (forall c: nat :: c < |s.ids| && !s.phase[c].Idle? ==> s.initialized[c])
    && (forall c: nat, d: nat :: c < |s.ids| && d < |s.ids| && Holding(s.phase[c]) && Holding(s.phase[d]) ==> c == d)
    && (s.locked <==> exists c: nat :: c < |s.ids| && Holding(s.phase[c]))
  }

  /** With the lock free, no core caches anything the tables do not say. */
  ghost predicate FreeInv(s: State)
    requires Shape(s)
  {
    Quiet(s) && forall k: nat :: k < |s.ids| && s.initialized[k] ==> Coherent(s.tlb[k], s.table)
  }

  ghost predicate Inv(s: State)
  {
    && Mutex(s)
    && (forall c: nat :: c < |s.ids| && Holding(s.phase[c]) ==> HolderInv(s, c))
    && (!s.locked ==> FreeInv(s))
  }

  ghost predicate Start(s: State)
  {
    && Shape(s) && !s.locked && Quiet(s)
    && (forall k: nat :: k < |s.ids| ==> s.phase[k] == Idle && s.tlb[k] == map[])
  }

  lemma StartInv(s: State)
    requires Start(s)
    ensures Inv(s)
  {
  }

  // ---- every step keeps the invariant --------------------------------------------------------------

  lemma BelowGrows(ids: seq<nat>, init: seq<bool>, c: nat, i: nat)
    requires c < |ids| == |init| && i < |ids|
    ensures |TargetsBelow(ids, init, c, i + 1)| == |TargetsBelow(ids, init, c, i)| + if Target(ids, init, c, i)
             then 1 else 0
  {
    hide Target;
    assert TargetsBelow(ids, init, c, i + 1) == TargetsBelow(ids, init, c, i) + if Target(ids, init, c, i) then {i}
            else {};
  }

  lemma FromShrinks(ids: seq<nat>, init: seq<bool>, c: nat, i: nat)
    requires c < |ids| == |init| && i < |ids|
    ensures |TargetsFrom(ids, init, c, i)| == |TargetsFrom(ids, init, c, i + 1)| + if Target(ids, init, c, i) then 1
             else 0
  {
    hide Target;
    assert TargetsFrom(ids, init, c, i) == TargetsFrom(ids, init, c, i + 1) + if Target(ids, init, c, i) then {i}
            else {};
  }

  lemma WholeRange(ids: seq<nat>, init: seq<bool>, c: nat)
    requires c < |ids| == |init|
    ensures TargetsBelow(ids, init, c, |ids|) == TargetsFrom(ids, init, c, 0)
    ensures TargetsFrom(ids, init, c, |ids|) == {} && TargetsBelow(ids, init, c, 0) == {}
  {
  }

  /** Mutual exclusion survives every step. */
  lemma MutexStep(s: State, t: Step)
    requires Mutex(s) && Enabled(s, t)
    ensures Mutex(Apply(s, t))
  {
    hide Mutex, Apply, Enabled;
    if t.EnterHandler? || t.Acknowledge? || t.Cache? || t.AllocFrame? || t.Boot? {
      AsyncStep(s, t);
    } else if t.Begin? || t.TryLock? || t.Unlock? {
      LockStep(s, t);
    } else {
      HolderStep(s, t);
    }
  }

  /** Interrupts, the hardware walker and a booting core leave phases and lock alone. */
  lemma AsyncStep(s: State, t: Step)
    requires Mutex(s) && Enabled(s, t) && (t.EnterHandler? || t.Acknowledge? || t.Cache? || t.AllocFrame? || t.Boot?)
    ensures Mutex(Apply(s, t))
  {
    var s' := Apply(s, t);
    assert Shape(s') && s'.phase == s.phase && s'.locked == s.locked;
    hide Apply, Shape;
    assert forall c: nat :: c < |s.ids| && s.initialized[c] ==> s'.initialized[c];
  }

  /** A step of the lock holder keeps it the holder. */
  lemma HolderStep(s: State, t: Step)
    requires Mutex(s) && Enabled(s, t) && !t.Begin? && !t.TryLock? && !t.Unlock?
    requires !t.EnterHandler? && !t.Acknowledge? && !t.Cache? && !t.AllocFrame? && !t.Boot?
    ensures Mutex(Apply(s, t))
  {
    hide Target;
    StaysHolder(s, t);
    hide Apply;
    var s', c := Apply(s, t), t.c;
    assert forall k: nat :: k < |s.ids| ==> (Holding(s'.phase[k]) <==> Holding(s.phase[k]));
  }

  lemma StaysHolder(s: State, t: Step)
    requires Shape(s) && Enabled(s, t) && !t.Begin? && !t.TryLock? && !t.Unlock?
    requires !t.EnterHandler? && !t.Acknowledge? && !t.Cache? && !t.AllocFrame? && !t.Boot?
    ensures var s', c := Apply(s, t), t.c;
            && Shape(s') && s'.ids == s.ids && s'.initialized == s.initialized && s'.locked == s.locked
            && Holding(s.phase[c]) && Holding(s'.phase[c]) && s'.phase == s.phase[c := s'.phase[c]]
  {
    hide Target;
  }

  lemma LockStep(s: State, t: Step)
    requires Mutex(s) && Enabled(s, t) && (t.Begin? || t.TryLock? || t.Unlock?)
    ensures Mutex(Apply(s, t))
  {
    var s', c := Apply(s, t), t.c;
    assert forall k :: 0 <= k < |s.ids| && k != c ==> s'.phase[k] == s.phase[k];
    match t {
      case Begin(_) =>
        if s.locked { var h: nat :| h < |s.ids| && Holding(s.phase[h]); assert Holding(s'.phase[h]); }
      case TryLock(_) =>
        if !s.locked { assert Holding(s'.phase[c]); }
      case Unlock(_) =>
        assert Holding(s.phase[c]);
    }
  }

  /** HolderInv looks at everything except the phases of the other cores, the lock flag and the frames. */
  lemma SameHolder(s: State, s': State, h: nat)
    requires Shape(s) && Shape(s') && h < |s.ids| && HolderInv(s, h)
    requires s' == s.(phase := s'.phase, locked := s'.locked, free := s'.free) && s'.phase[h] == s.phase[h]
    ensures HolderInv(s', h)
  {
  }

  lemma BeginKeeps(s: State, c: nat)
    requires Inv(s) && Enabled(s, Begin(c))
    ensures Inv(Apply(s, Begin(c)))
  {
    hide HolderInv, Target;
    var s' := Apply(s, Begin(c));
    MutexStep(s, Begin(c));
    forall h: nat | h < |s.ids| && Holding(s'.phase[h]) ensures HolderInv(s', h) {
      SameHolder(s, s', h);
    }
  }

  lemma TryLockKeeps(s: State, c: nat)
    requires Inv(s) && Enabled(s, TryLock(c))
    ensures Inv(Apply(s, TryLock(c)))
  {
    var s' := Apply(s, TryLock(c));
    MutexStep(s, TryLock(c));
    if !s.locked {
      forall h: nat | h < |s.ids| && Holding(s'.phase[h]) ensures HolderInv(s', h) { assert h == c; }
    }
  }

  lemma UnlockKeeps(s: State, c: nat)
    requires Inv(s) && Enabled(s, Unlock(c))
    ensures Inv(Apply(s, Unlock(c)))
  {
    var s' := Apply(s, Unlock(c));
    MutexStep(s, Unlock(c));
    assert HolderInv(s, c);
    forall k: nat | k < |s.ids| && s.initialized[k] ensures Coherent(s'.tlb[k], s'.table) {
      if k != c { assert Target(s.ids, s.initialized, c, k) by { Distinct(s, c, k); } }
    }
    assert forall h: nat :: h < |s.ids| ==> !Holding(s'.phase[h]);
  }

  lemma Distinct(s: State, c: nat, k: nat)
    requires Shape(s) && c < |s.ids| && k < |s.ids| && c != k
    ensures s.ids[c] != s.ids[k]
  {
  }

  /** A step of the lock holder: the invariant of the new state is the holder's own. */
  lemma HolderMoved(s: State, t: Step)
    requires Inv(s) && Enabled(s, t) && Holding(s.phase[t.c]) && Shape(Apply(s, t)) && |Apply(s, t).ids| == |s.ids|
    requires Holding(Apply(s, t).phase[t.c])
    requires HolderInv(Apply(s, t), t.c)
    ensures Inv(Apply(s, t))
  {
    hide HolderInv, Apply;
    MutexStep(s, t);
    var s' := Apply(s, t);
    assert s'.locked;
    forall h: nat | h < |s'.ids| && Holding(s'.phase[h]) ensures HolderInv(s', h) { assert h == t.c; }
  }

  lemma EditKeeps(s: State, t: Step)
    requires Inv(s) && Enabled(s, t) && (t.FreeFrame? || t.StoreEntry? || t.Invlpg? || t.StartFlush?)
    ensures Inv(Apply(s, t))
  {
    var s', c := Apply(s, t), t.c;
    assert HolderInv(s, c) && Shape(s');
    if t.StartFlush? { WholeRange(s.ids, s.initialized, c); }
    HolderMoved(s, t);
  }

  lemma CountKeeps(s: State, c: nat)
    requires Inv(s) && Enabled(s, CountOne(c))
    ensures Inv(Apply(s, CountOne(c)))
  {
    var s', p := Apply(s, CountOne(c)), s.phase[c];
    assert HolderInv(s, c) && Shape(s');
    hide TargetsFrom, TargetsBelow;
    if p.i < |s.ids| {
      BelowGrows(s.ids, s.initialized, c, p.i);
    } else {
      WholeRange(s.ids, s.initialized, c);
      if p.pending == 0 { NoTargets(s, c); }
    }
    HolderMoved(s, CountOne(c));
  }

  lemma NoTargets(s: State, c: nat)
    requires Shape(s) && c < |s.ids| && |TargetsFrom(s.ids, s.initialized, c, 0)| == 0
    ensures forall k: nat :: k < |s.ids| ==> !Target(s.ids, s.initialized, c, k)
  {
    forall k: nat | k < |s.ids|
      ensures !Target(s.ids, s.initialized, c, k)
    {
      assert k !in TargetsFrom(s.ids, s.initialized, c, 0);
    }
  }

  lemma PublishKeeps(s: State, c: nat)
    requires Inv(s) && Enabled(s, PublishCount(c))
    ensures Inv(Apply(s, PublishCount(c)))
  {
    var s' := Apply(s, PublishCount(c));
    assert HolderInv(s, c) && Shape(s');
    assert Unacknowledged(s'.latched, s'.handling) == {};
    HolderMoved(s, PublishCount(c));
  }

  lemma SendKeeps(s: State, c: nat)
    requires Inv(s) && Enabled(s, SendOne(c))
    ensures Inv(Apply(s, SendOne(c)))
  {
    var s', i := Apply(s, SendOne(c)), s.phase[c].i;
    assert HolderInv(s, c) && Shape(s');
    hide TargetsFrom, TargetsBelow, Unacknowledged, Target, InFlight;
    if i < |s.ids| {
      FromShrinks(s.ids, s.initialized, c, i);
      SentOne(s, s', c, i);
    }
    HolderMoved(s, SendOne(c));
  }

  lemma SentOne(s: State, s': State, c: nat, i: nat)
    requires Shape(s) && c < |s.ids| && i < |s.ids| && InFlight(s, c, i)
    requires |TargetsFrom(s.ids, s.initialized, c, i)| ==
             |TargetsFrom(s.ids, s.initialized, c, i + 1)| + if Target(s.ids, s.initialized, c, i) then 1 else 0
    requires s' == s.(phase := s'.phase, latched := if Target(s.ids, s.initialized, c, i) then s.latched[i := true]
              else s.latched)
    requires Shape(s')
    ensures InFlight(s', c, i + 1)
  {
    hide TargetsFrom, Flushed, Target, Unacknowledged;
    if Target(s.ids, s.initialized, c, i) {
      assert !s.latched[i] && !s.handling[i];
      OneLatched(s.latched, s.handling, i);
    }
  }

  lemma OneLatched(latched: seq<bool>, handling: seq<bool>, i: nat)
    requires |latched| == |handling| && i < |latched| && !latched[i] && !handling[i]
    ensures |Unacknowledged(latched[i := true], handling)| == |Unacknowledged(latched, handling)| + 1
  {
    var u, u' := Unacknowledged(latched, handling), Unacknowledged(latched[i := true], handling);
    assert u' == u + {i} && i !in u;
  }

  /** Reading zero: no IPI is unacknowledged, so every target has been through its handler. */
  lemma PollKeeps(s: State, c: nat)
    requires Inv(s) && Enabled(s, Poll(c))
    ensures Inv(Apply(s, Poll(c)))
  {
    var s' := Apply(s, Poll(c));
    if s.pending == 0 {
      assert HolderInv(s, c) && Shape(s');
      AllAcknowledged(s, c);
      HolderMoved(s, Poll(c));
    }
  }

  lemma AllAcknowledged(s: State, c: nat)
    requires Shape(s) && c < |s.ids| && InFlight(s, c, |s.ids|) && s.pending == 0
    ensures Quiet(s) && forall k: nat :: k < |s.ids| && Target(s.ids, s.initialized, c, k) ==>
              Flushed(s.tlb[k], s.table, s.reloaded[k], s.version)
  {
    hide TargetsFrom, Flushed, Target;
    forall k: nat | k < |s.ids|
      ensures !s.latched[k] && !s.handling[k]
    {
      assert k !in Unacknowledged(s.latched, s.handling);
    }
  }

  /** Entering the handler: the IPI moves from latched to handling, and the core is flushed from here on. */
  lemma EnterKeeps(s: State, c: nat)
    requires Inv(s) && Enabled(s, EnterHandler(c))
    ensures Inv(Apply(s, EnterHandler(c)))
  {
    var s' := Apply(s, EnterHandler(c));
    MutexStep(s, EnterHandler(c));
    var h := Holder(s, c);
    assert HolderInv(s, h);
    var i := Sent(s, h);
    EnterInFlight(s, s', h, i, c);
    hide InFlight, TargetsFrom, TargetsBelow, Quiet;
    assert c != h;
    assert HolderInv(s', h);
    OnlyHolder(s, s', h);
  }

  /** While any IPI is pending somewhere, exactly one core holds the lock, and it sends or waits. */
  lemma Holder(s: State, c: nat) returns (h: nat)
    requires Inv(s) && c < |s.ids| && (s.latched[c] || s.handling[c])
    ensures h < |s.ids| && Holding(s.phase[h]) && (s.phase[h].Send? || s.phase[h].Wait?) && s.locked
    ensures HolderInv(s, h) && InFlight(s, h, Sent(s, h)) && Sent(s, h) <= |s.ids|
  {
    assert !Quiet(s);
    assert s.locked;
    h :| h < |s.ids| && Holding(s.phase[h]);
    assert HolderInv(s, h);
  }

  ghost function Sent(s: State, h: nat): nat
    requires Shape(s) && h < |s.ids|
  {
    if s.phase[h].Send? then s.phase[h].i else |s.ids|
  }

  /** A step of another core that leaves phases and lock alone. */
  lemma OnlyHolder(s: State, s': State, h: nat)
    requires Mutex(s) && Mutex(s') && s'.phase == s.phase && s'.locked == s.locked && s.locked
    requires h < |s.ids| == |s'.ids| && Holding(s.phase[h]) && HolderInv(s', h)
    ensures Inv(s')
  {
  }

  lemma EnterInFlight(s: State, s': State, h: nat, i: nat, c: nat)
    requires Shape(s) && Shape(s') && h < |s.ids| && i <= |s.ids| && c < |s.ids| && InFlight(s, h, i) && s.latched[c]
             && !s.handling[c]
    requires s' == s.(latched := s.latched[c := false], handling := s.handling[c := true],
                      tlb := s.tlb[c := map[]], reloaded := s.reloaded[c := s.version])
    ensures InFlight(s', h, i) && Target(s.ids, s.initialized, h, c)
  {
    hide TargetsFrom, Target;
    assert Unacknowledged(s'.latched, s'.handling) == Unacknowledged(s.latched, s.handling);
    assert Flushed(s'.tlb[c], s'.table, s'.reloaded[c], s'.version);
    hide Flushed;
  }

  /** fetch_sub never underflows: the acknowledging core itself is still counted. */
  lemma AcknowledgeCounts(s: State, c: nat)
    requires Inv(s) && Enabled(s, Acknowledge(c))
    ensures s.pending > 0
  {
    var h := Holder(s, c);
    assert c in Unacknowledged(s.latched, s.handling);
  }

  lemma AcknowledgeKeeps(s: State, c: nat)
    requires Inv(s) && Enabled(s, Acknowledge(c))
    ensures Inv(Apply(s, Acknowledge(c)))
  {
    var s' := Apply(s, Acknowledge(c));
    MutexStep(s, Acknowledge(c));
    AcknowledgeCounts(s, c);
    var h := Holder(s, c);
    AckInFlight(s, s', h, Sent(s, h), c);
    hide InFlight, TargetsFrom, TargetsBelow, Quiet;
    assert HolderInv(s', h);
    OnlyHolder(s, s', h);
  }

  lemma AckInFlight(s: State, s': State, h: nat, i: nat, c: nat)
    requires Shape(s) && Shape(s') && h < |s.ids| && c < |s.ids| && InFlight(s, h, i) && s.handling[c] && s.pending > 0
    requires s' == s.(pending := s.pending - 1, handling := s.handling[c := false])
    ensures InFlight(s', h, i)
  {
    hide TargetsFrom, Target, Flushed, Unacknowledged;
    assert !s.latched[c];
    OneAcknowledged(s.latched, s.handling, c);
  }

  lemma OneAcknowledged(latched: seq<bool>, handling: seq<bool>, c: nat)
    requires |latched| == |handling| && c < |handling| && handling[c] && !latched[c]
    ensures |Unacknowledged(latched, handling)| == |Unacknowledged(latched, handling[c := false])| + 1
  {
    var u, u' := Unacknowledged(latched, handling), Unacknowledged(latched, handling[c := false]);
    assert u == u' + {c} && c !in u';
  }

  /** Caching a current translation makes nothing stale. */
  lemma CacheKeeps(s: State, c: nat, page: nat)
    requires Inv(s) && Enabled(s, Cache(c, page))
    ensures Inv(Apply(s, Cache(c, page)))
  {
    var s' := Apply(s, Cache(c, page));
    MutexStep(s, Cache(c, page));
    CachedCoherent(s.tlb[c], s.table, page);
    if s.locked {
      var h: nat :| h < |s.ids| && Holding(s.phase[h]);
      assert HolderInv(s, h);
      CacheHolder(s, s', h, c, page);
      OnlyHolder(s, s', h);
    }
  }

  lemma CachedCoherent(tlb: map<nat, nat>, table: map<nat, nat>, page: nat)
    requires page in table
    ensures Coherent(tlb, table) ==> Coherent(With(tlb, page, table[page]), table)
    ensures forall x :: Coherent(tlb - {x}, table) ==> Coherent(With(tlb, page, table[page]) - {x}, table)
  {
  }

  lemma CacheHolder(s: State, s': State, h: nat, c: nat, page: nat)
    requires Shape(s) && Shape(s') && h < |s.ids| && c < |s.ids| && page in s.table && HolderInv(s, h)
    requires s' == s.(tlb := s.tlb[c := With(s.tlb[c], page, s.table[page])])
    ensures HolderInv(s', h)
  {
    hide TargetsFrom, TargetsBelow, Target, Coherent, With;
    CachedCoherent(s.tlb[c], s.table, page);
    forall k: nat | k < |s.ids| && Flushed(s.tlb[k], s.table, s.reloaded[k], s.version)
      ensures Flushed(s'.tlb[k], s'.table, s'.reloaded[k], s'.version)
    {
    }
  }

  lemma AllocKeeps(s: State, c: nat, frame: nat)
    requires Inv(s) && Enabled(s, AllocFrame(c, frame))
    ensures Inv(Apply(s, AllocFrame(c, frame)))
  {
    hide HolderInv, Target;
    var s' := Apply(s, AllocFrame(c, frame));
    MutexStep(s, AllocFrame(c, frame));
    forall h: nat | h < |s.ids| && Holding(s'.phase[h]) ensures HolderInv(s', h) {
      SameHolder(s, s', h);
    }
  }

  /** A core that comes up between shootdowns starts with an empty TLB. */
  lemma BootKeeps(s: State, c: nat)
    requires Inv(s) && Enabled(s, Boot(c))
    ensures Inv(Apply(s, Boot(c)))
  {
    var s' := Apply(s, Boot(c));
    MutexStep(s, Boot(c));
    assert Coherent(map[], s.table);
    if s.locked {
      var h: nat :| h < |s.ids| && Holding(s.phase[h]);
      assert HolderInv(s, h) && !InFlush(s.phase[h]) && h != c;
      assert HolderInv(s', h);
      OnlyHolder(s, s', h);
    }
  }

  /** Every atomic step of every core keeps the invariant. */
  lemma StepKeeps(s: State, t: Step)
    requires Inv(s) && Enabled(s, t)
    ensures Inv(Apply(s, t))
  {
    hide Inv, Enabled, Apply;
    match t {
      case Begin(c) => BeginKeeps(s, c);
      case TryLock(c) => TryLockKeeps(s, c);
      case FreeFrame(_, _) => EditKeeps(s, t);
      case StoreEntry(_, _, _, _) => EditKeeps(s, t);
      case Invlpg(_) => EditKeeps(s, t);
      case StartFlush(_) => EditKeeps(s, t);
      case CountOne(c) => CountKeeps(s, c);
      case PublishCount(c) => PublishKeeps(s, c);
      case SendOne(c) => SendKeeps(s, c);
      case Poll(c) => PollKeeps(s, c);
      case Unlock(c) => UnlockKeeps(s, c);
      case EnterHandler(c) => EnterKeeps(s, c);
      case Acknowledge(c) => AcknowledgeKeeps(s, c);
      case Cache(c, page) => CacheKeeps(s, c, page);
      case AllocFrame(c, frame) => AllocKeeps(s, c, frame);
      case Boot(c) => BootKeeps(s, c);
    }
  }

  // ---- runs ----------------------------------------------------------------------------------------

  /** A finite run of any number of cores: states and the steps between them. */
  ghost predicate Run(ss: seq<State>, ts: seq<Step>)
  {
    && |ss| == |ts| + 1 && Start(ss[0])
    && forall i :: 0 <= i < |ts| ==> Shape(ss[i]) && Enabled(ss[i], ts[i]) && ss[i + 1] == Apply(ss[i], ts[i])
  }

  lemma {:induction false} RunInv(ss: seq<State>, ts: seq<Step>, i: nat)
    requires Run(ss, ts) && i < |ss|
    ensures Inv(ss[i])
  {
    if i == 0 {
      StartInv(ss[0]);
    } else {
      RunInv(ss, ts, i - 1);
      StepKeeps(ss[i - 1], ts[i - 1]);
    }
  }

  /** At most one core is between lock and unlock, in every state of every run. */
  lemma OneShootdownAtATime(ss: seq<State>, ts: seq<Step>, i: nat, c: nat, d: nat)
    requires Run(ss, ts) && i < |ss| && Shape(ss[i]) && c < |ss[i].ids| && d < |ss[i].ids|
    requires Holding(ss[i].phase[c]) && Holding(ss[i].phase[d])
    ensures c == d
  {
    RunInv(ss, ts, i);
  }

  /** While c sends or waits, the counter is the IPIs still to send plus those not acknowledged. */
  lemma CounterIsExact(ss: seq<State>, ts: seq<Step>, i: nat, c: nat)
    requires Run(ss, ts) && i < |ss| && Shape(ss[i]) && c < |ss[i].ids|
             && (ss[i].phase[c].Send? || ss[i].phase[c].Wait?)
    ensures var s := ss[i];
            s.pending == |TargetsFrom(s.ids, s.initialized, c, Sent(s, c))| + |Unacknowledged(s.latched, s.handling)|
  {
    RunInv(ss, ts, i);
    assert HolderInv(ss[i], c);
  }

  /** The unsigned counter never wraps below zero. */
  lemma CounterNeverUnderflows(ss: seq<State>, ts: seq<Step>, i: nat)
    requires Run(ss, ts) && i < |ts| && ts[i].Acknowledge?
    ensures ss[i].pending > 0 && ss[i + 1].pending == ss[i].pending - 1
  {
    RunInv(ss, ts, i);
    AcknowledgeCounts(ss[i], ts[i].c);
  }

  /**
   When the initiator reads zero, every other initialised core has reloaded CR3 after the last page-table
   store, and no initialised core caches a translation the tables do not contain.
   */
  lemma ZeroMeansFlushed(ss: seq<State>, ts: seq<Step>, i: nat)
    requires Run(ss, ts) && i < |ts| && ts[i].Poll? && ss[i].pending == 0
    ensures var s, c := ss[i], ts[i].c;
            forall k: nat :: k < |s.ids| && s.initialized[k] ==>
              Coherent(s.tlb[k], s.table) && (k != c ==> s.reloaded[k] == s.version)
  {
    RunInv(ss, ts, i);
    var s, c := ss[i], ts[i].c;
    assert HolderInv(s, c);
    AllAcknowledged(s, c);
    forall k: nat | k < |s.ids| && s.initialized[k] && k != c
      ensures Flushed(s.tlb[k], s.table, s.reloaded[k], s.version)
    {
      Distinct(s, c, k);
      assert Target(s.ids, s.initialized, c, k);
    }
  }

  /** Whenever the lock is free, all TLBs of initialised cores agree with the page tables. */
  lemma UnlockedMeansCoherent(ss: seq<State>, ts: seq<Step>, i: nat)
    requires Run(ss, ts) && i < |ss| && !ss[i].locked
    ensures Shape(ss[i]) && forall k: nat :: k < |ss[i].ids| && ss[i].initialized[k] ==>
              Coherent(ss[i].tlb[k], ss[i].table)
  {
    RunInv(ss, ts, i);
  }

  // ---- frames given back before the flush ------------------------------------------------------------

  /** What the callers of map_pages and unmap_pages keep: see the accounts of the virtual memory manager. */
  ghost predicate Careful(s: State, t: Step)
  {
    && (t.StoreEntry? && t.present ==> t.frame !in s.free)
    && (t.FreeFrame? ==> forall p :: p in s.table && p != t.page && t.page in s.table ==> s.table[p] != s.table[t.page])
  }

  ghost predicate CarefulRun(ss: seq<State>, ts: seq<Step>)
  {
    && Run(ss, ts) && (forall p :: p in ss[0].table ==> ss[0].table[p] !in ss[0].free)
    && forall i :: 0 <= i < |ts| ==> Careful(ss[i], ts[i])
  }

  /** Some initialised core has a cached translation to this frame. */
  ghost predicate Cached(s: State, f: nat)
    requires Shape(s)
  {
    exists k: nat, p :: k < |s.ids| && s.initialized[k] && p in s.tlb[k] && s.tlb[k][p] == f
  }

  /** The holder of the lock gave the frame back in this critical section and has not finished its flush. */
  ghost predicate InLimbo(s: State, f: nat)
    requires Shape(s)
  {
    f in s.returned && exists h: nat :: h < |s.ids| && Holding(s.phase[h]) && !s.phase[h].Release?
  }

  /** A free frame is in the tables only between free_frame and the store that clears its entry. */
  ghost predicate TableInv(s: State)
    requires Shape(s)
  {
    forall p :: p in s.table && s.table[p] in s.free ==>
      s.table[p] in s.returned && exists h: nat :: h < |s.ids| && s.phase[h] == Freed(p)
  }

  /** A free frame that a core still caches was given back since the lock was taken. */
  ghost predicate CacheInv(s: State)
    requires Shape(s)
  {
    forall k: nat, p :: k < |s.ids| && s.initialized[k] && p in s.tlb[k] && s.tlb[k][p] in s.free ==>
      s.locked && s.tlb[k][p] in s.returned
  }

  lemma NoFreedEntry(s: State)
    requires Shape(s) && TableInv(s) && forall h: nat :: h < |s.ids| ==> !s.phase[h].Freed?
    ensures forall p :: p in s.table ==> s.table[p] !in s.free
  {
  }

  /** Steps that leave the phase Freed, the tables and the frames given back alone. */
  lemma TableSame(s: State, s': State)
    requires Shape(s) && Shape(s') && TableInv(s) && |s'.ids| == |s.ids| && s'.table == s.table && s'.free <= s.free
    requires s'.returned == s.returned
    requires forall h: nat :: h < |s.ids| && s.phase[h].Freed? ==> s'.phase[h] == s.phase[h]
    ensures TableInv(s')
  {
  }

  lemma TableStep(s: State, t: Step)
    requires Inv(s) && Enabled(s, t) && Careful(s, t) && TableInv(s)
    ensures Mutex(Apply(s, t)) && TableInv(Apply(s, t))
  {
    MutexStep(s, t);
    hide Inv, Mutex, TableInv, Apply, Enabled, Careful;
    if t.StoreEntry? || t.FreeFrame? {
      EditTable(s, t);
    } else {
      OtherTable(s, t);
    }
  }

  /** The other steps leave the tables alone, and a core that is in Freed stays there. */
  lemma OtherTable(s: State, t: Step)
    requires Inv(s) && Enabled(s, t) && TableInv(s) && !t.StoreEntry? && !t.FreeFrame? && Shape(Apply(s, t))
    ensures TableInv(Apply(s, t))
  {
    hide HolderInv, FreeInv, Target;
    var s' := Apply(s, t);
    if t.TryLock? && !s.locked {
      NobodyFreed(s, t);
      NoFreedEntry(s);
    } else {
      TablesAlone(s, t);
      FreedStays(s, t);
      hide Apply, Enabled, Inv, TableInv;
      TableSame(s, s');
    }
  }

  lemma TablesAlone(s: State, t: Step)
    requires Shape(s) && Enabled(s, t) && !t.StoreEntry? && !t.FreeFrame? && (t.TryLock? ==> s.locked)
    ensures var s' := Apply(s, t);
            && |s'.ids| == |s.ids| && s'.table == s.table && s'.free <= s.free && s'.returned == s.returned
  {
    hide Target;
    var s' := Apply(s, t);
    hide Shape;
    if t.AllocFrame? {
      assert s' == s.(free := s.free - {t.frame});
    } else {
      assert s'.ids == s.ids && s'.table == s.table && s'.free == s.free && s'.returned == s.returned;
    }
  }

  lemma FreedStays(s: State, t: Step)
    requires Shape(s) && Enabled(s, t) && !t.StoreEntry?
    ensures var s' := Apply(s, t);
            |s'.phase| == |s.phase| && forall h: nat :: h < |s.ids| && s.phase[h].Freed? ==> s'.phase[h] == s.phase[h]
  {
    hide Target;
    var s', c := Apply(s, t), t.c;
    if s.phase[c].Freed? {
      assert s'.phase == s.phase;
    } else {
      assert |s'.phase| == |s.phase| && forall h: nat :: h < |s.ids| && h != c ==> s'.phase[h] == s.phase[h];
    }
  }

  lemma NobodyFreed(s: State, t: Step)
    requires Mutex(s) && Enabled(s, t) && !s.phase[t.c].Freed?
    requires Holding(s.phase[t.c]) || !s.locked
    ensures forall h: nat :: h < |s.ids| ==> !s.phase[h].Freed?
  {
    assert forall h: nat :: h < |s.ids| && s.phase[h].Freed? ==> Holding(s.phase[h]);
  }

  lemma EditTable(s: State, t: Step)
    requires Mutex(s) && Enabled(s, t) && Careful(s, t) && TableInv(s) && (t.StoreEntry? || t.FreeFrame?)
    ensures Shape(Apply(s, t)) && TableInv(Apply(s, t))
  {
    var s', c := Apply(s, t), t.c;
    if s.phase[c].Freed? {
      assert forall h: nat :: h < |s.ids| && s.phase[h].Freed? ==> h == c by { assert Holding(s.phase[c]); }
    } else {
      NobodyFreed(s, t);
      NoFreedEntry(s);
      if t.FreeFrame? { assert s'.phase[c] == Freed(t.page); }
    }
  }

  lemma CacheStep(s: State, t: Step)
    requires Inv(s) && Enabled(s, t) && TableInv(s) && CacheInv(s)
    ensures Shape(Apply(s, t)) && CacheInv(Apply(s, t))
  {
    var s', c := Apply(s, t), t.c;
    match t {
      case Unlock(_) => ReleaseClears(s, c);
      case Cache(_, page) => CacheFills(s, c, page);
      case FreeFrame(_, _) => assert Holding(s.phase[c]);
      case _ => CacheSame(s, t);
    }
  }

  /** All other steps only take translations and free frames away; taking the lock finds none. */
  lemma CacheSame(s: State, t: Step)
    requires Mutex(s) && Enabled(s, t) && CacheInv(s) && !t.Unlock? && !t.Cache? && !t.FreeFrame?
    ensures Shape(Apply(s, t)) && CacheInv(Apply(s, t))
  {
    MutexStep(s, t);
    FramesShrink(s, t);
    TlbsShrink(s, t);
    hide Apply, Enabled;
  }

  lemma FramesShrink(s: State, t: Step)
    requires Shape(s) && Enabled(s, t) && !t.Unlock? && !t.Cache? && !t.FreeFrame?
    ensures var s' := Apply(s, t);
            && |s'.ids| == |s.ids| && s'.free <= s.free && (s.locked ==> s'.locked && s'.returned == s.returned)
  {
    hide Target;
  }

  lemma TlbsShrink(s: State, t: Step)
    requires Shape(s) && Enabled(s, t) && !t.Cache?
    ensures var s' := Apply(s, t);
            && |s'.tlb| == |s.tlb| && |s'.initialized| == |s.initialized|
            && forall k: nat, p :: k < |s.tlb| && s'.initialized[k] && p in s'.tlb[k] ==>
                 s.initialized[k] && p in s.tlb[k] && s'.tlb[k][p] == s.tlb[k][p]
  {
    hide Target;
    var s' := Apply(s, t);
    if !t.Invlpg? && !t.EnterHandler? && !t.Boot? { assert s'.tlb == s.tlb && s'.initialized == s.initialized; }
  }

  lemma CacheFills(s: State, c: nat, page: nat)
    requires Mutex(s) && Enabled(s, Cache(c, page)) && TableInv(s) && CacheInv(s)
    ensures Shape(Apply(s, Cache(c, page))) && CacheInv(Apply(s, Cache(c, page)))
  {
    if s.table[page] in s.free {
      var h: nat :| h < |s.ids| && s.phase[h] == Freed(page);
      assert Holding(s.phase[h]) && s.locked;
    }
  }

  /** With the flush done, every cached translation is in the tables, and the tables name no free frame. */
  lemma ReleaseClears(s: State, c: nat)
    requires Inv(s) && TableInv(s) && c < |s.ids| && s.phase[c].Release?
    ensures forall f :: f in s.free ==> !Cached(s, f)
  {
    assert HolderInv(s, c) && Holding(s.phase[c]);
    assert forall h: nat :: h < |s.ids| && s.phase[h].Freed? ==> Holding(s.phase[h]);
    NoFreedEntry(s);
    forall k: nat | k < |s.ids| && s.initialized[k] ensures Coherent(s.tlb[k], s.table) {
      if k != c { Distinct(s, c, k); assert Target(s.ids, s.initialized, c, k); }
    }
  }

  lemma {:induction false} FramesInv(ss: seq<State>, ts: seq<Step>, i: nat)
    requires CarefulRun(ss, ts) && i < |ss|
    ensures Inv(ss[i]) && TableInv(ss[i]) && CacheInv(ss[i])
  {
    RunInv(ss, ts, i);
    if i > 0 {
      FramesInv(ss, ts, i - 1);
      TableStep(ss[i - 1], ts[i - 1]);
      CacheStep(ss[i - 1], ts[i - 1]);
    }
  }

  /**
   A frame the allocator may hand out is in no TLB and in no table, in every state of every careful run, unless the
   holder of the lock gave it back and has not finished its flush.
   */
  lemma FreeFrameUncached(ss: seq<State>, ts: seq<Step>, i: nat, f: nat)
    requires CarefulRun(ss, ts) && i < |ss| && Shape(ss[i]) && f in ss[i].free && !InLimbo(ss[i], f)
    ensures !Cached(ss[i], f) && forall p :: p in ss[i].table ==> ss[i].table[p] != f
  {
    FramesInv(ss, ts, i);
    var s := ss[i];
    assert forall h: nat :: h < |s.ids| && s.phase[h].Freed? ==> Holding(s.phase[h]) && !s.phase[h].Release?;
    if s.locked {
      var h: nat :| h < |s.ids| && Holding(s.phase[h]);
      if s.phase[h].Release? { ReleaseClears(s, h); }
    }
  }

  /** Some careful run ends here. */
  ghost predicate Reached(s: State)
  {
    exists ss, ts :: CarefulRun(ss, ts) && ss[|ts|] == s
  }

  lemma ReachedNext(s: State, t: Step)
    requires Reached(s) && Shape(s) && Enabled(s, t) && Careful(s, t)
    ensures Reached(Apply(s, t))
  {
    hide Apply, Enabled, Shape, Start, Careful;
    var ss, ts :| CarefulRun(ss, ts) && ss[|ts|] == s;
    var ss', ts' := ss + [Apply(s, t)], ts + [t];
    assert CarefulRun(ss', ts') && ss'[|ts'|] == Apply(s, t);
  }

  /**
   And the other way round: whenever a free frame is still in the tables, one fill of the TLB of any idle core and one
   allocation by that core hand out a frame the core still has cached.
   */
  lemma FreedFrameStolen(s: State, page: nat, k: nat)
    requires Reached(s) && Shape(s) && k < |s.ids| && s.initialized[k] && s.phase[k].Idle?
    requires page in s.table && s.table[page] in s.free
    ensures var s1, f := Apply(s, Cache(k, page)), s.table[page];
            && Shape(s1) && Enabled(s1, AllocFrame(k, f))
            && var s2 := Apply(s1, AllocFrame(k, f));
               Reached(s2) && Shape(s2) && f !in s2.free && Cached(s2, f) && InLimbo(s, f)
  {
    var f := s.table[page];
    var s1 := Apply(s, Cache(k, page));
    var s2 := Apply(s1, AllocFrame(k, f));
    assert page in s2.tlb[k] && s2.tlb[k][page] == f;
    StillFreed(s, page);
    hide Apply, Reached, InLimbo;
    ReachedNext(s, Cache(k, page));
    ReachedNext(s1, AllocFrame(k, f));
  }

  lemma StillFreed(s: State, page: nat)
    requires Reached(s) && Shape(s) && page in s.table && s.table[page] in s.free
    ensures InLimbo(s, s.table[page])
  {
    var ss, ts :| CarefulRun(ss, ts) && ss[|ts|] == s;
    FramesInv(ss, ts, |ts|);
    assert forall h: nat :: h < |s.ids| && s.phase[h].Freed? ==> Holding(s.phase[h]) && !s.phase[h].Release?;
  }

  // ---- once the entry is cleared -------------------------------------------------------------------------

  ghost predicate Has(s: State, k: nat, p: nat, f: nat)
    requires Shape(s) && k < |s.ids|
  {
    p in s.tlb[k] && s.tlb[k][p] == f
  }

  /** The step takes the translation of page p out of the TLB of core k: a reload, or the core's own invlpg. */
  ghost predicate Clears(s: State, t: Step, k: nat, p: nat)
    requires Shape(s) && k < |s.ids|
  {
    t.c == k && (t.EnterHandler? || t.Boot? || (t.Invlpg? && s.phase[k] == Invalidate(p)))
  }

  ghost predicate Remaps(t: Step, p: nat) { t.StoreEntry? && t.page == p && t.present }

  lemma CachedStep(s: State, t: Step, k: nat, p: nat, f: nat)
    requires Shape(s) && Enabled(s, t) && k < |s.ids| && p !in s.table && !Remaps(t, p)
    ensures var s' := Apply(s, t);
            && |s'.tlb| == |s.tlb| && |s'.ids| == |s.ids| && p !in s'.table
            && (p in s'.tlb[k] && s'.tlb[k][p] == f <==> Has(s, k, p, f) && !Clears(s, t, k, p))
  {
    hide Target;
    var s' := Apply(s, t);
    if !t.Invlpg? && !t.EnterHandler? && !t.Boot? && !t.Cache? { assert s'.tlb == s.tlb; }
  }

  /**
   From the moment the entry of page p is cleared until the page is mapped again, a core has a translation to f cached
   exactly when it had it at that moment and has neither reloaded nor invalidated the page since.
   */
  lemma {:induction false} CachedExactly(ss: seq<State>, ts: seq<Step>, i: nat, j: nat, k: nat, p: nat, f: nat)
    requires Run(ss, ts) && i <= j < |ss| && Shape(ss[i]) && k < |ss[i].ids| && p !in ss[i].table
    requires forall x: nat :: i <= x < j ==> !Remaps(ts[x], p)
    ensures Shape(ss[j]) && |ss[j].ids| == |ss[i].ids| && p !in ss[j].table
    ensures forall x: nat :: i <= x < j ==> Shape(ss[x]) && |ss[x].ids| == |ss[i].ids|
    ensures Has(ss[j], k, p, f) <==>
              Has(ss[i], k, p, f) && forall x: nat :: i <= x < j ==> !Clears(ss[x], ts[x], k, p)
    decreases j
  {
    hide Enabled, Apply, Inv;
    RunInv(ss, ts, j);
    InvShape(ss[j]);
    if i < j {
      CachedExactly(ss, ts, i, j - 1, k, p, f);
      CachedStep(ss[j - 1], ts[j - 1], k, p, f);
    }
  }

  lemma InvShape(s: State)
    requires Inv(s)
    ensures Shape(s)
  {
  }

  /** Two cores and one page on frame 7; core 0 is in phase p, core 1 idle. */
  ghost function TwoCores(p: Phase, locked: bool, returned: set<nat>): State
  {
    State([0, 1], [true, true], [p, Idle], locked, 0, [false, false], [false, false], map[5 := 7], 0, [map[], map[]],
          [0, 0], returned, returned)
  }

  lemma ExampleStarts()
    ensures Reached(TwoCores(Idle, false, {}))
  {
    var s0, none: seq<Step> := TwoCores(Idle, false, {}), [];
    assert CarefulRun([s0], none) && [s0][|none|] == s0;
  }

  lemma ExampleLocks()
    ensures Reached(TwoCores(Edit, true, {}))
  {
    var s0, s1 := TwoCores(Idle, false, {}), TwoCores(Spin, false, {});
    ExampleStarts();
    hide Reached;
    assert s1 == Apply(s0, Begin(0)) && TwoCores(Edit, true, {}) == Apply(s1, TryLock(0));
    ReachedNext(s0, Begin(0));
    ReachedNext(s1, TryLock(0));
  }

  lemma ExampleFrees()
    ensures Reached(TwoCores(Freed(5), true, {7}))
  {
    var s2 := TwoCores(Edit, true, {});
    ExampleLocks();
    hide Reached;
    assert TwoCores(Freed(5), true, {7}) == Apply(s2, FreeFrame(0, 5));
    ReachedNext(s2, FreeFrame(0, 5));
  }

  /** Core 0 gives the frame back, and core 1 gets it while its TLB still maps the page to it. */
  lemma StolenFrameExample()
    ensures Reached(TwoCores(Freed(5), true, {7}).(tlb := [map[], map[5 := 7]], free := {}))
  {
    var s := TwoCores(Freed(5), true, {7});
    ExampleFrees();
    ExampleSteals();
    hide Reached, Cached, InLimbo, Apply, Enabled;
    FreedFrameStolen(s, 5, 1);
  }

  lemma ExampleSteals()
    ensures var s := TwoCores(Freed(5), true, {7});
            var s1, s2 := s.(tlb := [map[], map[5 := 7]]), s.(tlb := [map[], map[5 := 7]], free := {});
            && Shape(s) && Enabled(s, Cache(1, 5)) && s1 == Apply(s, Cache(1, 5))
            && Shape(s1) && Enabled(s1, AllocFrame(1, 7)) && s2 == Apply(s1, AllocFrame(1, 7))
  {
  }
}
