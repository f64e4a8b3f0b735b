/**
 The round-robin scheduler of one core (kernel/src/sched/scheduler.cpp, over the 256-slot table of
 klibcpp/include/klibcpp/static_array.hpp), as a state machine over whole interrupt frames.
 */
module Scheduler {
  import opened Machine

  const CAPACITY := 256

  /** An interrupt frame: the two registers schedule looks at, and the rest. */
  datatype Frame = Frame(eax: nat, ebp: nat, rest: seq<nat>)

  datatype TaskState = READY | RUNNING | BLOCKED | TERMINATED

  datatype Task = Task(id: nat, ctx: Frame, state: TaskState)

  datatype State = State(tasks: seq<Option<Task>>, live: nat, current: nat, nextId: nat, initialized: bool)

  /** What _die leaves in the registers. */
  predicate Signature(ctx: Frame) { ctx.eax == 0xDEAD_DEAD && ctx.ebp == 0 }

  predicate Is(ts: seq<Option<Task>>, i: nat, state: TaskState)
  {
    i < |ts| && ts[i].Some? && ts[i].value.state == state
  }

  /** Slots are filled in order and never emptied. */
  ghost predicate Shape(s: State)
  {
    && |s.tasks| == CAPACITY && s.live <= CAPACITY && s.current < CAPACITY
    && forall i :: 0 <= i < CAPACITY ==> (s.tasks[i].Some? <==> i < s.live)
  }

  // ---- transitions -----------------------------------------------------------------------------------

  function Emplace(s: State, ctx: Frame): State
    requires Shape(s) && s.live < CAPACITY
  {
    s.(tasks := s.tasks[s.live := Some(Task(s.nextId, ctx, READY))], live := s.live + 1, nextId := (s.nextId + 1) % W32)
  }

  function SetState(s: State, i: nat, state: TaskState): State
    requires i < |s.tasks| && s.tasks[i].Some?
  {
    s.(tasks := s.tasks[i := Some(s.tasks[i].value.(state := state))])
  }

  /** The first half of schedule: make the kernel task, or save the running one. */
  function Save(s: State, ctx: Frame): State
    requires Shape(s)
  {
    if s.live <= 1 then Emplace(s, ctx).(current := 1)
    else if Is(s.tasks, s.current, RUNNING) then
      var t := s.tasks[s.current].value;
      s.(tasks := s.tasks[s.current := Some(t.(ctx := ctx, state := if Signature(ctx) then TERMINATED else READY))])
    else s
  }

  function Step(from: nat, k: nat): nat { (from + k) % CAPACITY }

  /** Number of steps, at least k, to the next READY slot; 0 when a whole turn finds none. */
  function Pick(ts: seq<Option<Task>>, from: nat, k: nat): nat
    decreases CAPACITY + 1 - k
  {
    if k > CAPACITY then 0 else if Is(ts, Step(from, k), READY) then k else Pick(ts, from, k + 1)
  }

  /** The second half: run the next READY task, or fall through to the current one. */
  function Dispatch(s: State, ctx: Frame): (r: (State, Frame))
    requires Shape(s)
    ensures Shape(r.0)
  {
    var d := Pick(s.tasks, s.current, 1);
    PickSound(s.tasks, s.current, 1);
    if d > 0 then
      var i := Step(s.current, d);
      (SetState(s, i, RUNNING).(current := i), s.tasks[i].value.ctx)
    else if s.tasks[s.current].Some? then (SetState(s, s.current, RUNNING), ctx)
    else (s, ctx)
  }

  function Tick(s: State, ctx: Frame): (r: (State, Frame))
    requires Shape(s)
    ensures Shape(r.0)
  {
    if !s.initialized || s.live == 0 then (s, ctx) else Dispatch(Save(s, ctx), ctx)
  }

  /** Pick finds the first READY slot in cyclic order, and none exactly when no slot is READY. */
  lemma {:induction false} PickSound(ts: seq<Option<Task>>, from: nat, k: nat)
    requires k > 0
    ensures var d := Pick(ts, from, k);
            if d == 0 then forall e :: k <= e <= CAPACITY ==> !Is(ts, Step(from, e), READY)
            else k <= d <= CAPACITY && Is(ts, Step(from, d), READY) && forall e :: k <= e < d ==>
                !Is(ts, Step(from, e), READY)
    decreases CAPACITY + 1 - k
  {
    if k <= CAPACITY && !Is(ts, Step(from, k), READY) {
      PickSound(ts, from, k + 1);
    }
  }

  // ---- distances -------------------------------------------------------------------------------------

  /** Slots visited from `from`, exclusive, up to i, inclusive. */
  function Distance(from: nat, i: nat): nat
    requires from < CAPACITY && i < CAPACITY
  {
    if from < i then i - from else i + CAPACITY - from
  }

  lemma Walk(from: nat, i: nat, d: nat)
    requires from < CAPACITY && i < CAPACITY && 1 <= d <= CAPACITY
    ensures Step(from, Distance(from, i)) == i && 1 <= Distance(from, i) <= CAPACITY
    ensures from != i ==> Distance(from, i) < CAPACITY
    ensures d < Distance(from, i) ==> Distance(Step(from, d), i) == Distance(from, i) - d
    ensures Step(from, d) < CAPACITY
  {
  }

  /** Dispatching finds somebody exactly when somebody is READY. */
  lemma SomebodyReady(s: State)
    requires Shape(s)
    ensures Pick(s.tasks, s.current, 1) > 0 <==> exists i: nat :: i < CAPACITY && Is(s.tasks, i, READY)
  {
    hide Shape, Is, Step;
    PickSound(s.tasks, s.current, 1);
    InRange(s);
    var d := Pick(s.tasks, s.current, 1);
    if d > 0 {
      Walk(s.current, 0, d);
      assert Is(s.tasks, Step(s.current, d), READY);
    } else {
      forall i: nat | i < CAPACITY ensures !Is(s.tasks, i, READY) {
        Walk(s.current, i, 1);
        assert !Is(s.tasks, Step(s.current, Distance(s.current, i)), READY);
      }
    }
  }

  lemma InRange(s: State)
    requires Shape(s)
    ensures s.current < CAPACITY
  {
  }

  // ---- invariant of idle-safe runs -------------------------------------------------------------------

  /** At most the current task runs; idle, in slot 0, is alive; nothing is ever blocked. */
  ghost predicate Inv(s: State)
  {
    && Shape(s) && s.initialized && s.current < s.live
    && (forall i: nat :: Is(s.tasks, i, RUNNING) ==> i == s.current)
    && (forall i: nat :: !Is(s.tasks, i, BLOCKED))
    && !Is(s.tasks, 0, TERMINATED) && (s.live == 1 ==> Is(s.tasks, 0, READY))
  }

  /** Idle does not show the termination signature. */
  predicate IdleSafe(s: State, ctx: Frame)
  {
    s.current == 0 && Is(s.tasks, 0, RUNNING) ==> !Signature(ctx)
  }

  lemma SaveKeeps(s: State, ctx: Frame)
    requires Inv(s) && IdleSafe(s, ctx)
    ensures Inv(Save(s, ctx)) && forall i: nat :: !Is(Save(s, ctx).tasks, i, RUNNING)
    ensures Is(Save(s, ctx).tasks, 0, READY) && Save(s, ctx).live > 1
  {
    var s1 := Save(s, ctx);
    forall i: nat ensures !Is(s1.tasks, i, RUNNING) && !Is(s1.tasks, i, BLOCKED) {
      assert (Is(s.tasks, i, RUNNING) ==> i == s.current) && !Is(s.tasks, i, BLOCKED);
    }
    assert s1.tasks[0] == s.tasks[0] || s.current == 0;
    assert !Is(s.tasks, 0, BLOCKED) && (Is(s.tasks, 0, RUNNING) ==> s.current == 0);
  }

  /**
   A completed schedule under the invariant: exactly one task runs and it is the current one; it was READY, so
   not TERMINATED; its frame is handed out; every other task keeps its state, terminated ones included.
   */
  lemma TickSafe(s: State, ctx: Frame)
    requires Inv(s) && IdleSafe(s, ctx)
    ensures var (s', out) := Tick(s, ctx); var s1 := Save(s, ctx);
            && Inv(s') && Is(s1.tasks, s'.current, READY)
            && (forall i: nat :: Is(s'.tasks, i, RUNNING) <==> i == s'.current)
            && out == s1.tasks[s'.current].value.ctx
            && s' == SetState(s1, s'.current, RUNNING).(current := s'.current)
  {
    hide Is;
    SaveKeeps(s, ctx);
    var s1 := Save(s, ctx);
    PickSound(s1.tasks, s1.current, 1);
    SomebodyReady(s1);
    var i := Step(s1.current, Pick(s1.tasks, s1.current, 1));
    RunsOnly(s1, i);
  }

  lemma RunsOnly(s: State, i: nat)
    requires Inv(s) && s.live > 1 && Is(s.tasks, i, READY) && forall j: nat :: !Is(s.tasks, j, RUNNING)
    ensures var s' := SetState(s, i, RUNNING).(current := i);
            Inv(s') && forall j: nat :: Is(s'.tasks, j, RUNNING) <==> j == i
  {
    var s' := SetState(s, i, RUNNING).(current := i);
    forall j: nat ensures Is(s'.tasks, j, RUNNING) <==> j == i {
      assert j != i && Is(s'.tasks, j, RUNNING) ==> Is(s.tasks, j, RUNNING);
    }
    forall j: nat ensures !Is(s'.tasks, j, BLOCKED) {
      assert Is(s'.tasks, j, BLOCKED) ==> Is(s.tasks, j, BLOCKED);
    }
  }

  lemma CreateKeeps(s: State, ctx: Frame)
    requires Inv(s) && s.live < CAPACITY
    ensures Inv(Emplace(s, ctx)) && Is(Emplace(s, ctx).tasks, s.live, READY)
  {
    var s' := Emplace(s, ctx);
    forall i: nat ensures !Is(s'.tasks, i, BLOCKED) && (Is(s'.tasks, i, RUNNING) ==> i == s'.current) {
      assert i != s.live && i < CAPACITY ==> s'.tasks[i] == s.tasks[i];
      assert !Is(s.tasks, i, BLOCKED) && (Is(s.tasks, i, RUNNING) ==> i == s.current);
    }
  }

  // ---- runs ------------------------------------------------------------------------------------------

  datatype Op = Create(ctx: Frame) | Interrupt(ctx: Frame)

  /** What is observed: a frame stored for a slot, new or preempted, a slot that died, one that got the processor. */
  datatype Event = Stored(slot: nat, frame: Frame, preempted: bool) | Died(slot: nat) | Ran(slot: nat, frame: Frame)

  ghost predicate Enabled(s: State, op: Op)
  {
    match op
    case Create(_) => s.live < CAPACITY
    case Interrupt(ctx) => IdleSafe(s, ctx)
  }

  ghost function Next(s: State, op: Op): State
    requires Shape(s)
  {
    match op
    case Create(ctx) => if s.live < CAPACITY then Emplace(s, ctx) else s
    case Interrupt(ctx) => Tick(s, ctx).0
  }

  ghost function Events(s: State, op: Op): seq<Event>
    requires Shape(s)
  {
    match op
    case Create(ctx) => [Stored(s.live, ctx, false)]
    case Interrupt(ctx) => SaveEvents(s, ctx) + [Ran(Tick(s, ctx).0.current, Tick(s, ctx).1)]
  }

  ghost function SaveEvents(s: State, ctx: Frame): seq<Event>
  {
    if s.live <= 1 then [Stored(s.live, ctx, false)]
    else if !Is(s.tasks, s.current, RUNNING) then []
    else if Signature(ctx) then [Stored(s.current, ctx, true), Died(s.current)]
    else [Stored(s.current, ctx, true)]
  }

  /** State and trace after a run from s. */
  ghost function Run(s: State, ops: seq<Op>): (State, seq<Event>)
    requires Inv(s) && Legal(s, ops)
    ensures Inv(Run(s, ops).0)
    decreases |ops|, 1
  {
    if ops == [] then (s, [])
    else
      var (t, trace) := Run(s, ops[..|ops| - 1]);
      NextKeeps(t, ops[|ops| - 1]);
      (Next(t, ops[|ops| - 1]), trace + Events(t, ops[|ops| - 1]))
  }

  ghost predicate Legal(s: State, ops: seq<Op>)
    requires Inv(s)
    decreases |ops|, 0
  {
    ops == [] || (Legal(s, ops[..|ops| - 1]) && Enabled(Run(s, ops[..|ops| - 1]).0, ops[|ops| - 1]))
  }

  lemma NextKeeps(s: State, op: Op)
    requires Inv(s) && Enabled(s, op)
    ensures Inv(Next(s, op))
    ensures op.Interrupt? ==> forall i: nat :: Is(Next(s, op).tasks, i, RUNNING) <==> i == Next(s, op).current
  {
    hide Is, Shape, Emplace, Tick, Inv;
    match op
    case Create(ctx) => CreateKeeps(s, ctx);
    case Interrupt(ctx) => TickSafe(s, ctx);
  }

  ghost predicate HasInterrupt(ops: seq<Op>)
  {
    exists k :: 0 <= k < |ops| && ops[k].Interrupt?
  }

  /** After any run with at least one completed schedule, exactly one task is RUNNING: the current one. */
  lemma {:induction false} ExactlyOneRuns(s: State, ops: seq<Op>)
    requires Inv(s) && Legal(s, ops) && HasInterrupt(ops)
    ensures forall i: nat :: Is(Run(s, ops).0.tasks, i, RUNNING) <==> i == Run(s, ops).0.current
  {
    hide Is, Tick, Emplace, IdleSafe, Shape;
    var n := |ops| - 1;
    var t := Run(s, ops[..n]).0;
    NextKeeps(t, ops[n]);
    if ops[n].Create? {
      assert HasInterrupt(ops[..n]) by {
        var k :| 0 <= k < |ops| && ops[k].Interrupt?;
        assert ops[..n][k].Interrupt?;
      }
      ExactlyOneRuns(s, ops[..n]);
      CreateRunsNobody(t, ops[n].ctx);
    }
  }

  lemma CreateRunsNobody(s: State, ctx: Frame)
    requires Shape(s) && s.live < CAPACITY
    ensures forall i: nat :: Is(Emplace(s, ctx).tasks, i, RUNNING) <==> Is(s.tasks, i, RUNNING)
    ensures Emplace(s, ctx).current == s.current
  {
  }

  /** The frame most recently stored for a slot. */
  ghost function LastStored(trace: seq<Event>, i: nat): Option<Frame>
  {
    if trace == [] then None
    else
      var n := |trace| - 1;
      if trace[n].Stored? && trace[n].slot == i then Some(trace[n].frame) else LastStored(trace[..n], i)
  }

  ghost predicate HasDied(trace: seq<Event>, i: nat)
  {
    exists k :: 0 <= k < |trace| && trace[k] == Died(i)
  }

  /** Whoever runs gets the frame stored for it last, and has not died before. */
  ghost predicate RunsRight(trace: seq<Event>)
  {
    forall k :: 0 <= k < |trace| && trace[k].Ran? ==>
      && LastStored(trace[..k], trace[k].slot) == Some(trace[k].frame)
      && !HasDied(trace[..k], trace[k].slot)
  }

  /** The table agrees with the trace. */
  ghost predicate Matches(s: State, trace: seq<Event>)
    requires Shape(s)
  {
    forall i: nat :: i < CAPACITY ==>
      && (i < s.live ==> LastStored(trace, i) == Some(s.tasks[i].value.ctx))
      && (HasDied(trace, i) ==> Is(s.tasks, i, TERMINATED))
  }

  lemma TraceGrows(trace: seq<Event>, e: Event, i: nat)
    ensures LastStored(trace + [e], i) == (if e.Stored? && e.slot == i then Some(e.frame) else LastStored(trace, i))
    ensures HasDied(trace + [e], i) <==> HasDied(trace, i) || e == Died(i)
  {
    var t := trace + [e];
    assert t[..|t| - 1] == trace;
    if HasDied(trace, i) {
      var k :| 0 <= k < |trace| && trace[k] == Died(i);
      assert t[k] == Died(i);
    }
    if e == Died(i) { assert t[|trace|] == Died(i); }
  }

  lemma RightGrows(trace: seq<Event>, e: Event)
    requires RunsRight(trace)
    requires e.Ran? ==> LastStored(trace, e.slot) == Some(e.frame) && !HasDied(trace, e.slot)
    ensures RunsRight(trace + [e])
  {
    var t := trace + [e];
    forall k | 0 <= k < |t| && t[k].Ran?
      ensures LastStored(t[..k], t[k].slot) == Some(t[k].frame) && !HasDied(t[..k], t[k].slot)
    {
      assert t[..k] == trace[..k];
      if k == |trace| { assert trace[..k] == trace; }
    }
  }

  lemma StoreMatches(s: State, s': State, trace: seq<Event>, i: nat, ctx: Frame, preempted: bool)
    requires Shape(s) && Shape(s') && Matches(s, trace) && RunsRight(trace)
    requires i < s'.live && s'.live == (if i < s.live then s.live else s.live + 1)
    requires s'.tasks == s.tasks[i := s'.tasks[i]] && s'.tasks[i].value.ctx == ctx && !Is(s.tasks, i, TERMINATED)
    ensures Matches(s', trace + [Stored(i, ctx, preempted)]) && RunsRight(trace + [Stored(i, ctx, preempted)])
  {
    var e := Stored(i, ctx, preempted);
    RightGrows(trace, e);
    forall j: nat | j < CAPACITY
      ensures (j < s'.live ==> LastStored(trace + [e], j) == Some(s'.tasks[j].value.ctx))
              && (HasDied(trace + [e], j) ==> Is(s'.tasks, j, TERMINATED))
    {
      TraceGrows(trace, e, j);
      assert j < s.live ==> LastStored(trace, j) == Some(s.tasks[j].value.ctx);
      assert j != i ==> s'.tasks[j] == s.tasks[j];
    }
  }

  lemma DeathMatches(s: State, trace: seq<Event>, i: nat)
    requires Shape(s) && Matches(s, trace) && RunsRight(trace) && Is(s.tasks, i, TERMINATED)
    ensures Matches(s, trace + [Died(i)]) && RunsRight(trace + [Died(i)])
  {
    var e := Died(i);
    RightGrows(trace, e);
    forall j: nat | j < CAPACITY
      ensures (j < s.live ==> LastStored(trace + [e], j) == Some(s.tasks[j].value.ctx))
              && (HasDied(trace + [e], j) ==> Is(s.tasks, j, TERMINATED))
    {
      TraceGrows(trace, e, j);
      assert j < s.live ==> LastStored(trace, j) == Some(s.tasks[j].value.ctx);
    }
  }

  lemma RunMatches(s: State, trace: seq<Event>, i: nat)
    requires Shape(s) && Matches(s, trace) && RunsRight(trace) && Is(s.tasks, i, READY)
    ensures var s', e := SetState(s, i, RUNNING).(current := i), Ran(i, s.tasks[i].value.ctx);
            Shape(s') && Matches(s', trace + [e]) && RunsRight(trace + [e])
  {
    var s', e := SetState(s, i, RUNNING).(current := i), Ran(i, s.tasks[i].value.ctx);
    assert i < s.live && LastStored(trace, i) == Some(s.tasks[i].value.ctx);
    assert !HasDied(trace, i);
    RightGrows(trace, e);
    forall j: nat | j < CAPACITY
      ensures (j < s'.live ==> LastStored(trace + [e], j) == Some(s'.tasks[j].value.ctx))
              && (HasDied(trace + [e], j) ==> Is(s'.tasks, j, TERMINATED))
    {
      TraceGrows(trace, e, j);
      assert j < s.live ==> LastStored(trace, j) == Some(s.tasks[j].value.ctx);
      assert j != i ==> s'.tasks[j] == s.tasks[j];
    }
  }

  lemma SaveMatches(s: State, ctx: Frame, trace: seq<Event>)
    requires Inv(s) && IdleSafe(s, ctx) && Matches(s, trace) && RunsRight(trace)
    ensures Shape(Save(s, ctx)) && Matches(Save(s, ctx), trace + SaveEvents(s, ctx))
            && RunsRight(trace + SaveEvents(s, ctx))
  {
    hide Matches, RunsRight;
    SaveKeeps(s, ctx);
    var s1 := Save(s, ctx);
    if s.live <= 1 {
      var e := Stored(s.live, ctx, false);
      assert Matches(Emplace(s, ctx), trace + [e]) && RunsRight(trace + [e]) by {
        StoreMatches(s, Emplace(s, ctx), trace, s.live, ctx, false);
      }
      CurrentIrrelevant(Emplace(s, ctx), 1, trace + [e]);
    } else if !Is(s.tasks, s.current, RUNNING) {
      assert trace + [] == trace;
    } else {
      var e := Stored(s.current, ctx, true);
      StoreMatches(s, s1, trace, s.current, ctx, true);
      if Signature(ctx) {
        DeathMatches(s1, trace + [e], s.current);
        assert trace + [e, Died(s.current)] == trace + [e] + [Died(s.current)];
      }
    }
  }

  lemma CurrentIrrelevant(s: State, c: nat, trace: seq<Event>)
    requires Shape(s) && Matches(s, trace) && c < CAPACITY
    ensures Shape(s.(current := c)) && Matches(s.(current := c), trace)
  {
  }

  lemma NextMatches(s: State, op: Op, trace: seq<Event>)
    requires Inv(s) && Enabled(s, op) && Matches(s, trace) && RunsRight(trace)
    ensures Shape(Next(s, op)) && Matches(Next(s, op), trace + Events(s, op)) && RunsRight(trace + Events(s, op))
  {
    hide Matches, RunsRight, Save, SaveEvents, Pick;
    NextKeeps(s, op);
    match op
    case Create(ctx) =>
      StoreMatches(s, Emplace(s, ctx), trace, s.live, ctx, false);
    case Interrupt(ctx) =>
      SaveMatches(s, ctx, trace);
      TickSafe(s, ctx);
      var s' := Tick(s, ctx).0;
      RunMatches(Save(s, ctx), trace + SaveEvents(s, ctx), s'.current);
      assert trace + Events(s, op) == trace + SaveEvents(s, ctx) + [Ran(s'.current, Tick(s, ctx).1)];
  }

  /** What the constructor leaves: idle in slot 0. */
  ghost function Initial(idle: Frame): State
  {
    State(seq(CAPACITY, i => if i == 0 then Some(Task(1, idle, READY)) else None), 1, 0, 2, true)
  }

  /** The state after the constructor, with the one frame stored so far. */
  lemma InitialRight(idle: Frame)
    ensures Inv(Initial(idle)) && Matches(Initial(idle), [Stored(0, idle, false)])
            && RunsRight([Stored(0, idle, false)])
  {
  }

  /**
   In every run of creations and interrupts in which idle never shows the signature, each dispatched frame is the
   one stored when that task was last preempted, or created, and a task that terminated never runs again.
   */
  lemma {:induction false} RunIsRight(idle: Frame, ops: seq<Op>)
    requires Inv(Initial(idle)) && Legal(Initial(idle), ops)
    ensures var (s, trace) := Run(Initial(idle), ops);
            Inv(s) && Matches(s, [Stored(0, idle, false)] + trace) && RunsRight([Stored(0, idle, false)] + trace)
  {
    hide Matches, RunsRight, Initial, Shape, Is;
    InitialRight(idle);
    if ops == [] {
      assert [Stored(0, idle, false)] + [] == [Stored(0, idle, false)];
    } else {
      var n := |ops| - 1;
      RunIsRight(idle, ops[..n]);
      var (t, trace) := Run(Initial(idle), ops[..n]);
      NextKeeps(t, ops[n]);
      NextMatches(t, ops[n], [Stored(0, idle, false)] + trace);
      var first := [Stored(0, idle, false)];
      assert first + trace + Events(t, ops[n]) == first + (trace + Events(t, ops[n]));
    }
  }

  // ---- who dies ----------------------------------------------------------------------------------------

  /**
   The save of a running task: it is TERMINATED exactly when the frame shows 0xDEADDEAD in eax and zero in ebp, as _die
   leaves them, and READY otherwise; the frame is kept, and no other task is touched.
   */
  lemma SavedAs(s: State, ctx: Frame)
    requires Shape(s) && s.live > 1 && Is(s.tasks, s.current, RUNNING)
    ensures var ts := Save(s, ctx).tasks;
            && (Is(ts, s.current, TERMINATED) <==> ctx.eax == 0xDEAD_DEAD && ctx.ebp == 0)
            && (Is(ts, s.current, READY) <==> ctx.eax != 0xDEAD_DEAD || ctx.ebp != 0)
            && |ts| == |s.tasks| && ts[s.current].value.ctx == ctx
            && forall i: nat :: i < |ts| && i != s.current ==> ts[i] == s.tasks[i]
  {
  }

  /** A frame stored when slot i was preempted shows the two values. */
  ghost predicate ShowsDeath(trace: seq<Event>, i: nat)
  {
    exists k :: 0 <= k < |trace| && DeathAt(trace[k], i)
  }

  ghost predicate DeathAt(e: Event, i: nat)
  {
    e.Stored? && e.preempted && e.slot == i && e.frame.eax == 0xDEAD_DEAD && e.frame.ebp == 0
  }

  lemma DeathJoins(a: seq<Event>, b: seq<Event>, i: nat)
    ensures HasDied(a + b, i) <==> HasDied(a, i) || HasDied(b, i)
    ensures ShowsDeath(a + b, i) <==> ShowsDeath(a, i) || ShowsDeath(b, i)
  {
    var t := a + b;
    assert forall k :: 0 <= k < |a| ==> t[k] == a[k];
    assert forall k :: 0 <= k < |b| ==> t[|a| + k] == b[k];
    assert forall k :: |a| <= k < |t| ==> t[k] == b[k - |a|];
  }

  lemma OneDies(s: State, op: Op, i: nat)
    requires Shape(s)
    ensures HasDied(Events(s, op), i) <==> ShowsDeath(Events(s, op), i)
  {
    hide Tick;
    var t := Events(s, op);
    if op.Interrupt? && s.live > 1 && Is(s.tasks, s.current, RUNNING) {
      var e := Stored(s.current, op.ctx, true);
      assert t[0] == e;
      if Signature(op.ctx) { assert t[1] == Died(s.current); }
      assert DeathAt(t[0], i) <==> i == s.current && Signature(op.ctx);
    }
  }

  /** Over every run, a slot dies exactly when a frame stored at one of its preemptions shows the two values. */
  lemma {:induction false} DiesWhen(s: State, ops: seq<Op>, i: nat)
    requires Inv(s) && Legal(s, ops)
    ensures HasDied(Run(s, ops).1, i) <==> ShowsDeath(Run(s, ops).1, i)
  {
    hide HasDied, ShowsDeath, Events, Inv;
    if ops == [] {
      NobodyYet(i);
    } else {
      var n := |ops| - 1;
      DiesWhen(s, ops[..n], i);
      var (t, trace) := Run(s, ops[..n]);
      InvShape(t);
      DeathJoins(trace, Events(t, ops[n]), i);
      OneDies(t, ops[n], i);
    }
  }

  lemma NobodyYet(i: nat)
    ensures !HasDied([], i) && !ShowsDeath([], i)
  {
  }

  lemma InvShape(s: State)
    requires Inv(s)
    ensures Shape(s)
  {
  }

  // ---- bounded waiting -------------------------------------------------------------------------------

  ghost function Interrupts(ops: seq<Op>): nat
  {
    if ops == [] then 0 else Interrupts(ops[..|ops| - 1]) + if ops[|ops| - 1].Interrupt? then 1 else 0
  }

  /** Each schedule either dispatches a READY task i or brings the current index strictly closer to it. */
  lemma TickCloser(s: State, ctx: Frame, i: nat)
    requires Inv(s) && IdleSafe(s, ctx) && Is(s.tasks, i, READY)
    ensures var s' := Tick(s, ctx).0;
            || s'.current == i
            || (Is(s'.tasks, i, READY) && Distance(s'.current, i) < Distance(s.current, i))
  {
    hide Is, Tick, Dispatch, Save, Pick, Step, Distance;
    SaveKeeps(s, ctx);
    TickSafe(s, ctx);
    var s1, s' := Save(s, ctx), Tick(s, ctx).0;
    StaysReady(s, ctx, i);
    var d := NextIndex(s, ctx);
    Walk(s1.current, i, d);
    assert d <= Distance(s1.current, i) by {
      assert Is(s1.tasks, Step(s1.current, Distance(s1.current, i)), READY);
    }
    if s'.current != i {
      RunKeepsReady(s1, s'.current, i);
    }
  }

  /** How far the scan goes: nobody nearer than d steps is READY. */
  lemma NextIndex(s: State, ctx: Frame) returns (d: nat)
    requires Inv(s) && IdleSafe(s, ctx)
    ensures var s1 := Save(s, ctx);
            && Shape(s1) && 1 <= d <= CAPACITY && Tick(s, ctx).0.current == Step(s1.current, d)
            && forall e :: 1 <= e < d ==> !Is(s1.tasks, Step(s1.current, e), READY)
  {
    hide Is, Step;
    SaveKeeps(s, ctx);
    var s1 := Save(s, ctx);
    d := Pick(s1.tasks, s1.current, 1);
    PickSound(s1.tasks, s1.current, 1);
    SomebodyReady(s1);
  }

  lemma StaysReady(s: State, ctx: Frame, i: nat)
    requires Inv(s) && Is(s.tasks, i, READY)
    ensures Shape(Save(s, ctx)) && i < CAPACITY && Is(Save(s, ctx).tasks, i, READY)
    ensures s.live > 1 ==> Save(s, ctx).current == s.current
    ensures s.live <= 1 ==> i == 0 && Distance(Save(s, ctx).current, i) < Distance(s.current, i)
  {
  }

  lemma RunKeepsReady(s: State, j: nat, i: nat)
    requires Is(s.tasks, j, READY) && Is(s.tasks, i, READY) && i != j
    ensures Is(SetState(s, j, RUNNING).tasks, i, READY)
  {
  }

  lemma ReadyInRange(s: State, i: nat)
    requires Shape(s) && Is(s.tasks, i, READY)
    ensures i < CAPACITY
  {
  }

  lemma CreateKeepsReady(s: State, ctx: Frame, i: nat)
    requires Shape(s) && s.live < CAPACITY && Is(s.tasks, i, READY)
    ensures Is(Emplace(s, ctx).tasks, i, READY) && Emplace(s, ctx).current == s.current
  {
  }

  ghost predicate Served(s: State, ops: seq<Op>, i: nat)
    requires Inv(s) && Legal(s, ops)
  {
    exists k :: 0 < k <= |ops| && ServedAt(s, ops, i, k)
  }

  ghost predicate ServedAt(s: State, ops: seq<Op>, i: nat, k: nat)
    requires Inv(s) && 0 < k <= |ops|
  {
    ops[k - 1].Interrupt? && Legal(s, ops[..k]) && Run(s, ops[..k]).0.current == i
  }

  /** Until it is served, a READY task stays READY and every schedule costs it at least one step of distance. */
  lemma {:induction false} WaitShrinks(s: State, ops: seq<Op>, i: nat)
    requires Inv(s) && Legal(s, ops) && Is(s.tasks, i, READY)
    ensures i < CAPACITY
    ensures Served(s, ops, i) ||
            (Is(Run(s, ops).0.tasks, i, READY)
             && Distance(Run(s, ops).0.current, i) + Interrupts(ops) <= Distance(s.current, i))
  {
    hide Is, Tick, Emplace, IdleSafe, Distance;
    ReadyInRange(s, i);
    if ops != [] {
      var n := |ops| - 1;
      WaitShrinks(s, ops[..n], i);
      if Served(s, ops[..n], i) {
        var k :| 0 < k <= n && ServedAt(s, ops[..n], i, k);
        assert ops[..n][..k] == ops[..k];
        assert ServedAt(s, ops, i, k);
      } else {
        var t := Run(s, ops[..n]).0;
        NextKeeps(t, ops[n]);
        assert ops[..|ops|] == ops;
        if ops[n].Interrupt? {
          TickCloser(t, ops[n].ctx, i);
          assert Next(t, ops[n]).current == i ==> ServedAt(s, ops, i, |ops|);
        } else {
          CreateKeepsReady(t, ops[n].ctx, i);
        }
      }
    }
  }

  /** A READY task is dispatched within Distance(current, i) schedules, at most 255 unless it is the current index. */
  lemma BoundedWaiting(s: State, ops: seq<Op>, i: nat)
    requires Inv(s) && Legal(s, ops) && Is(s.tasks, i, READY)
    ensures i < CAPACITY && Distance(s.current, i) <= CAPACITY && (i != s.current ==> Distance(s.current, i) <= 255)
    ensures Interrupts(ops) >= Distance(s.current, i) ==> Served(s, ops, i)
  {
    hide Served, Legal;
    WaitShrinks(s, ops, i);
    Walk(s.current, i, 1);
    Walk(Run(s, ops).0.current, i, 1);
  }

  /** A READY task that is not served keeps its frame. */
  lemma {:induction false} WaitKeepsFrame(s: State, ops: seq<Op>, i: nat)
    requires Inv(s) && Legal(s, ops) && Is(s.tasks, i, READY)
    ensures Served(s, ops, i)
            || (Is(Run(s, ops).0.tasks, i, READY) && Run(s, ops).0.tasks[i].value.ctx == s.tasks[i].value.ctx)
  {
    hide Is, Tick, Emplace, IdleSafe, Inv;
    if ops != [] {
      var n := |ops| - 1;
      WaitKeepsFrame(s, ops[..n], i);
      if Served(s, ops[..n], i) {
        var k :| 0 < k <= n && ServedAt(s, ops[..n], i, k);
        assert ops[..n][..k] == ops[..k];
        assert ServedAt(s, ops, i, k);
      } else {
        var t := Run(s, ops[..n]).0;
        assert ops[..|ops|] == ops;
        InvShape(t);
        NextKeepsFrame(t, ops[n], i);
        assert ops[n].Interrupt? && Next(t, ops[n]).current == i ==> ServedAt(s, ops, i, |ops|);
      }
    }
  }

  /** One operation: a READY task is dispatched with its frame, or keeps it. */
  lemma NextKeepsFrame(s: State, op: Op, i: nat)
    requires Inv(s) && Enabled(s, op) && Is(s.tasks, i, READY)
    ensures Inv(Next(s, op)) && i < |Next(s, op).tasks| && i < |s.tasks|
    ensures if op.Interrupt? && Next(s, op).current == i then Tick(s, op.ctx).1 == s.tasks[i].value.ctx
            else Is(Next(s, op).tasks, i, READY) && Next(s, op).tasks[i].value.ctx == s.tasks[i].value.ctx
  {
    hide Tick, Dispatch, Pick;
    NextKeeps(s, op);
    if op.Interrupt? {
      TickSafe(s, op.ctx);
      assert Save(s, op.ctx).tasks[i] == s.tasks[i];
    }
  }

  /**
   A running task that is preempted with any other frame gets the processor again, with exactly that frame, at the
   latest when as many schedules as its distance have passed.
   */
  lemma PreemptedReturns(s: State, ctx: Frame, ops: seq<Op>)
    requires Inv(s) && IdleSafe(s, ctx) && s.live > 1 && Is(s.tasks, s.current, RUNNING)
    requires ctx.eax != 0xDEAD_DEAD || ctx.ebp != 0
    ensures Inv(Tick(s, ctx).0) && s.current < CAPACITY && Tick(s, ctx).0.current < CAPACITY
    ensures var s1, c := Tick(s, ctx).0, s.current;
            if s1.current == c then Tick(s, ctx).1 == ctx
            else
              Legal(s1, ops) && Interrupts(ops) >= Distance(s1.current, c) ==>
                exists k :: 0 < k <= |ops| && ReturnsAt(s1, ops, c, k, ctx)
  {
    hide Tick, Dispatch, Pick, Save, Distance, Legal, Run, Inv;
    InvShape(s);
    SavedAs(s, ctx);
    TickSafe(s, ctx);
    var s1, c := Tick(s, ctx).0, s.current;
    InvShape(s1);
    assert Save(s, ctx).tasks[c].value.ctx == ctx;
    if s1.current != c && Legal(s1, ops) && Interrupts(ops) >= Distance(s1.current, c) {
      BoundedWaiting(s1, ops, c);
      FirstServed(s1, ops, c, ctx);
    }
  }

  /** The k-th operation is a schedule that hands this frame to slot i. */
  ghost predicate ReturnsAt(s: State, ops: seq<Op>, i: nat, k: nat, ctx: Frame)
    requires Inv(s) && 0 < k <= |ops|
  {
    && ServedAt(s, ops, i, k) && Legal(s, ops[..k - 1])
    && Tick(Run(s, ops[..k - 1]).0, ops[k - 1].ctx).1 == ctx
  }

  lemma {:induction false} FirstServed(s: State, ops: seq<Op>, i: nat, ctx: Frame)
    requires Inv(s) && Legal(s, ops) && Is(s.tasks, i, READY) && s.tasks[i].value.ctx == ctx && Served(s, ops, i)
    ensures exists k :: 0 < k <= |ops| && ReturnsAt(s, ops, i, k, ctx)
  {
    hide Is, Tick, Emplace, IdleSafe, Inv, Run, Legal, ReturnsAt, ServedAt;
    var k :| 0 < k <= |ops| && ServedAt(s, ops, i, k);
    var n := |ops| - 1;
    LegalShorter(s, ops);
    if Served(s, ops[..n], i) {
      FirstServed(s, ops[..n], i, ctx);
      var j :| 0 < j <= n && ReturnsAt(s, ops[..n], i, j, ctx);
      ReturnsLonger(s, ops, i, j, ctx);
    } else {
      if k <= n { ServedEarlier(s, ops, i, k); }
      LastServes(s, ops, i, ctx);
    }
  }

  lemma LegalShorter(s: State, ops: seq<Op>)
    requires Inv(s) && Legal(s, ops) && ops != []
    ensures Legal(s, ops[..|ops| - 1])
  {
  }

  lemma ReturnsLonger(s: State, ops: seq<Op>, i: nat, k: nat, ctx: Frame)
    requires Inv(s) && 0 < k < |ops| && ReturnsAt(s, ops[..|ops| - 1], i, k, ctx)
    ensures ReturnsAt(s, ops, i, k, ctx)
  {
    hide Tick, Run, Legal, Inv;
    var n := |ops| - 1;
    assert ops[..n][..k] == ops[..k] && ops[..n][..k - 1] == ops[..k - 1];
  }

  lemma ServedEarlier(s: State, ops: seq<Op>, i: nat, k: nat)
    requires Inv(s) && Legal(s, ops) && 0 < k < |ops| && ServedAt(s, ops, i, k) && Legal(s, ops[..|ops| - 1])
    ensures Served(s, ops[..|ops| - 1], i)
  {
    hide Run, Legal, Inv;
    var n := |ops| - 1;
    assert ops[..n][..k] == ops[..k];
    assert ServedAt(s, ops[..n], i, k);
  }

  lemma LastServes(s: State, ops: seq<Op>, i: nat, ctx: Frame)
    requires Inv(s) && Legal(s, ops) && Is(s.tasks, i, READY) && s.tasks[i].value.ctx == ctx && ops != []
    requires Legal(s, ops[..|ops| - 1]) && !Served(s, ops[..|ops| - 1], i) && ServedAt(s, ops, i, |ops|)
    ensures ReturnsAt(s, ops, i, |ops|, ctx)
  {
    hide Is, Tick, Emplace, IdleSafe, Inv, Served;
    var n := |ops| - 1;
    assert ops[..|ops|] == ops;
    WaitKeepsFrame(s, ops[..n], i);
    InvShape(Run(s, ops[..n]).0);
    NextKeepsFrame(Run(s, ops[..n]).0, ops[n], i);
  }

  // ---- what the code does outside those runs -----------------------------------------------------------

  /**
   With two or more tasks, schedule sets a TERMINATED task RUNNING exactly when nobody is READY after the save and
   the current task is terminated: the fall-through revives it.
   */
  lemma RevivesWhen(s: State, ctx: Frame)
    requires Shape(s) && s.initialized && s.live > 1
    ensures (exists i: nat :: Is(Save(s, ctx).tasks, i, TERMINATED) && Is(Tick(s, ctx).0.tasks, i, RUNNING)) <==>
              && (forall i: nat :: i != s.current ==> !Is(s.tasks, i, READY))
              && (Is(s.tasks, s.current, TERMINATED) || (Is(s.tasks, s.current, RUNNING) && Signature(ctx)))
  {
    hide Pick, Shape, Signature;
    var s1 := Save(s, ctx);
    SaveShape(s, ctx);
    if exists i: nat :: i < CAPACITY && Is(s1.tasks, i, READY) {
      var j: nat :| j < CAPACITY && Is(s1.tasks, j, READY);
      assert j != s.current ==> Is(s.tasks, j, READY);
      DispatchSomebody(s1, ctx);
    } else {
      DispatchNobody(s1, ctx);
      forall i: nat | i != s.current ensures !Is(s.tasks, i, READY) { assert !Is(s1.tasks, i, READY); }
      if Is(s1.tasks, s.current, TERMINATED) {
        assert Is(s1.tasks, s.current, TERMINATED) && Is(Tick(s, ctx).0.tasks, s.current, RUNNING);
      }
    }
  }

  lemma SaveShape(s: State, ctx: Frame)
    requires Shape(s) && s.live > 1
    ensures Shape(Save(s, ctx)) && Save(s, ctx).current == s.current < |s.tasks| == |Save(s, ctx).tasks| == CAPACITY
    ensures forall i: nat, st: TaskState :: i != s.current ==> (Is(Save(s, ctx).tasks, i, st) <==> Is(s.tasks, i, st))
  {
  }

  lemma DispatchSomebody(s: State, ctx: Frame)
    requires Shape(s) && exists i: nat :: i < CAPACITY && Is(s.tasks, i, READY)
    ensures forall i: nat :: Is(s.tasks, i, TERMINATED) ==> Is(Dispatch(s, ctx).0.tasks, i, TERMINATED)
  {
    SomebodyReady(s);
    PickSound(s.tasks, s.current, 1);
  }

  lemma DispatchNobody(s: State, ctx: Frame)
    requires Shape(s) && forall i: nat :: i < CAPACITY ==> !Is(s.tasks, i, READY)
    ensures Dispatch(s, ctx) == (if s.tasks[s.current].Some? then SetState(s, s.current, RUNNING) else s, ctx)
  {
    SomebodyReady(s);
  }

  /** Two tasks, in these states, and the current index. */
  ghost predicate Pair(s: State, idle: TaskState, kernel: TaskState, current: nat)
  {
    Shape(s) && s.initialized && s.live == 2 && s.current == current && Is(s.tasks, 0, idle) && Is(s.tasks, 1, kernel)
  }

  lemma PairDispatch(s: State, ctx: Frame, idle: TaskState, kernel: TaskState, current: nat)
    requires Pair(s, idle, kernel, current) && current < 2
    ensures var s' := Dispatch(s, ctx).0; var next := 1 - current;
            if (if next == 0 then idle else kernel) == READY then
              Pair(s', if next == 0 then RUNNING else idle, if next == 1 then RUNNING else kernel, next)
            else if idle != READY && kernel != READY then
              Pair(s', if current == 0 then RUNNING else idle, if current == 1 then RUNNING else kernel, current)
            else true
  {
    PickSound(s.tasks, current, 1);
    SomebodyReady(s);
    Walk(current, 1 - current, 1);
    Walk(current, current, 1);
  }

  lemma PairTick(s: State, ctx: Frame, idle: TaskState, kernel: TaskState, current: nat)
    requires Pair(s, idle, kernel, current) && current < 2 && (if current == 0 then idle else kernel) == RUNNING
    ensures var saved := if Signature(ctx) then TERMINATED else READY;
            Pair(Save(s, ctx), if current == 0 then saved else idle, if current == 1 then saved else kernel, current)
    ensures Tick(s, ctx) == Dispatch(Save(s, ctx), ctx)
  {
  }

  /**
   A run from the constructor in which the kernel task dies and then idle shows the signature: idle is TERMINATED by
   the save, nobody is READY, and the fall-through sets it RUNNING again.
   */
  lemma RevivalExample(idle: Frame, kernel: Frame, dead: Frame)
    requires Signature(dead) && !Signature(kernel)
    ensures var s1 := Tick(Initial(idle), kernel).0; var s2 := Tick(s1, kernel).0; var s3 := Tick(s2, dead).0;
            && Inv(Initial(idle)) && IdleSafe(Initial(idle), kernel) && Inv(s1) && IdleSafe(s1, kernel)
            && Inv(s2) && IdleSafe(s2, dead) && Inv(s3) && !IdleSafe(s3, dead)
            && Is(Save(s3, dead).tasks, 0, TERMINATED) && Is(Tick(s3, dead).0.tasks, 0, RUNNING)
  {
    hide Tick, Save, Dispatch, Pick;
    var s0 := Initial(idle);
    InitialRight(idle);
    var s1 := Tick(s0, kernel).0;
    FirstTick(idle, kernel);
    PairTick(s1, kernel, RUNNING, READY, 0);
    PairDispatch(Save(s1, kernel), kernel, READY, READY, 0);
    var s2 := Tick(s1, kernel).0;
    PairTick(s2, dead, READY, RUNNING, 1);
    PairDispatch(Save(s2, dead), dead, READY, TERMINATED, 1);
    var s3 := Tick(s2, dead).0;
    PairTick(s3, dead, RUNNING, TERMINATED, 0);
    PairDispatch(Save(s3, dead), dead, TERMINATED, TERMINATED, 0);
    TickSafe(s0, kernel);
    TickSafe(s1, kernel);
    TickSafe(s2, dead);
  }

  lemma FirstTick(idle: Frame, kernel: Frame)
    ensures Pair(Tick(Initial(idle), kernel).0, RUNNING, READY, 0)
  {
    var s := Initial(idle);
    var s1 := Save(s, kernel);
    assert Pair(s1, READY, READY, 1);
    PairDispatch(s1, kernel, READY, READY, 1);
  }

  /** Some slot holds this frame. */
  ghost predicate Holds(s: State, ctx: Frame)
    requires Shape(s)
  {
    exists i: nat :: i < s.live && HeldIn(s, i, ctx)
  }

  ghost predicate HeldIn(s: State, i: nat, ctx: Frame)
    requires Shape(s) && i < s.live
  {
    s.tasks[i].value.ctx == ctx
  }

  /**
   The interrupted context survives a schedule exactly when the kernel task is made from it, the current task was
   RUNNING, or the frame was in the table before. So if a task is created before the first schedule it is lost.
   */
  lemma ContextKeptWhen(s: State, ctx: Frame)
    requires Shape(s) && s.initialized && s.live > 0
    ensures Shape(Tick(s, ctx).0)
    ensures Holds(Tick(s, ctx).0, ctx) <==> s.live <= 1 || Is(s.tasks, s.current, RUNNING) || Holds(s, ctx)
  {
    var s1 := Save(s, ctx);
    DispatchFrames(s1, ctx);
    if s.live <= 1 {
      assert HeldIn(s1, 1, ctx);
    } else if Is(s.tasks, s.current, RUNNING) {
      assert HeldIn(s1, s.current, ctx);
    }
  }

  lemma DispatchFrames(s: State, ctx: Frame)
    requires Shape(s)
    ensures var s' := Dispatch(s, ctx).0;
            && Shape(s') && s'.live == s.live
            && (forall i: nat, f: Frame :: i < s.live ==> (HeldIn(s', i, f) <==> HeldIn(s, i, f)))
            && (Holds(s', ctx) <==> Holds(s, ctx))
  {
    PickSound(s.tasks, s.current, 1);
    var s' := Dispatch(s, ctx).0;
    assert forall i: nat :: i < s.live ==> s'.tasks[i].value.ctx == s.tasks[i].value.ctx;
    hide Dispatch, Shape;
    if Holds(s, ctx) { var i: nat :| i < s.live && HeldIn(s, i, ctx); assert HeldIn(s', i, ctx); }
    if Holds(s', ctx) { var i: nat :| i < s'.live && HeldIn(s', i, ctx); assert HeldIn(s, i, ctx); }
  }

  /** A task created right after the constructor: the first schedule keeps the kernel context nowhere. */
  lemma EarlyCreateDropsKernel(idle: Frame, task: Frame, ctx: Frame)
    requires idle != ctx && task != ctx
    ensures Inv(Initial(idle)) && Inv(Emplace(Initial(idle), task))
    ensures !Holds(Tick(Emplace(Initial(idle), task), ctx).0, ctx)
  {
    InitialRight(idle);
    CreateKeeps(Initial(idle), task);
    hide Tick;
    ContextKeptWhen(Emplace(Initial(idle), task), ctx);
  }

  // ---- the scheduler object ----------------------------------------------------------------------------

  class RoundRobin {
    var tasks: seq<Option<Task>>
    var live: nat
    var current: nat
    var nextId: nat
    var initialized: bool

    ghost function Now(): State
      reads this
    {
      State.State(tasks, live, current, nextId, initialized)
    }

    ghost predicate Valid()
      reads this
    {
      Shape(Now())
    }

    /** The constructor: creates idle from the frame its Task was given, then opens the scheduler. */
    constructor (idle: Frame)
      ensures Valid() && Now() == Initial(idle) && Inv(Now())
    {
      tasks := seq(CAPACITY, _ => None);
      live, current, nextId, initialized := 0, 0, 1, false;
      new;
      var made := CreateTask(idle);
      initialized := true;
      assert tasks == Initial(idle).tasks;
      InitialRight(idle);
    }

    /** StaticArray::find_free_slot */
    method FindFree() returns (i: nat)
      requires Valid()
      ensures i == live
    {
      i := 0;
      while i < CAPACITY && tasks[i].Some?
        invariant i <= live
      {
        i := i + 1;
      }
    }

    /** create_task: panics exactly when all slots are taken. */
    method CreateTask(ctx: Frame) returns (made: bool)
      requires Valid()
      modifies this
      ensures Valid() && made == (old(live) < CAPACITY)
      ensures Now() == if made then Emplace(old(Now()), ctx) else old(Now())
    {
      var i := FindFree();
      made := i < CAPACITY;
      if made {
        tasks := tasks[i := Some(Task(nextId, ctx, READY))];
        live := live + 1;
        nextId := (nextId + 1) % W32;
      }
    }

    /** schedule: the frame handed back is what the interrupt returns to. */
    method Schedule(ctx: Frame) returns (out: Frame)
      requires Valid()
      modifies this
      ensures Valid() && Now() == Tick(old(Now()), ctx).0 && out == Tick(old(Now()), ctx).1
    {
      hide Pick, Dispatch;
      out := ctx;
      if !initialized || live == 0 {
        return;
      }
      SaveCurrent(ctx);
      out := DispatchNext(ctx);
    }

    method SaveCurrent(ctx: Frame)
      requires Valid() && live > 0
      modifies this
      ensures Valid() && Now() == Save(old(Now()), ctx)
    {
      if live <= 1 {
        var made := CreateTask(ctx);
        current := 1;
      } else if tasks[current].Some? {
        var t := tasks[current].value;
        if t.state == RUNNING {
          tasks := tasks[current := Some(t.(ctx := ctx, state := if Signature(ctx) then TERMINATED else READY))];
        }
      }
    }

    /** The do-while scan over all slots, starting after the current one. */
    method DispatchNext(ctx: Frame) returns (out: Frame)
      requires Valid()
      modifies this
      ensures Valid() && Now() == Dispatch(old(Now()), ctx).0 && out == Dispatch(old(Now()), ctx).1
    {
      hide Pick, Step;
      out := ctx;
      var start := current;
      NoStep(start);
      ghost var k := 0;
      var again := true;
      while again
        invariant 0 <= k <= CAPACITY && current == Step(start, k) && current < CAPACITY
        invariant Now() == old(Now()).(current := current)
        invariant Pick(tasks, start, 1) == Pick(tasks, start, k + 1)
        invariant again <==> k < CAPACITY
        decreases CAPACITY - k
      {
        OneStep(start, k);
        PickNext(tasks, start, k + 1);
        current := (current + 1) % CAPACITY;
        k := k + 1;
        if tasks[current].Some? {
          var next := tasks[current].value;
          if next.state == READY {
            tasks := tasks[current := Some(next.(state := RUNNING))];
            out := next.ctx;
            return;
          }
        }
        again := current != start;
      }
      PickNone(tasks, start);
      if tasks[current].Some? {
        tasks := tasks[current := Some(tasks[current].value.(state := RUNNING))];
      }
    }
  }

  lemma PickNext(ts: seq<Option<Task>>, from: nat, k: nat)
    requires 0 < k <= CAPACITY
    ensures Pick(ts, from, k) == if Is(ts, Step(from, k), READY) then k else Pick(ts, from, k + 1)
  {
  }

  lemma PickNone(ts: seq<Option<Task>>, from: nat)
    ensures Pick(ts, from, CAPACITY + 1) == 0
  {
  }

  lemma NoStep(from: nat)
    requires from < CAPACITY
    ensures Step(from, 0) == from == Step(from, CAPACITY)
  {
  }

  lemma OneStep(from: nat, k: nat)
    requires from < CAPACITY && k < CAPACITY
    ensures (Step(from, k) + 1) % CAPACITY == Step(from, k + 1) < CAPACITY
    ensures Step(from, k + 1) == from <==> k + 1 == CAPACITY
  {
  }
}
