/**
 The table of timer handlers driven by the PIT interrupt (kernel/src/driver/pit.cpp). Callbacks are opaque: they
 are reported in the order in which they run and do not touch the table.
 */
module Timer {
  import opened Machine

  const MAX_HANDLERS := 8

  datatype Trigger = EveryTick | Interval | OneShot

  /** callback 0 is the null pointer. */
  datatype Handler = Handler(callback: nat, arg: nat, trigger: Trigger, interval: nat, last: nat, active: bool)

  datatype State = State(handlers: seq<Handler>, count: nat, ticks: nat, period: nat)

  datatype Call = Call(callback: nat, arg: nat)

  // ---- one handler ---------------------------------------------------------------------------------

  /** Microseconds since boot, on 64 bits. */
  function Time(ticks: nat, period: nat): nat { ticks * period % W64 }

  /** The difference is a 64-bit one. */
  predicate Fires(h: Handler, now: nat)
  {
    h.active && (h.trigger == EveryTick || (now - h.last) % W64 >= h.interval)
  }

  function Ticked(h: Handler, now: nat): Handler
  {
    if !Fires(h, now) then h
    else
      match h.trigger
      case EveryTick => h
      case Interval => h.(last := now)
      case OneShot => h.(active := false)
  }

  // ---- the table -----------------------------------------------------------------------------------

  function Active(hs: seq<Handler>): nat
  {
    if hs == [] then 0 else Active(hs[..|hs| - 1]) + if hs[|hs| - 1].active then 1 else 0
  }

  lemma {:induction false} ActiveAll(hs: seq<Handler>)
    ensures Active(hs) <= |hs|
    ensures Active(hs) < |hs| ==> exists i :: 0 <= i < |hs| && !hs[i].active
    ensures (exists i :: 0 <= i < |hs| && hs[i].active) ==> Active(hs) > 0
  {
    if hs != [] {
      ActiveAll(hs[..|hs| - 1]);
      if i :| 0 <= i < |hs| && hs[i].active { assert i < |hs| - 1 ==> hs[..|hs| - 1][i].active; }
    }
  }

  lemma {:induction false} ActiveUpdate(hs: seq<Handler>, i: nat, h: Handler)
    requires i < |hs|
    ensures Active(hs[i := h]) == Active(hs) - (if hs[i].active then 1 else 0) + (if h.active then 1 else 0)
  {
    var n := |hs| - 1;
    if i == n {
      assert hs[i := h][..n] == hs[..n];
    } else {
      ActiveUpdate(hs[..n], i, h);
      assert hs[i := h][..n] == hs[..n][i := h];
    }
  }

  /** First index from k on that is inactive, or |hs|. */
  function FirstIdle(hs: seq<Handler>, k: nat): nat
    decreases |hs| - k
  {
    if k >= |hs| then |hs| else if !hs[k].active then k else FirstIdle(hs, k + 1)
  }

  predicate IsFor(h: Handler, callback: nat, arg: nat)
  {
    h.active && h.callback == callback && h.arg == arg
  }

  /** First index from k on whose active handler has this callback and argument, or |hs|. */
  function FirstMatch(hs: seq<Handler>, callback: nat, arg: nat, k: nat): nat
    decreases |hs| - k
  {
    if k >= |hs| then |hs| else if IsFor(hs[k], callback, arg) then k else FirstMatch(hs, callback, arg, k + 1)
  }

  lemma {:induction false} IdleFound(hs: seq<Handler>, k: nat)
    requires k <= |hs|
    ensures k <= FirstIdle(hs, k) <= |hs|
    ensures FirstIdle(hs, k) < |hs| ==> !hs[FirstIdle(hs, k)].active
    ensures forall i :: k <= i < FirstIdle(hs, k) ==> hs[i].active
    decreases |hs| - k
  {
    if k < |hs| && hs[k].active { IdleFound(hs, k + 1); }
  }

  lemma {:induction false} MatchFound(hs: seq<Handler>, callback: nat, arg: nat, k: nat)
    requires k <= |hs|
    ensures var m := FirstMatch(hs, callback, arg, k);
            && k <= m <= |hs| && (m < |hs| ==> IsFor(hs[m], callback, arg))
            && forall i :: k <= i < m ==> !IsFor(hs[i], callback, arg)
    decreases |hs| - k
  {
    if k < |hs| && !IsFor(hs[k], callback, arg) { MatchFound(hs, callback, arg, k + 1); }
  }

  /** The counter is the number of active slots, and active slots have a callback. */
  ghost predicate Inv(s: State)
  {
    && |s.handlers| == MAX_HANDLERS && s.count == Active(s.handlers)
    && s.ticks < W64 && s.period < W32
    && forall i :: 0 <= i < |s.handlers| ==> s.handlers[i].active ==> s.handlers[i].callback != 0
  }

  // ---- operations ----------------------------------------------------------------------------------

  datatype Op =
    | Register(callback: nat, arg: nat, trigger: Trigger, interval: nat)
    | Unregister(callback: nat, arg: nat)
    | Tick(extended: bool)

  ghost function NewHandler(s: State, op: Op): Handler
    requires op.Register?
  {
    Handler(op.callback, op.arg, op.trigger, if op.trigger == EveryTick then s.period else op.interval,
            Time(s.ticks, s.period), true)
  }

  ghost function AfterTick(s: State): nat { (s.ticks + 1) % W64 }

  /** The table after one operation; a tick without an extended frame only counts. */
  ghost function Next(s: State, op: Op): State
    requires Inv(s)
  {
    match op
    case Register(callback, _, _, _) =>
      IdleFound(s.handlers, 0);
      if s.count >= MAX_HANDLERS || callback == 0 || FirstIdle(s.handlers, 0) >= MAX_HANDLERS then s
      else s.(handlers := s.handlers[FirstIdle(s.handlers, 0) := NewHandler(s, op)], count := s.count + 1)
    case Unregister(callback, arg) =>
      var i := FirstMatch(s.handlers, callback, arg, 0);
      MatchFound(s.handlers, callback, arg, 0);
      ActiveAll(s.handlers);
      if callback == 0 || i >= MAX_HANDLERS then s
      else s.(handlers := s.handlers[i := s.handlers[i].(active := false)], count := s.count - 1)
    case Tick(extended) =>
      if !extended then s.(ticks := AfterTick(s))
      else
        var hs := TickAll(s.handlers, Time(AfterTick(s), s.period));
        s.(handlers := hs, count := Active(hs), ticks := AfterTick(s))
  }

  ghost function TickAll(hs: seq<Handler>, now: nat): seq<Handler>
  {
    seq(|hs|, i requires 0 <= i < |hs| => Ticked(hs[i], now))
  }

  /** handler_count equals the number of active slots after every register, unregister and tick. */
  lemma CountIsExact(s: State, op: Op)
    requires Inv(s)
    ensures Inv(Next(s, op))
  {
    hide Active;
    IdleFound(s.handlers, 0);
    match op
    case Register(_, _, _, _) =>
      if FirstIdle(s.handlers, 0) < MAX_HANDLERS {
        ActiveUpdate(s.handlers, FirstIdle(s.handlers, 0), NewHandler(s, op));
      }
    case Unregister(callback, arg) =>
      var i := FirstMatch(s.handlers, callback, arg, 0);
      MatchFound(s.handlers, callback, arg, 0);
      if i < MAX_HANDLERS {
        ActiveUpdate(s.handlers, i, s.handlers[i].(active := false));
      }
    case Tick(_) =>
  }

  /** A table with room accepts every callback: registering fails exactly for null or with all slots active. */
  lemma RegisterFailsOnly(s: State, op: Op)
    requires Inv(s) && op.Register?
    ensures Next(s, op) == s <==> op.callback == 0 || forall i :: 0 <= i < MAX_HANDLERS ==> s.handlers[i].active
  {
    hide Active;
    IdleFound(s.handlers, 0);
    ActiveAll(s.handlers);
    if i :| 0 <= i < MAX_HANDLERS && !s.handlers[i].active {
      ActiveSome(s.handlers, i);
    }
  }

  lemma ActiveSome(hs: seq<Handler>, i: nat)
    requires i < |hs| && !hs[i].active
    ensures Active(hs) < |hs|
  {
    ActiveUpdate(hs, i, hs[i].(active := true));
    ActiveAll(hs[i := hs[i].(active := true)]);
  }

  // ---- when a handler fires ------------------------------------------------------------------------

  /** Ticks between firings: the interval rounded up to whole periods, at least one. */
  function Every(interval: nat, period: nat): nat
    requires period > 0
  {
    if interval == 0 then 1 else (interval + period - 1) / period
  }

  lemma EveryBounds(interval: nat, period: nat)
    requires period > 0
    ensures var n := Every(interval, period);
            n >= 1 && (n - 1) * period < interval + (if interval == 0 then 1 else 0) && interval <= n * period
  {
  }

  lemma TimesMonotone(a: nat, b: nat, p: nat)
    requires a <= b
    ensures a * p <= b * p
  {
  }

  /** Within the first `Every` ticks since `last`, the elapsed time reaches the interval at the last one only. */
  lemma DueExactly(interval: nat, period: nat, j: nat)
    requires 0 < period && 1 <= j <= Every(interval, period) && Every(interval, period) * period < W64
    ensures j * period % W64 >= interval <==> j == Every(interval, period)
  {
    hide Every;
    var n := Every(interval, period);
    EveryBounds(interval, period);
    TimesMonotone(j, n, period);
    if j < n { TimesMonotone(j, n - 1, period); }
  }

  lemma RoundedFits(interval: nat, period: nat)
    requires 0 < period < W32 && interval < W64
    ensures Every(interval, period) * period % W64 >= interval <==> Every(interval, period) * period < W64
  {
    hide Every;
    var n := Every(interval, period);
    EveryBounds(interval, period);
    assert (n - 1) * period == n * period - period;
    Wrapped(n * period);
  }

  lemma Wrapped(x: nat)
    requires x < 2 * W64
    ensures x % W64 == if x < W64 then x else x - W64
  {
  }

  lemma TimesOut(q: nat, p: nat)
    ensures W64 * q * p == W64 * (q * p)
  {
  }

  /** The clock is the unbounded tick number times the period, whatever wrapped on the way. */
  lemma TimeOfWrapped(c: nat, period: nat)
    ensures Time(c % W64, period) == c * period % W64
  {
    var q, r := c / W64, c % W64;
    assert c == r + W64 * q;
    assert c * period == r * period + W64 * q * period;
    TimesOut(q, period);
    WrapFree(r * period, q * period, W64);
  }

  lemma Elapsed(a: nat, j: nat, period: nat)
    ensures ((a + j) * period % W64 - a * period % W64) % W64 == j * period % W64
  {
  }

  /**
   A handler armed at some tick fires n ticks later, n being its interval rounded up to whole periods, exactly when
   n periods are less than 2^64 microseconds.
   */
  lemma OnTimeWhen(h: Handler, ticks: nat, period: nat)
    requires h.active && h.trigger != EveryTick && h.last == Time(ticks, period) && h.interval < W64
    requires 0 < period < W32
    ensures var n := Every(h.interval, period);
            Fires(h, Time((ticks + n) % W64, period)) <==> n * period < W64
  {
    hide Every;
    var n := Every(h.interval, period);
    TimeOfWrapped(ticks + n, period);
    Elapsed(ticks, n, period);
    RoundedFits(h.interval, period);
  }

  /** A period of one millisecond and the longest interval: the due tick passes without a call. */
  lemma MissedExample(callback: nat, arg: nat)
    ensures var h := Handler(callback, arg, OneShot, W64 - 1, Time(0, 1000), true);
            !Fires(h, Time(Every(W64 - 1, 1000) % W64, 1000))
  {
    OnTimeWhen(Handler(callback, arg, OneShot, W64 - 1, Time(0, 1000), true), 0, 1000);
  }

  // ---- runs ----------------------------------------------------------------------------------------

  /** Slot i is neither unregistered nor given away, and the tick interrupt brings an extended frame. */
  ghost predicate Keeps(s: State, op: Op, i: nat)
    requires Inv(s)
  {
    match op
    case Register(_, _, _, _) => FirstIdle(s.handlers, 0) != i
    case Unregister(callback, arg) => FirstMatch(s.handlers, callback, arg, 0) != i
    case Tick(extended) => extended
  }

  ghost function Run(s: State, ops: seq<Op>): State
    requires Inv(s)
    ensures Inv(Run(s, ops))
  {
    if ops == [] then s
    else
      var t := Run(s, ops[..|ops| - 1]);
      CountIsExact(t, ops[|ops| - 1]);
      Next(t, ops[|ops| - 1])
  }

  ghost predicate Kept(s: State, ops: seq<Op>, i: nat)
    requires Inv(s)
  {
    ops == [] || (Kept(s, ops[..|ops| - 1], i) && Keeps(Run(s, ops[..|ops| - 1]), ops[|ops| - 1], i))
  }

  ghost function Ticks(ops: seq<Op>): nat
  {
    if ops == [] then 0 else Ticks(ops[..|ops| - 1]) + if ops[|ops| - 1].Tick? then 1 else 0
  }

  /** The next tick after this run fires slot i. */
  ghost predicate FiresNext(s: State, i: nat)
    requires Inv(s) && i < MAX_HANDLERS
  {
    Fires(s.handlers[i], Time(AfterTick(s), s.period))
  }

  /** A freshly registered handler: armed now, with an interval whose rounding does not wrap 64 bits. */
  ghost predicate Armed(s: State, i: nat)
    requires Inv(s)
  {
    && i < MAX_HANDLERS && s.handlers[i].active && s.handlers[i].last == Time(s.ticks, s.period) && s.period > 0
    && Every(s.handlers[i].interval, s.period) * s.period < W64
  }

  /** Registering arms the slot it takes. */
  lemma RegisterArms(s: State, op: Op)
    requires Inv(s) && op.Register? && Next(s, op) != s && s.period > 0
    requires op.trigger != EveryTick ==> Every(op.interval, s.period) * s.period < W64
    ensures var i := FirstIdle(s.handlers, 0);
            Inv(Next(s, op)) && Armed(Next(s, op), i) && Next(s, op).handlers[i].trigger == op.trigger
  {
    hide Active, Every, Time;
    CountIsExact(s, op);
    IdleFound(s.handlers, 0);
    EveryPeriod(s.period);
  }

  lemma EveryPeriod(period: nat)
    requires 0 < period < W32
    ensures Every(period, period) * period < W64
  {
  }

  lemma KeptSlot(s: State, op: Op, i: nat)
    requires Inv(s) && Keeps(s, op, i) && i < MAX_HANDLERS
    ensures Next(s, op).period == s.period && i < |Next(s, op).handlers|
    ensures Next(s, op).ticks == if op.Tick? then AfterTick(s) else s.ticks
    ensures Next(s, op).handlers[i] ==
              if op.Tick? then Ticked(s.handlers[i], Time(AfterTick(s), s.period)) else s.handlers[i]
  {
  }

  /** The slot after t ticks: when it fired last. */
  ghost function IntervalAfter(h: Handler, t: nat, ticks: nat, period: nat): Handler
    requires period > 0
  {
    var n := Every(h.interval, period);
    EveryBounds(h.interval, period);
    if h.trigger == Interval then h.(last := (ticks + t / n * n) * period % W64)
    else if h.trigger == OneShot then h.(active := t < n)
    else h
  }

  lemma {:induction false} SlotAfter(s: State, ops: seq<Op>, i: nat)
    requires Inv(s) && Armed(s, i) && Kept(s, ops, i)
    ensures var s' := Run(s, ops);
            && s'.period == s.period && s'.ticks == (s.ticks + Ticks(ops)) % W64
            && s'.handlers[i] == IntervalAfter(s.handlers[i], Ticks(ops), s.ticks, s.period)
  {
    hide Active, Every, Fires, Ticked, Time, Next, Inv;
    InvBounds(s);
    if ops == [] {
      Fresh(s.handlers[i], s.ticks, s.period);
    } else {
      var m := |ops| - 1;
      SlotAfter(s, ops[..m], i);
      var t := Run(s, ops[..m]);
      KeptSlot(t, ops[m], i);
      if ops[m].Tick? {
        TickOnce(s.handlers[i], Ticks(ops[..m]), s.ticks, s.period);
      }
    }
  }

  lemma InvBounds(s: State)
    requires Inv(s)
    ensures s.ticks % W64 == s.ticks && |s.handlers| == MAX_HANDLERS
  {
  }

  lemma Fresh(h: Handler, ticks: nat, period: nat)
    requires period > 0 && h.active && h.last == Time(ticks, period)
    ensures IntervalAfter(h, 0, ticks, period) == h
  {
  }

  /** Tick t + 1 fires exactly on a multiple of n (Interval), at n (OneShot), always (EveryTick). */
  ghost predicate DueAt(trigger: Trigger, n: nat, t: nat)
    requires n > 0
  {
    match trigger
    case EveryTick => true
    case Interval => t % n == 0
    case OneShot => t == n
  }

  lemma TickOnce(h: Handler, t: nat, ticks: nat, period: nat)
    requires 0 < period && h.active && Every(h.interval, period) * period < W64 && h.last == Time(ticks, period)
    ensures Every(h.interval, period) > 0
    ensures var now := Time(((ticks + t) % W64 + 1) % W64, period); var cur := IntervalAfter(h, t, ticks, period);
            && ((ticks + t) % W64 + 1) % W64 == (ticks + (t + 1)) % W64
            && (Fires(cur, now) <==> DueAt(h.trigger, Every(h.interval, period), t + 1))
            && Ticked(cur, now) == IntervalAfter(h, t + 1, ticks, period)
  {
    hide Every, Time;
    var n := Every(h.interval, period);
    EveryBounds(h.interval, period);
    NextTick(ticks + t);
    TimeOfWrapped(ticks + t + 1, period);
    if h.trigger == Interval {
      IntervalOnce(h, t, ticks, period);
    } else if h.trigger == OneShot {
      TimeIsProduct(ticks, period);
      if t < n {
        Elapsed(ticks, t + 1, period);
        DueExactly(h.interval, period, t + 1);
      }
    }
  }

  lemma TimeIsProduct(ticks: nat, period: nat)
    ensures Time(ticks, period) == ticks * period % W64
  {
  }

  lemma NextTick(x: nat)
    ensures (x % W64 + 1) % W64 == (x + 1) % W64
  {
  }

  lemma IntervalOnce(h: Handler, t: nat, ticks: nat, period: nat)
    requires 0 < period && h.active && h.trigger == Interval && Every(h.interval, period) * period < W64
    ensures Every(h.interval, period) > 0
    ensures var now := (ticks + t + 1) * period % W64; var cur := IntervalAfter(h, t, ticks, period);
            && (Fires(cur, now) <==> (t + 1) % Every(h.interval, period) == 0)
            && Ticked(cur, now) == IntervalAfter(h, t + 1, ticks, period)
  {
    hide Every;
    var n := Every(h.interval, period);
    EveryBounds(h.interval, period);
    var q, r := Divided(t, n);
    var j := r + 1;
    Rounds(t, n, q, r);
    assert (q + 1) * n == q * n + n;
    assert ticks + t + 1 == ticks + q * n + j;
    Elapsed(ticks + q * n, j, period);
    DueExactly(h.interval, period, j);
  }

  lemma Rounds(t: nat, n: nat, q: nat, r: nat)
    requires r < n && t == q * n + r
    ensures t / n == q && t % n == r
    ensures (t + 1) % n == if r + 1 == n then 0 else r + 1
    ensures (t + 1) / n == if r + 1 == n then q + 1 else q
  {
    Unique(t, n, q, r);
    if r + 1 == n { OneMore(q, n); Unique(t + 1, n, q + 1, 0); } else { Unique(t + 1, n, q, r + 1); }
  }

  lemma OneMore(q: nat, n: nat)
    ensures (q + 1) * n == q * n + n
  {
  }

  lemma Divided(t: nat, n: nat) returns (q: nat, r: nat)
    requires n > 0
    ensures r < n && t == q * n + r
  {
    q, r := t / n, t % n;
  }

  /**
   A handler registered at tick r and kept fires exactly at ticks r + k * n for k >= 1 (Interval), only at r + n
   (OneShot), or at each tick (EveryTick), where n is its interval rounded up to whole periods.
   */
  lemma FiresOnSchedule(s: State, ops: seq<Op>, i: nat)
    requires Inv(s) && Armed(s, i) && Kept(s, ops, i)
    ensures Every(s.handlers[i].interval, s.period) > 0
    ensures FiresNext(Run(s, ops), i) <==>
              DueAt(s.handlers[i].trigger, Every(s.handlers[i].interval, s.period), Ticks(ops) + 1)
  {
    hide Active, Every, Fires, Ticked, Time, Next;
    SlotAfter(s, ops, i);
    TickOnce(s.handlers[i], Ticks(ops), s.ticks, s.period);
  }

  // ---- what a registration brings about ------------------------------------------------------------

  /** The callbacks of the firing slots among the first n, in slot order. */
  ghost function Calls(hs: seq<Handler>, now: nat, n: nat): seq<Call>
    requires n <= |hs|
  {
    if n == 0 then []
    else Calls(hs, now, n - 1) + if Fires(hs[n - 1], now) then [Call(hs[n - 1].callback, hs[n - 1].arg)] else []
  }

  /** What the next tick calls, slot by slot, among the first n slots. */
  ghost function NextCalls(s: State, n: nat): seq<Call>
    requires n <= |s.handlers|
  {
    Calls(s.handlers, (s.ticks + 1) % W64 * s.period % W64, n)
  }

  lemma {:induction false} CallsPrefix(hs: seq<Handler>, now: nat, i: nat, n: nat)
    requires i <= n <= |hs|
    ensures Calls(hs, now, i) <= Calls(hs, now, n)
  {
    if i < n { CallsPrefix(hs, now, i, n - 1); }
  }

  lemma SlotIdentity(h: Handler, t: nat, ticks: nat, period: nat)
    requires period > 0
    ensures var h' := IntervalAfter(h, t, ticks, period); h'.callback == h.callback && h'.arg == h.arg
  {
    hide Every;
  }

  /**
   From register_handler on: while the slot is kept, its part of the calls of the next tick is exactly the registered
   callback with the registered argument, if and only if that tick is due for the interval asked for: a multiple of the
   interval rounded up to whole periods (Interval), the first of these (OneShot), or any (EveryTick).
   */
  lemma RegisteredCalls(s: State, callback: nat, arg: nat, trigger: Trigger, interval: nat, ops: seq<Op>)
    requires Inv(s) && s.period > 0 && Next(s, Op.Register(callback, arg, trigger, interval)) != s
    requires trigger != EveryTick ==> (interval + s.period - 1) / s.period * s.period < W64
    ensures Inv(Next(s, Op.Register(callback, arg, trigger, interval)))
    ensures var t, i := Next(s, Op.Register(callback, arg, trigger, interval)), FirstIdle(s.handlers, 0);
            Kept(t, ops, i) ==>
              var u, n := Run(t, ops), if interval == 0 then 1 else (interval + s.period - 1) / s.period;
              var due := match trigger
                         case EveryTick => true
                         case Interval => n > 0 && (Ticks(ops) + 1) % n == 0
                         case OneShot => Ticks(ops) + 1 == n;
              && i < MAX_HANDLERS && NextCalls(u, i + 1) == NextCalls(u, i) + (if due then [Call(callback, arg)]
                 else [])
              && NextCalls(u, i + 1) <= NextCalls(u, MAX_HANDLERS)
  {
    hide Active, Fires, Time, Ticked, IntervalAfter, Next, Run, Kept, Armed, Every, NextCalls;
    var op := Op.Register(callback, arg, trigger, interval);
    var t, i := Next(s, op), FirstIdle(s.handlers, 0);
    CountIsExact(s, op);
    RoundsUp(interval, s.period);
    RegisterArms(s, op);
    RegisterStores(s, op);
    if Kept(t, ops, i) { KeptCalls(t, i, ops); }
  }

  /** The part of slot i in the calls of the next tick, by what the slot was armed with. */
  lemma KeptCalls(t: State, i: nat, ops: seq<Op>)
    requires Inv(t) && Armed(t, i) && Kept(t, ops, i)
    ensures Every(t.handlers[i].interval, t.period) > 0
    ensures var u, h := Run(t, ops), t.handlers[i];
            && i < MAX_HANDLERS == |u.handlers|
            && NextCalls(u, i + 1) ==
                 NextCalls(u, i) + (if DueAt(h.trigger, Every(h.interval, t.period), Ticks(ops) + 1)
                                    then [Call(h.callback, h.arg)] else [])
            && NextCalls(u, i + 1) <= NextCalls(u, MAX_HANDLERS)
  {
    hide Active, Fires, Time, Ticked, IntervalAfter, Next, Kept, Inv, Every, DueAt;
    InvBounds(t);
    FiresOnSchedule(t, ops, i);
    SlotAfter(t, ops, i);
    SlotIdentity(t.handlers[i], Ticks(ops), t.ticks, t.period);
    hide Run;
    var u := Run(t, ops);
    InvBounds(u);
    NextTime(u);
    CallsPrefix(u.handlers, Time(AfterTick(u), u.period), i + 1, MAX_HANDLERS);
  }

  lemma NextTime(s: State)
    ensures (s.ticks + 1) % W64 * s.period % W64 == Time(AfterTick(s), s.period)
  {
  }

  lemma RoundsUp(interval: nat, period: nat)
    requires period > 0
    ensures Every(interval, period) == if interval == 0 then 1 else (interval + period - 1) / period
    ensures Every(interval, period) > 0
    ensures period < W32 && (interval + period - 1) / period * period < W64 ==> Every(interval, period) * period < W64
  {
    EveryBounds(interval, period);
    if interval == 0 { assert Every(interval, period) * period == period; }
  }

  lemma RegisterStores(s: State, op: Op)
    requires Inv(s) && op.Register? && Next(s, op) != s && Inv(Next(s, op))
    ensures var t, i := Next(s, op), FirstIdle(s.handlers, 0);
            && i < MAX_HANDLERS && |t.handlers| == MAX_HANDLERS && t.period == s.period && t.ticks == s.ticks
            && t.handlers[i].callback == op.callback && t.handlers[i].arg == op.arg
            && t.handlers[i].trigger == op.trigger
            && t.handlers[i].interval == if op.trigger == EveryTick then s.period else op.interval
  {
    IdleFound(s.handlers, 0);
  }

  /** unregister_handler takes out exactly the lowest active slot with that callback and argument, if there is one. */
  lemma UnregisterExactly(s: State, callback: nat, arg: nat)
    requires Inv(s)
    ensures var s', hs := Next(s, Op.Unregister(callback, arg)), s.handlers;
            if forall j: nat :: j < MAX_HANDLERS && hs[j].active && hs[j].callback == callback ==> hs[j].arg != arg then
              s' == s
            else
              exists i: nat :: i < MAX_HANDLERS && LowestSuch(hs, callback, arg, i)
                && s' == s.(handlers := hs[i := hs[i].(active := false)], count := s'.count)
  {
    hide Active;
    var hs := s.handlers;
    MatchFound(hs, callback, arg, 0);
    var i := FirstMatch(hs, callback, arg, 0);
    if i < MAX_HANDLERS {
      assert hs[i].active && hs[i].callback == callback && hs[i].arg == arg && callback != 0;
      assert LowestSuch(hs, callback, arg, i);
    } else {
      forall j: nat | j < MAX_HANDLERS && hs[j].active && hs[j].callback == callback ensures hs[j].arg != arg {
        assert !IsFor(hs[j], callback, arg);
      }
    }
  }

  ghost predicate LowestSuch(hs: seq<Handler>, callback: nat, arg: nat, i: nat)
  {
    && i < |hs| && hs[i].active && hs[i].callback == callback && hs[i].arg == arg
    && forall j: nat :: j < i && hs[j].active && hs[j].callback == callback ==> hs[j].arg != arg
  }

  /** init while the first slot is active: its handler stays in the table, and the counter says there is none. */
  lemma InitForgetsExample(period: nat)
    ensures var idle := Handler(0, 0, EveryTick, 0, 0, false);
            var hs := [Handler(1, 0, EveryTick, period, 0, true)] + seq(MAX_HANDLERS - 1, _ => idle);
            |hs| == MAX_HANDLERS && !Inv(State.State(hs, 0, 0, period))
  {
    var idle := Handler(0, 0, EveryTick, 0, 0, false);
    var hs := [Handler(1, 0, EveryTick, period, 0, true)] + seq(MAX_HANDLERS - 1, _ => idle);
    assert hs[0].active;
    ActiveAll(hs);
  }

  // ---- the driver object -----------------------------------------------------------------------------

  class Pit {
    const handlers: array<Handler>
    var handlerCount: nat
    var tickCount: nat
    var intervalUs: nat

    ghost function Now(): State
      reads this, handlers
    {
      State.State(handlers[..], handlerCount, tickCount, intervalUs)
    }

    /** Zeroed static storage. */
    constructor ()
      ensures handlers.Length == MAX_HANDLERS && fresh(handlers) && forall i :: 0 <= i < MAX_HANDLERS ==>
                !handlers[i].active
    {
      handlers := new Handler[MAX_HANDLERS](_ => Handler(0, 0, EveryTick, 0, 0, false));
      handlerCount, tickCount, intervalUs := 0, 0, 0;
    }

    /** init resets the counters but not the table: the counter is right exactly when no handler was active. */
    method Init(period: nat)
      requires handlers.Length == MAX_HANDLERS && period < W32
      requires forall i :: 0 <= i < MAX_HANDLERS && handlers[i].active ==> handlers[i].callback != 0
      modifies this
      ensures handlerCount == 0 && tickCount == 0 && intervalUs == period && handlers[..] == old(handlers[..])
      ensures Inv(Now()) <==> forall i :: 0 <= i < MAX_HANDLERS ==> !handlers[i].active
    {
      intervalUs := period;
      handlerCount := 0;
      tickCount := 0;
      NoneActive(handlers[..]);
    }

    /** register_handler */
    method Register(callback: nat, arg: nat, trigger: Trigger, interval: nat) returns (ok: bool)
      requires Inv(Now())
      modifies this, handlers
      ensures Now() == Next(old(Now()), Op.Register(callback, arg, trigger, interval)) && Inv(Now())
      ensures ok <==> Now() != old(Now())
    {
      hide Active, Time;
      ghost var s := Now();
      CountIsExact(s, Op.Register(callback, arg, trigger, interval));
      IdleFound(s.handlers, 0);
      if handlerCount >= MAX_HANDLERS || callback == 0 {
        return false;
      }
      for i := 0 to MAX_HANDLERS
        invariant Now() == s && FirstIdle(s.handlers, 0) == FirstIdle(s.handlers, i)
      {
        if !handlers[i].active {
          handlers[i] := Handler(callback, arg, trigger, if trigger == EveryTick then intervalUs else interval,
                                 Time(tickCount, intervalUs), true);
          handlerCount := handlerCount + 1;
          return true;
        }
      }
      return false;
    }

    /** unregister_handler */
    method Unregister(callback: nat, arg: nat) returns (ok: bool)
      requires Inv(Now())
      modifies this, handlers
      ensures Now() == Next(old(Now()), Op.Unregister(callback, arg)) && Inv(Now())
      ensures ok <==> Now() != old(Now())
    {
      hide Active;
      ghost var s := Now();
      CountIsExact(s, Op.Unregister(callback, arg));
      MatchFound(s.handlers, callback, arg, 0);
      ActiveAll(s.handlers);
      if callback == 0 {
        return false;
      }
      for i := 0 to MAX_HANDLERS
        invariant Now() == s && FirstMatch(s.handlers, callback, arg, 0) == FirstMatch(s.handlers, callback, arg, i)
      {
        var h := handlers[i];
        if h.active && h.callback == callback && h.arg == arg {
          handlers[i] := h.(active := false);
          handlerCount := handlerCount - 1;
          return true;
        }
      }
      return false;
    }

    /** tick_handler: the counter it keeps by decrements is again the number of active slots. */
    method TickHandler(extended: bool) returns (calls: seq<Call>)
      requires Inv(Now())
      modifies this, handlers
      ensures Now() == Next(old(Now()), Op.Tick(extended)) && Inv(Now())
      ensures calls == if extended then Calls(old(handlers[..]), Time(tickCount, intervalUs), MAX_HANDLERS) else []
    {
      hide Active, Fires, Time;
      calls := [];
      ghost var hs := handlers[..];
      CountIsExact(Now(), Op.Tick(extended));
      tickCount := (tickCount + 1) % W64;
      var now := Time(tickCount, intervalUs);
      if !extended {
        return;
      }
      for i := 0 to MAX_HANDLERS
        invariant |hs| == MAX_HANDLERS && intervalUs == old(intervalUs) && tickCount == (old(tickCount) + 1) % W64
        invariant handlerCount == Active(handlers[..])
        invariant forall j :: 0 <= j < MAX_HANDLERS ==> handlers[j] == if j < i then Ticked(hs[j], now) else hs[j]
        invariant forall j :: 0 <= j < MAX_HANDLERS ==> hs[j].active ==> hs[j].callback != 0
        invariant calls == Calls(hs, now, i)
      {
        var call := TickSlot(i, now);
        assert hs[i].active ==> hs[i].callback != 0;
        if call.callback != 0 {
          calls := calls + [call];
        }
      }
      assert handlers[..] == TickAll(hs, now);
    }

    /** The locked part of the loop body. */
    method TickSlot(i: nat, now: nat) returns (call: Call)
      requires i < MAX_HANDLERS == handlers.Length && handlerCount == Active(handlers[..])
      modifies this`handlerCount, handlers
      ensures handlers[..] == old(handlers[..])[i := Ticked(old(handlers[i]), now)]
      ensures handlerCount == Active(handlers[..])
      ensures call == if Fires(old(handlers[i]), now) then Call(old(handlers[i]).callback, old(handlers[i]).arg)
               else Call(0, 0)
      ensures Fires(old(handlers[i]), now) ==> old(handlers[i]).active
    {
      hide Active;
      call := Call(0, 0);
      var h := handlers[i];
      ActiveUpdate(handlers[..], i, Ticked(h, now));
      ActiveAll(handlers[..]);
      assert handlers[..][i := h] == handlers[..];
      if !h.active {
        return;
      }
      var trigger := false;
      match h.trigger {
        case EveryTick => trigger := true;
        case Interval =>
          if (now - h.last) % W64 >= h.interval {
            trigger := true;
            handlers[i] := h.(last := now);
          }
        case OneShot =>
          if (now - h.last) % W64 >= h.interval {
            trigger := true;
            handlers[i] := h.(active := false);
            assert handlers[..][i].active == false;
            handlerCount := handlerCount - 1;
          }
      }
      if trigger {
        call := Call(h.callback, h.arg);
      }
    }
  }

  lemma {:induction false} NoneActive(hs: seq<Handler>)
    ensures Active(hs) == 0 <==> forall i :: 0 <= i < |hs| ==> !hs[i].active
  {
    if hs != [] {
      var n := |hs| - 1;
      NoneActive(hs[..n]);
      assert forall i :: 0 <= i < n ==> hs[..n][i] == hs[i];
    }
  }
}
