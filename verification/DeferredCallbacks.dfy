/**
  The deferred-callback scheduler: callbacks wait in a list until the event loop's check phase.

  Running a callback may defer further callbacks; `effects` says which. Callbacks neither raise
  errors nor re-enter the loop.
 */
module DeferredCallbacks {

  type Callback = nat
  type Effects = Callback -> seq<Callback>

  /** A callback with the number of the pass it was deferred in, or run in. */
  datatype Stamped = Stamped(callback: Callback, pass: nat)

  datatype State = State(
    deferred: seq<Callback>,
    active: bool,              // the check handle is started
    passes: nat,               // how many passes have begun
    submitted: seq<Stamped>,   // every deferral, in order
    executed: seq<Stamped>)    // every call, in order

  ghost const INITIAL := State([], false, 0, [], [])

  ghost function Stamp(cs: seq<Callback>, pass: nat): (r: seq<Stamped>)
    ensures |r| == |cs| && forall i :: 0 <= i < |cs| ==> r[i] == Stamped(cs[i], pass)
  {
    seq(|cs|, i requires 0 <= i < |cs| => Stamped(cs[i], pass))
  }

  ghost function DeferOne(s: State, c: Callback): (r: State) {
    s.(deferred := s.deferred + [c],
       active := s.active || s.deferred == [],
       submitted := s.submitted + [Stamped(c, s.passes)])
  }

  ghost function DeferAll(s: State, cs: seq<Callback>): (r: State) {
    if cs == [] then s else DeferOne(DeferAll(s, cs[..|cs| - 1]), cs[|cs| - 1])
  }

  ghost function RunOne(s: State, effects: Effects, c: Callback): (r: State) {
    DeferAll(s.(executed := s.executed + [Stamped(c, s.passes)]), effects(c))
  }

  ghost function RunAll(s: State, effects: Effects, cs: seq<Callback>): (r: State) {
    if cs == [] then s else RunOne(RunAll(s, effects, cs[..|cs| - 1]), effects, cs[|cs| - 1])
  }

  /** One check phase: the list is taken, its callbacks run, and the handle stops if nothing new is waiting. */
  ghost function Pass(s: State, effects: Effects): (r: State) {
    var ran := RunAll(s.(deferred := [], passes := s.passes + 1), effects, s.deferred);
    ran.(active := ran.active && ran.deferred != [])
  }

  datatype Action = Defer(callback: Callback) | Check

  /** The loop calls back only while the check handle is active. */
  ghost function Next(s: State, effects: Effects, a: Action): (r: State) {
    match a
    case Defer(c) => DeferOne(s, c)
    case Check => if s.active then Pass(s, effects) else s
  }

  ghost function Run(effects: Effects, actions: seq<Action>): (s: State) {
    if actions == [] then INITIAL else Next(Run(effects, actions[..|actions| - 1]), effects, actions[|actions| - 1])
  }

  // ---- What holds between passes

  /** Calls happened in the order of the deferrals, each exactly once and exactly one pass after its deferral;
      what was not called yet is waiting in order; and the handle is active exactly when something waits. */
  ghost predicate Inv(s: State) {
    && |s.submitted| == |s.executed| + |s.deferred|
    && (forall i :: 0 <= i < |s.executed| ==>
          s.executed[i] == Stamped(s.submitted[i].callback, s.submitted[i].pass + 1))
    && s.submitted[|s.executed|..] == Stamp(s.deferred, s.passes)
    && (s.active <==> s.deferred != [])
  }

  lemma {:induction false} DeferKeepsInv(s: State, c: Callback)
    requires Inv(s)
    ensures Inv(DeferOne(s, c))
  {
    var r := DeferOne(s, c);
    assert r.submitted[|r.executed|..] == s.submitted[|s.executed|..] + [Stamped(c, s.passes)];
  }

  /** Deferring only appends to the list and to the record of deferrals. */
  lemma {:induction false} DeferAllEffect(s: State, cs: seq<Callback>)
    ensures DeferAll(s, cs) == s.(deferred := s.deferred + cs,
                                  active := s.active || (s.deferred == [] && cs != []),
                                  submitted := s.submitted + Stamp(cs, s.passes))
    decreases |cs|
  {
    if cs == [] {
      assert s.deferred + cs == s.deferred && s.submitted + Stamp(cs, s.passes) == s.submitted;
    } else {
      var init, last := cs[..|cs| - 1], cs[|cs| - 1];
      DeferAllEffect(s, init);
      assert s.deferred + init + [last] == s.deferred + cs;
      assert s.submitted + Stamp(init, s.passes) + [Stamped(last, s.passes)] == s.submitted + Stamp(cs, s.passes);
    }
  }

  ghost function Spawned(effects: Effects, cs: seq<Callback>): (r: seq<Callback>) {
    if cs == [] then [] else Spawned(effects, cs[..|cs| - 1]) + effects(cs[|cs| - 1])
  }

  /** A pass calls the callbacks it took, in order; what they defer waits. */
  lemma {:induction false} RunAllEffect(s: State, effects: Effects, cs: seq<Callback>)
    requires s.active
    ensures var spawned := Spawned(effects, cs);
            RunAll(s, effects, cs) == s.(deferred := s.deferred + spawned,
                                         submitted := s.submitted + Stamp(spawned, s.passes),
                                         executed := s.executed + Stamp(cs, s.passes))
    decreases |cs|
  {
    if cs == [] {
      assert s.deferred + [] == s.deferred && s.submitted + Stamp([], s.passes) == s.submitted;
      assert s.executed + Stamp([], s.passes) == s.executed;
    } else {
      var init, last := cs[..|cs| - 1], cs[|cs| - 1];
      RunAllEffect(s, effects, init);
      var before, more := Spawned(effects, init), effects(last);
      var mid := RunAll(s, effects, init);
      DeferAllEffect(mid.(executed := mid.executed + [Stamped(last, s.passes)]), more);
      assert s.deferred + before + more == s.deferred + (before + more);
      assert s.submitted + Stamp(before, s.passes) + Stamp(more, s.passes)
          == s.submitted + Stamp(before + more, s.passes);
      assert s.executed + Stamp(init, s.passes) + [Stamped(last, s.passes)] == s.executed + Stamp(cs, s.passes);
    }
  }

  lemma {:induction false} PassKeepsInv(s: State, effects: Effects)
    requires Inv(s) && s.active
    ensures Inv(Pass(s, effects))
  {
    var start := s.(deferred := [], passes := s.passes + 1);
    var spawned := Spawned(effects, s.deferred);
    RunAllEffect(start, effects, s.deferred);
    var r := Pass(s, effects);
    assert r.submitted == s.submitted + Stamp(spawned, s.passes + 1);
    assert r.deferred == spawned;
    assert r.submitted[|s.submitted|..] == Stamp(spawned, s.passes + 1);
    forall i | 0 <= i < |r.executed|
      ensures r.executed[i] == Stamped(r.submitted[i].callback, r.submitted[i].pass + 1)
    {
      if i >= |s.executed| {
        assert s.submitted[i] == s.submitted[|s.executed|..][i - |s.executed|];
      }
    }
  }

  /** In every run: each callback runs once, in deferral order, in the pass after the one it was deferred in,
      and the check handle is active exactly when something is pending. */
  lemma {:induction false} EveryRunIsOrderly(effects: Effects, actions: seq<Action>)
    ensures Inv(Run(effects, actions))
  {
    if actions != [] {
      var s, a := Run(effects, actions[..|actions| - 1]), actions[|actions| - 1];
      EveryRunIsOrderly(effects, actions[..|actions| - 1]);
      match a
      case Defer(c) => DeferKeepsInv(s, c);
      case Check => if s.active { PassKeepsInv(s, effects); }
    }
  }

  /** Nothing waits for more than one pass: a check phase calls exactly what was waiting. */
  lemma {:induction false} CheckRunsWhatWaits(s: State, effects: Effects)
    requires Inv(s)
    ensures var r := Next(s, effects, Check);
            r.executed == s.executed + (if s.deferred == [] then [] else Stamp(s.deferred, s.passes + 1))
  {
    if s.active {
      RunAllEffect(s.(deferred := [], passes := s.passes + 1), effects, s.deferred);
    }
  }

  ghost function CallbacksOf(ss: seq<Stamped>): (r: seq<Callback>)
    ensures |r| == |ss| && forall i :: 0 <= i < |ss| ==> r[i] == ss[i].callback
  {
    seq(|ss|, i requires 0 <= i < |ss| => ss[i].callback)
  }

  /** The callbacks that an action asks for: directly, or through those that a check phase calls. */
  ghost function AskedBy(s: State, effects: Effects, a: Action): (r: seq<Callback>) {
    match a
    case Defer(c) => [c]
    case Check => Spawned(effects, s.deferred)
  }

  ghost function Asked(effects: Effects, actions: seq<Action>): (r: seq<Callback>) {
    if actions == [] then []
    else
      var init, last := actions[..|actions| - 1], actions[|actions| - 1];
      Asked(effects, init) + AskedBy(Run(effects, init), effects, last)
  }

  lemma {:induction false} ActionDefers(s: State, effects: Effects, a: Action)
    requires Inv(s)
    ensures CallbacksOf(Next(s, effects, a).submitted) == CallbacksOf(s.submitted) + AskedBy(s, effects, a)
  {
    if a.Check? {
      if s.active {
        RunAllEffect(s.(deferred := [], passes := s.passes + 1), effects, s.deferred);
      } else {
        assert AskedBy(s, effects, a) == [];
      }
    }
  }

  /** In every run, exactly the callbacks that are asked for are deferred, in that order; so each of them is called
      or waiting. */
  lemma {:induction false} WhatIsAskedIsDeferred(effects: Effects, actions: seq<Action>)
    ensures CallbacksOf(Run(effects, actions).submitted) == Asked(effects, actions)
  {
    hide Next, AskedBy, Inv;
    if actions != [] {
      var init := actions[..|actions| - 1];
      WhatIsAskedIsDeferred(effects, init);
      EveryRunIsOrderly(effects, init);
      ActionDefers(Run(effects, init), effects, actions[|actions| - 1]);
    }
  }

  // ---- The code

  class Scheduler {
    const effects: Effects
    var deferredCallbacks: seq<Callback>
    var checkerActive: bool
    ghost var passes: nat
    ghost var submitted: seq<Stamped>
    ghost var executed: seq<Stamped>

    ghost function Abs(): (s: State)
      reads this
    {
      State(deferredCallbacks, checkerActive, passes, submitted, executed)
    }

    /** What holds between passes. While a pass is under way, `Abs()` is a state of `RunAll` instead. */
    ghost predicate Valid()
      reads this
    {
      Inv(Abs())
    }

    constructor (effects: Effects)
      ensures Valid() && Abs() == INITIAL && this.effects == effects
    {
      this.effects := effects;
      deferredCallbacks, checkerActive := [], false;
      passes, submitted, executed := 0, [], [];
    }

    method DeferCallback(callback: Callback)
      modifies this
      ensures Abs() == DeferOne(old(Abs()), callback)
      ensures old(Valid()) ==> Valid()
    {
      if Inv(Abs()) { DeferKeepsInv(Abs(), callback); }
      var hasProcessedDeferredCallbacks := |deferredCallbacks| == 0;
      if hasProcessedDeferredCallbacks {
        checkerActive := true;
      }
      deferredCallbacks := deferredCallbacks + [callback];
      submitted := submitted + [Stamped(callback, passes)];
    }

    /** Calling a callback: it defers what it defers. */
    method Call(callback: Callback)
      modifies this
      ensures Abs() == RunOne(old(Abs()), effects, callback)
    {
      executed := executed + [Stamped(callback, passes)];
      ghost var start := Abs();
      var more := effects(callback);
      var i := 0;
      while i < |more|
        invariant 0 <= i <= |more| && Abs() == DeferAll(start, more[..i])
      {
        assert more[..i + 1][..i] == more[..i];
        DeferCallback(more[i]);
        i := i + 1;
      }
      assert more[..i] == more;
    }

    method OnCheck()
      requires Valid() && checkerActive
      modifies this
      ensures Valid() && Abs() == Next(old(Abs()), effects, Check)
    {
      hide Inv;
      PassKeepsInv(Abs(), effects);
      var processedCallbacks := deferredCallbacks;
      deferredCallbacks := [];
      passes := passes + 1;
      ghost var start := Abs();
      var i := 0;
      while i < |processedCallbacks|
        invariant 0 <= i <= |processedCallbacks| && Abs() == RunAll(start, effects, processedCallbacks[..i])
      {
        assert processedCallbacks[..i + 1][..i] == processedCallbacks[..i];
        Call(processedCallbacks[i]);
        i := i + 1;
      }
      assert processedCallbacks[..i] == processedCallbacks;
      var hasProcessedDeferredCallbacks := |deferredCallbacks| == 0;
      if hasProcessedDeferredCallbacks {
        checkerActive := false;
      }
    }
  }
}
