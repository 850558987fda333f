/** A flag guarded by a mutex and a condition variable: waiters block until a signaller has set
    it. Waiting releases the mutex and joins the wait set in one step, a signal wakes at least
    one thread of the wait set if there is one, and a waiter may wake up for no reason. */
module ReadyFlag {
  import opened Basics

  // Check is the loop test, with the mutex held; Blocked is the wait set; Woken has left it and
  // must take the mutex again; Past has left the loop.
  datatype WaiterPc = Start | Check | Blocked | Woken | Past | Done

  datatype SignallerPc = SStart | SLocked | SSet | SSignalled | SDone

  datatype State = State(owner: Option<nat>, ready: bool, waiters: seq<WaiterPc>, signaller: SignallerPc)

  datatype Action = Waiter(k: nat) | Signaller(wake: set<nat>) | Spurious(j: nat)

  function FireWaiter(s: State, k: nat): Option<State>
    requires k < |s.waiters|
  {
    match s.waiters[k]
    case Start => if s.owner.None? then Some(s.(owner := Some(k), waiters := s.waiters[k := Check])) else None
    case Check =>
      if s.ready then Some(s.(waiters := s.waiters[k := Past]))
      else Some(s.(owner := None, waiters := s.waiters[k := Blocked]))
    case Blocked => None
    case Woken => if s.owner.None? then Some(s.(owner := Some(k), waiters := s.waiters[k := Check])) else None
    case Past => Some(s.(owner := None, waiters := s.waiters[k := Done]))
    case Done => None
  }

  predicate IsBlocked(s: State, k: nat) {
    k < |s.waiters| && s.waiters[k].Blocked?
  }

  // The sets of threads that one signal may wake.
  predicate MayWake(s: State, wake: set<nat>) {
    && (forall k | k in wake :: IsBlocked(s, k))
    && ((exists k | 0 <= k < |s.waiters| :: IsBlocked(s, k)) ==> wake != {})
  }

  function Wake(s: State, wake: set<nat>): seq<WaiterPc> {
    seq(|s.waiters|, k requires 0 <= k < |s.waiters| => if k in wake then Woken else s.waiters[k])
  }

  function FireSignaller(s: State, wake: set<nat>): Option<State> {
    match s.signaller
    case SStart => if s.owner.None? then Some(s.(owner := Some(|s.waiters|), signaller := SLocked)) else None
    case SLocked => Some(s.(ready := true, signaller := SSet))
    case SSet => if MayWake(s, wake) then Some(s.(waiters := Wake(s, wake), signaller := SSignalled)) else None
    case SSignalled => Some(s.(owner := None, signaller := SDone))
    case SDone => None
  }

  function Fire(s: State, a: Action): Option<State> {
    match a
    case Waiter(k) => if k < |s.waiters| then FireWaiter(s, k) else None
    case Signaller(wake) => FireSignaller(s, wake)
    case Spurious(k) => if IsBlocked(s, k) then Some(s.(waiters := s.waiters[k := Woken])) else None
  }

  function Move(s: State, a: Action): State {
    if Fire(s, a).Some? then Fire(s, a).value else s
  }

  function Run(s: State, schedule: seq<Action>): State {
    if schedule == [] then s
    else Move(Run(s, schedule[..|schedule| - 1]), schedule[|schedule| - 1])
  }

  function Initial(waiters: nat): (s: State)
    ensures |s.waiters| == waiters
  {
    State(None, false, seq(waiters, k => Start), SStart)
  }

  // Nothing can move any more, except by an accidental wakeup.
  ghost predicate Stuck(s: State) {
    forall a: Action | !a.Spurious? :: Fire(s, a).None?
  }

  predicate Final(s: State) {
    s.signaller.SDone? && forall k | 0 <= k < |s.waiters| :: s.waiters[k].Done?
  }

  predicate WaiterOk(s: State, k: nat)
    requires k < |s.waiters|
  {
    && (s.owner == Some(k) <==> s.waiters[k].Check? || s.waiters[k].Past?)
    && (s.waiters[k].Past? || s.waiters[k].Done? ==> s.ready)
  }

  predicate Signalled(s: State) {
    s.signaller.SSignalled? || s.signaller.SDone?
  }

  predicate Consistent(s: State) {
    && (s.owner == Some(|s.waiters|) <==> s.signaller.SLocked? || s.signaller.SSet? || s.signaller.SSignalled?)
    && (s.owner.Some? ==> s.owner.value <= |s.waiters|)
    && (s.ready <==> s.signaller.SSet? || Signalled(s))
    && (forall k | 0 <= k < |s.waiters| :: WaiterOk(s, k))
  }

  // With a single waiter, once the signal is out nobody is left in the wait set.
  predicate NoLostWakeup(s: State) {
    |s.waiters| <= 1 && Signalled(s) ==> forall k | 0 <= k < |s.waiters| :: !s.waiters[k].Blocked?
  }

  lemma ConsistentStep(s: State, a: Action)
    requires Consistent(s) && Fire(s, a).Some?
    ensures Consistent(Fire(s, a).value) && |Fire(s, a).value.waiters| == |s.waiters|
  {
    var r := Fire(s, a).value;
    assert a.Waiter? ==> WaiterOk(s, a.k);
    assert a.Spurious? ==> WaiterOk(s, a.j);
    forall k | 0 <= k < |r.waiters|
      ensures WaiterOk(r, k)
    {
      assert WaiterOk(s, k);
    }
  }

  lemma NoLostWakeupStep(s: State, a: Action)
    requires Consistent(s) && NoLostWakeup(s) && Fire(s, a).Some?
    ensures NoLostWakeup(Fire(s, a).value)
  {
    var r := Fire(s, a).value;
    if |r.waiters| == 1 && s.signaller.SSet? && Signalled(r) && s.waiters[0].Blocked? {
      assert IsBlocked(s, 0);
      var k := Pick(a.wake);
      assert IsBlocked(s, k) && k == 0;
    }
  }

  lemma {:induction false} AlwaysConsistent(waiters: nat, schedule: seq<Action>)
    ensures var r := Run(Initial(waiters), schedule); Consistent(r) && NoLostWakeup(r) && |r.waiters| == waiters
  {
    if schedule != [] {
      var before := Run(Initial(waiters), schedule[..|schedule| - 1]);
      var a := schedule[|schedule| - 1];
      AlwaysConsistent(waiters, schedule[..|schedule| - 1]);
      if Fire(before, a).Some? {
        ConsistentStep(before, a);
        NoLostWakeupStep(before, a);
      }
    }
  }

  // A waiter gets past its loop only after the flag was set, and while it is in the wait set with
  // the flag set the signal is still to come (one waiter).
  lemma ProceedsOnlyWhenReady(waiters: nat, schedule: seq<Action>, k: nat)
    requires k < waiters
    ensures var r := Run(Initial(waiters), schedule);
            && k < |r.waiters|
            && (r.waiters[k].Past? || r.waiters[k].Done? ==> r.ready)
            && (waiters == 1 && r.ready && r.waiters[k].Blocked? ==> r.signaller.SSet?)
  {
    AlwaysConsistent(waiters, schedule);
    assert WaiterOk(Run(Initial(waiters), schedule), k);
  }

  // What keeps a state from moving: only waiters in the wait set with the signal gone.
  lemma StuckStates(s: State)
    requires Consistent(s)
    ensures Stuck(s) <==>
            s.signaller.SDone? && forall k | 0 <= k < |s.waiters| :: s.waiters[k].Done? || s.waiters[k].Blocked?
  {
    if Stuck(s) {
      StuckIsQuiet(s);
    }
  }

  lemma StuckIsQuiet(s: State)
    requires Consistent(s) && Stuck(s)
    ensures s.signaller.SDone? && forall k | 0 <= k < |s.waiters| :: s.waiters[k].Done? || s.waiters[k].Blocked?
  {
    var all := set k: nat | k < |s.waiters| && IsBlocked(s, k);
    assert Fire(s, Signaller(all)).None? && Fire(s, Signaller({})).None?;
    assert MayWake(s, all) by {
      if k :| 0 <= k < |s.waiters| && IsBlocked(s, k) {
        assert k in all;
      }
    }
    assert s.owner.Some? && s.owner.value < |s.waiters| ==>
             WaiterOk(s, s.owner.value) && Fire(s, Waiter(s.owner.value)).None?;
    forall k | 0 <= k < |s.waiters|
      ensures s.waiters[k].Done? || s.waiters[k].Blocked?
    {
      assert WaiterOk(s, k) && Fire(s, Waiter(k)).None?;
    }
  }

  // ---- how long a run can be ----

  // Steps a waiter still takes unless it wakes up for no reason, before and after ready is set.
  function LeftUnready(w: WaiterPc): int {
    match w
    case Start => 6 case Check => 5 case Blocked => 4 case Woken => 6 case Past => 1 case Done => 0
  }

  function LeftReady(w: WaiterPc): int {
    match w
    case Start => 3 case Check => 2 case Blocked => 3 case Woken => 3 case Past => 1 case Done => 0
  }

  function LeftSignaller(p: SignallerPc): int {
    match p
    case SStart => 4 case SLocked => 3 case SSet => 2 case SSignalled => 1 case SDone => 0
  }

  function Left(s: State): int {
    Sum(s.waiters, if s.ready then LeftReady else LeftUnready) + LeftSignaller(s.signaller)
  }

  lemma LeftNonNegative(s: State)
    ensures 0 <= Left(s)
  {
    SumNonNegative(s.waiters, LeftReady);
    SumNonNegative(s.waiters, LeftUnready);
  }

  lemma LeftOneWaiter(s: State, k: nat, w: WaiterPc)
    requires k < |s.waiters|
    ensures var f := if s.ready then LeftReady else LeftUnready;
            Sum(s.waiters[k := w], f) == Sum(s.waiters, f) - f(s.waiters[k]) + f(w)
  {
    SumUpdate(s.waiters, k, w, if s.ready then LeftReady else LeftUnready);
  }

  lemma LeftSignallerStep(s: State, wake: set<nat>)
    requires Consistent(s) && FireSignaller(s, wake).Some?
    ensures Left(FireSignaller(s, wake).value) <= Left(s) - 1
  {
    match s.signaller
    case SLocked => SumAtMost(s.waiters, LeftReady, LeftUnready);
    case SSet =>
      forall k | 0 <= k < |s.waiters|
        ensures LeftReady(Wake(s, wake)[k]) == LeftReady(s.waiters[k])
      {
        assert k in wake ==> IsBlocked(s, k);
      }
      SumSame(Wake(s, wake), s.waiters, LeftReady);
    case _ =>
  }

  // A step lowers the measure, unless it is a spurious wakeup, which raises it by two at most.
  lemma LeftStep(s: State, a: Action)
    requires Consistent(s) && Fire(s, a).Some?
    ensures Left(Fire(s, a).value) <= Left(s) + if a.Spurious? then 2 else -1
  {
    match a
    case Waiter(k) =>
      LeftOneWaiter(s, k, Fire(s, a).value.waiters[k]);
    case Signaller(wake) => LeftSignallerStep(s, wake);
    case Spurious(j) => LeftOneWaiter(s, j, Woken);
  }

  predicate Effective(s: State, schedule: seq<Action>) {
    forall n | 0 <= n < |schedule| :: Fire(Run(s, schedule[..n]), schedule[n]).Some?
  }

  function SpuriousWakeups(schedule: seq<Action>): nat {
    if schedule == [] then 0
    else SpuriousWakeups(schedule[..|schedule| - 1]) + if schedule[|schedule| - 1].Spurious? then 1 else 0
  }

  lemma {:induction false} LeftRun(waiters: nat, schedule: seq<Action>)
    requires Effective(Initial(waiters), schedule)
    ensures |schedule| + Left(Run(Initial(waiters), schedule)) <= Left(Initial(waiters)) + 3 * SpuriousWakeups(schedule)
  {
    if schedule != [] {
      var init, prefix := Initial(waiters), schedule[..|schedule| - 1];
      assert forall n | 0 <= n <= |prefix| :: prefix[..n] == schedule[..n];
      LeftRun(waiters, prefix);
      AlwaysConsistent(waiters, prefix);
      LeftStep(Run(init, prefix), schedule[|schedule| - 1]);
    }
  }

  lemma {:induction false} LeftAtStart(ws: seq<WaiterPc>)
    requires forall k | 0 <= k < |ws| :: ws[k].Start?
    ensures Sum(ws, LeftUnready) == 6 * |ws|
  {
    if ws != [] {
      LeftAtStart(ws[1..]);
    }
  }

  // A run is as long as its spurious wakeups allow: six steps for each waiter, four for the
  // signaller, and three for each spurious wakeup.
  lemma EffectiveRunsAreBounded(waiters: nat, schedule: seq<Action>)
    requires Effective(Initial(waiters), schedule)
    ensures |schedule| <= 6 * waiters + 4 + 3 * SpuriousWakeups(schedule)
  {
    LeftAtStart(Initial(waiters).waiters);
    LeftNonNegative(Run(Initial(waiters), schedule));
    LeftRun(waiters, schedule);
  }

  // ---- waking up for no reason ----

  // A spurious wakeup gets one sleeping waiter out of the wait set. While ready is unset and the mutex
  // free, it checks the flag and is back asleep two steps later, and nothing has changed; once ready
  // is set it gets past the loop instead.
  lemma SpuriousWakeup(s: State, j: nat)
    requires IsBlocked(s, j) && s.owner.None?
    ensures Move(s, Spurious(j)) == s.(waiters := s.waiters[j := Woken])
    ensures !s.ready ==> Run(s, [Spurious(j), Waiter(j), Waiter(j)]) == s
    ensures s.ready ==>
              Run(s, [Spurious(j), Waiter(j), Waiter(j), Waiter(j)]) == s.(waiters := s.waiters[j := Done])
  {
    var woken := Move(s, Spurious(j));
    var checking := woken.(owner := Some(j), waiters := s.waiters[j := Check]);
    assert woken.waiters[j := Check] == s.waiters[j := Check] && Move(woken, Waiter(j)) == checking;
    RunAppend(s, [], Spurious(j));
    RunAppend(s, [Spurious(j)], Waiter(j));
    RunAppend(s, [Spurious(j), Waiter(j)], Waiter(j));
    assert [] + [Spurious(j)] == [Spurious(j)];
    assert [Spurious(j)] + [Waiter(j)] == [Spurious(j), Waiter(j)];
    assert [Spurious(j), Waiter(j)] + [Waiter(j)] == [Spurious(j), Waiter(j), Waiter(j)];
    if !s.ready {
      assert checking.waiters[j := Blocked] == s.waiters;
    } else {
      RunAppend(s, [Spurious(j), Waiter(j), Waiter(j)], Waiter(j));
      assert [Spurious(j), Waiter(j), Waiter(j)] + [Waiter(j)] == [Spurious(j), Waiter(j), Waiter(j), Waiter(j)];
      assert checking.waiters[j := Past][j := Done] == s.waiters[j := Done];
    }
  }

  // ---- more than one waiter ----

  lemma RunAppend(s: State, first: seq<Action>, a: Action)
    ensures Run(s, first + [a]) == Move(Run(s, first), a)
  {
    assert (first + [a])[..|first|] == first;
  }

  function Parked(waiters: nat, k: nat): State
    requires k <= waiters
  {
    State(None, false, seq(waiters, j => if j < k then Blocked else Start), SStart)
  }

  lemma {:induction false} ParkAll(waiters: nat, k: nat) returns (schedule: seq<Action>)
    requires k <= waiters
    ensures Run(Initial(waiters), schedule) == Parked(waiters, k)
  {
    if k == 0 {
      schedule := [];
    } else {
      var first := ParkAll(waiters, k - 1);
      var s := Parked(waiters, k - 1);
      var locked := s.(owner := Some(k - 1), waiters := s.waiters[k - 1 := Check]);
      RunAppend(Initial(waiters), first, Waiter(k - 1));
      assert Move(s, Waiter(k - 1)) == locked;
      schedule := first + [Waiter(k - 1)];
      RunAppend(Initial(waiters), schedule, Waiter(k - 1));
      assert locked.waiters[k - 1 := Blocked] == Parked(waiters, k).waiters;
      schedule := schedule + [Waiter(k - 1)];
    }
  }

  // Two or more waiters, one signal: it wakes one of them and the others sleep for ever.
  lemma SecondWaiterSleeps(waiters: nat) returns (schedule: seq<Action>)
    requires waiters >= 2
    ensures Stuck(Run(Initial(waiters), schedule)) && !Final(Run(Initial(waiters), schedule))
  {
    var init, s := Initial(waiters), Parked(waiters, waiters);
    schedule := ParkAll(waiters, waiters);
    var sig := Signaller({0});
    var s1 := s.(owner := Some(waiters), signaller := SLocked);
    RunAppend(init, schedule, sig);
    schedule := schedule + [sig];
    var s2 := s1.(ready := true, signaller := SSet);
    RunAppend(init, schedule, sig);
    schedule := schedule + [sig];
    var s3 := s2.(waiters := s.waiters[0 := Woken], signaller := SSignalled);
    assert IsBlocked(s2, 0) && Wake(s2, {0}) == s3.waiters;
    RunAppend(init, schedule, sig);
    schedule := schedule + [sig];
    RunAppend(init, schedule, sig);
    schedule := schedule + [sig];
    var s4 := s3.(owner := None, signaller := SDone);
    assert Run(init, schedule) == s4;
    schedule := WakeFirst(waiters, schedule, s4);
    AlwaysConsistent(waiters, schedule);
    StuckStates(Run(init, schedule));
    assert Run(init, schedule).waiters[1].Blocked?;
  }

  lemma WakeFirst(waiters: nat, first: seq<Action>, s: State) returns (schedule: seq<Action>)
    requires waiters >= 2 && Run(Initial(waiters), first) == s
    requires s.owner.None? && s.ready && |s.waiters| == waiters && s.waiters[0].Woken?
    ensures Run(Initial(waiters), schedule) == s.(waiters := s.waiters[0 := Done])
  {
    var init, a := Initial(waiters), Waiter(0);
    RunAppend(init, first, a);
    schedule := first + [a];
    RunAppend(init, schedule, a);
    schedule := schedule + [a];
    RunAppend(init, schedule, a);
    schedule := schedule + [a];
    assert Run(init, schedule).waiters == s.waiters[0 := Done];
  }

  ghost predicate NeverDeadlocks(waiters: nat) {
    forall schedule :: Stuck(Run(Initial(waiters), schedule)) ==> Final(Run(Initial(waiters), schedule))
  }

  // One signal is enough for one waiter, and for no more than one.
  lemma DeadlockFreeIffOneWaiter(waiters: nat)
    ensures NeverDeadlocks(waiters) <==> waiters <= 1
  {
    if waiters <= 1 {
      forall schedule | Stuck(Run(Initial(waiters), schedule))
        ensures Final(Run(Initial(waiters), schedule))
      {
        AlwaysConsistent(waiters, schedule);
        StuckIsQuiet(Run(Initial(waiters), schedule));
      }
    } else {
      var schedule := SecondWaiterSleeps(waiters);
    }
  }
}
