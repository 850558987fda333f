/** Reference-counted start-up and shutdown of the adaptation layer. ConcurrentInit looks at calls
    of the start-up function that run at the same time under a semaphore they take only if they
    can; SystemContext looks at calls of both functions that follow one another.
    Line numbers refer to the file `base.c`. */
module ConcurrentInit {
  import opened Basics

  const MAX_RETRY := 2

  // Try(n): about to make attempt n at the semaphore. Load and Store are the two halves of the
  // increment, Test compares the new count and reads the active flag, RunList runs the module
  // initialisers, Activate sets the flag, Post releases the semaphore.
  datatype Pc = Try(n: nat) | Load | Store | Test | RunList | Activate | Post | Done

  datatype Call = Call(pc: Pc, locked: bool, local: int)

  datatype State = State(sem: int, refCnt: int, active: bool, listRuns: nat, calls: seq<Call>)

  // The next atomic step of call k; a finished call stays as it is.
  function Move(s: State, k: nat): State {
    if k >= |s.calls| then s
    else
      var c := s.calls[k];
      match c.pc
      case Try(n) =>
        if s.sem > 0 then s.(sem := s.sem - 1, calls := s.calls[k := c.(pc := Load, locked := true)])
        else s.(calls := s.calls[k := c.(pc := if n < MAX_RETRY then Try(n + 1) else Load)])
      case Load => s.(calls := s.calls[k := c.(pc := Store, local := s.refCnt)])
      case Store => s.(refCnt := c.local + 1, calls := s.calls[k := c.(pc := Test)])
      case Test => s.(calls := s.calls[k := c.(pc := if c.local + 1 > 1 || s.active then Post else RunList)])
      case RunList => s.(listRuns := s.listRuns + 1, calls := s.calls[k := c.(pc := Activate)])
      case Activate => s.(active := true, calls := s.calls[k := c.(pc := Post)])
      case Post => s.(sem := s.sem + 1, calls := s.calls[k := c.(pc := Done)])
      case Done => s
  }

  function Run(s: State, schedule: seq<nat>): State
    decreases |schedule|
  {
    if schedule == [] then s else Run(Move(s, schedule[0]), schedule[1..])
  }

  // n calls about to start, and the value that earlier processes left in the named semaphore.
  function Initial(n: nat, left: nat): State {
    State(left, 0, false, 0, seq(n, k => Call(Try(0), false, 0)))
  }

  function Holds(c: Call): int {
    if c.locked && !c.pc.Done? then 1 else 0
  }

  // A finished call that never had the semaphore has added one to it.
  function Gift(c: Call): int {
    if !c.locked && c.pc.Done? then 1 else 0
  }

  predicate Conserved(s: State, left: nat) {
    && 0 <= s.sem && s.sem + Sum(s.calls, Holds) == left + Sum(s.calls, Gift)
    && forall k | 0 <= k < |s.calls| :: s.calls[k].pc.Try? ==> !s.calls[k].locked
  }

  // One call changed, and the semaphore moved in step with it.
  lemma ConservedUpdate(s: State, left: nat, r: State, k: nat, c: Call)
    requires Conserved(s, left) && k < |s.calls| && r.calls == s.calls[k := c] && 0 <= r.sem
    requires r.sem + Holds(c) - Gift(c) == s.sem + Holds(s.calls[k]) - Gift(s.calls[k])
    requires c.pc.Try? ==> !c.locked
    ensures Conserved(r, left)
  {
    SumUpdate(s.calls, k, c, Holds);
    SumUpdate(s.calls, k, c, Gift);
  }

  lemma ConservedStep(s: State, left: nat, k: nat)
    requires Conserved(s, left)
    ensures Conserved(Move(s, k), left)
  {
    if k < |s.calls| && !s.calls[k].pc.Done? {
      ConservedUpdate(s, left, Move(s, k), k, Move(s, k).calls[k]);
    }
  }

  lemma {:induction false} ConservedRun(s: State, left: nat, schedule: seq<nat>)
    requires Conserved(s, left)
    ensures Conserved(Run(s, schedule), left) && |Run(s, schedule).calls| == |s.calls|
    decreases |schedule|
  {
    if schedule != [] {
      ConservedStep(s, left, schedule[0]);
      ConservedRun(Move(s, schedule[0]), left, schedule[1..]);
    }
  }

  lemma InitiallyConserved(n: nat, left: nat)
    ensures Conserved(Initial(n, left), left) && Orderly(Initial(n, left))
  {
    SumZero(Initial(n, left).calls, Holds);
    SumZero(Initial(n, left).calls, Gift);
    SumZero(Initial(n, left).calls, Counted);
  }

  // In every interleaving, timeouts or not: the semaphore's value and its holders add up to its
  // first value plus the finished calls that never acquired it. These posts stay behind.
  lemma SemaphoreConserved(n: nat, left: nat, schedule: seq<nat>)
    ensures var r := Run(Initial(n, left), schedule);
            && |r.calls| == n && r.sem + Sum(r.calls, Holds) == left + Sum(r.calls, Gift)
            && ((forall k | 0 <= k < n :: r.calls[k].pc.Done?) ==> r.sem == left + Sum(r.calls, Gift))
  {
    InitiallyConserved(n, left);
    ConservedRun(Initial(n, left), left, schedule);
    var r := Run(Initial(n, left), schedule);
    if forall k | 0 <= k < n :: r.calls[k].pc.Done? {
      SumZero(r.calls, Holds);
    }
  }

  // ---- attempts ----

  // How often a schedule picks call k.
  function Picks(schedule: seq<nat>, k: nat): nat {
    if schedule == [] then 0 else Picks(schedule[1..], k) + if schedule[0] == k then 1 else 0
  }

  // Call k has been picked `picks` times in all.
  predicate Attempted(s: State, k: nat, picks: nat) {
    && k < |s.calls|
    && (s.calls[k].pc.Try? ==> s.calls[k].pc.n == picks < 3)
    && (!s.calls[k].pc.Try? && !s.calls[k].locked ==> picks >= 3)
  }

  lemma {:induction false} AttemptedRun(s: State, k: nat, picks: nat, schedule: seq<nat>)
    requires Attempted(s, k, picks)
    ensures Attempted(Run(s, schedule), k, picks + Picks(schedule, k))
    decreases |schedule|
  {
    if schedule != [] {
      AttemptedRun(Move(s, schedule[0]), k, if schedule[0] == k then picks + 1 else picks, schedule[1..]);
    }
  }

  // In every interleaving a call makes at most three attempts at the semaphore, and it goes on
  // without it only after all three.
  lemma ThreeAttempts(n: nat, left: nat, schedule: seq<nat>, k: nat)
    requires k < n
    ensures Attempted(Run(Initial(n, left), schedule), k, Picks(schedule, k))
  {
    AttemptedRun(Initial(n, left), k, 0, schedule);
  }

  // ---- an active layer ----

  function AtList(c: Call): int {
    if c.pc.RunList? then 1 else 0
  }

  lemma ActiveStep(s: State, k: nat)
    requires s.active
    ensures var r := Move(s, k);
            r.active && r.listRuns + Sum(r.calls, AtList) == s.listRuns + Sum(s.calls, AtList)
  {
    if k < |s.calls| && !s.calls[k].pc.Done? {
      SumUpdate(s.calls, k, Move(s, k).calls[k], AtList);
    }
  }

  // From an active state on, timeouts or not, the layer stays active, and only the calls that are
  // about to run the list already still run it: whoever reads the flag from then on leaves.
  lemma {:induction false} ActiveStays(s: State, schedule: seq<nat>)
    requires s.active
    ensures var r := Run(s, schedule);
            r.active && r.listRuns + Sum(r.calls, AtList) == s.listRuns + Sum(s.calls, AtList)
    decreases |schedule|
  {
    if schedule != [] {
      ActiveStep(s, schedule[0]);
      ActiveStays(Move(s, schedule[0]), schedule[1..]);
    }
  }

  // So if none of them is, the list never runs again.
  lemma NoListOnceActive(s: State, schedule: seq<nat>)
    requires s.active && forall k | 0 <= k < |s.calls| :: !s.calls[k].pc.RunList?
    ensures Run(s, schedule).active && Run(s, schedule).listRuns == s.listRuns
  {
    ActiveStays(s, schedule);
    SumZero(s.calls, AtList);
    SumNonNegative(Run(s, schedule).calls, AtList);
    ListRunsGrow(s, schedule);
  }

  lemma {:induction false} ListRunsGrow(s: State, schedule: seq<nat>)
    ensures s.listRuns <= Run(s, schedule).listRuns
    decreases |schedule|
  {
    if schedule != [] {
      ListRunsGrow(Move(s, schedule[0]), schedule[1..]);
    }
  }

  // ---- runs in which nobody gives up ----

  predicate NoTimeouts(s: State) {
    forall k | 0 <= k < |s.calls| :: s.calls[k].pc.Try? || s.calls[k].locked
  }

  // Giving up cannot be undone.
  lemma {:induction false} TimeoutsStay(s: State, schedule: seq<nat>)
    requires !NoTimeouts(s)
    ensures !NoTimeouts(Run(s, schedule))
    decreases |schedule|
  {
    if schedule != [] {
      var k :| 0 <= k < |s.calls| && !s.calls[k].pc.Try? && !s.calls[k].locked;
      var r := Move(s, schedule[0]);
      assert |r.calls| == |s.calls| && !r.calls[k].pc.Try? && !r.calls[k].locked;
      TimeoutsStay(r, schedule[1..]);
    }
  }

  predicate Inside(c: Call) {
    !c.pc.Try? && !c.pc.Done?
  }

  predicate Fresh(s: State) {
    s.refCnt == 0 && !s.active && s.listRuns == 0
  }

  predicate Started(s: State) {
    s.refCnt >= 1 && s.active && s.listRuns == 1
  }

  // What a call that is inside knows about the shared fields.
  predicate CallOk(s: State, c: Call) {
    match c.pc
    case Try(_) => true
    case Load => Fresh(s) || Started(s)
    case Store => c.local == s.refCnt && (Fresh(s) || Started(s))
    case Test =>
      && c.local + 1 == s.refCnt
      && (if c.local == 0 then !s.active && s.listRuns == 0 else Started(s) && c.local >= 1)
    case RunList => s.refCnt >= 1 && !s.active && s.listRuns == 0
    case Activate => s.refCnt >= 1 && !s.active && s.listRuns == 1
    case Post => Started(s)
    case Done => true
  }

  function Counted(c: Call): int {
    if c.pc.Try? || c.pc.Load? || c.pc.Store? then 0 else 1
  }

  // At most one call is between its attempts and its return.
  ghost predicate Exclusive(s: State) {
    forall j, k | 0 <= j < k < |s.calls| :: !(Inside(s.calls[j]) && Inside(s.calls[k]))
  }

  // No increment is lost.
  ghost predicate CountsCalls(s: State) {
    s.refCnt == Sum(s.calls, Counted)
  }

  ghost predicate Orderly(s: State) {
    && CountsCalls(s) && s.listRuns <= 1
    && (forall k | 0 <= k < |s.calls| :: CallOk(s, s.calls[k]))
    && ((forall k | 0 <= k < |s.calls| :: !Inside(s.calls[k])) ==> Fresh(s) || Started(s))
    && ((exists k | 0 <= k < |s.calls| :: s.calls[k].pc.Done?) ==> s.active && s.listRuns == 1)
  }

  // Without timeouts a semaphore that began with at most one excludes, and it is free only if
  // nobody is inside.
  lemma Exclusion(s: State, left: nat)
    requires Conserved(s, left) && left <= 1 && NoTimeouts(s)
    ensures Exclusive(s)
    ensures s.sem > 0 ==> forall k | 0 <= k < |s.calls| :: !Inside(s.calls[k])
    ensures s.sem <= 1
  {
    SumZero(s.calls, Gift);
    SumNonNegative(s.calls, Holds);
    forall j, k | 0 <= j < k < |s.calls|
      ensures !(Inside(s.calls[j]) && Inside(s.calls[k]))
    {
      SumAtLeastTwo(s.calls, j, k, Holds);
    }
    forall k | 0 <= k < |s.calls|
      ensures s.sem > 0 ==> !Inside(s.calls[k])
    {
      SumAtLeast(s.calls, k, Holds);
    }
  }

  // Call k moves alone: the others are outside whenever it is inside or gets inside.
  ghost predicate MovesAlone(s: State, k: nat) {
    && k < |s.calls| && Exclusive(s)
    && (s.calls[k].pc.Try? && Inside(Move(s, k).calls[k]) ==> forall j | 0 <= j < |s.calls| :: !Inside(s.calls[j]))
  }

  lemma CallsStep(s: State, k: nat, j: nat)
    requires MovesAlone(s, k) && Orderly(s) && j < |s.calls|
    ensures CallOk(Move(s, k), Move(s, k).calls[j])
  {
    assert CallOk(s, s.calls[j]) && CallOk(s, s.calls[k]);
    if j != k && Inside(s.calls[j]) {
      assert !Inside(s.calls[k]);
    }
  }

  lemma QuietStep(s: State, k: nat)
    requires Orderly(s) && k < |s.calls|
    requires forall j | 0 <= j < |s.calls| :: !Inside(Move(s, k).calls[j])
    ensures Fresh(Move(s, k)) || Started(Move(s, k))
  {
    var r := Move(s, k);
    assert CallOk(s, s.calls[k]) && !Inside(r.calls[k]);
    assert forall j | 0 <= j < |s.calls| && j != k :: s.calls[j] == r.calls[j];
  }

  lemma CountStep(s: State, k: nat)
    requires Orderly(s) && k < |s.calls|
    ensures CountsCalls(Move(s, k))
  {
    assert CallOk(s, s.calls[k]);
    SumUpdate(s.calls, k, Move(s, k).calls[k], Counted);
  }

  lemma OrderlyStep(s: State, k: nat)
    requires MovesAlone(s, k) && Orderly(s)
    ensures Orderly(Move(s, k))
  {
    var r := Move(s, k);
    CountStep(s, k);
    assert CallOk(s, s.calls[k]);
    forall j | 0 <= j < |r.calls|
      ensures CallOk(r, r.calls[j])
    {
      CallsStep(s, k, j);
    }
    if forall j | 0 <= j < |r.calls| :: !Inside(r.calls[j]) {
      QuietStep(s, k);
    }
    if j :| 0 <= j < |r.calls| && r.calls[j].pc.Done? {
      assert s.calls[j].pc.Done? || (j == k && s.calls[k].pc.Post?);
    }
  }

  lemma {:induction false} OrderlyRun(s: State, left: nat, schedule: seq<nat>)
    requires Conserved(s, left) && left <= 1 && Orderly(s) && NoTimeouts(Run(s, schedule))
    ensures Conserved(Run(s, schedule), left) && Orderly(Run(s, schedule))
    decreases |schedule|
  {
    if !NoTimeouts(s) {
      TimeoutsStay(s, schedule);
    }
    if schedule != [] {
      var r := Move(s, schedule[0]);
      if !NoTimeouts(r) {
        TimeoutsStay(r, schedule[1..]);
      }
      ConservedStep(s, left, schedule[0]);
      Exclusion(s, left);
      if schedule[0] < |s.calls| {
        OrderlyStep(s, schedule[0]);
      }
      OrderlyRun(r, left, schedule[1..]);
    }
  }

  // What every run should keep: at most one call inside, the list run at most once, no increment
  // lost, and every returned call leaves the layer active.
  ghost predicate Proper(s: State) {
    && Exclusive(s) && s.listRuns <= 1 && CountsCalls(s) && ReturnsActive(s)
    && forall k | 0 <= k < |s.calls| :: s.calls[k].pc.Done? ==> s.listRuns == 1
  }

  ghost predicate ReturnsActive(s: State) {
    forall k | 0 <= k < |s.calls| :: s.calls[k].pc.Done? ==> s.active
  }

  // If no call ever gave up, on a semaphore that began with at most one.
  lemma OrderlyWithoutTimeouts(n: nat, left: nat, schedule: seq<nat>)
    requires left <= 1 && NoTimeouts(Run(Initial(n, left), schedule))
    ensures Proper(Run(Initial(n, left), schedule))
  {
    InitiallyConserved(n, left);
    OrderlyRun(Initial(n, left), left, schedule);
    Exclusion(Run(Initial(n, left), schedule), left);
  }

  // ---- what a timeout costs ----

  lemma {:induction false} RunAppend(s: State, first: seq<nat>, k: nat)
    ensures Run(s, first + [k]) == Move(Run(s, first), k)
    decreases |first|
  {
    if first == [] {
      assert first + [k] == [k];
    } else {
      assert (first + [k])[1..] == first[1..] + [k];
      RunAppend(Move(s, first[0]), first[1..], k);
    }
  }

  // One more step of a growing schedule.
  lemma Step(s: State, first: seq<nat>, at: State, k: nat) returns (schedule: seq<nat>, next: State)
    requires Run(s, first) == at
    ensures schedule == first + [k] && next == Move(at, k) && Run(s, schedule) == next
  {
    RunAppend(s, first, k);
    schedule, next := first + [k], Move(at, k);
  }

  // Calls 0 and 1 as given, everybody else not begun.
  ghost predicate FirstTwo(s: State, n: nat, c0: Call, c1: Call) {
    n >= 2 && s.calls == Initial(n, 0).calls[0 := c0][1 := c1]
  }

  // A call that has not begun gets past its attempts, with the semaphore if it is free and after
  // three attempts without it if it is not.
  lemma GetsInside(s: State, first: seq<nat>, at: State, k: nat) returns (schedule: seq<nat>, next: State)
    requires Run(s, first) == at && k < |at.calls| && at.calls[k] == Call(Try(0), false, 0)
    ensures Run(s, schedule) == next
    ensures next == if at.sem > 0 then at.(sem := at.sem - 1, calls := at.calls[k := Call(Load, true, 0)])
                    else at.(calls := at.calls[k := Call(Load, false, 0)])
  {
    schedule, next := Step(s, first, at, k);
    if at.sem <= 0 {
      assert next == at.(calls := at.calls[k := Call(Try(1), false, 0)]);
      schedule, next := Step(s, schedule, next, k);
      assert next == at.(calls := at.calls[k := Call(Try(2), false, 0)]);
      schedule, next := Step(s, schedule, next, k);
    }
  }

  // With two or more calls, whatever the semaphore began with: the second returns, with the layer
  // inactive, while the first is still initialising. On a semaphore that began with one the second
  // has given up, and leaves it free although the first still holds it.
  lemma SecondReturnsEarly(n: nat, left: nat) returns (schedule: seq<nat>)
    requires n >= 2
    ensures var r := Run(Initial(n, left), schedule);
            && |r.calls| == n && r.calls[1].pc.Done? && !r.active
            && (left == 1 ==> r.sem == 1 && Holds(r.calls[0]) == 1 && Gift(r.calls[1]) == 1)
  {
    var s := Initial(n, left);
    var at;
    schedule, at := GetsInside(s, [], s, 0);
    var l0 := left > 0;
    assert FirstTwo(at, n, Call(Load, l0, 0), Call(Try(0), false, 0)) && at.refCnt == 0 && !at.active;
    schedule, at := Step(s, schedule, at, 0);
    schedule, at := Step(s, schedule, at, 0);
    assert FirstTwo(at, n, Call(Test, l0, 0), Call(Try(0), false, 0)) && at.refCnt == 1 && !at.active;
    schedule, at := GetsInside(s, schedule, at, 1);
    var l1 := left > 1;
    assert FirstTwo(at, n, Call(Test, l0, 0), Call(Load, l1, 0)) && at.refCnt == 1 && !at.active;
    schedule, at := Step(s, schedule, at, 1);
    schedule, at := Step(s, schedule, at, 1);
    assert FirstTwo(at, n, Call(Test, l0, 0), Call(Test, l1, 1)) && !at.active;
    schedule, at := Step(s, schedule, at, 1);
    schedule, at := Step(s, schedule, at, 1);
  }

  lemma CountFirstTwo(s: State, n: nat, c0: Call, c1: Call)
    requires FirstTwo(s, n, c0, c1)
    ensures Sum(s.calls, Counted) == Counted(c0) + Counted(c1)
  {
    var calls := Initial(n, 0).calls;
    SumZero(calls, Counted);
    SumUpdate(calls, 0, c0, Counted);
    SumUpdate(calls[0 := c0], 1, c1, Counted);
  }

  // Both calls have loaded the count before either has stored it.
  lemma BothLoadZero(n: nat, left: nat) returns (schedule: seq<nat>, at: State)
    requires n >= 2
    ensures Run(Initial(n, left), schedule) == at && at.(sem := 0, calls := []) == State(0, 0, false, 0, [])
    ensures FirstTwo(at, n, Call(Store, left > 0, 0), Call(Store, left > 1, 0))
  {
    var s := Initial(n, left);
    schedule, at := GetsInside(s, [], s, 0);
    schedule, at := GetsInside(s, schedule, at, 1);
    assert FirstTwo(at, n, Call(Load, left > 0, 0), Call(Load, left > 1, 0));
    schedule, at := Step(s, schedule, at, 0);
    schedule, at := Step(s, schedule, at, 1);
  }

  // One of the two increments is lost, and both calls find a count of one.
  lemma BothFindOne(n: nat, left: nat) returns (schedule: seq<nat>, at: State)
    requires n >= 2
    ensures Run(Initial(n, left), schedule) == at && at.(sem := 0, calls := []) == State(0, 1, false, 0, [])
    ensures FirstTwo(at, n, Call(RunList, left > 0, 0), Call(RunList, left > 1, 0))
  {
    var s := Initial(n, left);
    schedule, at := BothLoadZero(n, left);
    schedule, at := Step(s, schedule, at, 0);
    schedule, at := Step(s, schedule, at, 1);
    assert FirstTwo(at, n, Call(Test, left > 0, 0), Call(Test, left > 1, 0)) && at.refCnt == 1 && !at.active;
    schedule, at := Step(s, schedule, at, 0);
    schedule, at := Step(s, schedule, at, 1);
  }

  // From there both calls run the list, and both are inside at once. On a semaphore that began with
  // two or more nobody had to give up for it.
  lemma BothRunTheList(n: nat, left: nat) returns (schedule: seq<nat>)
    requires n >= 2
    ensures var r := Run(Initial(n, left), schedule);
            && r.listRuns == 2 && r.refCnt == 1 && Sum(r.calls, Counted) == 2
            && |r.calls| == n && Inside(r.calls[0]) && Inside(r.calls[1])
            && (left >= 2 ==> NoTimeouts(r))
  {
    var s := Initial(n, left);
    var at;
    schedule, at := BothFindOne(n, left);
    schedule, at := Step(s, schedule, at, 0);
    schedule, at := Step(s, schedule, at, 1);
    CountFirstTwo(at, n, Call(Activate, left > 0, 0), Call(Activate, left > 1, 0));
  }

  // A single call is in order, whether it gets the semaphore or gives up.
  lemma {:induction false} AloneIsProper(s: State, schedule: seq<nat>)
    requires |s.calls| <= 1 && Orderly(s)
    ensures Proper(Run(s, schedule))
    decreases |schedule|
  {
    if schedule != [] {
      if schedule[0] < |s.calls| {
        OrderlyStep(s, schedule[0]);
      }
      AloneIsProper(Move(s, schedule[0]), schedule[1..]);
    }
  }

  // Without assumptions about timing, and whatever value the semaphore begins with: the list always
  // runs at most once if and only if there is at most one call. The same holds for exclusion, for
  // the count, and for the active flag on return.
  lemma AlwaysOrderlyIff(n: nat, left: nat)
    ensures (forall schedule :: Run(Initial(n, left), schedule).listRuns <= 1) <==> n <= 1
    ensures (forall schedule :: Exclusive(Run(Initial(n, left), schedule))) <==> n <= 1
    ensures (forall schedule :: CountsCalls(Run(Initial(n, left), schedule))) <==> n <= 1
    ensures (forall schedule :: ReturnsActive(Run(Initial(n, left), schedule))) <==> n <= 1
  {
    var s := Initial(n, left);
    if n <= 1 {
      InitiallyConserved(n, left);
      forall schedule
        ensures var r := Run(s, schedule); r.listRuns <= 1 && Exclusive(r) && CountsCalls(r) && ReturnsActive(r)
      {
        AloneIsProper(s, schedule);
      }
    } else {
      var both := BothRunTheList(n, left);
      var early := SecondReturnsEarly(n, left);
      var r := Run(s, both);
      assert r.listRuns == 2 && !Exclusive(r) && !CountsCalls(r);
      assert !ReturnsActive(Run(s, early));
    }
  }

  // If timeouts are left out: exactly the semaphores that began with at most one keep order among
  // two or more calls.
  lemma OrderlyWithoutTimeoutsIff(n: nat, left: nat)
    ensures (forall schedule | NoTimeouts(Run(Initial(n, left), schedule)) :: Proper(Run(Initial(n, left), schedule)))
       <==> n <= 1 || left <= 1
  {
    InitiallyConserved(n, left);
    if n <= 1 || left <= 1 {
      forall schedule | NoTimeouts(Run(Initial(n, left), schedule))
        ensures Proper(Run(Initial(n, left), schedule))
      {
        if n <= 1 {
          AloneIsProper(Initial(n, left), schedule);
        } else {
          OrderlyWithoutTimeouts(n, left, schedule);
        }
      }
    } else {
      var schedule := BothRunTheList(n, left);
      assert !Proper(Run(Initial(n, left), schedule));
    }
  }
}

module SystemContext {

  datatype Ctx = Ctx(refCnt: int, active: bool, listRuns: nat, exitRuns: nat)

  datatype Call = Init | Shutdown

  function Apply(c: Ctx, call: Call): Ctx {
    match call
    case Init =>
      if c.refCnt + 1 > 1 || c.active then c.(refCnt := c.refCnt + 1)
      else Ctx(c.refCnt + 1, true, c.listRuns + 1, c.exitRuns)
    case Shutdown =>
      if c.refCnt - 1 > 0 || !c.active then c.(refCnt := c.refCnt - 1)
      else Ctx(0, false, c.listRuns, c.exitRuns + 1)
  }

  function After(calls: seq<Call>): Ctx {
    if calls == [] then Ctx(0, false, 0, 0) else Apply(After(calls[..|calls| - 1]), calls[|calls| - 1])
  }

  // The shared context, changed in place; the two counters record the runs of the lists.
  class KadpContext {
    var active: bool
    var refCnt: int
    ghost var listRuns: nat
    ghost var exitRuns: nat

    ghost function View(): Ctx
      reads this
    {
      Ctx(refCnt, active, listRuns, exitRuns)
    }

    constructor ()
      ensures View() == After([])
    {
      active, refCnt, listRuns, exitRuns := false, 0, 0, 0;
    }

    method InitSystem()
      modifies this
      ensures View() == Apply(old(View()), Init)
    {
      refCnt := refCnt + 1;
      if refCnt > 1 || active {
        return;
      }
      listRuns := listRuns + 1;
      active := true;
    }

    method ShutdownSystem()
      modifies this
      ensures View() == Apply(old(View()), Shutdown)
    {
      refCnt := refCnt - 1;
      if refCnt > 0 || !active {
        return;
      }
      exitRuns := exitRuns + 1;
      refCnt := 0;
      active := false;
    }
  }

  // Users that have started the layer and not yet shut it down.
  function Outstanding(calls: seq<Call>): int {
    if calls == [] then 0
    else Outstanding(calls[..|calls| - 1]) + if calls[|calls| - 1].Init? then 1 else -1
  }

  // Over any history the two lists alternate, starting with the initialisers.
  lemma {:induction false} ListsAlternate(calls: seq<Call>)
    ensures var c := After(calls); c.listRuns == c.exitRuns + if c.active then 1 else 0
  {
    if calls != [] {
      ListsAlternate(calls[..|calls| - 1]);
    }
  }

  // From any context: which call runs a list, and which only counts.
  lemma WhoRunsAList(c: Ctx)
    ensures var r := Apply(c, Init);
            && r.exitRuns == c.exitRuns && (r.listRuns != c.listRuns <==> c.refCnt <= 0 && !c.active)
            && r.refCnt == c.refCnt + 1 && r.active == (c.active || c.refCnt <= 0)
    ensures var r := Apply(c, Shutdown);
            && r.listRuns == c.listRuns && (r.exitRuns != c.exitRuns <==> c.refCnt <= 1 && c.active)
            && (r.active <==> c.active && c.refCnt > 1)
            && r.refCnt == if c.refCnt <= 1 && c.active then 0 else c.refCnt - 1
  {
  }

  // Each run of the exit list starts afresh: nobody is counted, not even below zero, and an inactive
  // layer never counts a user.
  lemma {:induction false} ExitStartsAfresh(calls: seq<Call>)
    ensures var before, after := After(calls), After(calls + [Shutdown]);
            && (after.exitRuns != before.exitRuns ==> after == Ctx(0, false, before.listRuns, before.exitRuns + 1))
            && (!before.active ==> before.refCnt <= 0)
  {
    assert (calls + [Shutdown])[..|calls|] == calls;
    if calls != [] {
      ExitStartsAfresh(calls[..|calls| - 1]);
    }
  }

  // The context tells the truth about its users.
  ghost predicate Truthful(calls: seq<Call>) {
    After(calls).refCnt == Outstanding(calls) && (After(calls).active <==> Outstanding(calls) > 0)
  }

  ghost predicate StartsAfterTooManyStops(calls: seq<Call>, k: nat)
    requires k < |calls|
  {
    calls[k].Init? && Outstanding(calls[..k]) < 0
  }

  lemma {:induction false} TruthfulWhileBalanced(calls: seq<Call>)
    requires forall k: nat | k < |calls| :: !StartsAfterTooManyStops(calls, k)
    ensures Truthful(calls)
  {
    if calls != [] {
      var rest, last := calls[..|calls| - 1], |calls| - 1;
      forall k: nat | k < |rest|
        ensures !StartsAfterTooManyStops(rest, k)
      {
        assert rest[..k] == calls[..k] && !StartsAfterTooManyStops(calls, k);
      }
      TruthfulWhileBalanced(rest);
      assert !StartsAfterTooManyStops(calls, last);
    }
  }

  // The context stays truthful throughout a history exactly when no call starts the layer while
  // it has been shut down more often than started.
  lemma TruthfulIff(calls: seq<Call>)
    ensures (forall k: nat | k <= |calls| :: Truthful(calls[..k])) <==>
            (forall k: nat | k < |calls| :: !StartsAfterTooManyStops(calls, k))
  {
    if forall k: nat | k < |calls| :: !StartsAfterTooManyStops(calls, k) {
      forall k: nat | k <= |calls|
        ensures Truthful(calls[..k])
      {
        var part := calls[..k];
        forall i: nat | i < k
          ensures !StartsAfterTooManyStops(part, i)
        {
          assert part[..i] == calls[..i] && !StartsAfterTooManyStops(calls, i);
        }
        TruthfulWhileBalanced(part);
      }
    }
    if forall k: nat | k <= |calls| :: Truthful(calls[..k]) {
      forall k: nat | k < |calls|
        ensures !StartsAfterTooManyStops(calls, k)
      {
        var part, more := calls[..k], calls[..k + 1];
        assert Truthful(part) && Truthful(more) && more[..k] == part;
      }
    }
  }

  // One shutdown too many: the next user's start-up leaves the layer active with nobody outstanding.
  lemma StopThenStartIsUntruthful()
    ensures var calls := [Shutdown, Init];
            Outstanding(calls) == 0 && After(calls) == Ctx(0, true, 1, 0) && !Truthful(calls)
  {
    assert [Shutdown, Init][..1] == [Shutdown] && [Shutdown][..0] == [];
  }
}
