/** Threads that each add one to a shared counter a number of times, under a mutex. The addition
    is a load and a store, with room for the other threads in between. */
module SharedCounter {
  import opened Basics

  datatype Pc = Idle | Locked | Loaded | Stored

  datatype Thread = Thread(quota: nat, i: nat, pc: Pc, local: int)

  datatype State = State(owner: Option<nat>, counter: int, threads: seq<Thread>)

  // The next atomic step of thread k, or None while it is blocked or finished.
  function Fire(s: State, k: nat): Option<State>
    requires k < |s.threads|
  {
    var t := s.threads[k];
    match t.pc
    case Idle =>
      if t.i < t.quota && s.owner.None?
      then Some(s.(owner := Some(k), threads := s.threads[k := t.(pc := Locked)])) else None
    case Locked => Some(s.(threads := s.threads[k := t.(pc := Loaded, local := s.counter)]))
    case Loaded => Some(s.(counter := t.local + 1, threads := s.threads[k := t.(pc := Stored)]))
    case Stored => Some(s.(owner := None, threads := s.threads[k := t.(pc := Idle, i := t.i + 1)]))
  }

  predicate Initial(s: State) {
    && s.owner.None? && s.counter == 0
    && forall k | 0 <= k < |s.threads| :: s.threads[k].i == 0 && s.threads[k].pc.Idle?
  }

  function Move(s: State, k: nat): State {
    if k < |s.threads| && Fire(s, k).Some? then Fire(s, k).value else s
  }

  function Run(s: State, schedule: seq<nat>): State {
    if schedule == [] then s
    else Move(Run(s, schedule[..|schedule| - 1]), schedule[|schedule| - 1])
  }

  predicate Stuck(s: State) {
    forall k | 0 <= k < |s.threads| :: Fire(s, k).None?
  }

  predicate Final(s: State) {
    forall k | 0 <= k < |s.threads| :: s.threads[k].pc.Idle? && s.threads[k].i == s.threads[k].quota
  }

  function Stores(t: Thread): int {
    if t.pc.Stored? then t.i + 1 else t.i
  }

  function Quota(t: Thread): int {
    t.quota
  }

  predicate ThreadOk(s: State, k: nat)
    requires k < |s.threads|
  {
    var t := s.threads[k];
    && (!t.pc.Idle? <==> s.owner == Some(k))
    && t.i <= t.quota && (!t.pc.Idle? ==> t.i < t.quota)
    && (t.pc.Loaded? ==> t.local == s.counter)
  }

  // At most one thread is past its lock, and the counter counts the completed stores.
  ghost predicate Consistent(s: State) {
    && s.counter == Sum(s.threads, Stores)
    && (s.owner.Some? ==> s.owner.value < |s.threads|)
    && forall k | 0 <= k < |s.threads| :: ThreadOk(s, k)
  }

  lemma ConsistentStep(s: State, k: nat)
    requires Consistent(s) && k < |s.threads| && Fire(s, k).Some?
    ensures Consistent(Fire(s, k).value)
  {
    var r := Fire(s, k).value;
    assert ThreadOk(s, k);
    SumUpdate(s.threads, k, r.threads[k], Stores);
    forall j | 0 <= j < |s.threads|
      ensures ThreadOk(r, j)
    {
      assert ThreadOk(s, j);
    }
  }

  lemma {:induction false} AlwaysConsistent(s: State, schedule: seq<nat>)
    requires Initial(s)
    ensures var r := Run(s, schedule); Consistent(r) && |r.threads| == |s.threads|
    ensures var r := Run(s, schedule); forall k | 0 <= k < |s.threads| :: r.threads[k].quota == s.threads[k].quota
  {
    if schedule == [] {
      SumZero(s.threads, Stores);
    } else {
      var before, k := Run(s, schedule[..|schedule| - 1]), schedule[|schedule| - 1];
      AlwaysConsistent(s, schedule[..|schedule| - 1]);
      if k < |before.threads| && Fire(before, k).Some? {
        ConsistentStep(before, k);
      }
    }
  }

  lemma OneInside(s: State, schedule: seq<nat>, j: nat, k: nat)
    requires Initial(s) && j < k < |s.threads|
    ensures var r := Run(s, schedule); k < |r.threads| && (r.threads[j].pc.Idle? || r.threads[k].pc.Idle?)
  {
    AlwaysConsistent(s, schedule);
    assert ThreadOk(Run(s, schedule), j) && ThreadOk(Run(s, schedule), k);
  }

  lemma {:induction false} QuotasKept(a: seq<Thread>, b: seq<Thread>)
    requires |a| == |b| && forall k | 0 <= k < |a| :: a[k].quota == b[k].quota && a[k].pc.Idle? && a[k].i == a[k].quota
    ensures Sum(a, Stores) == Sum(b, Quota)
  {
    if a != [] {
      QuotasKept(a[1..], b[1..]);
    }
  }

  // A run that can go no further is complete, and no increment was lost.
  lemma NoUpdateLost(s: State, schedule: seq<nat>)
    requires Initial(s) && Stuck(Run(s, schedule))
    ensures Final(Run(s, schedule)) && Run(s, schedule).counter == Sum(s.threads, Quota)
  {
    var r := Run(s, schedule);
    AlwaysConsistent(s, schedule);
    assert r.owner.Some? ==> ThreadOk(r, r.owner.value) && Fire(r, r.owner.value).None?;
    forall k | 0 <= k < |r.threads|
      ensures r.threads[k].pc.Idle? && r.threads[k].i == r.threads[k].quota
    {
      assert ThreadOk(r, k) && Fire(r, k).None?;
    }
    QuotasKept(r.threads, s.threads);
  }

  // Steps a thread still has to take.
  function Left(t: Thread): int {
    4 * (t.quota - t.i) - match t.pc case Idle => 0 case Locked => 1 case Loaded => 2 case Stored => 3
  }

  // Every pick of the schedule moves a thread.
  predicate Effective(s: State, schedule: seq<nat>) {
    forall n | 0 <= n < |schedule| ::
      var r := Run(s, schedule[..n]); schedule[n] < |r.threads| && Fire(r, schedule[n]).Some?
  }

  lemma LeftStep(s: State, k: nat)
    requires k < |s.threads| && Fire(s, k).Some?
    ensures Sum(Fire(s, k).value.threads, Left) == Sum(s.threads, Left) - 1
  {
    SumUpdate(s.threads, k, Fire(s, k).value.threads[k], Left);
  }

  lemma LeftNonNegative(s: State)
    requires Consistent(s)
    ensures 0 <= Sum(s.threads, Left)
  {
    forall k | 0 <= k < |s.threads|
      ensures 0 <= Left(s.threads[k])
    {
      assert ThreadOk(s, k);
    }
    SumNonNegative(s.threads, Left);
  }

  // No run can go on for ever: steps taken and steps left always add up to four per increment.
  lemma {:induction false} EffectiveRunsAreBounded(s: State, schedule: seq<nat>)
    requires Initial(s) && Effective(s, schedule)
    ensures |schedule| + Sum(Run(s, schedule).threads, Left) == Sum(s.threads, Left)
    ensures |schedule| <= Sum(s.threads, Left)
  {
    AlwaysConsistent(s, schedule);
    LeftNonNegative(Run(s, schedule));
    if schedule != [] {
      var prefix := schedule[..|schedule| - 1];
      assert forall n | 0 <= n <= |prefix| :: prefix[..n] == schedule[..n];
      EffectiveRunsAreBounded(s, prefix);
      assert schedule[..|schedule| - 1] == prefix;
      LeftStep(Run(s, prefix), schedule[|schedule| - 1]);
    }
  }

  lemma {:induction false} EqualQuotas(ts: seq<Thread>, each: nat)
    requires forall k | 0 <= k < |ts| :: ts[k].quota == each
    ensures Sum(ts, Quota) == |ts| * each
  {
    if ts != [] {
      EqualQuotas(ts[1..], each);
      assert |ts| * each == (|ts| - 1) * each + each;
    }
  }

  // T threads of K increments each end at T*K.
  lemma FinalValue(s: State, schedule: seq<nat>, each: nat)
    requires Initial(s) && Stuck(Run(s, schedule)) && forall k | 0 <= k < |s.threads| :: s.threads[k].quota == each
    ensures Run(s, schedule).counter == |s.threads| * each
  {
    NoUpdateLost(s, schedule);
    EqualQuotas(s.threads, each);
  }
}
