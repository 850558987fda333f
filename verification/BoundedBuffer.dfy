/** The semaphore-and-mutex bounded buffer, with any number of producers and consumers, any
    capacity and any quotas. Each thread carries a program counter; a schedule picks the thread
    that moves next, and a thread that is blocked stays where it is. */
module BoundedBuffer {
  import opened Basics

  // An item remembers which thread produced it, so that equal numbers can be told apart.
  datatype Item = Item(who: nat, value: nat)

  datatype Role = Producer | Consumer

  // Idle: head of the loop. Waited: past sem_wait. Locked: past pthread_mutex_lock.
  // Inside: after the store (producer) or after --count (consumer).
  // Moved: after count++ (producer) or after the load (consumer). Unlocked: past the unlock.
  datatype Pc = Idle | Waited | Locked | Inside | Moved | Unlocked

  datatype Thread = Thread(role: Role, quota: nat, i: nat, pc: Pc, item: Item, got: seq<Item>)

  // Updates of the shared buffer, in the order in which `count` changed.
  datatype Op = Push(who: nat, item: Item) | Pop(who: nat, item: Item)

  datatype State = State(empty: int, full: int, owner: Option<nat>, buffer: seq<Item>, count: int,
                         threads: seq<Thread>, log: seq<Op>, fault: bool)

  function Put(s: State, k: nat, t: Thread): State
    requires k < |s.threads|
  {
    s.(threads := s.threads[k := t])
  }

  // The next atomic step of thread k, or None while it is blocked or finished.
  function Fire(s: State, k: nat): Option<State>
    requires k < |s.threads|
  {
    if s.threads[k].role.Producer? then FireProducer(s, k) else FireConsumer(s, k)
  }

  function FireProducer(s: State, k: nat): Option<State>
    requires k < |s.threads|
  {
    var t := s.threads[k];
    match t.pc
    case Idle =>
      if t.i < t.quota && s.empty > 0
      then Some(Put(s.(empty := s.empty - 1), k, t.(pc := Waited, item := Item(k, t.i)))) else None
    case Waited =>
      if s.owner.None? then Some(Put(s.(owner := Some(k)), k, t.(pc := Locked))) else None
    case Locked =>
      if 0 <= s.count < |s.buffer|
      then Some(Put(s.(buffer := s.buffer[s.count := t.item]), k, t.(pc := Inside)))
      else Some(s.(fault := true))
    case Inside =>
      Some(Put(s.(count := s.count + 1, log := s.log + [Push(k, t.item)]), k, t.(pc := Moved)))
    case Moved => Some(Put(s.(owner := None), k, t.(pc := Unlocked)))
    case Unlocked => Some(Put(s.(full := s.full + 1), k, t.(pc := Idle, i := t.i + 1)))
  }

  function FireConsumer(s: State, k: nat): Option<State>
    requires k < |s.threads|
  {
    var t := s.threads[k];
    match t.pc
    case Idle =>
      if t.i < t.quota && s.full > 0 then Some(Put(s.(full := s.full - 1), k, t.(pc := Waited))) else None
    case Waited =>
      if s.owner.None? then Some(Put(s.(owner := Some(k)), k, t.(pc := Locked))) else None
    case Locked =>
      if 1 <= s.count <= |s.buffer|
      then Some(Put(s.(count := s.count - 1, log := s.log + [Pop(k, s.buffer[s.count - 1])]), k, t.(pc := Inside)))
      else Some(s.(fault := true))
    case Inside =>
      if 0 <= s.count < |s.buffer|
      then Some(Put(s, k, t.(pc := Moved, item := s.buffer[s.count], got := t.got + [s.buffer[s.count]])))
      else Some(s.(fault := true))
    case Moved => Some(Put(s.(owner := None), k, t.(pc := Unlocked)))
    case Unlocked => Some(Put(s.(empty := s.empty + 1), k, t.(pc := Idle, i := t.i + 1)))
  }

  predicate Initial(s: State) {
    && s.empty == |s.buffer| && s.full == 0 && s.owner == None && s.count == 0 && s.log == [] && !s.fault
    && forall k | 0 <= k < |s.threads| :: s.threads[k].i == 0 && s.threads[k].pc.Idle? && s.threads[k].got == []
  }

  // The state after a schedule; any interleaving of the threads is some schedule.
  function Run(s: State, schedule: seq<nat>): State
  {
    if schedule == [] then s
    else
      var before := Run(s, schedule[..|schedule| - 1]);
      Move(before, schedule[|schedule| - 1])
  }

  function Move(s: State, k: nat): State {
    if k < |s.threads| && Fire(s, k).Some? then Fire(s, k).value else s
  }

  predicate Stuck(s: State) {
    forall k | 0 <= k < |s.threads| :: Fire(s, k).None?
  }

  predicate Final(s: State) {
    forall k | 0 <= k < |s.threads| :: s.threads[k].pc.Idle? && s.threads[k].i == s.threads[k].quota
  }

  // ---- counting ----

  predicate InSection(t: Thread) {
    t.pc.Locked? || t.pc.Inside? || t.pc.Moved?
  }

  function InFlight(t: Thread): int {
    if t.pc.Idle? then 0 else 1
  }

  // Threads for which `count` runs ahead of the semaphore `full`.
  function Ahead(t: Thread): int {
    if t.role.Producer? && (t.pc.Moved? || t.pc.Unlocked?) then 1
    else if t.role.Consumer? && (t.pc.Waited? || t.pc.Locked?) then 1
    else 0
  }

  // The other threads in flight: each still guarantees one free slot.
  function Room(t: Thread): int {
    InFlight(t) - Ahead(t)
  }

  // Items a thread has added to `count`, net.
  function Net(t: Thread): int {
    if t.role.Producer? then t.i + (if t.pc.Moved? || t.pc.Unlocked? then 1 else 0)
    else -(t.i + (if t.pc.Inside? || t.pc.Moved? || t.pc.Unlocked? then 1 else 0))
  }

  predicate ThreadOk(t: Thread) {
    t.i <= t.quota && (!t.pc.Idle? ==> t.i < t.quota)
  }

  predicate Counts(s: State) {
    && !s.fault && 0 <= s.empty && 0 <= s.full
    && s.count == s.full + Sum(s.threads, Ahead)
    && |s.buffer| - s.count == s.empty + Sum(s.threads, Room)
    && s.count == Sum(s.threads, Net)
    && forall k | 0 <= k < |s.threads| :: ThreadOk(s.threads[k])
  }

  // The mutex has the owner that is in the critical section, and nobody else is.
  predicate Exclusive(s: State) {
    && (s.owner.Some? ==> s.owner.value < |s.threads|)
    && forall k | 0 <= k < |s.threads| :: InSection(s.threads[k]) <==> s.owner == Some(k)
  }

  // With no slot at all nothing ever moves.
  predicate NoRoomNoMove(s: State) {
    s.buffer == [] ==> forall k | 0 <= k < |s.threads| :: s.threads[k].i == 0 && s.threads[k].pc.Idle?
  }

  // The slot that the next access touches exists.
  lemma InBounds(s: State, k: nat)
    requires k < |s.threads| && Counts(s)
    ensures 0 <= s.count <= |s.buffer|
    ensures s.threads[k].role.Producer? && (s.threads[k].pc.Locked? || s.threads[k].pc.Inside?) ==> s.count < |s.buffer|
    ensures s.threads[k].role.Consumer? && s.threads[k].pc.Locked? ==> 1 <= s.count
    ensures s.threads[k].role.Consumer? && s.threads[k].pc.Inside? ==> s.count < |s.buffer|
  {
    SumAtLeast(s.threads, k, Ahead);
    SumAtLeast(s.threads, k, Room);
  }

  // One thread changed, and the counters moved in step with its measures.
  lemma CountsUpdate(s: State, r: State, k: nat, t: Thread)
    requires k < |s.threads| && Counts(s) && r.threads == s.threads[k := t] && ThreadOk(t)
    requires !r.fault && 0 <= r.empty && 0 <= r.full && |r.buffer| == |s.buffer|
    requires r.count - r.full == s.count - s.full + Ahead(t) - Ahead(s.threads[k])
    requires r.count + r.empty == s.count + s.empty - Room(t) + Room(s.threads[k])
    requires r.count == s.count + Net(t) - Net(s.threads[k])
    ensures Counts(r)
  {
    SumUpdate(s.threads, k, t, Ahead);
    SumUpdate(s.threads, k, t, Room);
    SumUpdate(s.threads, k, t, Net);
  }

  lemma CountsProducer(s: State, k: nat)
    requires k < |s.threads| && Counts(s) && s.threads[k].role.Producer? && FireProducer(s, k).Some?
    ensures Counts(FireProducer(s, k).value)
  {
    InBounds(s, k);
    assert ThreadOk(s.threads[k]);
    CountsUpdate(s, FireProducer(s, k).value, k, FireProducer(s, k).value.threads[k]);
  }

  lemma CountsConsumer(s: State, k: nat)
    requires k < |s.threads| && Counts(s) && s.threads[k].role.Consumer? && FireConsumer(s, k).Some?
    ensures Counts(FireConsumer(s, k).value)
  {
    InBounds(s, k);
    assert ThreadOk(s.threads[k]);
    CountsUpdate(s, FireConsumer(s, k).value, k, FireConsumer(s, k).value.threads[k]);
  }

  lemma CountsStep(s: State, k: nat)
    requires k < |s.threads| && Counts(s) && Fire(s, k).Some?
    ensures Counts(Fire(s, k).value)
  {
    if s.threads[k].role.Producer? {
      CountsProducer(s, k);
    } else {
      CountsConsumer(s, k);
    }
  }

  lemma ExclusiveStep(s: State, k: nat)
    requires k < |s.threads| && Counts(s) && Exclusive(s) && Fire(s, k).Some?
    ensures Exclusive(Fire(s, k).value)
  {
    InBounds(s, k);
  }

  ghost predicate SameShape(s: State, r: State) {
    && |r.threads| == |s.threads| && |r.buffer| == |s.buffer|
    && forall k | 0 <= k < |s.threads| ::
         r.threads[k].role == s.threads[k].role && r.threads[k].quota == s.threads[k].quota
  }

  lemma ShapeStep(s: State, k: nat)
    requires k < |s.threads| && Fire(s, k).Some?
    ensures SameShape(s, Fire(s, k).value)
  {
  }

  lemma NoRoomStep(s: State, k: nat)
    requires k < |s.threads| && Counts(s) && NoRoomNoMove(s) && Fire(s, k).Some?
    ensures NoRoomNoMove(Fire(s, k).value)
  {
    InBounds(s, k);
    if s.buffer == [] {
      SumAtLeast(s.threads, k, Ahead);
      SumAtLeast(s.threads, k, Room);
    } else {
      ShapeStep(s, k);
    }
  }

  // In every interleaving: each access to the buffer is in range, filled slots, free slots and
  // threads in flight account for the capacity, and the critical section is exclusive.
  lemma {:induction false} CountsAlways(s: State, schedule: seq<nat>)
    requires Initial(s)
    ensures var r := Run(s, schedule); Counts(r) && Exclusive(r) && NoRoomNoMove(r) && SameShape(s, r)
  {
    if schedule == [] {
      SumZero(s.threads, Ahead);
      SumZero(s.threads, Room);
      SumZero(s.threads, Net);
    } else {
      var before, k := Run(s, schedule[..|schedule| - 1]), schedule[|schedule| - 1];
      CountsAlways(s, schedule[..|schedule| - 1]);
      if k < |before.threads| && Fire(before, k).Some? {
        CountsStep(before, k);
        ExclusiveStep(before, k);
        NoRoomStep(before, k);
        ShapeStep(before, k);
      }
    }
  }

  // The two semaphores and the threads between their wait and their post add up to the capacity.
  lemma TokensConserved(s: State, schedule: seq<nat>)
    requires Initial(s)
    ensures var r := Run(s, schedule); !r.fault && r.empty + r.full + Sum(r.threads, InFlight) == |s.buffer|
  {
    CountsAlways(s, schedule);
    SumPointwise(Run(s, schedule).threads, Ahead, Room, InFlight);
  }

  // ---- what is in the buffer ----

  // A stack machine with capacity cap, run over the log.
  function Replay(log: seq<Op>, cap: nat): Option<seq<Item>> {
    if log == [] then Some([])
    else
      var before, op := Replay(log[..|log| - 1], cap), log[|log| - 1];
      if before.None? then None
      else if op.Push? then (if |before.value| < cap then Some(before.value + [op.item]) else None)
      else if before.value != [] && before.value[|before.value| - 1] == op.item
      then Some(before.value[..|before.value| - 1]) else None
  }

  function PushedBy(log: seq<Op>, k: nat): seq<Item> {
    if log == [] then []
    else
      var rest, op := PushedBy(log[..|log| - 1], k), log[|log| - 1];
      if op.Push? && op.who == k then rest + [op.item] else rest
  }

  function PoppedBy(log: seq<Op>, k: nat): seq<Item> {
    if log == [] then []
    else
      var rest, op := PoppedBy(log[..|log| - 1], k), log[|log| - 1];
      if op.Pop? && op.who == k then rest + [op.item] else rest
  }

  // What producer k puts in over its first n iterations.
  function Made(k: nat, n: nat): (r: seq<Item>)
    ensures |r| == n && forall v: nat | v < n :: r[v] == Item(k, v)
  {
    if n == 0 then [] else Made(k, n - 1) + [Item(k, n - 1)]
  }

  predicate ThreadLogOk(s: State, k: nat)
    requires k < |s.threads|
  {
    var t := s.threads[k];
    if t.role.Producer? then
      && PushedBy(s.log, k) == Made(k, if t.pc.Moved? || t.pc.Unlocked? then t.i + 1 else t.i)
      && PoppedBy(s.log, k) == []
      && (!t.pc.Idle? ==> t.item == Item(k, t.i))
      && (t.pc.Inside? ==> 0 <= s.count < |s.buffer| && s.buffer[s.count] == t.item)
    else
      && PushedBy(s.log, k) == []
      && |t.got| == (if t.pc.Moved? || t.pc.Unlocked? then t.i + 1 else t.i)
      && (t.pc.Inside? ==> 0 <= s.count < |s.buffer|)
      && PoppedBy(s.log, k) == if t.pc.Inside? then t.got + [s.buffer[s.count]] else t.got
  }

  // Only threads of the system appear in the log, and pushed items carry their producer's name.
  predicate Tagged(s: State) {
    forall op | op in s.log :: op.who < |s.threads| && (op.Push? ==> op.item.who == op.who)
  }

  predicate StackOk(s: State) {
    0 <= s.count <= |s.buffer| && Replay(s.log, |s.buffer|) == Some(s.buffer[..s.count])
  }

  predicate LogOk(s: State) {
    && StackOk(s) && Tagged(s)
    && forall k | 0 <= k < |s.threads| :: ThreadLogOk(s, k)
  }

  lemma LogAppend(log: seq<Op>, op: Op, cap: nat)
    ensures Replay(log + [op], cap) ==
            var before := Replay(log, cap);
            if before.None? then None
            else if op.Push? then (if |before.value| < cap then Some(before.value + [op.item]) else None)
            else if before.value != [] && before.value[|before.value| - 1] == op.item
            then Some(before.value[..|before.value| - 1]) else None
    ensures forall k :: PushedBy(log + [op], k) ==
                        if op.Push? && op.who == k then PushedBy(log, k) + [op.item] else PushedBy(log, k)
    ensures forall k :: PoppedBy(log + [op], k) ==
                        if op.Pop? && op.who == k then PoppedBy(log, k) + [op.item] else PoppedBy(log, k)
  {
    assert (log + [op])[..|log|] == log;
  }

  lemma PushStep(s: State, k: nat)
    requires k < |s.threads| && s.threads[k].role.Producer? && s.threads[k].pc.Inside?
    requires StackOk(s) && ThreadLogOk(s, k)
    ensures StackOk(FireProducer(s, k).value)
  {
    var t := s.threads[k];
    LogAppend(s.log, Push(k, t.item), |s.buffer|);
    assert s.buffer[..s.count + 1] == s.buffer[..s.count] + [t.item];
  }

  lemma PopStep(s: State, k: nat)
    requires k < |s.threads| && s.threads[k].role.Consumer? && s.threads[k].pc.Locked?
    requires StackOk(s) && 1 <= s.count
    ensures StackOk(FireConsumer(s, k).value)
  {
    LogAppend(s.log, Pop(k, s.buffer[s.count - 1]), |s.buffer|);
    assert s.buffer[..s.count - 1] == s.buffer[..s.count][..s.count - 1];
  }

  lemma StackStep(s: State, k: nat)
    requires k < |s.threads| && Counts(s) && StackOk(s) && ThreadLogOk(s, k) && Fire(s, k).Some?
    ensures StackOk(Fire(s, k).value)
  {
    InBounds(s, k);
    var t, r := s.threads[k], Fire(s, k).value;
    if t.pc.Inside? && t.role.Producer? {
      PushStep(s, k);
    } else if t.pc.Locked? && t.role.Consumer? {
      PopStep(s, k);
    } else {
      assert r.log == s.log && r.count == s.count && r.buffer[..s.count] == s.buffer[..s.count];
    }
  }

  lemma TaggedStep(s: State, k: nat)
    requires k < |s.threads| && Tagged(s) && ThreadLogOk(s, k) && Fire(s, k).Some?
    ensures Tagged(Fire(s, k).value)
  {
  }

  lemma OwnLogProducer(s: State, k: nat)
    requires k < |s.threads| && Counts(s) && ThreadLogOk(s, k)
    requires s.threads[k].role.Producer? && FireProducer(s, k).Some?
    ensures ThreadLogOk(FireProducer(s, k).value, k)
  {
    InBounds(s, k);
    LogAppend(s.log, Push(k, s.threads[k].item), |s.buffer|);
  }

  lemma OwnLogConsumer(s: State, k: nat)
    requires k < |s.threads| && Counts(s) && ThreadLogOk(s, k)
    requires s.threads[k].role.Consumer? && FireConsumer(s, k).Some?
    ensures ThreadLogOk(FireConsumer(s, k).value, k)
  {
    InBounds(s, k);
    if s.threads[k].pc.Locked? {
      OwnPop(s, k);
    }
  }

  lemma OwnPop(s: State, k: nat)
    requires k < |s.threads| && ThreadLogOk(s, k) && 1 <= s.count <= |s.buffer|
    requires s.threads[k].role.Consumer? && s.threads[k].pc.Locked?
    ensures ThreadLogOk(FireConsumer(s, k).value, k)
  {
    LogAppend(s.log, Pop(k, s.buffer[s.count - 1]), |s.buffer|);
  }

  lemma OwnLogStep(s: State, k: nat)
    requires k < |s.threads| && Counts(s) && ThreadLogOk(s, k) && Fire(s, k).Some?
    ensures ThreadLogOk(Fire(s, k).value, k)
  {
    if s.threads[k].role.Producer? {
      OwnLogProducer(s, k);
    } else {
      OwnLogConsumer(s, k);
    }
  }

  // A push or a pop of thread k leaves alone what the others pushed and popped.
  lemma OtherPush(s: State, k: nat, j: nat)
    requires k < |s.threads| && j < |s.threads| && j != k && ThreadLogOk(s, j) && !InSection(s.threads[j])
    requires s.threads[k].role.Producer? && s.threads[k].pc.Inside?
    ensures ThreadLogOk(FireProducer(s, k).value, j)
  {
    LogAppend(s.log, Push(k, s.threads[k].item), |s.buffer|);
  }

  lemma OtherPop(s: State, k: nat, j: nat)
    requires k < |s.threads| && j < |s.threads| && j != k && ThreadLogOk(s, j) && !InSection(s.threads[j])
    requires s.threads[k].role.Consumer? && s.threads[k].pc.Locked? && 1 <= s.count <= |s.buffer|
    ensures ThreadLogOk(FireConsumer(s, k).value, j)
  {
    LogAppend(s.log, Pop(k, s.buffer[s.count - 1]), |s.buffer|);
  }

  lemma OtherLogStep(s: State, k: nat, j: nat)
    requires k < |s.threads| && j < |s.threads| && j != k
    requires Counts(s) && Exclusive(s) && ThreadLogOk(s, j) && Fire(s, k).Some?
    ensures ThreadLogOk(Fire(s, k).value, j)
  {
    InBounds(s, k);
    var t := s.threads[k];
    if InSection(t) {
      assert !InSection(s.threads[j]);
    }
    if t.pc.Inside? && t.role.Producer? {
      OtherPush(s, k, j);
    } else if t.pc.Locked? && t.role.Consumer? {
      OtherPop(s, k, j);
    } else {
      assert Fire(s, k).value.threads[j] == s.threads[j];
    }
  }

  // In every interleaving the buffer is the stack that the log describes, producers pushed
  // their numbers in order, and consumers hold exactly what they popped, in order.
  lemma {:induction false} LogAlways(s: State, schedule: seq<nat>)
    requires Initial(s)
    ensures LogOk(Run(s, schedule))
  {
    if schedule != [] {
      var before, k := Run(s, schedule[..|schedule| - 1]), schedule[|schedule| - 1];
      LogAlways(s, schedule[..|schedule| - 1]);
      CountsAlways(s, schedule[..|schedule| - 1]);
      if k < |before.threads| && Fire(before, k).Some? {
        StackStep(before, k);
        TaggedStep(before, k);
        ShapeStep(before, k);
        forall j | 0 <= j < |before.threads|
          ensures ThreadLogOk(Fire(before, k).value, j)
        {
          if j == k {
            OwnLogStep(before, k);
          } else {
            OtherLogStep(before, k, j);
          }
        }
      }
    }
  }

  // ---- termination and deadlock ----

  function PcIndex(pc: Pc): nat {
    match pc
    case Idle => 0 case Waited => 1 case Locked => 2 case Inside => 3 case Moved => 4 case Unlocked => 5
  }

  // Steps a thread still has to take.
  function Left(t: Thread): int {
    6 * (t.quota - t.i) - PcIndex(t.pc)
  }

  lemma OneLess(s: State, k: nat)
    requires k < |s.threads| && Counts(s) && Fire(s, k).Some?
    ensures |Fire(s, k).value.threads| == |s.threads|
    ensures Fire(s, k).value.threads == s.threads[k := Fire(s, k).value.threads[k]]
    ensures Left(Fire(s, k).value.threads[k]) == Left(s.threads[k]) - 1
  {
    InBounds(s, k);
  }

  lemma LeftStep(s: State, k: nat)
    requires k < |s.threads| && Counts(s) && Fire(s, k).Some?
    ensures Sum(Fire(s, k).value.threads, Left) == Sum(s.threads, Left) - 1
  {
    OneLess(s, k);
    SumUpdate(s.threads, k, Fire(s, k).value.threads[k], Left);
  }

  // Every pick of the schedule moves a thread.
  predicate Effective(s: State, schedule: seq<nat>) {
    forall n | 0 <= n < |schedule| ::
      var r := Run(s, schedule[..n]); schedule[n] < |r.threads| && Fire(r, schedule[n]).Some?
  }

  // No run can go on for ever: steps taken and steps left always add up to six per item.
  lemma {:induction false} EffectiveRunsAreBounded(s: State, schedule: seq<nat>)
    requires Initial(s) && Effective(s, schedule)
    ensures |schedule| + Sum(Run(s, schedule).threads, Left) == Sum(s.threads, Left)
    ensures |schedule| <= Sum(s.threads, Left)
  {
    CountsAlways(s, schedule);
    SumNonNegative(Run(s, schedule).threads, Left);
    if schedule != [] {
      var prefix := schedule[..|schedule| - 1];
      assert forall n | 0 <= n <= |prefix| :: prefix[..n] == schedule[..n];
      EffectiveRunsAreBounded(s, prefix);
      CountsAlways(s, prefix);
      assert schedule[..|schedule| - 1] == prefix;
      LeftStep(Run(s, prefix), schedule[|schedule| - 1]);
    }
  }

  function ToProduce(t: Thread): int {
    if t.role.Producer? then t.quota else 0
  }

  function ToConsume(t: Thread): int {
    if t.role.Consumer? then t.quota else 0
  }

  function Produced(t: Thread): int {
    if t.role.Producer? then t.i else 0
  }

  function Consumed(t: Thread): int {
    if t.role.Consumer? then t.i else 0
  }

  lemma SectionMoves(s: State, k: nat)
    requires k < |s.threads| && InSection(s.threads[k])
    ensures Fire(s, k).Some?
  {
  }

  // A state where nothing can move has nobody between a wait and a post.
  lemma StuckIsIdle(s: State)
    requires Counts(s) && Exclusive(s) && Stuck(s)
    ensures forall k | 0 <= k < |s.threads| :: s.threads[k].pc.Idle?
    ensures s.count == s.full && s.full + s.empty == |s.buffer|
    ensures s.count == Sum(s.threads, Produced) - Sum(s.threads, Consumed)
  {
    if s.owner.Some? {
      SectionMoves(s, s.owner.value);
      assert false;
    }
    forall k | 0 <= k < |s.threads|
      ensures s.threads[k].pc.Idle?
    {
      assert Fire(s, k).None? && !InSection(s.threads[k]);
    }
    SumZero(s.threads, Ahead);
    SumZero(s.threads, Room);
    SumPointwise(s.threads, Net, Consumed, Produced);
  }

  // Which kinds of thread are unfinished when nothing can move.
  lemma StuckTotals(s: State)
    requires Counts(s) && Exclusive(s) && Stuck(s)
    ensures var p, c := Sum(s.threads, Produced), Sum(s.threads, Consumed);
            var allP, allC := Sum(s.threads, ToProduce), Sum(s.threads, ToConsume);
            && 0 <= p <= allP && 0 <= c <= allC
            && (p < allP ==> s.empty == 0) && (c < allC ==> s.full == 0)
            && (Final(s) <==> p == allP && c == allC)
  {
    StuckIsIdle(s);
    var ts := s.threads;
    SumNonNegative(ts, Produced);
    SumNonNegative(ts, Consumed);
    SumAtMost(ts, Produced, ToProduce);
    SumAtMost(ts, Consumed, ToConsume);
    if s.empty > 0 {
      forall k | 0 <= k < |ts|
        ensures ToProduce(ts[k]) <= Produced(ts[k])
      {
        assert Fire(s, k).None?;
      }
      SumAtMost(ts, ToProduce, Produced);
    }
    if s.full > 0 {
      forall k | 0 <= k < |ts|
        ensures ToConsume(ts[k]) <= Consumed(ts[k])
      {
        assert Fire(s, k).None?;
      }
      SumAtMost(ts, ToConsume, Consumed);
    }
    if Final(s) {
      SumAtMost(ts, ToProduce, Produced);
      SumAtMost(ts, ToConsume, Consumed);
    } else if k :| 0 <= k < |ts| && !(ts[k].pc.Idle? && ts[k].i == ts[k].quota) {
      assert Produced(ts[k]) < ToProduce(ts[k]) || Consumed(ts[k]) < ToConsume(ts[k]);
    }
  }

  // The totals with which the threads can always finish.
  predicate Balanced(s: State) {
    var p, c := Sum(s.threads, ToProduce), Sum(s.threads, ToConsume);
    c <= p <= c + |s.buffer| && (s.buffer == [] ==> p == 0)
  }

  lemma {:induction false} TotalsKept(a: seq<Thread>, b: seq<Thread>)
    requires |a| == |b| && forall k | 0 <= k < |a| :: a[k].role == b[k].role && a[k].quota == b[k].quota
    ensures Sum(a, ToProduce) == Sum(b, ToProduce) && Sum(a, ToConsume) == Sum(b, ToConsume)
  {
    if a != [] {
      TotalsKept(a[1..], b[1..]);
    }
  }

  // A run that can go no further has finished exactly when the totals were balanced: with
  // balanced totals there is no deadlock, and with any others every run ends in one.
  lemma DeadlockFreeIffBalanced(s: State, schedule: seq<nat>)
    requires Initial(s) && Stuck(Run(s, schedule))
    ensures Final(Run(s, schedule)) <==> Balanced(s)
    ensures Final(Run(s, schedule)) ==> Run(s, schedule).count == Sum(s.threads, ToProduce) - Sum(s.threads, ToConsume)
  {
    var r := Run(s, schedule);
    CountsAlways(s, schedule);
    StuckIsIdle(r);
    StuckTotals(r);
    TotalsKept(s.threads, r.threads);
    if s.buffer == [] {
      SumZero(r.threads, Produced);
      SumZero(r.threads, Consumed);
    }
  }

  // ---- every item exactly once ----

  function Pushed(log: seq<Op>): multiset<Item> {
    if log == [] then multiset{}
    else
      var op := log[|log| - 1];
      Pushed(log[..|log| - 1]) + if op.Push? then multiset{op.item} else multiset{}
  }

  function Popped(log: seq<Op>): multiset<Item> {
    if log == [] then multiset{}
    else
      var op := log[|log| - 1];
      Popped(log[..|log| - 1]) + if op.Pop? then multiset{op.item} else multiset{}
  }

  // A stack neither loses nor invents items.
  lemma {:induction false} StackConserves(log: seq<Op>, cap: nat)
    requires Replay(log, cap).Some?
    ensures Pushed(log) == Popped(log) + multiset(Replay(log, cap).value)
  {
    if log != [] {
      var rest, op := log[..|log| - 1], log[|log| - 1];
      StackConserves(rest, cap);
      StackConservesOp(Pushed(rest), Popped(rest), Replay(rest, cap).value, Replay(log, cap).value, op);
    }
  }

  lemma StackConservesOp(pushed: multiset<Item>, popped: multiset<Item>, before: seq<Item>, after: seq<Item>, op: Op)
    requires pushed == popped + multiset(before)
    requires if op.Push? then after == before + [op.item] else before == after + [op.item]
    ensures if op.Push? then pushed + multiset{op.item} == popped + multiset(after)
            else pushed == popped + multiset{op.item} + multiset(after)
  {
  }

  lemma {:induction false} PushedByOwner(log: seq<Op>, x: Item)
    requires forall op | op in log :: op.Push? ==> op.item.who == op.who
    ensures Pushed(log)[x] == multiset(PushedBy(log, x.who))[x]
  {
    if log != [] {
      var rest := log[..|log| - 1];
      assert forall op | op in rest :: op in log;
      assert log[|log| - 1] in log;
      PushedByOwner(rest, x);
    }
  }

  lemma {:induction false} NobodyElsePushed(log: seq<Op>, k: nat)
    requires forall op | op in log :: op.who != k
    ensures PushedBy(log, k) == []
  {
    if log != [] {
      var rest := log[..|log| - 1];
      assert forall op | op in rest :: op in log;
      assert log[|log| - 1] in log;
      NobodyElsePushed(rest, k);
    }
  }

  lemma {:induction false} MadeOnce(k: nat, n: nat, x: Item)
    ensures multiset(Made(k, n))[x] == if x.who == k && x.value < n then 1 else 0
  {
    if n > 0 {
      MadeOnce(k, n - 1, x);
    }
  }

  predicate IsAnItem(s: State, x: Item) {
    x.who < |s.threads| && s.threads[x.who].role.Producer? && x.value < s.threads[x.who].quota
  }

  lemma PushedOnce(r: State, x: Item)
    requires LogOk(r) && Final(r)
    ensures Pushed(r.log)[x] == if IsAnItem(r, x) then 1 else 0
  {
    PushedByOwner(r.log, x);
    if x.who >= |r.threads| {
      NobodyElsePushed(r.log, x.who);
    } else {
      assert ThreadLogOk(r, x.who);
      if r.threads[x.who].role.Producer? {
        MadeOnce(x.who, r.threads[x.who].quota, x);
      }
    }
  }

  // How often x is among the items a thread holds.
  function Holding(x: Item): Thread -> int {
    (t: Thread) => if t.role.Consumer? then multiset(t.got)[x] else 0
  }

  // How often threads k, ..., n-1 popped x.
  function PoppedFrom(log: seq<Op>, k: nat, n: nat, x: Item): int
    decreases n - k
  {
    if k >= n then 0 else multiset(PoppedBy(log, k))[x] + PoppedFrom(log, k + 1, n, x)
  }

  lemma {:induction false} PoppedFromOp(log: seq<Op>, k: nat, n: nat, x: Item)
    requires log != []
    ensures var op := log[|log| - 1];
            PoppedFrom(log, k, n, x) ==
            PoppedFrom(log[..|log| - 1], k, n, x) + if op == Pop(op.who, x) && k <= op.who < n then 1 else 0
    decreases n - k
  {
    if k < n {
      PoppedFromOp(log, k + 1, n, x);
    }
  }

  lemma {:induction false} PoppedByAll(log: seq<Op>, n: nat, x: Item)
    requires forall op | op in log :: op.who < n
    ensures PoppedFrom(log, 0, n, x) == Popped(log)[x]
  {
    if log == [] {
      NothingPopped(0, n, x);
    } else {
      PoppedFromOp(log, 0, n, x);
      assert log[|log| - 1] in log;
      PoppedByAll(log[..|log| - 1], n, x);
    }
  }

  lemma {:induction false} NothingPopped(k: nat, n: nat, x: Item)
    ensures PoppedFrom([], k, n, x) == 0
    decreases n - k
  {
    if k < n {
      NothingPopped(k + 1, n, x);
    }
  }

  lemma {:induction false} HoldingIsPopped(ts: seq<Thread>, log: seq<Op>, k: nat, x: Item)
    requires forall j: nat | j < |ts| :: PoppedBy(log, k + j) == if ts[j].role.Consumer? then ts[j].got else []
    ensures Sum(ts, Holding(x)) == PoppedFrom(log, k, k + |ts|, x)
  {
    if ts != [] {
      assert PoppedBy(log, k + 0) == if ts[0].role.Consumer? then ts[0].got else [];
      forall j: nat | j < |ts[1..]|
        ensures PoppedBy(log, k + 1 + j) == if ts[1..][j].role.Consumer? then ts[1..][j].got else []
      {
        assert k + 1 + j == k + (j + 1) && ts[1..][j] == ts[j + 1];
      }
      HoldingIsPopped(ts[1..], log, k + 1, x);
    }
  }

  // When the threads have finished, the consumers together hold what was popped.
  lemma ConsumersHoldAll(r: State, x: Item)
    requires LogOk(r) && Final(r)
    ensures Sum(r.threads, Holding(x)) == Popped(r.log)[x]
  {
    forall j: nat | j < |r.threads|
      ensures PoppedBy(r.log, j) == if r.threads[j].role.Consumer? then r.threads[j].got else []
    {
      assert ThreadLogOk(r, j);
    }
    HoldingIsPopped(r.threads, r.log, 0, x);
    PoppedByAll(r.log, |r.threads|, x);
  }

  // Consumer k holds x once, and no other consumer holds it.
  ghost predicate HeldOnlyBy(r: State, k: nat, x: Item) {
    && k < |r.threads| && r.threads[k].role.Consumer? && multiset(r.threads[k].got)[x] == 1
    && forall j | 0 <= j < |r.threads| && j != k && r.threads[j].role.Consumer? :: x !in r.threads[j].got
  }

  lemma OneHolder(r: State, x: Item)
    requires Sum(r.threads, Holding(x)) == 1
    ensures exists k: nat :: HeldOnlyBy(r, k, x)
  {
    var ts, f := r.threads, Holding(x);
    if forall k | 0 <= k < |ts| :: f(ts[k]) == 0 {
      SumZero(ts, f);
      assert false;
    }
    var k: nat :| k < |ts| && f(ts[k]) != 0;
    SumAtLeast(ts, k, f);
    forall j | 0 <= j < |ts| && j != k
      ensures f(ts[j]) == 0
    {
      SumAtLeastTwo(ts, if j < k then j else k, if j < k then k else j, f);
    }
    assert HeldOnlyBy(r, k, x);
  }

  // When the threads have finished, every item of every producer is held by a consumer or is left
  // in the buffer, exactly once in all.
  lemma EveryItemOnce(s: State, schedule: seq<nat>, x: Item)
    requires Initial(s) && Final(Run(s, schedule))
    ensures var r := Run(s, schedule);
            && 0 <= r.count <= |r.buffer|
            && Sum(r.threads, Holding(x)) == Popped(r.log)[x]
            && Sum(r.threads, Holding(x)) + multiset(r.buffer[..r.count])[x] == (if IsAnItem(s, x) then 1 else 0)
  {
    var r := Run(s, schedule);
    LogAlways(s, schedule);
    CountsAlways(s, schedule);
    PushedOnce(r, x);
    StackConserves(r.log, |r.buffer|);
    ConsumersHoldAll(r, x);
  }

  // A consumer holds what it popped, in the order in which it popped it.
  lemma ConsumersHoldTheirItems(s: State, schedule: seq<nat>, k: nat)
    requires Initial(s) && Final(Run(s, schedule)) && k < |s.threads| && s.threads[k].role.Consumer?
    ensures var r := Run(s, schedule);
            && k < |r.threads| && PoppedBy(r.log, k) == r.threads[k].got && |r.threads[k].got| == s.threads[k].quota
  {
    LogAlways(s, schedule);
    CountsAlways(s, schedule);
    assert ThreadLogOk(Run(s, schedule), k);
  }

  // The program's case: as much is consumed as is produced. No run deadlocks, and it ends with
  // an empty buffer and each item in the hands of exactly one consumer.
  lemma EqualTotals(s: State, schedule: seq<nat>, x: Item)
    requires Initial(s) && s.buffer != [] && Sum(s.threads, ToProduce) == Sum(s.threads, ToConsume)
    requires Stuck(Run(s, schedule))
    ensures var r := Run(s, schedule);
            Final(r) && r.count == 0 && (IsAnItem(s, x) <==> exists k: nat :: HeldOnlyBy(r, k, x))
  {
    var r := Run(s, schedule);
    DeadlockFreeIffBalanced(s, schedule);
    EveryItemOnce(s, schedule, x);
    if IsAnItem(s, x) {
      OneHolder(r, x);
    } else if k: nat :| HeldOnlyBy(r, k, x) {
      SumAtLeast(r.threads, k, Holding(x));
    }
  }
}
