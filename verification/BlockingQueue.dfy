/**
 * A queue guarded by one mutex and two condition variables, as a state machine over the steps
 * of its threads. The bounded blocking queue runs without Stop; the thread pool adds stop() and
 * may leave its queue unlimited.
 */
module BlockingQueue {
  import opened Options

  type Id = nat

  datatype Limit = Unlimited | AtMost(n: nat)

  /**
   * Where a thread is: outside, waiting for the mutex, at the test of its wait loop (newly arrived, or back from sleep),
   * asleep, woken, or past it.
   */
  datatype PC<T> =
    | Idle
    | PutEnter(x: T) | PutTest(x: T, signalled: bool) | PutAsleep(x: T) | PutWoken(x: T) | PutPushed(x: T) | PutDone(r: Option<T>)
    | TakeEnter | TakeTest(signalled: bool) | TakeAsleep | TakeWoken | TakePopped(x: T) | TakeDone(r: Option<T>)
    | StopEnter | StopTest | StopCleared | StopHalf | StopDone

  /** accepted and taken record the history of the queue. */
  datatype State<T> = State(limit: Limit, queue: seq<T>, running: bool, owner: Option<Id>, pcs: map<Id, PC<T>>,
                            accepted: seq<T>, taken: seq<T>)

  datatype Step<T> =
    | CallPut(t: Id, x: T) | CallTake(t: Id) | CallStop(t: Id)
    | Lock(t: Id) | Advance(t: Id, w: Option<Id>) | Spurious(t: Id)

  predicate Full<T>(s: State<T>) {
    s.limit.AtMost? && |s.queue| >= s.limit.n
  }

  predicate Holding<T>(pc: PC<T>) {
    || pc.PutTest? || pc.PutPushed? || pc.PutDone? || pc.TakeTest? || pc.TakePopped? || pc.TakeDone?
    || pc.StopTest? || pc.StopCleared? || pc.StopHalf? || pc.StopDone?
  }

  predicate Wanting<T>(pc: PC<T>) {
    pc.PutEnter? || pc.PutWoken? || pc.TakeEnter? || pc.TakeWoken? || pc.StopEnter?
  }

  // ---------------------------------------------------------------- groups of threads

  /** A taker counts as awake from its wake-up until it has tested the queue again; one that has not slept does not count. */
  datatype Kind = TakerAsleep | TakerAwake | PutterAsleep | PutterAwake | Pushed | Popped | Clearing | HalfCleared | Other

  function KindOf<T>(pc: PC<T>): Kind {
    match pc
    case TakeAsleep => TakerAsleep
    case TakeWoken => TakerAwake
    case TakeTest(signalled) => if signalled then TakerAwake else Other
    case PutAsleep(_) => PutterAsleep
    case PutWoken(_) => PutterAwake
    case PutTest(_, signalled) => if signalled then PutterAwake else Other
    case PutPushed(_) => Pushed
    case TakePopped(_) => Popped
    case StopCleared => Clearing
    case StopHalf => HalfCleared
    case _ => Other
  }

  function Group<T>(pcs: map<Id, PC<T>>, k: Kind): set<Id> {
    set t | t in pcs && KindOf(pcs[t]) == k
  }

  /** How many threads are in a group. */
  function N<T>(pcs: map<Id, PC<T>>, k: Kind): (n: nat) {
    |Group(pcs, k)|
  }

  function Ind(k: Kind, l: Kind): nat {
    if k == l then 1 else 0
  }

  /** How every group changes when one thread moves. */
  lemma Move<T>(pcs: map<Id, PC<T>>, t: Id, pc: PC<T>, k: Kind)
    requires t in pcs
    ensures N(pcs[t := pc], k) == N(pcs, k) + Ind(KindOf(pc), k) - Ind(KindOf(pcs[t]), k)
    ensures KindOf(pcs[t]) == k ==> N(pcs, k) > 0
  {
    hide KindOf;
    assert Group(pcs[t := pc], k) == Group(pcs, k) - {t} + (if KindOf(pc) == k then {t} else {});
  }

  datatype Tally = Tally(takersAsleep: int, takersAwake: int, puttersAsleep: int, puttersAwake: int,
                         pushed: int, popped: int, clearing: int, half: int)

  function TallyOf<T>(pcs: map<Id, PC<T>>): Tally {
    Tally(N(pcs, TakerAsleep), N(pcs, TakerAwake), N(pcs, PutterAsleep), N(pcs, PutterAwake),
          N(pcs, Pushed), N(pcs, Popped), N(pcs, Clearing), N(pcs, HalfCleared))
  }

  function Added(c: Tally, k: Kind, d: int): Tally {
    match k
    case TakerAsleep => c.(takersAsleep := c.takersAsleep + d)
    case TakerAwake => c.(takersAwake := c.takersAwake + d)
    case PutterAsleep => c.(puttersAsleep := c.puttersAsleep + d)
    case PutterAwake => c.(puttersAwake := c.puttersAwake + d)
    case Pushed => c.(pushed := c.pushed + d)
    case Popped => c.(popped := c.popped + d)
    case Clearing => c.(clearing := c.clearing + d)
    case HalfCleared => c.(half := c.half + d)
    case Other => c
  }

  predicate Natural(c: Tally) {
    && c.takersAsleep >= 0 && c.takersAwake >= 0 && c.puttersAsleep >= 0 && c.puttersAwake >= 0
    && c.pushed >= 0 && c.popped >= 0 && c.clearing >= 0 && c.half >= 0
  }

  lemma Moves<T>(pcs: map<Id, PC<T>>, t: Id, pc: PC<T>)
    requires t in pcs
    ensures TallyOf(pcs[t := pc]) == Added(Added(TallyOf(pcs), KindOf(pcs[t]), -1), KindOf(pc), 1)
    ensures Natural(TallyOf(pcs)) && Natural(Added(TallyOf(pcs), KindOf(pcs[t]), -1))
  {
    hide N, KindOf;
    Move(pcs, t, pc, TakerAsleep);
    Move(pcs, t, pc, TakerAwake);
    Move(pcs, t, pc, PutterAsleep);
    Move(pcs, t, pc, PutterAwake);
    Move(pcs, t, pc, Pushed);
    Move(pcs, t, pc, Popped);
    Move(pcs, t, pc, Clearing);
    Move(pcs, t, pc, HalfCleared);
  }

  lemma Member<T>(pcs: map<Id, PC<T>>, k: Kind) returns (t: Id)
    requires N(pcs, k) > 0
    ensures t in pcs && KindOf(pcs[t]) == k
  {
    t :| t in Group(pcs, k);
  }

  // ---------------------------------------------------------------- steps

  /** pthread_cond_signal wakes a sleeper if there is one; nobody is signalled outside the notifying steps. */
  predicate ValidWake<T>(s: State<T>, pc: PC<T>, w: Option<Id>) {
    if pc.PutPushed? then WakesOne(s.pcs, TakerAsleep, w)
    else if pc.TakePopped? && s.limit.AtMost? then WakesOne(s.pcs, PutterAsleep, w)
    else w == None
  }

  predicate WakesOne<T>(pcs: map<Id, PC<T>>, k: Kind, w: Option<Id>) {
    if Group(pcs, k) == {} then w == None else w.Some? && w.value in pcs && KindOf(pcs[w.value]) == k
  }

  predicate Enabled<T>(s: State<T>, step: Step<T>) {
    && step.t in s.pcs
    && match step
       case CallPut(t, x) => s.pcs[t].Idle?
       case CallTake(t) => s.pcs[t].Idle?
       case CallStop(t) => s.pcs[t].Idle?
       case Lock(t) => s.owner.None? && Wanting(s.pcs[t])
       case Advance(t, w) => Holding(s.pcs[t]) && ValidWake(s, s.pcs[t], w)
       case Spurious(t) => s.pcs[t].TakeAsleep? || s.pcs[t].PutAsleep?
  }

  function Woken<T>(pc: PC<T>): PC<T> {
    match pc
    case TakeAsleep => TakeWoken
    case PutAsleep(x) => PutWoken(x)
    case other => other
  }

  function Wake<T>(pcs: map<Id, PC<T>>, w: Option<Id>): map<Id, PC<T>>
    requires w.Some? ==> w.value in pcs
  {
    if w.Some? then pcs[w.value := Woken(pcs[w.value])] else pcs
  }

  /** pthread_cond_broadcast. */
  function WakeAll<T>(pcs: map<Id, PC<T>>, k: Kind): map<Id, PC<T>> {
    map t | t in pcs :: if KindOf(pcs[t]) == k then Woken(pcs[t]) else pcs[t]
  }

  function Locked<T>(pc: PC<T>): PC<T>
    requires Wanting(pc)
  {
    match pc
    case PutEnter(x) => PutTest(x, false)
    case PutWoken(x) => PutTest(x, true)
    case StopEnter => StopTest
    case TakeWoken => TakeTest(true)
    case _ => TakeTest(false)
  }

  function At<T>(s: State<T>, t: Id, pc: PC<T>): State<T> {
    s.(pcs := s.pcs[t := pc])
  }

  function Leave<T>(s: State<T>, t: Id, pc: PC<T>): State<T> {
    s.(pcs := s.pcs[t := pc], owner := None)
  }

  function Apply<T>(s: State<T>, step: Step<T>): State<T>
    requires Enabled(s, step)
  {
    match step
    case CallPut(t, x) => At(s, t, PutEnter(x))
    case CallTake(t) => At(s, t, TakeEnter)
    case CallStop(t) => At(s, t, StopEnter)
    case Lock(t) => At(s, t, Locked(s.pcs[t])).(owner := Some(t))
    case Spurious(t) => At(s, t, Woken(s.pcs[t]))
    case Advance(t, w) => Advanced(s, t, w)
  }

  function Advanced<T>(s: State<T>, t: Id, w: Option<Id>): State<T>
    requires Enabled(s, Advance(t, w))
  {
    match s.pcs[t]
    case PutTest(x, _) =>
      if Full(s) && s.running then Leave(s, t, PutAsleep(x))
      else if !s.running then At(s, t, PutDone(None))
      else At(s, t, PutPushed(x)).(queue := s.queue + [x], accepted := s.accepted + [x])
    case PutPushed(x) => At(s.(pcs := Wake(s.pcs, w)), t, PutDone(Some(x)))
    case TakeTest(_) =>
      if s.queue == [] && s.running then Leave(s, t, TakeAsleep)
      else if s.queue == [] then At(s, t, TakeDone(None))
      else At(s, t, TakePopped(s.queue[0])).(queue := s.queue[1..], taken := s.taken + [s.queue[0]])
    case TakePopped(x) => At(s.(pcs := Wake(s.pcs, w)), t, TakeDone(Some(x)))
    case StopTest => At(s, t, StopCleared).(running := false)
    case StopCleared => At(s.(pcs := WakeAll(s.pcs, TakerAsleep)), t, StopHalf)
    case StopHalf => At(s.(pcs := WakeAll(s.pcs, PutterAsleep)), t, StopDone)
    case _ => Leave(s, t, Idle)
  }

  // ---------------------------------------------------------------- the invariant

  ghost predicate Exclusive<T>(s: State<T>) {
    && (forall t :: t in s.pcs ==> (Holding(s.pcs[t]) <==> s.owner == Some(t)))
    && (s.owner.Some? ==> s.owner.value in s.pcs)
  }

  /** First in, first out, and never over the limit. */
  ghost predicate Fifo<T>(s: State<T>) {
    s.accepted == s.taken + s.queue && (s.limit.AtMost? ==> |s.queue| <= s.limit.n)
  }

  /** A taker past the queue holds the item taken last; one that leaves with nothing has seen the queue stopped and empty. */
  ghost predicate Delivered<T>(s: State<T>) {
    forall t :: t in s.pcs ==>
      && (s.pcs[t].TakePopped? ==> s.taken != [] && s.taken[|s.taken| - 1] == s.pcs[t].x)
      && (s.pcs[t].TakeDone? && s.pcs[t].r.Some? ==> s.taken != [] && s.taken[|s.taken| - 1] == s.pcs[t].r.value)
      && (s.pcs[t].TakeDone? && s.pcs[t].r.None? ==> !s.running && s.queue == [])
  }

  /** A putter past the queue has its item in it as the last one accepted; it leaves with nothing put only when stopped. */
  ghost predicate Placed<T>(s: State<T>) {
    forall t :: t in s.pcs ==>
      && (s.pcs[t].PutPushed? ==> s.accepted != [] && s.accepted[|s.accepted| - 1] == s.pcs[t].x)
      && (s.pcs[t].PutDone? && s.pcs[t].r.Some? ==> s.accepted != [] && s.accepted[|s.accepted| - 1] == s.pcs[t].r.value)
      && (s.pcs[t].PutDone? && s.pcs[t].r.None? ==> !s.running)
      && (s.pcs[t].StopCleared? || s.pcs[t].StopHalf? || s.pcs[t].StopDone? ==> !s.running)
  }

  /** No lost wake-up: while a taker sleeps, every item has a taker that was woken or a notification under way for it. */
  ghost predicate TakersHeard(c: Tally, queued: nat) {
    c.takersAsleep > 0 ==> queued <= c.takersAwake + c.pushed
  }

  /** And while a putter sleeps, every free slot has a putter that was woken or a notification under way for it. */
  ghost predicate PuttersHeard(c: Tally, queued: nat, limit: Limit) {
    c.puttersAsleep > 0 ==> limit.AtMost? && limit.n - queued <= c.puttersAwake + c.popped
  }

  /** Once running has been cleared, a sleeper is left only while the broadcasts are still to come. */
  ghost predicate StopWakes(c: Tally) {
    && (c.takersAsleep > 0 ==> c.clearing > 0)
    && (c.puttersAsleep > 0 ==> c.clearing + c.half > 0)
  }

  ghost predicate Heard<T>(s: State<T>) {
    var c := TallyOf(s.pcs);
    TakersHeard(c, |s.queue|) && PuttersHeard(c, |s.queue|, s.limit) && (!s.running ==> StopWakes(c))
  }

  ghost predicate Inv<T>(s: State<T>) {
    Exclusive(s) && Fifo(s) && Delivered(s) && Placed(s) && Heard(s)
  }

  ghost predicate Init<T>(s: State<T>) {
    && s.queue == [] && s.running && s.owner == None && s.accepted == [] && s.taken == []
    && forall t :: t in s.pcs ==> s.pcs[t].Idle?
  }

  lemma InitInv<T>(s: State<T>)
    requires Init(s)
    ensures Inv(s)
  {
    assert Group(s.pcs, TakerAsleep) == {} && Group(s.pcs, PutterAsleep) == {};
  }

  // ---------------------------------------------------------------- one thread at a time

  /** Threads other than t are where they were, or woken. */
  ghost predicate OthersKeep<T>(pcs: map<Id, PC<T>>, pcs': map<Id, PC<T>>, t: Id) {
    pcs'.Keys == pcs.Keys && forall u :: u in pcs && u != t ==> Holding(pcs'[u]) == Holding(pcs[u])
  }

  lemma StayExclusive<T>(s: State<T>, s': State<T>, t: Id)
    requires Exclusive(s) && t in s.pcs && OthersKeep(s.pcs, s'.pcs, t) && Holding(s.pcs[t])
    requires if Holding(s'.pcs[t]) then s'.owner == s.owner else s'.owner == None
    ensures Exclusive(s')
  {
  }

  lemma WakeOthers<T>(s: State<T>, t: Id, w: Option<Id>)
    requires Enabled(s, Advance(t, w))
    ensures w.Some? ==> w.value in s.pcs && (s.pcs[w.value].TakeAsleep? || s.pcs[w.value].PutAsleep?)
  {
    hide Holding;
  }

  lemma AdvanceKeeps<T>(s: State<T>, t: Id, w: Option<Id>)
    requires Enabled(s, Advance(t, w))
    ensures OthersKeep(s.pcs, Advanced(s, t, w).pcs, t)
  {
    hide Full, Group, ValidWake, Wake, WakeAll, Holding;
    if s.pcs[t].PutPushed? || s.pcs[t].TakePopped? {
      WakeOthers(s, t, w);
      WakeKeeps(s.pcs, w);
    } else if s.pcs[t].StopCleared? {
      WakeAllKeeps(s.pcs, TakerAsleep);
    } else if s.pcs[t].StopHalf? {
      WakeAllKeeps(s.pcs, PutterAsleep);
    }
  }

  lemma WakeKeeps<T>(pcs: map<Id, PC<T>>, w: Option<Id>)
    requires w.Some? ==> w.value in pcs && (pcs[w.value].TakeAsleep? || pcs[w.value].PutAsleep?)
    ensures Wake(pcs, w).Keys == pcs.Keys
    ensures forall u :: u in pcs ==> Holding(Wake(pcs, w)[u]) == Holding(pcs[u])
  {
  }

  lemma WakeAllKeeps<T>(pcs: map<Id, PC<T>>, k: Kind)
    ensures WakeAll(pcs, k).Keys == pcs.Keys
    ensures forall u :: u in pcs ==> Holding(WakeAll(pcs, k)[u]) == Holding(pcs[u])
  {
  }

  lemma AdvanceOwner<T>(s: State<T>, t: Id, w: Option<Id>)
    requires Enabled(s, Advance(t, w))
    ensures var s' := Advanced(s, t, w);
      t in s'.pcs && if Holding(s'.pcs[t]) then s'.owner == s.owner else s'.owner == None
  {
    hide Full, Group, ValidWake, Wake, WakeAll;
  }

  lemma StepExclusive<T>(s: State<T>, step: Step<T>)
    requires Exclusive(s) && Enabled(s, step)
    ensures Exclusive(Apply(s, step))
  {
    hide Group, ValidWake, Advanced;
    if step.Advance? {
      AdvanceKeeps(s, step.t, step.w);
      AdvanceOwner(s, step.t, step.w);
      StayExclusive(s, Advanced(s, step.t, step.w), step.t);
    }
  }

  lemma StepFifo<T>(s: State<T>, step: Step<T>)
    requires Inv(s) && Enabled(s, step)
    ensures Fifo(Apply(s, step))
  {
    hide Group, Heard, Exclusive, Delivered, Placed;
    if step.Advance? && s.pcs[step.t].TakeTest? && s.queue != [] {
      assert s.taken + s.queue == s.taken + [s.queue[0]] + s.queue[1..];
    }
  }

  // ---------------------------------------------------------------- no lost wake-ups

  lemma StepHeard<T>(s: State<T>, step: Step<T>)
    requires Inv(s) && Enabled(s, step)
    ensures Heard(Apply(s, step))
  {
    hide TallyOf, Advanced, ValidWake, Fifo, Exclusive, Delivered, Placed;
    var t := step.t;
    match step
    case CallPut(_, x) => Moves(s.pcs, t, PutEnter(x));
    case CallTake(_) => Moves<T>(s.pcs, t, TakeEnter);
    case CallStop(_) => Moves<T>(s.pcs, t, StopEnter);
    case Lock(_) => Moves(s.pcs, t, Locked(s.pcs[t]));
    case Spurious(_) => Moves(s.pcs, t, Woken(s.pcs[t]));
    case Advance(_, w) => AdvanceHeard(s, t, w);
  }

  lemma AdvanceHeard<T>(s: State<T>, t: Id, w: Option<Id>)
    requires Inv(s) && Enabled(s, Advance(t, w))
    ensures Heard(Advanced(s, t, w))
  {
    hide TallyOf, Advanced, Inv, Heard;
    match s.pcs[t]
    case PutTest(_, _) => PutTestHeard(s, t);
    case TakeTest(_) => TakeTestHeard(s, t);
    case PutPushed(_) => PushHeard(s, t, w);
    case TakePopped(_) => PopHeard(s, t, w);
    case StopCleared => FirstBroadcast(s, t);
    case StopHalf => SecondBroadcast(s, t);
    case StopTest => StopTestHeard(s, t);
    case _ => LeaveHeard(s, t);
  }

  /** While a thread other than a stopping one holds the mutex, nobody is asleep in a stopped queue. */
  lemma NoBroadcastPending<T>(s: State<T>, t: Id)
    requires Inv(s) && !s.running && t in s.pcs && Holding(s.pcs[t])
    requires KindOf(s.pcs[t]) != Clearing && KindOf(s.pcs[t]) != HalfCleared
    ensures TallyOf(s.pcs).takersAsleep == 0 && TallyOf(s.pcs).puttersAsleep == 0
  {
    if N(s.pcs, Clearing) > 0 {
      var u := Member(s.pcs, Clearing);
    }
    if N(s.pcs, HalfCleared) > 0 {
      var u := Member(s.pcs, HalfCleared);
    }
  }

  lemma PutTestHeard<T>(s: State<T>, t: Id)
    requires Inv(s) && Enabled(s, Advance(t, None)) && s.pcs[t].PutTest?
    ensures Heard(Advanced(s, t, None))
  {
    hide TallyOf, ValidWake, Delivered, Placed;
    var s' := Advanced(s, t, None);
    Moves(s.pcs, t, s'.pcs[t]);
    if !s.running {
      NoBroadcastPending(s, t);
    }
  }

  lemma TakeTestHeard<T>(s: State<T>, t: Id)
    requires Inv(s) && Enabled(s, Advance(t, None)) && s.pcs[t].TakeTest?
    ensures Heard(Advanced(s, t, None))
  {
    hide TallyOf, ValidWake, Delivered, Placed;
    var s' := Advanced(s, t, None);
    Moves(s.pcs, t, s'.pcs[t]);
    if !s.running {
      NoBroadcastPending(s, t);
    }
  }

  lemma PushHeard<T>(s: State<T>, t: Id, w: Option<Id>)
    requires Inv(s) && Enabled(s, Advance(t, w)) && s.pcs[t].PutPushed?
    ensures Heard(Advanced(s, t, w))
  {
    hide TallyOf, ValidWake, Group, Exclusive, Fifo, Delivered, Placed, N;
    Signalled(s, t, w);
    if w.Some? {
      Moves(s.pcs, w.value, TakeWoken);
    }
    Moves(Wake(s.pcs, w), t, PutDone(Some(s.pcs[t].x)));
  }

  lemma PopHeard<T>(s: State<T>, t: Id, w: Option<Id>)
    requires Inv(s) && Enabled(s, Advance(t, w)) && s.pcs[t].TakePopped?
    ensures Heard(Advanced(s, t, w))
  {
    hide TallyOf, ValidWake, Group, Exclusive, Fifo, Delivered, Placed, N;
    Signalled(s, t, w);
    if w.Some? {
      Moves(s.pcs, w.value, Woken(s.pcs[w.value]));
    }
    Moves(Wake(s.pcs, w), t, TakeDone(Some(s.pcs[t].x)));
  }

  /** Who is woken: somebody of the right kind whenever there is somebody. */
  lemma Signalled<T>(s: State<T>, t: Id, w: Option<Id>)
    requires Enabled(s, Advance(t, w)) && (s.pcs[t].PutPushed? || s.pcs[t].TakePopped?)
    ensures w.Some? ==> w.value in s.pcs && w.value != t
    ensures s.pcs[t].PutPushed? ==> (if w.Some? then s.pcs[w.value].TakeAsleep? else TallyOf(s.pcs).takersAsleep == 0)
    ensures s.pcs[t].TakePopped? && s.limit.AtMost? ==>
      (if w.Some? then s.pcs[w.value].PutAsleep? else TallyOf(s.pcs).puttersAsleep == 0)
    ensures s.pcs[t].TakePopped? && s.limit.Unlimited? ==> w == None
  {
  }

  lemma StopTestHeard<T>(s: State<T>, t: Id)
    requires Inv(s) && Enabled(s, Advance(t, None)) && s.pcs[t].StopTest?
    ensures Heard(Advanced(s, t, None))
  {
    hide TallyOf, ValidWake, Exclusive, Fifo, Delivered, Placed;
    Moves<T>(s.pcs, t, StopCleared);
  }

  lemma FirstBroadcast<T>(s: State<T>, t: Id)
    requires Inv(s) && Enabled(s, Advance(t, None)) && s.pcs[t].StopCleared?
    ensures Heard(Advanced(s, t, None))
  {
    hide TallyOf, ValidWake, WakeAll, Exclusive, Fifo, Delivered, Placed, N, Group;
    AllMoved(s.pcs, TakerAsleep);
    Moves(WakeAll(s.pcs, TakerAsleep), t, StopHalf);
  }

  lemma SecondBroadcast<T>(s: State<T>, t: Id)
    requires Inv(s) && Enabled(s, Advance(t, None)) && s.pcs[t].StopHalf?
    ensures Heard(Advanced(s, t, None))
  {
    hide TallyOf, ValidWake, WakeAll, Exclusive, Fifo, Delivered, Placed, N, Group;
    OnlyHalf(s, t);
    AllMoved(s.pcs, PutterAsleep);
    Moves(WakeAll(s.pcs, PutterAsleep), t, StopDone);
  }

  lemma LeaveHeard<T>(s: State<T>, t: Id)
    requires Inv(s) && Enabled(s, Advance(t, None)) && (s.pcs[t].PutDone? || s.pcs[t].TakeDone? || s.pcs[t].StopDone?)
    ensures Heard(Advanced(s, t, None))
  {
    hide TallyOf, ValidWake, Fifo, Delivered, Placed;
    Moves<T>(s.pcs, t, Idle);
  }

  lemma OnlyHalf<T>(s: State<T>, t: Id)
    requires Inv(s) && t in s.pcs && s.pcs[t].StopHalf?
    ensures TallyOf(s.pcs).clearing == 0
  {
    if N(s.pcs, Clearing) > 0 {
      var u := Member(s.pcs, Clearing);
    }
  }

  lemma AllMoved<T>(pcs: map<Id, PC<T>>, k: Kind)
    requires k == TakerAsleep || k == PutterAsleep
    ensures WakeAll(pcs, k).Keys == pcs.Keys
    ensures k == TakerAsleep ==> TallyOf(WakeAll(pcs, k)) == TallyOf(pcs).(takersAsleep := 0, takersAwake := N(WakeAll(pcs, k), TakerAwake))
    ensures k == PutterAsleep ==> TallyOf(WakeAll(pcs, k)) == TallyOf(pcs).(puttersAsleep := 0, puttersAwake := N(WakeAll(pcs, k), PutterAwake))
    ensures forall u :: u in pcs && KindOf(pcs[u]) != k ==> WakeAll(pcs, k)[u] == pcs[u]
  {
    var pcs' := WakeAll(pcs, k);
    assert Group(pcs', k) == {};
    forall j | j != TakerAwake && j != PutterAwake && j != k
      ensures N(pcs', j) == N(pcs, j)
    {
      assert Group(pcs', j) == Group(pcs, j);
    }
    if k == TakerAsleep {
      assert Group(pcs', PutterAwake) == Group(pcs, PutterAwake);
    } else {
      assert Group(pcs', TakerAwake) == Group(pcs, TakerAwake);
    }
  }

  // ---------------------------------------------------------------- delivery

  lemma StepDelivered<T>(s: State<T>, step: Step<T>)
    requires Inv(s) && Enabled(s, step)
    ensures Delivered(Apply(s, step))
  {
    hide Group, Heard, Fifo, ValidWake, Advanced;
    if step.Advance? {
      AdvanceDelivered(s, step.t, step.w);
    }
  }

  lemma AdvanceDelivered<T>(s: State<T>, t: Id, w: Option<Id>)
    requires Inv(s) && Enabled(s, Advance(t, w))
    ensures Delivered(Advanced(s, t, w))
  {
    hide Group, Heard, Fifo, ValidWake, Wake, WakeAll;
    AdvanceKeeps(s, t, w);
    var s' := Advanced(s, t, w);
    forall u | u in s.pcs && u != t
      ensures !s'.pcs[u].TakePopped? && !s'.pcs[u].TakeDone?
    {
      assert Holding(s'.pcs[u]) == Holding(s.pcs[u]);
    }
  }

  lemma StepPlaced<T>(s: State<T>, step: Step<T>)
    requires Inv(s) && Enabled(s, step)
    ensures Placed(Apply(s, step))
  {
    hide Group, Heard, Fifo, Delivered, ValidWake, Advanced;
    if step.Advance? {
      AdvancePlaced(s, step.t, step.w);
    }
  }

  lemma AdvancePlaced<T>(s: State<T>, t: Id, w: Option<Id>)
    requires Inv(s) && Enabled(s, Advance(t, w))
    ensures Placed(Advanced(s, t, w))
  {
    hide Group, Heard, Fifo, Delivered, ValidWake, Wake, WakeAll;
    AdvanceKeeps(s, t, w);
    var s' := Advanced(s, t, w);
    forall u | u in s.pcs && u != t
      ensures !Holding(s'.pcs[u])
    {
      assert Holding(s'.pcs[u]) == Holding(s.pcs[u]);
    }
  }

  // ---------------------------------------------------------------- runs

  /** One step keeps the invariant. */
  lemma StepInv<T>(s: State<T>, step: Step<T>)
    requires Inv(s) && Enabled(s, step)
    ensures Inv(Apply(s, step))
  {
    hide Exclusive, Fifo, Delivered, Placed, Heard, Apply;
    StepExclusive(s, step);
    StepFifo(s, step);
    StepDelivered(s, step);
    StepPlaced(s, step);
    StepHeard(s, step);
  }

  /** Any interleaving of calls, lock grants, steps under the lock and spurious wake-ups. */
  ghost predicate Run<T>(states: seq<State<T>>, steps: seq<Step<T>>) {
    && |states| == |steps| + 1
    && Init(states[0])
    && forall i :: 0 <= i < |steps| ==> Enabled(states[i], steps[i]) && states[i + 1] == Apply(states[i], steps[i])
  }

  lemma {:induction false} RunInv<T>(states: seq<State<T>>, steps: seq<Step<T>>, i: nat)
    requires Run(states, steps) && i < |states|
    ensures Inv(states[i])
    decreases i
  {
    hide Inv, Init, Apply, Enabled;
    if i == 0 {
      InitInv(states[0]);
    } else {
      RunInv(states, steps, i - 1);
      StepInv(states[i - 1], steps[i - 1]);
    }
  }

  /** The limit is fixed, the histories only grow, and a stopped queue stays stopped. */
  lemma StepGrows<T>(s: State<T>, step: Step<T>)
    requires Enabled(s, step)
    ensures var s' := Apply(s, step);
      && s'.limit == s.limit && s.accepted <= s'.accepted && s.taken <= s'.taken && (!s.running ==> !s'.running)
      && s'.pcs.Keys == s.pcs.Keys
      && (!s.running ==> s'.accepted == s.accepted)
  {
    hide Group, ValidWake;
    if step.Advance? {
      hide Holding, Full;
      AdvanceKeeps(s, step.t, step.w);
    }
  }

  lemma {:induction false} RunGrows<T>(states: seq<State<T>>, steps: seq<Step<T>>, i: nat, j: nat)
    requires Run(states, steps) && i <= j < |states|
    ensures states[i].limit == states[j].limit && states[i].taken <= states[j].taken
    ensures !states[i].running ==> !states[j].running && states[j].accepted == states[i].accepted
    decreases j
  {
    hide Init, Apply, Enabled;
    if i < j {
      RunGrows(states, steps, i, j - 1);
      StepGrows(states[j - 1], steps[j - 1]);
    }
  }

  // ---------------------------------------------------------------- what went in and what came out

  /** The item of the put that a thread called last. */
  ghost function Called<T>(steps: seq<Step<T>>, t: Id): Option<T> {
    if steps == [] then None else
      var last := steps[|steps| - 1];
      if last.CallPut? && last.t == t then Some(last.x) else Called(steps[..|steps| - 1], t)
  }

  /** The item a putter is busy with. */
  function Item<T>(pc: PC<T>): Option<T> {
    match pc
    case PutEnter(x) => Some(x)
    case PutTest(x, _) => Some(x)
    case PutAsleep(x) => Some(x)
    case PutWoken(x) => Some(x)
    case PutPushed(x) => Some(x)
    case PutDone(r) => r
    case _ => None
  }

  /** Every putter is busy with the item it was called with. */
  ghost predicate Carried<T>(s: State<T>, steps: seq<Step<T>>) {
    forall t :: t in s.pcs && Item(s.pcs[t]).Some? ==> Item(s.pcs[t]) == Called(steps, t)
  }

  ghost predicate GetsIn<T>(s: State<T>, step: Step<T>, s': State<T>) {
    step.Advance? && step.t in s.pcs && step.t in s'.pcs && s.pcs[step.t].PutTest? && s'.pcs[step.t].PutPushed?
  }

  ghost predicate GetsOut<T>(s: State<T>, step: Step<T>, s': State<T>) {
    step.Advance? && step.t in s.pcs && step.t in s'.pcs && s.pcs[step.t].TakeTest? && s'.pcs[step.t].TakePopped?
  }

  ghost function Listed<T>(x: Option<T>): seq<T> {
    if x.Some? then [x.value] else []
  }

  /** The items of the calls that got in during the first i steps, in the order they got in. */
  ghost function PutIn<T>(states: seq<State<T>>, steps: seq<Step<T>>, i: nat): (xs: seq<T>)
    requires i <= |steps| < |states|
  {
    if i == 0 then [] else
      PutIn(states, steps, i - 1) +
      (if GetsIn(states[i - 1], steps[i - 1], states[i]) then Listed(Called(steps[..i - 1], steps[i - 1].t)) else [])
  }

  /** The items that takers came away with, in that order. */
  ghost function TakenOut<T>(states: seq<State<T>>, steps: seq<Step<T>>, i: nat): (xs: seq<T>)
    requires i <= |steps| < |states|
  {
    if i == 0 then [] else
      TakenOut(states, steps, i - 1) +
      (if GetsOut(states[i - 1], steps[i - 1], states[i]) then [states[i].pcs[steps[i - 1].t].x] else [])
  }

  /** Only a putter getting in changes what has been accepted, and only a taker coming out what has been taken. */
  lemma StepHistory<T>(s: State<T>, step: Step<T>)
    requires Enabled(s, step)
    ensures var s' := Apply(s, step);
      && s'.accepted == s.accepted + (if GetsIn(s, step, s') then [s.pcs[step.t].x] else [])
      && s'.taken == s.taken + (if GetsOut(s, step, s') then [s'.pcs[step.t].x] else [])
  {
    hide Group, ValidWake, Wake, WakeAll;
  }

  /** A thread that moves keeps its item or lets go of it, unless it is called with a new one; nobody else's changes. */
  ghost predicate KeepsItem<T>(pc: PC<T>, pc': PC<T>) {
    Item(pc') == Item(pc) || Item(pc').None?
  }

  lemma WakeItems<T>(pcs: map<Id, PC<T>>, w: Option<Id>, u: Id)
    requires u in pcs && (w.Some? ==> w.value in pcs)
    ensures Item(Wake(pcs, w)[u]) == Item(pcs[u])
  {
  }

  lemma WakeAllItems<T>(pcs: map<Id, PC<T>>, k: Kind, u: Id)
    requires u in pcs
    ensures u in WakeAll(pcs, k) && Item(WakeAll(pcs, k)[u]) == Item(pcs[u])
  {
    hide KindOf;
  }

  lemma AdvanceOwnItem<T>(s: State<T>, t: Id, w: Option<Id>)
    requires Enabled(s, Advance(t, w))
    ensures t in Advanced(s, t, w).pcs && KeepsItem(s.pcs[t], Advanced(s, t, w).pcs[t])
  {
    hide Group, ValidWake, Holding, Full, Wake, WakeAll;
  }

  lemma AdvanceItems<T>(s: State<T>, t: Id, w: Option<Id>, u: Id)
    requires Enabled(s, Advance(t, w)) && u in s.pcs && u != t
    ensures u in Advanced(s, t, w).pcs && Item(Advanced(s, t, w).pcs[u]) == Item(s.pcs[u])
  {
    hide Group, ValidWake, Holding, Full, Item, Wake, WakeAll;
    if s.pcs[t].PutPushed? || s.pcs[t].TakePopped? {
      WakeOthers(s, t, w);
      WakeKeeps(s.pcs, w);
      WakeItems(s.pcs, w, u);
    } else if s.pcs[t].StopCleared? {
      WakeAllItems(s.pcs, TakerAsleep, u);
    } else if s.pcs[t].StopHalf? {
      WakeAllItems(s.pcs, PutterAsleep, u);
    }
  }

  lemma StepItems<T>(s: State<T>, step: Step<T>, u: Id)
    requires Enabled(s, step) && u in s.pcs
    ensures var s' := Apply(s, step);
      && u in s'.pcs
      && if step.CallPut? && step.t == u then Item(s'.pcs[u]) == Some(step.x) else KeepsItem(s.pcs[u], s'.pcs[u])
  {
    hide Group, ValidWake, Advanced, Holding;
    if step.Advance? && u == step.t {
      AdvanceOwnItem(s, u, step.w);
    } else if step.Advance? {
      AdvanceItems(s, step.t, step.w, u);
    }
  }

  lemma StepCarried<T>(s: State<T>, step: Step<T>, steps: seq<Step<T>>)
    requires Enabled(s, step) && Carried(s, steps)
    ensures Carried(Apply(s, step), steps + [step])
  {
    hide Apply, Enabled, Item;
    StepGrows(s, step);
    assert (steps + [step])[..|steps|] == steps;
    forall u | u in s.pcs
      ensures var pc := Apply(s, step).pcs[u]; Item(pc).Some? ==> Item(pc) == Called(steps + [step], u)
    {
      StepItems(s, step, u);
    }
  }

  lemma {:induction false} RunCarried<T>(states: seq<State<T>>, steps: seq<Step<T>>, i: nat)
    requires Run(states, steps) && i < |states|
    ensures Carried(states[i], steps[..i])
    decreases i
  {
    hide Apply, Enabled, Called;
    if i == 0 {
    } else {
      RunCarried(states, steps, i - 1);
      StepCarried(states[i - 1], steps[i - 1], steps[..i - 1]);
      assert steps[..i] == steps[..i - 1] + [steps[i - 1]];
    }
  }

  /** The histories are what the calls say. */
  lemma {:induction false} RunHistory<T>(states: seq<State<T>>, steps: seq<Step<T>>, i: nat)
    requires Run(states, steps) && i < |states|
    ensures states[i].accepted == PutIn(states, steps, i) && states[i].taken == TakenOut(states, steps, i)
    decreases i
  {
    hide Apply, Enabled, Called;
    if i == 0 {
    } else {
      RunHistory(states, steps, i - 1);
      RunCarried(states, steps, i - 1);
      StepHistory(states[i - 1], steps[i - 1]);
    }
  }

  /** First in, first out over whole runs: what takers got, then what is still queued, is what was put in, in order. */
  lemma RunFifo<T>(states: seq<State<T>>, steps: seq<Step<T>>, i: nat)
    requires Run(states, steps) && i < |states|
    ensures PutIn(states, steps, i) == TakenOut(states, steps, i) + states[i].queue
    ensures states[i].limit.AtMost? ==> |states[i].queue| <= states[i].limit.n
  {
    hide Run, PutIn, TakenOut, Exclusive, Delivered, Placed, Heard;
    RunInv(states, steps, i);
    RunHistory(states, steps, i);
  }

  // ---------------------------------------------------------------- what the invariant rules out

  ghost predicate AllAtRest<T>(s: State<T>) {
    forall t :: t in s.pcs ==> s.pcs[t].Idle? || s.pcs[t].TakeAsleep? || s.pcs[t].PutAsleep?
  }

  /** No thread can take the mutex and none can go on with it. */
  ghost predicate Quiet<T>(s: State<T>) {
    && (forall t :: !Enabled(s, Lock(t)))
    && (forall t, w :: !Enabled(s, Advance(t, w)))
  }

  lemma QuietIsRest<T>(s: State<T>)
    requires Inv(s) && Quiet(s)
    ensures AllAtRest(s)
  {
    hide Fifo, Delivered, Placed, Heard, KindOf;
    if s.owner.Some? {
      var w := HolderMoves(s);
    }
    forall t | t in s.pcs
      ensures s.pcs[t].Idle? || s.pcs[t].TakeAsleep? || s.pcs[t].PutAsleep?
    {
      assert !Enabled(s, Lock(t));
    }
  }

  lemma HolderMoves<T>(s: State<T>) returns (w: Option<Id>)
    requires Inv(s) && s.owner.Some?
    ensures Enabled(s, Advance(s.owner.value, w))
  {
    w := SomeWake(s, s.pcs[s.owner.value]);
  }

  lemma SomeWake<T>(s: State<T>, pc: PC<T>) returns (w: Option<Id>)
    ensures ValidWake(s, pc, w)
  {
    w := None;
    if pc.PutPushed? && Group(s.pcs, TakerAsleep) != {} {
      var t :| t in Group(s.pcs, TakerAsleep);
      w := Some(t);
    } else if pc.TakePopped? && s.limit.AtMost? && Group(s.pcs, PutterAsleep) != {} {
      var t :| t in Group(s.pcs, PutterAsleep);
      w := Some(t);
    }
  }

  /** When nothing can move, sleepers sleep for a reason: the queue runs and is empty, or runs and is full. */
  lemma QuietMeansReason<T>(s: State<T>)
    requires Inv(s) && Quiet(s)
    ensures forall t :: t in s.pcs && s.pcs[t].TakeAsleep? ==> s.running && s.queue == []
    ensures forall t :: t in s.pcs && s.pcs[t].PutAsleep? ==> s.running && Full(s)
  {
    QuietIsRest(s);
    assert Group(s.pcs, TakerAwake) == {} && Group(s.pcs, PutterAwake) == {};
    assert Group(s.pcs, Pushed) == {} && Group(s.pcs, Popped) == {};
    assert Group(s.pcs, Clearing) == {} && Group(s.pcs, HalfCleared) == {};
    forall t | t in s.pcs && s.pcs[t].TakeAsleep?
      ensures N(s.pcs, TakerAsleep) > 0
    {
      assert t in Group(s.pcs, TakerAsleep);
    }
    forall t | t in s.pcs && s.pcs[t].PutAsleep?
      ensures N(s.pcs, PutterAsleep) > 0
    {
      assert t in Group(s.pcs, PutterAsleep);
    }
  }

  /** A putter and a taker are never stuck together in a queue with room for anything. */
  lemma NeverBothStuck<T>(s: State<T>, t: Id, u: Id)
    requires Inv(s) && Quiet(s) && s.limit != AtMost(0) && t in s.pcs && u in s.pcs && s.pcs[t].TakeAsleep?
    ensures !s.pcs[u].PutAsleep?
  {
    hide Inv, Quiet;
    QuietMeansReason(s);
  }

  /** With no room at all they are: each goes to sleep and nobody is left to wake them. */
  lemma StuckWithoutRoom<T>(x: T) returns (states: seq<State<T>>, steps: seq<Step<T>>)
    ensures |states| == |steps| + 1 && Run(states, steps) && states[0].limit == AtMost(0)
    ensures var s := states[|states| - 1]; 0 in s.pcs && 1 in s.pcs && s.pcs[0].TakeAsleep? && s.pcs[1].PutAsleep? && Quiet(s)
  {
    states := [
      NoRoom(None, Idle, Idle), NoRoom(None, TakeEnter, Idle), NoRoom(Some(0), TakeTest(false), Idle), NoRoom(None, TakeAsleep, Idle),
      NoRoom(None, TakeAsleep, PutEnter(x)), NoRoom(Some(1), TakeAsleep, PutTest(x, false)), NoRoom(None, TakeAsleep, PutAsleep(x))];
    steps := [CallTake(0), Lock(0), Advance(0, None), CallPut(1, x), Lock(1), Advance(1, None)];
    hide Apply, Enabled, Init, Quiet;
    TakerSleeps(x);
    PutterSleeps(x);
    StartAndEnd(x);
  }

  lemma StartAndEnd<T>(x: T)
    ensures Init<T>(NoRoom(None, Idle, Idle)) && Quiet(NoRoom(None, TakeAsleep, PutAsleep(x)))
  {
  }

  /** Two threads and a queue without room. */
  function NoRoom<T>(owner: Option<Id>, taker: PC<T>, putter: PC<T>): State<T> {
    State(AtMost(0), [], true, owner, map[0 := taker, 1 := putter], [], [])
  }

  ghost predicate Goes<T>(s: State<T>, step: Step<T>, s': State<T>) {
    Enabled(s, step) && Apply(s, step) == s'
  }

  lemma TakerSleeps<T>(x: T)
    ensures Goes<T>(NoRoom(None, Idle, Idle), CallTake(0), NoRoom(None, TakeEnter, Idle))
    ensures Goes<T>(NoRoom(None, TakeEnter, Idle), Lock(0), NoRoom(Some(0), TakeTest(false), Idle))
    ensures Goes<T>(NoRoom(Some(0), TakeTest(false), Idle), Advance(0, None), NoRoom(None, TakeAsleep, Idle))
  {
  }

  lemma PutterSleeps<T>(x: T)
    ensures Goes<T>(NoRoom(None, TakeAsleep, Idle), CallPut(1, x), NoRoom(None, TakeAsleep, PutEnter(x)))
    ensures Goes<T>(NoRoom(None, TakeAsleep, PutEnter(x)), Lock(1), NoRoom(Some(1), TakeAsleep, PutTest(x, false)))
    ensures Goes<T>(NoRoom(Some(1), TakeAsleep, PutTest(x, false)), Advance(1, None), NoRoom(None, TakeAsleep, PutAsleep(x)))
  {
  }

  /** From the moment stop() has released the mutex nobody sleeps, in any later state of the run. */
  lemma StoppedMeansAwake<T>(states: seq<State<T>>, steps: seq<Step<T>>, i: nat, t: Id)
    requires Run(states, steps) && i < |states| && !states[i].running && t in states[i].pcs
    requires forall u :: u in states[i].pcs ==> !states[i].pcs[u].StopCleared? && !states[i].pcs[u].StopHalf?
    ensures !states[i].pcs[t].TakeAsleep? && !states[i].pcs[t].PutAsleep?
  {
    hide Run, Exclusive, Fifo, Delivered, Placed;
    RunInv(states, steps, i);
    var s := states[i];
    assert Group(s.pcs, Clearing) == {} && Group(s.pcs, HalfCleared) == {};
    AsleepCounts(s.pcs, t);
  }

  lemma AsleepCounts<T>(pcs: map<Id, PC<T>>, t: Id)
    requires t in pcs
    ensures pcs[t].TakeAsleep? ==> N(pcs, TakerAsleep) > 0
    ensures pcs[t].PutAsleep? ==> N(pcs, PutterAsleep) > 0
  {
    assert t in Group(pcs, KindOf(pcs[t]));
  }
}
