/** The one-slot buffer with a mutex and two condition variables (Preparation/buffer-mutex.c).
    `max` stands for the source's MAX.  A thread blocked in `pthread_cond_wait` is `Waiting`
    until a signal or a spurious wakeup makes it `Woken`; it then competes for the mutex and,
    having it, tests its loop condition again. */
module OneSlotBuffer {
  import Runs

  datatype Thread = Producer | Consumer

  function Other(t: Thread): Thread {
    if t == Producer then Consumer else Producer
  }

  datatype Pc = Lock | Test | Waiting | Woken | Act | Signal | Unlock | Exited

  /** The loop counter and the next statement of a thread. */
  datatype Local = Local(i: nat, pc: Pc)

  datatype State = State(
    max: nat,
    locked: bool,
    buffer: int,
    producer: Local,
    consumer: Local,
    taken: seq<int>)  // history: what the consumer found each time it emptied the buffer

  function LocalOf(s: State, t: Thread): Local {
    if t == Producer then s.producer else s.consumer
  }

  function WithLocal(s: State, t: Thread, l: Local): State {
    if t == Producer then s.(producer := l) else s.(consumer := l)
  }

  /** The head of the `for` loop. */
  function LoopHead(i: nat, max: nat): Local {
    Local(i, if i <= max then Lock else Exited)
  }

  function Init(max: nat): State {
    State(max, false, 0, LoopHead(1, max), LoopHead(1, max), [])
  }

  predicate Enabled(s: State, t: Thread) {
    match LocalOf(s, t).pc
    case Lock => !s.locked
    case Woken => !s.locked
    case Waiting => false
    case Exited => false
    case _ => true
  }

  /** The loop condition under which a thread waits. */
  predicate MustWait(s: State, t: Thread) {
    if t == Producer then s.buffer != 0 else s.buffer == 0
  }

  /** `pthread_cond_signal` on the condition variable the other thread uses. */
  function SignalOther(s: State, t: Thread): State {
    var o := LocalOf(s, Other(t));
    if o.pc == Waiting then WithLocal(s, Other(t), o.(pc := Woken)) else s
  }

  /** Thread `t` executes one statement. */
  function Step(s: State, t: Thread): State {
    var l := LocalOf(s, t);
    match l.pc
    case Lock => WithLocal(s.(locked := true), t, l.(pc := Test))
    case Woken => WithLocal(s.(locked := true), t, l.(pc := Test))
    case Test =>
      if MustWait(s, t) then WithLocal(s.(locked := false), t, l.(pc := Waiting))
      else WithLocal(s, t, l.(pc := Act))
    case Act =>
      if t == Producer then WithLocal(s.(buffer := l.i), t, l.(pc := Signal))
      else WithLocal(s.(buffer := 0, taken := s.taken + [s.buffer]), t, l.(pc := Signal))
    case Signal => WithLocal(SignalOther(s, t), t, l.(pc := Unlock))
    case Unlock => WithLocal(s.(locked := false), t, LoopHead(l.i + 1, s.max))
    case Waiting => s
    case Exited => s
  }

  /** A wakeup that no signal caused. */
  function Spurious(s: State, t: Thread): State {
    WithLocal(s, t, LocalOf(s, t).(pc := Woken))
  }

  ghost predicate NextBySignal(s: State, s': State) {
    exists t: Thread :: Enabled(s, t) && s' == Step(s, t)
  }

  ghost predicate Next(s: State, s': State) {
    || NextBySignal(s, s')
    || exists t: Thread :: LocalOf(s, t).pc == Waiting && s' == Spurious(s, t)
  }

  ghost predicate IsRun(r: seq<State>) {
    Runs.Linked(Next, r) && r[0] == Init(r[0].max)
  }

  ghost predicate IsRunWithoutSpurious(r: seq<State>) {
    Runs.Linked(NextBySignal, r) && r[0] == Init(r[0].max)
  }

  // ---------------------------------------------------------------- safety, spurious wakeups allowed

  predicate Holding(l: Local) {
    l.pc == Test || l.pc == Act || l.pc == Signal || l.pc == Unlock
  }

  /** How often a thread has written the buffer. */
  function Writes(l: Local): int {
    if l.pc == Signal || l.pc == Unlock then l.i else l.i - 1
  }

  predicate ThreadInv(s: State, t: Thread) {
    var l := LocalOf(s, t);
    && 1 <= l.i <= s.max + 1
    && (l.pc == Exited <==> l.i == s.max + 1)
    && (l.pc == Act ==> !MustWait(s, t))
    && (l.pc == Signal ==> MustWait(s, t))
  }

  ghost predicate Inv(s: State) {
    && (s.locked <==> Holding(s.producer) || Holding(s.consumer))
    && !(Holding(s.producer) && Holding(s.consumer))
    && ThreadInv(s, Producer) && ThreadInv(s, Consumer)
    && (Writes(s.producer) == Writes(s.consumer) || Writes(s.producer) == Writes(s.consumer) + 1)
    && s.buffer == (if Writes(s.producer) == Writes(s.consumer) then 0 else Writes(s.producer))
    && |s.taken| == Writes(s.consumer)
    && forall k :: 0 <= k < |s.taken| ==> s.taken[k] == k + 1
  }

  lemma StepKeepsInv(s: State, t: Thread)
    requires Inv(s) && Enabled(s, t)
    ensures Inv(Step(s, t))
  {
  }

  lemma SpuriousKeepsInv(s: State, t: Thread)
    requires Inv(s) && LocalOf(s, t).pc == Waiting
    ensures Inv(Spurious(s, t))
  {
  }

  lemma NextKeepsInv(s: State, s': State)
    requires Inv(s) && Next(s, s')
    ensures Inv(s') && s'.max == s.max
  {
    if NextBySignal(s, s') {
      var t: Thread :| Enabled(s, t) && s' == Step(s, t);
      StepKeepsInv(s, t);
    } else {
      var t: Thread :| LocalOf(s, t).pc == Waiting && s' == Spurious(s, t);
      SpuriousKeepsInv(s, t);
    }
  }

  lemma InitIsInv(max: nat)
    ensures Inv(Init(max))
  {
  }

  lemma {:induction false} RunKeepsInv(r: seq<State>, k: nat)
    requires IsRun(r) && k < |r|
    ensures Inv(r[k]) && r[k].max == r[0].max
  {
    if k == 0 {
      InitIsInv(r[0].max);
    } else {
      RunKeepsInv(r, k - 1);
      assert Runs.Moves(Next, r, k - 1);
      NextKeepsInv(r[k - 1], r[k]);
    }
  }

  /** The numbers 1, 2, ..., `n`. */
  function UpTo(n: nat): seq<int> {
    seq(n, k => k + 1)
  }

  /** The consumer takes 1, 2, 3, ... without a gap; at most the last number put is still in
      the buffer; and a put never overwrites a number. */
  lemma HandsOverInOrder(r: seq<State>, k: nat)
    requires IsRun(r) && k < |r|
    ensures r[k].taken == UpTo(|r[k].taken|)
    ensures var put := Writes(r[k].producer);
            if r[k].buffer == 0 then |r[k].taken| == put else |r[k].taken| == put - 1 && r[k].buffer == put
    ensures r[k].producer.pc == Act ==> r[k].buffer == 0
    ensures r[k].consumer.pc == Act ==> r[k].buffer == |r[k].taken| + 1
  {
    RunKeepsInv(r, k);
  }

  // ---------------------------------------------------------------- no signal is lost

  /** Who waits unsignalled has to wait, or is about to be signalled. */
  predicate SignalKept(s: State, t: Thread) {
    LocalOf(s, t).pc == Waiting ==> MustWait(s, t) || LocalOf(s, Other(t)).pc == Signal
  }

  predicate NoLostSignal(s: State) {
    SignalKept(s, Producer) && SignalKept(s, Consumer)
  }

  lemma StepKeepsSignals(s: State, t: Thread)
    requires Inv(s) && NoLostSignal(s) && Enabled(s, t)
    ensures NoLostSignal(Step(s, t))
  {
  }

  lemma {:induction false} RunKeepsSignals(r: seq<State>, k: nat)
    requires IsRun(r) && k < |r|
    ensures Inv(r[k]) && NoLostSignal(r[k]) && r[k].max == r[0].max
  {
    RunKeepsInv(r, k);
    if k == 0 {
    } else {
      RunKeepsSignals(r, k - 1);
      assert Runs.Moves(Next, r, k - 1);
      if NextBySignal(r[k - 1], r[k]) {
        var t: Thread :| Enabled(r[k - 1], t) && r[k] == Step(r[k - 1], t);
        StepKeepsSignals(r[k - 1], t);
      }
    }
  }

  /** Without spurious wakeups, who was signalled no longer has to wait. */
  predicate SignalsAreTrue(s: State) {
    && (s.producer.pc == Woken ==> !MustWait(s, Producer))
    && (s.consumer.pc == Woken ==> !MustWait(s, Consumer))
  }

  lemma StepKeepsTruth(s: State, t: Thread)
    requires Inv(s) && SignalsAreTrue(s) && Enabled(s, t)
    ensures SignalsAreTrue(Step(s, t))
  {
  }

  lemma {:induction false} NoWakeupInVain(r: seq<State>, k: nat)
    requires IsRunWithoutSpurious(r) && k < |r|
    ensures Inv(r[k]) && SignalsAreTrue(r[k])
  {
    if k == 0 {
      InitIsInv(r[0].max);
    } else {
      NoWakeupInVain(r, k - 1);
      assert Runs.Moves(NextBySignal, r, k - 1);
      hide Inv, SignalsAreTrue;
      var t: Thread :| Enabled(r[k - 1], t) && r[k] == Step(r[k - 1], t);
      StepKeepsInv(r[k - 1], t);
      StepKeepsTruth(r[k - 1], t);
    }
  }

  // ---------------------------------------------------------------- every run finishes

  /** The job is done: both threads have left their loops, every number has been taken, in
      order, and the buffer is empty again. */
  predicate Finished(s: State) {
    s.producer.pc == Exited && s.consumer.pc == Exited && s.buffer == 0 && s.taken == UpTo(s.max)
  }

  /** A state in which nobody can move is the finished one. */
  lemma StuckOnlyWhenFinished(s: State)
    requires Inv(s) && NoLostSignal(s)
    ensures Enabled(s, Producer) || Enabled(s, Consumer) || Finished(s)
  {
  }

  /** An upper bound on the statements a thread still executes in its current round. */
  function ThisRound(s: State, t: Thread): nat {
    match LocalOf(s, t).pc
    case Lock => 7
    case Test => if MustWait(s, t) then 6 else 4
    case Waiting => 5
    case Woken => if MustWait(s, t) then 7 else 5
    case Act => 3
    case Signal => 2
    case Unlock => 1
    case Exited => 0
  }

  function ThreadMeasure(s: State, t: Thread): int {
    var l := LocalOf(s, t);
    if l.pc == Exited then 0 else 7 * (s.max - l.i) + ThisRound(s, t)
  }

  /** An upper bound on the number of steps still to come, until the next spurious wakeup. */
  function Measure(s: State): int {
    ThreadMeasure(s, Producer) + ThreadMeasure(s, Consumer)
  }

  lemma StepDecreasesMeasure(s: State, t: Thread)
    requires Inv(s) && NoLostSignal(s) && Enabled(s, t)
    ensures 0 <= Measure(Step(s, t)) < Measure(s)
  {
    StepKeepsInv(s, t);
  }

  ghost predicate Alive(s: State) {
    Inv(s) && NoLostSignal(s)
  }

  lemma StepKeepsAlive(s: State, t: Thread)
    requires Alive(s) && Enabled(s, t)
    ensures Alive(Step(s, t)) && 0 <= Measure(Step(s, t)) < Measure(s)
  {
    StepKeepsInv(s, t);
    StepKeepsSignals(s, t);
    StepDecreasesMeasure(s, t);
  }

  lemma WakeupRaisesMeasure(s: State, t: Thread)
    requires Inv(s) && LocalOf(s, t).pc == Waiting
    ensures 0 <= Measure(Spurious(s, t)) <= Measure(s) + 2
  {
    SpuriousKeepsInv(s, t);
  }

  lemma WakeupKeepsAlive(s: State, t: Thread)
    requires Alive(s) && LocalOf(s, t).pc == Waiting
    ensures Alive(Spurious(s, t)) && 0 <= Measure(Spurious(s, t)) <= Measure(s) + 2
  {
    SpuriousKeepsInv(s, t);
    WakeupRaisesMeasure(s, t);
  }

  /** How many of the first `k` moves are spurious wakeups. */
  ghost function Wakeups(r: seq<State>, k: nat): nat
    requires k < |r|
  {
    if k == 0 then 0 else Wakeups(r, k - 1) + if NextBySignal(r[k - 1], r[k]) then 0 else 1
  }

  /** A run has at most 14 steps per number, and three more for each spurious wakeup. */
  lemma {:induction false} RunsAreBounded(r: seq<State>, k: nat)
    requires IsRun(r) && k < |r|
    ensures k + Measure(r[k]) <= 14 * r[0].max + 3 * Wakeups(r, k)
    ensures 0 <= Measure(r[k])
  {
    if k == 0 {
    } else {
      RunsAreBounded(r, k - 1);
      RunKeepsSignals(r, k - 1);
      assert Runs.Moves(Next, r, k - 1);
      hide Inv, NoLostSignal, Measure, Step;
      if NextBySignal(r[k - 1], r[k]) {
        var t: Thread :| Enabled(r[k - 1], t) && r[k] == Step(r[k - 1], t);
        StepDecreasesMeasure(r[k - 1], t);
      } else {
        var t: Thread :| LocalOf(r[k - 1], t).pc == Waiting && r[k] == Spurious(r[k - 1], t);
        WakeupRaisesMeasure(r[k - 1], t);
      }
    }
  }

  /** Whoever the scheduler picks and however often threads wake up for no reason: a run can be
      continued until the job is done, and it takes at most 14 steps per number and three for
      each spurious wakeup. */
  lemma EveryRunFinishes(r: seq<State>)
    requires IsRun(r)
    ensures |r| - 1 <= 14 * r[0].max + 3 * Wakeups(r, |r| - 1)
    ensures Enabled(r[|r| - 1], Producer) || Enabled(r[|r| - 1], Consumer) || Finished(r[|r| - 1])
  {
    RunsAreBounded(r, |r| - 1);
    RunKeepsSignals(r, |r| - 1);
    StuckOnlyWhenFinished(r[|r| - 1]);
  }

  lemma {:induction false} NoWakeups(r: seq<State>, k: nat)
    requires IsRunWithoutSpurious(r) && k < |r|
    ensures IsRun(r) && Wakeups(r, k) == 0
  {
    forall j: nat | j + 1 < |r|
      ensures Runs.Moves(Next, r, j)
    {
      assert Runs.Moves(NextBySignal, r, j);
    }
    if k == 0 {
    } else {
      NoWakeups(r, k - 1);
      assert Runs.Moves(NextBySignal, r, k - 1);
    }
  }

  /** In particular, without spurious wakeups no run is longer than 14 steps per number. */
  lemma FourteenStepsPerNumber(r: seq<State>)
    requires IsRunWithoutSpurious(r)
    ensures |r| <= 14 * r[0].max + 1
    ensures Enabled(r[|r| - 1], Producer) || Enabled(r[|r| - 1], Consumer) || Finished(r[|r| - 1])
  {
    NoWakeups(r, |r| - 1);
    EveryRunFinishes(r);
  }

  // ---------------------------------------------------------------- the shared memory

  /** The globals of the program and the local state of the two threads. */
  class SharedSlot {
    const max: nat
    var locked: bool
    var buffer: int
    var producer: Local
    var consumer: Local
    var taken: seq<int>  // history variable, read by nobody

    function View(): State
      reads this
    {
      State(max, locked, buffer, producer, consumer, taken)
    }

    constructor (max: nat)
      ensures View() == Init(max)
    {
      this.max := max;
      locked, buffer := false, 0;
      producer, consumer := LoopHead(1, max), LoopHead(1, max);
      taken := [];
    }

    /** The producer executes its next statement. */
    method Produce()
      requires Enabled(View(), Producer)
      modifies this
      ensures View() == Step(old(View()), Producer)
    {
      match producer.pc {
        case Lock =>
          locked, producer := true, producer.(pc := Test);
        case Woken =>
          locked, producer := true, producer.(pc := Test);
        case Test =>
          if buffer != 0 {
            locked, producer := false, producer.(pc := Waiting);
          } else {
            producer := producer.(pc := Act);
          }
        case Act =>
          buffer, producer := producer.i, producer.(pc := Signal);
        case Signal =>
          if consumer.pc == Waiting {
            consumer := consumer.(pc := Woken);
          }
          producer := producer.(pc := Unlock);
        case Unlock =>
          locked, producer := false, LoopHead(producer.i + 1, max);
      }
    }

    /** The consumer executes its next statement. */
    method Consume()
      requires Enabled(View(), Consumer)
      modifies this
      ensures View() == Step(old(View()), Consumer)
    {
      match consumer.pc {
        case Lock =>
          locked, consumer := true, consumer.(pc := Test);
        case Woken =>
          locked, consumer := true, consumer.(pc := Test);
        case Test =>
          if buffer == 0 {
            locked, consumer := false, consumer.(pc := Waiting);
          } else {
            consumer := consumer.(pc := Act);
          }
        case Act =>
          taken, buffer, consumer := taken + [buffer], 0, consumer.(pc := Signal);
        case Signal =>
          if producer.pc == Waiting {
            producer := producer.(pc := Woken);
          }
          consumer := consumer.(pc := Unlock);
        case Unlock =>
          locked, consumer := false, LoopHead(consumer.i + 1, max);
      }
    }

    /** A wakeup that no signal caused. */
    method WakeUp(t: Thread)
      requires LocalOf(View(), t).pc == Waiting
      modifies this
      ensures View() == Spurious(old(View()), t)
    {
      if t == Producer {
        producer := producer.(pc := Woken);
      } else {
        consumer := consumer.(pc := Woken);
      }
    }

    /** Any scheduler: as long as some thread can run, an arbitrary one does, or one that waits
        wakes up for no reason, which happens at most `wakeups` times. */
    method Schedule(wakeups: nat)
      requires View() == Init(max)
      modifies this
      ensures Finished(View())
    {
      InitIsInv(max);
      var left := wakeups;
      while Enabled(View(), Producer) || Enabled(View(), Consumer)
        invariant Alive(View()) && 0 <= Measure(View())
        decreases Measure(View()) + 3 * left
      {
        hide Alive, Measure, Step, Spurious, Enabled;
        ghost var before := View();
        var spurious: bool, t: Thread :| true;
        if spurious && left > 0 && LocalOf(View(), t).pc == Waiting {
          WakeupKeepsAlive(before, t);
          WakeUp(t);
          left := left - 1;
        } else {
          t :| Enabled(View(), t);
          StepKeepsAlive(before, t);
          if t == Producer {
            Produce();
          } else {
            Consume();
          }
        }
      }
      StuckOnlyWhenFinished(View());
    }
  }
}
