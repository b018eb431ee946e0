/** The monitor of Preparation/PriducerConsumer.java: `insert` and `remove` are synchronized,
    wait with `if` rather than `while`, and call `notify` only when the buffer leaves the
    empty or the full state.  One producer and one consumer, as in lines 3-4. */
module Monitor {
  import Ring
  import Runs

  datatype Thread = Producer | Consumer

  function Other(t: Thread): Thread {
    if t == Producer then Consumer else Producer
  }

  /** The next statement of a thread.  `Waiting` is inside `wait` and not notified, `Notified`
      has still to get the monitor back; `Access` is the use of the slot, `Advance` the update
      of its index, `Adjust` the update of `count`. */
  datatype Pc = Outside | Enter | Test | Waiting | Notified | Access | Advance | Adjust | TestNotify | Leave

  datatype Local = Local(pc: Pc, item: int)

  datatype State = State(
    locked: bool,
    buf: seq<int>, count: int, lo: int, hi: int,
    producer: Local, consumer: Local,
    inserted: seq<int>, removed: seq<int>,   // history of the slot accesses
    passed: seq<int>, returned: seq<int>)    // history of the arguments of `insert` and the results of `remove`

  function LocalOf(s: State, t: Thread): Local {
    if t == Producer then s.producer else s.consumer
  }

  function WithPc(s: State, t: Thread, pc: Pc): State {
    if t == Producer then s.(producer := s.producer.(pc := pc)) else s.(consumer := s.consumer.(pc := pc))
  }

  predicate Init(s: State) {
    && 0 < |s.buf| && !s.locked
    && s.count == s.lo == s.hi == 0
    && s.producer.pc == s.consumer.pc == Outside
    && s.inserted == s.removed == s.passed == s.returned == []
  }

  predicate Shaped(s: State) {
    0 <= s.lo < |s.buf| && 0 <= s.hi < |s.buf|
  }

  predicate Enabled(s: State, t: Thread) {
    match LocalOf(s, t).pc
    case Enter => !s.locked
    case Notified => !s.locked
    case Waiting => false
    case _ => true
  }

  /** The condition under which a thread goes to sleep. */
  predicate MustSleep(s: State, t: Thread) {
    if t == Producer then s.count == |s.buf| else s.count == 0
  }

  /** The condition under which a leaving thread calls `notify`. */
  predicate CallsNotify(s: State, t: Thread) {
    if t == Producer then s.count == 1 else s.count == |s.buf| - 1
  }

  function UseSlot(s: State, t: Thread): State
    requires Shaped(s)
  {
    if t == Producer then
      s.(buf := s.buf[s.hi := s.producer.item], inserted := s.inserted + [s.producer.item])
    else
      s.(removed := s.removed + [s.buf[s.lo]], consumer := s.consumer.(item := s.buf[s.lo]))
  }

  /** Thread `t` executes one statement; `v` is what `produce_item` returns. */
  function Step(s: State, t: Thread, v: int): State
    requires Shaped(s)
  {
    match LocalOf(s, t).pc
    case Outside =>
      WithPc(if t == Producer then s.(producer := s.producer.(item := v), passed := s.passed + [v]) else s, t, Enter)
    case Enter => WithPc(s.(locked := true), t, Test)
    case Test => if MustSleep(s, t) then WithPc(s.(locked := false), t, Waiting) else WithPc(s, t, Access)
    case Waiting => s
    case Notified => WithPc(s.(locked := true), t, Access)
    case Access => WithPc(UseSlot(s, t), t, Advance)
    case Advance =>
      WithPc(if t == Producer then s.(hi := Ring.Successor(s.hi, |s.buf|))
             else s.(lo := Ring.Successor(s.lo, |s.buf|)), t, Adjust)
    case Adjust => WithPc(s.(count := if t == Producer then s.count + 1 else s.count - 1), t, TestNotify)
    case TestNotify =>
      var woken := CallsNotify(s, t) && LocalOf(s, Other(t)).pc == Waiting;
      WithPc(if woken then WithPc(s, Other(t), Notified) else s, t, Leave)
    case Leave =>
      WithPc(s.(locked := false, returned := if t == Consumer then s.returned + [s.consumer.item] else s.returned),
             t, Outside)
  }

  /** `t` stops waiting: it has been notified, or nobody knows why. */
  function Wakeup(s: State, t: Thread): State {
    WithPc(s, t, Notified)
  }

  /** A wakeup without a `notify` that does no harm: `t` need not sleep any more, or the other
      thread is in the monitor. */
  predicate Harmless(s: State, t: Thread) {
    !MustSleep(s, t) || s.locked
  }

  ghost predicate NextByNotify(s: State, s': State) {
    Shaped(s) && exists t: Thread, v: int :: Enabled(s, t) && s' == Step(s, t, v)
  }

  ghost predicate Next(s: State, s': State) {
    || NextByNotify(s, s')
    || exists t: Thread :: LocalOf(s, t).pc == Waiting && Harmless(s, t) && s' == Wakeup(s, t)
  }

  /** Runs with any number of harmless spurious wakeups. */
  ghost predicate IsRun(r: seq<State>) {
    Runs.Linked(Next, r) && Init(r[0])
  }

  ghost predicate IsRunWithoutSpurious(r: seq<State>) {
    Runs.Linked(NextByNotify, r) && Init(r[0])
  }

  // ---------------------------------------------------------------- the invariant

  predicate Inside(l: Local) {
    !(l.pc == Outside || l.pc == Enter || l.pc == Waiting || l.pc == Notified)
  }

  /** Has used the slot, but not yet updated `count`. */
  predicate CountLags(l: Local) {
    l.pc == Advance || l.pc == Adjust
  }

  /** In the monitor, with the update of `count` still to come if it does not go to sleep. */
  predicate WillAdjust(l: Local) {
    l.pc == Test || l.pc == Access || l.pc == Advance || l.pc == Adjust
  }

  /** A thread that uses the slot may; one that sleeps must, unless its wakeup is under way;
      one that has woken up need not sleep by the time the monitor is free; and after the
      update of `count` the other one need not. */
  predicate ThreadInv(s: State, t: Thread) {
    match LocalOf(s, t).pc
    case Waiting => MustSleep(s, t) || (LocalOf(s, Other(t)).pc == TestNotify && CallsNotify(s, Other(t)))
    case Notified => !MustSleep(s, t) || WillAdjust(LocalOf(s, Other(t)))
    case Access => !MustSleep(s, t)
    case TestNotify => !MustSleep(s, Other(t))
    case Leave => !MustSleep(s, Other(t))
    case _ => true
  }

  ghost predicate Inv(s: State) {
    && (s.locked <==> Inside(s.producer) || Inside(s.consumer))
    && !(Inside(s.producer) && Inside(s.consumer))
    && 0 <= s.count <= |s.buf|
    && s.count == |s.inserted| - |s.removed|
                  - (if CountLags(s.producer) then 1 else 0) + (if CountLags(s.consumer) then 1 else 0)
    && Ring.Agrees(s.buf, s.lo, s.hi, s.consumer.pc == Advance, s.producer.pc == Advance, s.inserted, s.removed)
    && ThreadInv(s, Producer) && ThreadInv(s, Consumer)
  }

  /** What the producer has been given and not yet stored. */
  function ToStore(s: State): seq<int> {
    var pc := s.producer.pc;
    if pc == Outside || pc == Advance || pc == Adjust || pc == TestNotify || pc == Leave then [] else [s.producer.item]
  }

  /** What the consumer has read and not yet returned. */
  function ToReturn(s: State): seq<int> {
    if CountLags(s.consumer) || s.consumer.pc == TestNotify || s.consumer.pc == Leave then [s.consumer.item] else []
  }

  /** The slot accesses move the values that the callers see. */
  predicate ValuesAgree(s: State) {
    s.passed == s.inserted + ToStore(s) && s.removed == s.returned + ToReturn(s)
  }

  lemma ProducerKeepsValues(s: State, v: int)
    requires Shaped(s) && ValuesAgree(s)
    ensures ValuesAgree(Step(s, Producer, v))
  {
  }

  lemma ConsumerKeepsValues(s: State, v: int)
    requires Shaped(s) && ValuesAgree(s)
    ensures ValuesAgree(Step(s, Consumer, v))
  {
  }

  lemma NextKeepsValues(s: State, s': State)
    requires ValuesAgree(s) && Next(s, s')
    ensures ValuesAgree(s')
  {
    hide Step;
    if NextByNotify(s, s') {
      var t: Thread, v: int :| Enabled(s, t) && s' == Step(s, t, v);
      if t == Producer {
        ProducerKeepsValues(s, v);
      } else {
        ConsumerKeepsValues(s, v);
      }
    }
  }

  lemma {:induction false} RunKeepsValues(r: seq<State>, k: nat)
    requires IsRun(r) && k < |r|
    ensures ValuesAgree(r[k])
  {
    if k == 0 {
    } else {
      RunKeepsValues(r, k - 1);
      assert Runs.Moves(Next, r, k - 1);
      NextKeepsValues(r[k - 1], r[k]);
    }
  }

  lemma InitIsInv(s: State)
    requires Init(s)
    ensures Inv(s)
  {
  }

  lemma AccessKeepsInv(s: State, t: Thread, v: int)
    requires Inv(s) && LocalOf(s, t).pc == Access
    ensures Inv(Step(s, t, v))
  {
    if t == Producer {
      Ring.AgreesAfterStore(s.buf, s.lo, s.hi, s.inserted, s.removed, s.producer.item);
    } else {
      Ring.AgreesAfterLoad(s.buf, s.lo, s.hi, s.inserted, s.removed);
    }
  }

  lemma AdvanceKeepsInv(s: State, t: Thread, v: int)
    requires Inv(s) && LocalOf(s, t).pc == Advance
    ensures Inv(Step(s, t, v))
  {
    if t == Producer {
      Ring.AgreesAfterAdvanceHi(s.buf, s.lo, s.hi, s.inserted, s.removed);
    } else {
      Ring.AgreesAfterAdvanceLo(s.buf, s.lo, s.hi, s.inserted, s.removed);
    }
  }

  lemma NotifyKeepsInv(s: State, t: Thread, v: int)
    requires Inv(s) && LocalOf(s, t).pc == TestNotify
    ensures Inv(Step(s, t, v))
  {
  }

  lemma AdjustKeepsInv(s: State, t: Thread, v: int)
    requires Inv(s) && LocalOf(s, t).pc == Adjust
    ensures Inv(Step(s, t, v))
  {
  }

  lemma EntryKeepsInv(s: State, t: Thread, v: int)
    requires Inv(s) && Enabled(s, t) && !Inside(LocalOf(s, t))
    ensures Inv(Step(s, t, v))
  {
  }

  lemma ExitKeepsInv(s: State, t: Thread, v: int)
    requires Inv(s) && (LocalOf(s, t).pc == Test || LocalOf(s, t).pc == Leave)
    ensures Inv(Step(s, t, v))
  {
  }

  lemma StepKeepsInv(s: State, t: Thread, v: int)
    requires Inv(s) && Enabled(s, t)
    ensures Inv(Step(s, t, v))
  {
    hide Inv, Step;
    match LocalOf(s, t).pc {
      case Adjust => AdjustKeepsInv(s, t, v);
      case TestNotify => NotifyKeepsInv(s, t, v);
      case Access => AccessKeepsInv(s, t, v);
      case Advance => AdvanceKeepsInv(s, t, v);
      case Test => ExitKeepsInv(s, t, v);
      case Leave => ExitKeepsInv(s, t, v);
      case _ => EntryKeepsInv(s, t, v);
    }
  }

  lemma WakeupKeepsInv(s: State, t: Thread)
    requires Inv(s) && LocalOf(s, t).pc == Waiting && Harmless(s, t)
    ensures Inv(Wakeup(s, t))
  {
  }

  lemma StepKeepsLength(s: State, t: Thread, v: int)
    requires Shaped(s)
    ensures |Step(s, t, v).buf| == |s.buf|
  {
  }

  lemma NextKeepsInv(s: State, s': State)
    requires Inv(s) && Next(s, s')
    ensures Inv(s') && |s'.buf| == |s.buf|
  {
    hide Inv, Step;
    if NextByNotify(s, s') {
      var t: Thread, v: int :| Enabled(s, t) && s' == Step(s, t, v);
      StepKeepsInv(s, t, v);
      StepKeepsLength(s, t, v);
    } else {
      var t: Thread :| LocalOf(s, t).pc == Waiting && Harmless(s, t) && s' == Wakeup(s, t);
      WakeupKeepsInv(s, t);
    }
  }

  lemma {:induction false} LinkedKeepsInv(r: seq<State>, k: nat)
    requires Runs.Linked(Next, r) && Inv(r[0]) && k < |r|
    ensures Inv(r[k]) && |r[k].buf| == |r[0].buf|
  {
    hide Inv, Next;
    if k == 0 {
    } else {
      LinkedKeepsInv(r, k - 1);
      assert Runs.Moves(Next, r, k - 1);
      NextKeepsInv(r[k - 1], r[k]);
    }
  }

  lemma RunKeepsInv(r: seq<State>, k: nat)
    requires IsRun(r) && k < |r|
    ensures Inv(r[k]) && |r[k].buf| == |r[0].buf|
  {
    InitIsInv(r[0]);
    hide Inv, Next;
    LinkedKeepsInv(r, k);
  }

  /** Without spurious wakeups, a notified thread need not sleep any more. */
  predicate Prompt(s: State) {
    && (s.producer.pc == Notified ==> !MustSleep(s, Producer))
    && (s.consumer.pc == Notified ==> !MustSleep(s, Consumer))
  }

  lemma StepKeepsPrompt(s: State, t: Thread, v: int)
    requires Inv(s) && Prompt(s) && Enabled(s, t)
    ensures Prompt(Step(s, t, v))
  {
  }

  lemma {:induction false} RunKeepsPrompt(r: seq<State>, k: nat)
    requires IsRunWithoutSpurious(r) && k < |r|
    ensures Inv(r[k]) && Prompt(r[k])
  {
    hide Inv, Step;
    if k == 0 {
      InitIsInv(r[0]);
    } else {
      hide Prompt;
      RunKeepsPrompt(r, k - 1);
      assert Runs.Moves(NextByNotify, r, k - 1);
      var t: Thread, v: int :| Enabled(r[k - 1], t) && r[k] == Step(r[k - 1], t, v);
      StepKeepsInv(r[k - 1], t, v);
      StepKeepsPrompt(r[k - 1], t, v);
    }
  }

  // ---------------------------------------------------------------- what every run keeps

  /** A thread that comes back from `wait` finds its condition true, so `if` is enough. */
  lemma IfIsEnough(r: seq<State>, k: nat, t: Thread)
    requires IsRunWithoutSpurious(r) && k < |r|
    ensures LocalOf(r[k], t).pc == Notified || LocalOf(r[k], t).pc == Access ==> !MustSleep(r[k], t)
  {
    RunKeepsPrompt(r, k);
  }

  /** It is, too, with harmless spurious wakeups. */
  lemma IfIsStillEnough(r: seq<State>, k: nat, t: Thread)
    requires IsRun(r) && k < |r|
    ensures LocalOf(r[k], t).pc == Notified && !r[k].locked ==> !MustSleep(r[k], t)
    ensures LocalOf(r[k], t).pc == Access ==> !MustSleep(r[k], t)
  {
    RunKeepsInv(r, k);
  }

  /** No wakeup is lost: when the monitor is free, an unnotified sleeper has reason to sleep;
      when it is taken, that may only fail while the other thread is about to notify. */
  lemma NoLostWakeup(r: seq<State>, k: nat)
    requires IsRun(r) && k < |r|
    ensures r[k].consumer.pc == Waiting && r[k].producer.pc != TestNotify ==> r[k].count == 0
    ensures r[k].producer.pc == Waiting && r[k].consumer.pc != TestNotify ==> r[k].count == |r[k].buf|
    ensures r[k].consumer.pc == Waiting && r[k].producer.pc == TestNotify ==> r[k].count <= 1
    ensures r[k].producer.pc == Waiting && r[k].consumer.pc == TestNotify ==> r[k].count >= |r[k].buf| - 1
    ensures !(r[k].producer.pc == Waiting && r[k].consumer.pc == Waiting)
  {
    RunKeepsInv(r, k);
  }

  /** Some thread can always take its next step. */
  lemma NoDeadlock(r: seq<State>, k: nat)
    requires IsRun(r) && k < |r|
    ensures Enabled(r[k], Producer) || Enabled(r[k], Consumer)
  {
    RunKeepsInv(r, k);
  }

  lemma MutualExclusion(r: seq<State>, k: nat)
    requires IsRun(r) && k < |r|
    ensures !(Inside(r[k].producer) && Inside(r[k].consumer))
  {
    RunKeepsInv(r, k);
  }

  /** What was removed is the beginning of what was inserted, nothing stored is overwritten
      and nothing is read twice: the rest sits in the ring, in order, from slot `lo` on, or
      from the one behind it while the consumer has still to advance `lo`. */
  lemma FirstInFirstOut(r: seq<State>, k: nat)
    requires IsRun(r) && k < |r|
    ensures r[k].removed <= r[k].inserted
    ensures Shaped(r[k])
    ensures Ring.Holds(r[k].buf, Ring.First(r[k].lo, r[k].consumer.pc == Advance, |r[k].buf|),
                       Ring.Contents(r[k].inserted, r[k].removed))
    ensures |r[k].inserted| - |r[k].removed| <= |r[0].buf|
  {
    RunKeepsInv(r, k);
  }

  /** What `remove` has returned is the beginning of what `insert` has been given, in order; what
      is missing is in the consumer's hands, in the ring, or in the producer's hands. */
  lemma ReturnsWhatWasPassed(r: seq<State>, k: nat)
    requires IsRun(r) && k < |r|
    ensures r[k].returned <= r[k].passed && r[k].removed <= r[k].inserted
    ensures r[k].passed == r[k].returned + ToReturn(r[k])
                           + Ring.Contents(r[k].inserted, r[k].removed) + ToStore(r[k])
  {
    RunKeepsInv(r, k);
    RunKeepsValues(r, k);
  }

  // ---------------------------------------------------------------- where the guarantee ends

  /** A thread is about to use the slot although it should sleep: `insert` would overwrite an
      item, or `remove` read an empty ring. */
  ghost predicate Misuses(s: State) {
    exists t: Thread :: LocalOf(s, t).pc == Access && MustSleep(s, t)
  }

  ghost predicate CanMisuse(s: State) {
    exists r: seq<State> :: Runs.Linked(Next, r) && r[0] == s && Misuses(r[|r| - 1])
  }

  lemma HarmfulWakeup(s: State, t: Thread)
    requires Shaped(s) && LocalOf(s, t).pc == Waiting && !Harmless(s, t)
    ensures CanMisuse(Wakeup(s, t))
  {
    var w := Wakeup(s, t);
    var r := [w, Step(w, t, 0)];
    assert Enabled(w, t);
    assert Runs.Moves(Next, r, 0) by { assert NextByNotify(w, r[1]); }
    assert LocalOf(r[1], t).pc == Access && MustSleep(r[1], t);
  }

  /** In every state that can be reached: a spurious wakeup of `t` can lead to a use of the
      slot that should not happen if and only if `t` must sleep and the monitor is free. */
  lemma WakeupIsHarmfulIff(r: seq<State>, k: nat, t: Thread)
    requires IsRun(r) && k < |r| && LocalOf(r[k], t).pc == Waiting
    ensures CanMisuse(Wakeup(r[k], t)) <==> MustSleep(r[k], t) && !r[k].locked
  {
    RunKeepsInv(r, k);
    if Harmless(r[k], t) {
      WakeupKeepsInv(r[k], t);
      forall r': seq<State> | Runs.Linked(Next, r') && r'[0] == Wakeup(r[k], t)
        ensures !Misuses(r'[|r'| - 1])
      {
        LinkedKeepsInv(r', |r'| - 1);
      }
    } else {
      HarmfulWakeup(r[k], t);
    }
  }

  /** For instance, right at the start: the consumer goes to sleep, wakes up for no reason, and
      `remove` reads an empty ring. */
  lemma SpuriousWakeupReadsEmptyRing(s0: State)
    returns (s1: State, s2: State, s3: State, s4: State, s5: State)
    requires Init(s0)
    ensures NextByNotify(s0, s1) && NextByNotify(s1, s2) && NextByNotify(s2, s3)
    ensures s3.consumer.pc == Waiting && s4 == Wakeup(s3, Consumer)
    ensures NextByNotify(s4, s5) && s5.consumer.pc == Access && s5.count == 0
  {
    s1 := Step(s0, Consumer, 0);
    s2 := Step(s1, Consumer, 0);
    s3 := Step(s2, Consumer, 0);
    s4 := Wakeup(s3, Consumer);
    s5 := Step(s4, Consumer, 0);
    assert Enabled(s0, Consumer) && Enabled(s1, Consumer) && Enabled(s2, Consumer) && Enabled(s4, Consumer);
  }

  // ---------------------------------------------------------------- the monitor

  /** The object `mon` and the local state of the two threads. */
  class OurMonitor {
    const buffer: array<int>
    var locked: bool
    var count: int
    var lo: int
    var hi: int
    var producer: Local
    var consumer: Local
    var inserted: seq<int>  // history variables, read by nobody
    var removed: seq<int>
    var passed: seq<int>
    var returned: seq<int>

    function View(): State
      reads this, buffer
    {
      State(locked, buffer[..], count, lo, hi, producer, consumer, inserted, removed, passed, returned)
    }

    constructor (n: nat)
      requires 0 < n
      ensures fresh(buffer) && buffer.Length == n && Init(View())
    {
      buffer := new int[n](_ => 0);
      locked, count, lo, hi := false, 0, 0, 0;
      producer, consumer := Local(Outside, 0), Local(Outside, 0);
      inserted, removed, passed, returned := [], [], [], [];
    }

    /** `notify`: wakes `t` if it waits. */
    method Notify(t: Thread)
      modifies this`producer, this`consumer
      ensures View() == if LocalOf(old(View()), t).pc == Waiting then Wakeup(old(View()), t) else old(View())
    {
      if t == Producer && producer.pc == Waiting {
        producer := producer.(pc := Notified);
      } else if t == Consumer && consumer.pc == Waiting {
        consumer := consumer.(pc := Notified);
      }
    }

    /** The producer executes its next statement: the loop of `producer` and `insert`. */
    method Insert(item: int)
      requires Shaped(View()) && Enabled(View(), Producer)
      modifies this, buffer
      ensures View() == Step(old(View()), Producer, item)
    {
      match producer.pc {
        case Outside => producer, passed := Local(Enter, item), passed + [item];
        case Enter => locked, producer := true, producer.(pc := Test);
        case Test =>
          if count == buffer.Length {
            locked, producer := false, producer.(pc := Waiting);
          } else {
            producer := producer.(pc := Access);
          }
        case Notified => locked, producer := true, producer.(pc := Access);
        case Access =>
          buffer[hi] := producer.item;
          inserted, producer := inserted + [producer.item], producer.(pc := Advance);
        case Advance => hi, producer := Ring.Successor(hi, buffer.Length), producer.(pc := Adjust);
        case Adjust => count, producer := count + 1, producer.(pc := TestNotify);
        case TestNotify =>
          if count == 1 {
            Notify(Consumer);
          }
          producer := producer.(pc := Leave);
        case Leave => locked, producer := false, producer.(pc := Outside);
      }
    }

    /** The consumer executes its next statement: the loop of `consumer` and `remove`. */
    method Remove()
      requires Shaped(View()) && Enabled(View(), Consumer)
      modifies this, buffer
      ensures forall v :: View() == Step(old(View()), Consumer, v)
    {
      match consumer.pc {
        case Outside => consumer := consumer.(pc := Enter);
        case Enter => locked, consumer := true, consumer.(pc := Test);
        case Test =>
          if count == 0 {
            locked, consumer := false, consumer.(pc := Waiting);
          } else {
            consumer := consumer.(pc := Access);
          }
        case Notified => locked, consumer := true, consumer.(pc := Access);
        case Access =>
          consumer := Local(Advance, buffer[lo]);
          removed := removed + [consumer.item];
        case Advance => lo, consumer := Ring.Successor(lo, buffer.Length), consumer.(pc := Adjust);
        case Adjust => count, consumer := count - 1, consumer.(pc := TestNotify);
        case TestNotify =>
          if count == buffer.Length - 1 {
            Notify(Producer);
          }
          consumer := consumer.(pc := Leave);
        case Leave => locked, consumer, returned := false, consumer.(pc := Outside), returned + [consumer.item];
      }
    }

    /** Any scheduler: at every step an arbitrary thread that can run does, or one that waits
        wakes up although nobody has notified it, as long as that is harmless. */
    method Schedule(steps: nat) returns (trace: seq<State>)
      requires Init(View())
      modifies this, buffer
      ensures IsRun(trace) && |trace| == steps + 1 && trace[0] == old(View()) && trace[steps] == View()
    {
      trace := [View()];
      for k := 0 to steps
        invariant IsRun(trace) && |trace| == k + 1 && trace[0] == old(View()) && trace[k] == View()
      {
        NoDeadlock(trace, k);
        RunKeepsInv(trace, k);
        ghost var before := trace;
        var spurious: bool, t: Thread :| true;
        if spurious && LocalOf(View(), t).pc == Waiting && Harmless(View(), t) {
          Notify(t);
          assert View() == Wakeup(before[k], t);
        } else {
          t :| Enabled(View(), t);
          var item: int :| true;
          if t == Producer {
            Insert(item);
          } else {
            Remove();
          }
          assert View() == Step(before[k], t, item);
        }
        Runs.Extend(Next, before, View());
        trace := trace + [View()];
      }
    }
  }
}
