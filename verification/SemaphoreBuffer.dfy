/** The bounded buffer guarded by three semaphores (Preparation/mutex-pro-con.c), for any
    number of producers and consumers.  `insert_item` and `remove_item` are the three-statement
    ring buffer operations of Preparation/PriducerConsumer.java (lines 45-47 and 54-56), so
    that the semaphore `mutex` has real work to do. */
module SemaphoreBuffer {
  import Counting
  import Ring
  import Runs

  /** The next statement of a process: a producer's in program order, then a consumer's. */
  datatype Pc =
    | Produce | DownEmpty | DownMutexP | Store | AdvanceHi | CountUp | UpMutexP | UpFull
    | DownFull | DownMutexC | Load | AdvanceLo | CountDown | UpMutexC | UpEmpty | Consume

  /** `made` is a history: what `produce_item` returned to a producer, and what a consumer
      passed to `consume_item`. */
  datatype Proc = Proc(pc: Pc, item: int, made: seq<int>)

  predicate IsProducer(p: Proc) {
    || p.pc.Produce? || p.pc.DownEmpty? || p.pc.DownMutexP? || p.pc.Store? || p.pc.AdvanceHi? || p.pc.CountUp?
    || p.pc.UpMutexP? || p.pc.UpFull?
  }

  datatype State = State(
    mutex: int, empty: int, full: int,
    buf: seq<int>, lo: int, hi: int, count: int,
    procs: seq<Proc>,
    inserted: seq<int>, removed: seq<int>,    // history of Store and Load,
    storers: seq<nat>, loaders: seq<nat>)     // and who executed them

  predicate Shaped(s: State) {
    0 <= s.lo < |s.buf| && 0 <= s.hi < |s.buf|
  }

  predicate Init(s: State) {
    && 0 < |s.buf|
    && s.mutex == 1 && s.empty == |s.buf| && s.full == 0
    && s.lo == s.hi == s.count == 0
    && s.inserted == s.removed == [] && s.storers == s.loaders == []
    && forall i :: 0 <= i < |s.procs| ==>
         (s.procs[i].pc == Produce || s.procs[i].pc == DownFull) && s.procs[i].made == []
  }

  /** `down` waits for a positive semaphore; nothing else waits. */
  predicate Enabled(s: State, i: nat) {
    && i < |s.procs|
    && match s.procs[i].pc
       case DownEmpty => s.empty > 0
       case DownFull => s.full > 0
       case DownMutexP => s.mutex > 0
       case DownMutexC => s.mutex > 0
       case _ => true
  }

  function Following(pc: Pc): Pc {
    match pc
    case Produce => DownEmpty
    case DownEmpty => DownMutexP
    case DownMutexP => Store
    case Store => AdvanceHi
    case AdvanceHi => CountUp
    case CountUp => UpMutexP
    case UpMutexP => UpFull
    case UpFull => Produce
    case DownFull => DownMutexC
    case DownMutexC => Load
    case Load => AdvanceLo
    case AdvanceLo => CountDown
    case CountDown => UpMutexC
    case UpMutexC => UpEmpty
    case UpEmpty => Consume
    case Consume => DownFull
  }

  /** What the next statement of `p` does to the shared variables. */
  function Effect(s: State, p: Proc): State
    requires Shaped(s)
  {
    match p.pc
    case DownEmpty => s.(empty := s.empty - 1)
    case DownMutexP => s.(mutex := s.mutex - 1)
    case Store => s.(buf := s.buf[s.hi := p.item], inserted := s.inserted + [p.item])
    case AdvanceHi => s.(hi := Ring.Successor(s.hi, |s.buf|))
    case CountUp => s.(count := s.count + 1)
    case UpMutexP => s.(mutex := s.mutex + 1)
    case UpFull => s.(full := s.full + 1)
    case DownFull => s.(full := s.full - 1)
    case DownMutexC => s.(mutex := s.mutex - 1)
    case Load => s.(removed := s.removed + [s.buf[s.lo]])
    case AdvanceLo => s.(lo := Ring.Successor(s.lo, |s.buf|))
    case CountDown => s.(count := s.count - 1)
    case UpMutexC => s.(mutex := s.mutex + 1)
    case UpEmpty => s.(empty := s.empty + 1)
    case _ => s
  }

  /** What the next statement of `p` does to its own variables; `v` is what `produce_item`
      returns, and `x` the item in slot `lo`. */
  function Continue(p: Proc, v: int, x: int): Proc {
    var item := if p.pc == Produce then v else if p.pc == Load then x else p.item;
    var made := if p.pc == Produce then p.made + [v] else if p.pc == Consume then p.made + [p.item] else p.made;
    Proc(Following(p.pc), item, made)
  }

  /** Process `i` executes one statement; `v` is what `produce_item` returns. */
  function Step(s: State, i: nat, v: int): State
    requires Shaped(s) && i < |s.procs|
  {
    var p := s.procs[i];
    Effect(s, p).(procs := s.procs[i := Continue(p, v, s.buf[s.lo])],
                  storers := if p.pc == Store then s.storers + [i] else s.storers,
                  loaders := if p.pc == Load then s.loaders + [i] else s.loaders)
  }

  ghost predicate Next(s: State, s': State) {
    exists i: nat, v: int :: Enabled(s, i) && Shaped(s) && s' == Step(s, i, v)
  }

  ghost predicate IsRun(r: seq<State>) {
    Runs.Linked(Next, r) && Init(r[0])
  }

  // ---------------------------------------------------------------- counting processes

  /** Stretches of the two programs. */
  datatype Zone =
    | Critical       // between down(&mutex) and up(&mutex)
    | Reserved       // between down(&empty) and up(&full), or between down(&full) and up(&empty)
    | Unaccounted    // holds an item that is in the ring but not in `full`
    | Tallied        // an item that is in `count` but not in `full`
    | HiLags | LoLags  // the index update is still to come

  predicate In(z: Zone, p: Proc) {
    match z
    case Critical =>
      || p.pc.Store? || p.pc.AdvanceHi? || p.pc.CountUp? || p.pc.UpMutexP?
      || p.pc.Load? || p.pc.AdvanceLo? || p.pc.CountDown? || p.pc.UpMutexC?
    case Reserved =>
      || p.pc.DownMutexP? || p.pc.Store? || p.pc.AdvanceHi? || p.pc.CountUp? || p.pc.UpMutexP? || p.pc.UpFull?
      || p.pc.DownMutexC? || p.pc.Load? || p.pc.AdvanceLo? || p.pc.CountDown? || p.pc.UpMutexC? || p.pc.UpEmpty?
    case Unaccounted =>
      || p.pc.AdvanceHi? || p.pc.CountUp? || p.pc.UpMutexP? || p.pc.UpFull? || p.pc.DownMutexC? || p.pc.Load?
    case Tallied =>
      || p.pc.UpMutexP? || p.pc.UpFull? || p.pc.DownMutexC? || p.pc.Load? || p.pc.AdvanceLo? || p.pc.CountDown?
    case HiLags => p.pc.AdvanceHi?
    case LoLags => p.pc.AdvanceLo?
  }

  /** How many processes are in a zone. */
  ghost function Count(procs: seq<Proc>, z: Zone): nat {
    Counting.Count(procs, p => In(z, p))
  }

  lemma CountAtLeast(procs: seq<Proc>, i: nat, z: Zone)
    requires i < |procs| && In(z, procs[i])
    ensures Count(procs, z) >= 1
  {
    Counting.AtLeastOne(procs, i, p => In(z, p));
  }

  /** What is accounted for nowhere else lies in a reserved slot; a process about to store
      has reserved one more. */
  lemma ReservedCovers(procs: seq<Proc>, z: Zone)
    requires z == Unaccounted || z == Tallied
    ensures Count(procs, z) <= Count(procs, Reserved)
    ensures forall i :: 0 <= i < |procs| && procs[i].pc == Store ==> Count(procs, z) < Count(procs, Reserved)
  {
    Counting.Weaker(procs, p => In(z, p), p => In(Reserved, p));
  }

  /** Only the process inside the critical section can leave an index behind. */
  lemma LagsAreCritical(procs: seq<Proc>, i: nat, z: Zone)
    requires i < |procs| && In(Critical, procs[i])
    requires Count(procs, Critical) <= 1
    requires z == HiLags || z == LoLags
    ensures Count(procs, z) == if In(z, procs[i]) then 1 else 0
  {
    if In(z, procs[i]) {
      CountAtLeast(procs, i, z);
      Counting.Weaker(procs, p => In(z, p), p => In(Critical, p));
    } else {
      Counting.Weaker(procs, p => In(z, p), p => In(Critical, p));
    }
  }

  // ---------------------------------------------------------------- the invariant

  ghost predicate SemaphoresAgree(s: State) {
    && s.mutex >= 0 && s.empty >= 0 && s.full >= 0
    && s.mutex + Count(s.procs, Critical) == 1
    && s.empty + s.full + Count(s.procs, Reserved) == |s.buf|
    && |s.inserted| - |s.removed| == s.full + Count(s.procs, Unaccounted)
    && s.count == s.full + Count(s.procs, Tallied)
  }

  ghost predicate RingAgrees(s: State) {
    Ring.Agrees(s.buf, s.lo, s.hi, Count(s.procs, LoLags) > 0, Count(s.procs, HiLags) > 0, s.inserted, s.removed)
  }

  ghost predicate Inv(s: State) {
    SemaphoresAgree(s) && RingAgrees(s)
  }

  lemma InitEstablishesInv(s: State)
    requires Init(s)
    ensures Inv(s)
  {
    forall z: Zone
      ensures Count(s.procs, z) == 0
    {
      Counting.Nobody(s.procs, p => In(z, p));
    }
  }

  lemma CountsAfterStep(s: State, i: nat, v: int, z: Zone)
    requires Shaped(s) && i < |s.procs|
    ensures var s' := Step(s, i, v);
            && |s'.procs| == |s.procs|
            && Count(s'.procs, z) == Count(s.procs, z)
                                     - (if In(z, s.procs[i]) then 1 else 0) + (if In(z, s'.procs[i]) then 1 else 0)
  {
    Counting.Update(s.procs, i, Step(s, i, v).procs[i], p => In(z, p));
  }

  lemma StepKeepsSemaphores(s: State, i: nat, v: int)
    requires Shaped(s) && SemaphoresAgree(s) && Enabled(s, i)
    ensures SemaphoresAgree(Step(s, i, v))
  {
    CountsAfterStep(s, i, v, Critical);
    CountsAfterStep(s, i, v, Reserved);
    CountsAfterStep(s, i, v, Unaccounted);
    CountsAfterStep(s, i, v, Tallied);
  }

  lemma LagsAfterStep(s: State, i: nat, v: int)
    requires Shaped(s) && i < |s.procs|
    ensures var s' := Step(s, i, v);
            && Count(s'.procs, HiLags) == Count(s.procs, HiLags)
               - (if s.procs[i].pc == AdvanceHi then 1 else 0) + (if s.procs[i].pc == Store then 1 else 0)
            && Count(s'.procs, LoLags) == Count(s.procs, LoLags)
               - (if s.procs[i].pc == AdvanceLo then 1 else 0) + (if s.procs[i].pc == Load then 1 else 0)
  {
    CountsAfterStep(s, i, v, HiLags);
    CountsAfterStep(s, i, v, LoLags);
  }

  lemma StoreKeepsRing(s: State, i: nat, v: int)
    requires Inv(s) && i < |s.procs| && s.procs[i].pc == Store
    ensures RingAgrees(Step(s, i, v))
  {
    hide Continue, IsProducer;
    LagsAfterStep(s, i, v);
    CountAtLeast(s.procs, i, Critical);
    LagsAreCritical(s.procs, i, HiLags);
    LagsAreCritical(s.procs, i, LoLags);
    ReservedCovers(s.procs, Unaccounted);
    Ring.AgreesAfterStore(s.buf, s.lo, s.hi, s.inserted, s.removed, s.procs[i].item);
  }

  lemma LoadKeepsRing(s: State, i: nat, v: int)
    requires Inv(s) && i < |s.procs| && s.procs[i].pc == Load
    ensures RingAgrees(Step(s, i, v))
  {
    hide Continue, IsProducer;
    LagsAfterStep(s, i, v);
    CountAtLeast(s.procs, i, Critical);
    LagsAreCritical(s.procs, i, HiLags);
    LagsAreCritical(s.procs, i, LoLags);
    CountAtLeast(s.procs, i, Unaccounted);
    Ring.AgreesAfterLoad(s.buf, s.lo, s.hi, s.inserted, s.removed);
  }

  lemma AdvanceHiKeepsRing(s: State, i: nat, v: int)
    requires Inv(s) && i < |s.procs| && s.procs[i].pc == AdvanceHi
    ensures RingAgrees(Step(s, i, v))
  {
    hide Continue, IsProducer;
    LagsAfterStep(s, i, v);
    CountAtLeast(s.procs, i, Critical);
    LagsAreCritical(s.procs, i, HiLags);
    LagsAreCritical(s.procs, i, LoLags);
    Ring.AgreesAfterAdvanceHi(s.buf, s.lo, s.hi, s.inserted, s.removed);
  }

  lemma AdvanceLoKeepsRing(s: State, i: nat, v: int)
    requires Inv(s) && i < |s.procs| && s.procs[i].pc == AdvanceLo
    ensures RingAgrees(Step(s, i, v))
  {
    hide Continue, IsProducer;
    LagsAfterStep(s, i, v);
    CountAtLeast(s.procs, i, Critical);
    LagsAreCritical(s.procs, i, HiLags);
    LagsAreCritical(s.procs, i, LoLags);
    Ring.AgreesAfterAdvanceLo(s.buf, s.lo, s.hi, s.inserted, s.removed);
  }

  lemma StepKeepsRing(s: State, i: nat, v: int)
    requires Inv(s) && Enabled(s, i)
    ensures RingAgrees(Step(s, i, v))
  {
    match s.procs[i].pc {
      case Store => StoreKeepsRing(s, i, v);
      case Load => LoadKeepsRing(s, i, v);
      case AdvanceHi => AdvanceHiKeepsRing(s, i, v);
      case AdvanceLo => AdvanceLoKeepsRing(s, i, v);
      case _ => LagsAfterStep(s, i, v);
    }
  }

  lemma StepKeepsInv(s: State, i: nat, v: int)
    requires Inv(s) && Enabled(s, i)
    ensures Inv(Step(s, i, v))
  {
    StepKeepsRing(s, i, v);
    StepKeepsSemaphores(s, i, v);
  }

  lemma NextKeepsInv(s: State, s': State)
    requires Inv(s) && Next(s, s')
    ensures Inv(s')
  {
    hide Inv, Step;
    var i: nat, v: int :| Enabled(s, i) && Shaped(s) && s' == Step(s, i, v);
    StepKeepsInv(s, i, v);
  }

  lemma {:induction false} RunKeepsInv(r: seq<State>, k: nat)
    requires IsRun(r) && k < |r|
    ensures Inv(r[k])
  {
    hide Inv, Next;
    if k == 0 {
      InitEstablishesInv(r[0]);
    } else {
      RunKeepsInv(r, k - 1);
      assert Runs.Moves(Next, r, k - 1);
      NextKeepsInv(r[k - 1], r[k]);
    }
  }

  // ---------------------------------------------------------------- what every run keeps

  /** Every slot is free, filled, or reserved by exactly one process on its way. */
  lemma SlotsAreConserved(r: seq<State>, k: nat)
    requires IsRun(r) && k < |r|
    ensures r[k].empty >= 0 && r[k].full >= 0
    ensures r[k].empty + r[k].full + Count(r[k].procs, Reserved) == |r[k].buf|
  {
    RunKeepsInv(r, k);
  }

  lemma MutualExclusion(r: seq<State>, k: nat, i: nat, j: nat)
    requires IsRun(r) && k < |r| && i < j < |r[k].procs|
    ensures !(In(Critical, r[k].procs[i]) && In(Critical, r[k].procs[j]))
  {
    RunKeepsInv(r, k);
    if In(Critical, r[k].procs[i]) && In(Critical, r[k].procs[j]) {
      Counting.AtLeastTwo(r[k].procs, i, j, p => In(Critical, p));
    }
  }

  /** `insert_item` never meets a full buffer and `remove_item` never an empty one. */
  lemma NoOverflowNoUnderflow(r: seq<State>, k: nat, i: nat)
    requires IsRun(r) && k < |r| && i < |r[k].procs|
    ensures r[k].procs[i].pc == Store ==> r[k].count < |r[k].buf| && |r[k].inserted| - |r[k].removed| < |r[k].buf|
    ensures r[k].procs[i].pc == Load ==> r[k].count > 0 && |r[k].inserted| > |r[k].removed|
  {
    var s := r[k];
    RunKeepsInv(r, k);
    ReservedCovers(s.procs, Tallied);
    ReservedCovers(s.procs, Unaccounted);
    if s.procs[i].pc == Load {
      CountAtLeast(s.procs, i, Tallied);
      CountAtLeast(s.procs, i, Unaccounted);
    }
  }

  /** Items leave in the order in which they came, and those still inside sit in the ring, from
      slot `lo` on, or from the one behind it while some consumer has still to advance `lo`. */
  lemma FirstInFirstOut(r: seq<State>, k: nat)
    requires IsRun(r) && k < |r|
    ensures r[k].removed <= r[k].inserted
    ensures Shaped(r[k])
    ensures Ring.Holds(r[k].buf, Ring.First(r[k].lo, Count(r[k].procs, LoLags) > 0, |r[k].buf|),
                       Ring.Contents(r[k].inserted, r[k].removed))
  {
    RunKeepsInv(r, k);
  }

  // ---------------------------------------------------------------- the values that the processes see

  /** The elements of `xs` at the places where `who` has `i`. */
  function By(xs: seq<int>, who: seq<nat>, i: nat): seq<int>
    requires |xs| == |who|
  {
    if xs == [] then []
    else By(xs[..|xs| - 1], who[..|who| - 1], i) + if who[|who| - 1] == i then [xs[|xs| - 1]] else []
  }

  lemma ByLast(xs: seq<int>, x: int, who: seq<nat>, w: nat)
    requires |xs| == |who|
    ensures forall i :: By(xs + [x], who + [w], i) == By(xs, who, i) + if w == i then [x] else []
  {
    assert (xs + [x])[..|xs|] == xs && (who + [w])[..|who|] == who;
  }

  lemma {:induction false} ByEverybody(xs: seq<int>, who: seq<nat>, i: nat)
    requires |xs| == |who| && forall w :: w in who ==> w == i
    ensures By(xs, who, i) == xs
  {
    if xs == [] {
    } else {
      var front := who[..|who| - 1];
      assert forall w :: w in front ==> w in who;
      assert who[|who| - 1] in who;
      ByEverybody(xs[..|xs| - 1], front, i);
    }
  }

  /** What a producer has produced and not stored, or a consumer has loaded and not consumed. */
  function InHand(p: Proc): seq<int> {
    match p.pc
    case DownEmpty => [p.item]
    case DownMutexP => [p.item]
    case Store => [p.item]
    case AdvanceLo => [p.item]
    case CountDown => [p.item]
    case UpMutexC => [p.item]
    case UpEmpty => [p.item]
    case Consume => [p.item]
    case _ => []
  }

  /** The hand of a process makes up the difference: to what it has stored, or loaded, so far. */
  predicate HandAgrees(p: Proc, stored: seq<int>, loaded: seq<int>) {
    if IsProducer(p) then p.made == stored + InHand(p) else loaded == p.made + InHand(p)
  }

  lemma StepKeepsHand(p: Proc, v: int, x: int, stored: seq<int>, loaded: seq<int>)
    requires HandAgrees(p, stored, loaded)
    ensures HandAgrees(Continue(p, v, x), if p.pc == Store then stored + [p.item] else stored,
                       if p.pc == Load then loaded + [x] else loaded)
  {
  }

  lemma RoleStays(p: Proc, v: int, x: int)
    ensures IsProducer(Continue(p, v, x)) <==> IsProducer(p)
  {
  }

  lemma NothingAdded(a: seq<int>, b: seq<int>)
    ensures a + [] == a && b + [] == b
  {
  }

  lemma StepRecords(s: State, i: nat, v: int)
    requires Shaped(s) && i < |s.procs|
    ensures var s', p, x := Step(s, i, v), s.procs[i], s.buf[s.lo];
            && s'.procs == s.procs[i := Continue(p, v, x)]
            && s'.inserted == (if p.pc == Store then s.inserted + [p.item] else s.inserted)
            && s'.storers == (if p.pc == Store then s.storers + [i] else s.storers)
            && s'.removed == (if p.pc == Load then s.removed + [x] else s.removed)
            && s'.loaders == (if p.pc == Load then s.loaders + [i] else s.loaders)
  {
    hide Continue;
  }

  /** Producers store and consumers load. */
  ghost predicate RolesAgree(s: State) {
    && |s.storers| == |s.inserted| && |s.loaders| == |s.removed|
    && (forall w :: w in s.storers ==> w < |s.procs| && IsProducer(s.procs[w]))
    && (forall w :: w in s.loaders ==> w < |s.procs| && !IsProducer(s.procs[w]))
  }

  ghost predicate HandsAgree(s: State)
    requires RolesAgree(s)
  {
    forall i: nat :: i < |s.procs| ==>
      HandAgrees(s.procs[i], By(s.inserted, s.storers, i), By(s.removed, s.loaders, i))
  }

  lemma StepKeepsRoles(s: State, i: nat, v: int)
    requires Shaped(s) && i < |s.procs| && RolesAgree(s)
    ensures RolesAgree(Step(s, i, v))
  {
    hide Step, Continue;
    var p, x := s.procs[i], s.buf[s.lo];
    StepRecords(s, i, v);
    assert IsProducer(Continue(p, v, x)) <==> IsProducer(p) by { RoleStays(p, v, x); }
  }

  lemma HandAfter(s: State, i: nat, v: int, j: nat)
    requires Shaped(s) && i < |s.procs| && j < |s.procs| && RolesAgree(s) && RolesAgree(Step(s, i, v))
    requires HandAgrees(s.procs[j], By(s.inserted, s.storers, j), By(s.removed, s.loaders, j))
    ensures var s' := Step(s, i, v);
            && |s'.procs| == |s.procs|
            && HandAgrees(s'.procs[j], By(s'.inserted, s'.storers, j), By(s'.removed, s'.loaders, j))
  {
    hide Step, Continue, HandAgrees, By, IsProducer;
    var p, x := s.procs[i], s.buf[s.lo];
    StepRecords(s, i, v);
    if p.pc == Store {
      ByLast(s.inserted, p.item, s.storers, i);
    }
    if p.pc == Load {
      ByLast(s.removed, x, s.loaders, i);
    }
    if j == i {
      StepKeepsHand(p, v, x, By(s.inserted, s.storers, i), By(s.removed, s.loaders, i));
    } else {
      NothingAdded(By(s.inserted, s.storers, j), By(s.removed, s.loaders, j));
    }
  }

  lemma StepKeepsHands(s: State, i: nat, v: int)
    requires Shaped(s) && i < |s.procs| && RolesAgree(s) && HandsAgree(s)
    ensures RolesAgree(Step(s, i, v)) && HandsAgree(Step(s, i, v))
  {
    StepKeepsRoles(s, i, v);
    hide Step, RolesAgree, HandAgrees, By;
    var s' := Step(s, i, v);
    forall j: nat | j < |s'.procs|
      ensures HandAgrees(s'.procs[j], By(s'.inserted, s'.storers, j), By(s'.removed, s'.loaders, j))
    {
      StepRecords(s, i, v);
      HandAfter(s, i, v, j);
    }
  }

  lemma NextKeepsHands(s: State, s': State)
    requires RolesAgree(s) && HandsAgree(s) && Next(s, s')
    ensures RolesAgree(s') && HandsAgree(s')
  {
    hide RolesAgree, HandsAgree, Step;
    var i: nat, v: int :| Enabled(s, i) && Shaped(s) && s' == Step(s, i, v);
    StepKeepsHands(s, i, v);
  }

  lemma InitHandsAgree(s: State)
    requires Init(s)
    ensures RolesAgree(s) && HandsAgree(s)
  {
  }

  lemma {:induction false} RunKeepsHands(r: seq<State>, k: nat)
    requires IsRun(r) && k < |r|
    ensures RolesAgree(r[k]) && HandsAgree(r[k])
  {
    hide RolesAgree, HandsAgree, Next, Init;
    if k == 0 {
      InitHandsAgree(r[0]);
    } else {
      RunKeepsHands(r, k - 1);
      assert Runs.Moves(Next, r, k - 1);
      NextKeepsHands(r[k - 1], r[k]);
    }
  }

  /** Each producer inserts what `produce_item` returned to it, and each consumer passes to
      `consume_item` what it removed, in order, up to one item that is still in its hand. */
  lemma EachInOrder(r: seq<State>, k: nat, i: nat)
    requires IsRun(r) && k < |r| && i < |r[k].procs|
    ensures |r[k].storers| == |r[k].inserted| && |r[k].loaders| == |r[k].removed|
    ensures IsProducer(r[k].procs[i]) ==>
              r[k].procs[i].made == By(r[k].inserted, r[k].storers, i) + InHand(r[k].procs[i])
    ensures !IsProducer(r[k].procs[i]) ==>
              By(r[k].removed, r[k].loaders, i) == r[k].procs[i].made + InHand(r[k].procs[i])
  {
    RunKeepsHands(r, k);
  }

  /** `a` is the only producer and `b` the only consumer. */
  predicate OneOfEach(s: State, a: nat, b: nat) {
    && a < |s.procs| && b < |s.procs| && IsProducer(s.procs[a]) && !IsProducer(s.procs[b])
    && forall i :: 0 <= i < |s.procs| ==> if IsProducer(s.procs[i]) then i == a else i == b
  }

  lemma AllBy(s: State, a: nat, b: nat)
    requires OneOfEach(s, a, b) && RolesAgree(s)
    ensures By(s.inserted, s.storers, a) == s.inserted && By(s.removed, s.loaders, b) == s.removed
  {
    ByEverybody(s.inserted, s.storers, a);
    ByEverybody(s.removed, s.loaders, b);
  }

  lemma ThroughTheRing(produced: seq<int>, inHand: seq<int>, inserted: seq<int>,
                       removed: seq<int>, consumed: seq<int>, inOther: seq<int>)
    requires produced == inserted + inHand && removed == consumed + inOther && removed <= inserted
    ensures produced == consumed + inOther + Ring.Contents(inserted, removed) + inHand
    ensures consumed <= produced
  {
    assert inserted == removed + Ring.Contents(inserted, removed);
  }

  /** With one producer and one consumer, the values consumed are the first ones produced, in order. */
  lemma ConsumesWhatWasProduced(r: seq<State>, k: nat, a: nat, b: nat)
    requires IsRun(r) && k < |r| && OneOfEach(r[k], a, b)
    ensures r[k].removed <= r[k].inserted && r[k].procs[b].made <= r[k].procs[a].made
    ensures r[k].procs[a].made == r[k].procs[b].made + InHand(r[k].procs[b])
                                  + Ring.Contents(r[k].inserted, r[k].removed) + InHand(r[k].procs[a])
  {
    FirstInFirstOut(r, k);
    EachInOrder(r, k, a);
    EachInOrder(r, k, b);
    RunKeepsHands(r, k);
    AllBy(r[k], a, b);
    hide IsRun, RolesAgree, HandsAgree, By, InHand, OneOfEach;
    var s := r[k];
    ThroughTheRing(s.procs[a].made, InHand(s.procs[a]), s.inserted, s.removed, s.procs[b].made, InHand(s.procs[b]));
  }

  // ---------------------------------------------------------------- freedom from deadlock

  lemma NextKeepsRole(s: State, s': State, i: nat)
    requires Next(s, s') && i < |s.procs|
    ensures |s'.procs| == |s.procs| && (IsProducer(s'.procs[i]) <==> IsProducer(s.procs[i]))
  {
    var j: nat, v: int :| Enabled(s, j) && Shaped(s) && s' == Step(s, j, v);
    hide Step, Continue, IsProducer, Enabled;
    StepRecords(s, j, v);
    RoleStays(s.procs[j], v, s.buf[s.lo]);
  }

  lemma {:induction false} RolesPersist(r: seq<State>, k: nat, i: nat)
    requires IsRun(r) && k < |r| && i < |r[0].procs|
    ensures i < |r[k].procs| && (IsProducer(r[k].procs[i]) <==> IsProducer(r[0].procs[i]))
  {
    hide Next, IsProducer;
    if k == 0 {
    } else {
      RolesPersist(r, k - 1, i);
      assert Runs.Moves(Next, r, k - 1);
      NextKeepsRole(r[k - 1], r[k], i);
    }
  }

  /** With a producer and a consumer around, some process can always take its next step. */
  lemma NoDeadlock(r: seq<State>, k: nat, a: nat, b: nat) returns (i: nat)
    requires IsRun(r) && k < |r|
    requires a < |r[0].procs| && IsProducer(r[0].procs[a])
    requires b < |r[0].procs| && !IsProducer(r[0].procs[b])
    ensures Enabled(r[k], i)
  {
    var s := r[k];
    RunKeepsInv(r, k);
    RolesPersist(r, k, a);
    RolesPersist(r, k, b);
    if Count(s.procs, Critical) > 0 {
      i := Counting.Somebody(s.procs, p => In(Critical, p));
    } else if Count(s.procs, Reserved) > 0 {
      i := Counting.Somebody(s.procs, p => In(Reserved, p));
    } else {
      i := if s.empty > 0 then a else b;
      if !Enabled(s, i) {
        CountAtLeast(s.procs, i, Reserved);
      }
    }
  }

  // ---------------------------------------------------------------- the shared memory

  /** The globals of the program, the ring buffer and the local state of the processes. */
  class SharedBuffer {
    var mutex: int
    var empty: int
    var full: int
    const buffer: array<int>
    var lo: int
    var hi: int
    var count: int
    var procs: seq<Proc>
    var inserted: seq<int>  // history variables, read by nobody
    var removed: seq<int>
    var storers: seq<nat>
    var loaders: seq<nat>

    function View(): State
      reads this, buffer
    {
      State(mutex, empty, full, buffer[..], lo, hi, count, procs, inserted, removed, storers, loaders)
    }

    constructor (n: nat, producers: nat, consumers: nat)
      requires 0 < n
      ensures fresh(buffer) && buffer.Length == n && Init(View())
      ensures |procs| == producers + consumers
      ensures forall i :: 0 <= i < |procs| ==> (IsProducer(procs[i]) <==> i < producers)
    {
      mutex, empty, full := 1, n, 0;
      buffer := new int[n];
      lo, hi, count := 0, 0, 0;
      procs := seq(producers + consumers, i => Proc(if i < producers then Produce else DownFull, 0, []));
      inserted, removed, storers, loaders := [], [], [], [];
    }

    /** Process `i` executes its next statement; `item` is what `produce_item` would return. */
    method Execute(i: nat, item: int)
      requires Shaped(View()) && Enabled(View(), i)
      modifies this, buffer
      ensures View() == Step(old(View()), i, item)
    {
      var p := procs[i];
      match p.pc {
        case Produce =>
          p := p.(item := item, made := p.made + [item]);
        case DownEmpty =>
          empty := empty - 1;
        case DownMutexP =>
          mutex := mutex - 1;
        case Store =>
          buffer[hi] := p.item;
          inserted, storers := inserted + [p.item], storers + [i];
        case AdvanceHi =>
          hi := Ring.Successor(hi, buffer.Length);
        case CountUp =>
          count := count + 1;
        case UpMutexP =>
          mutex := mutex + 1;
        case UpFull =>
          full := full + 1;
        case DownFull =>
          full := full - 1;
        case DownMutexC =>
          mutex := mutex - 1;
        case Load =>
          p := p.(item := buffer[lo]);
          removed, loaders := removed + [p.item], loaders + [i];
        case AdvanceLo =>
          lo := Ring.Successor(lo, buffer.Length);
        case CountDown =>
          count := count - 1;
        case UpMutexC =>
          mutex := mutex + 1;
        case UpEmpty =>
          empty := empty + 1;
        case Consume =>
          p := p.(made := p.made + [p.item]);
      }
      procs := procs[i := p.(pc := Following(p.pc))];
    }

    /** Any scheduler: at every step an arbitrary process that is not waiting runs. */
    method Schedule(steps: nat) returns (ghost trace: seq<State>)
      requires Init(View())
      requires exists a :: 0 <= a < |procs| && IsProducer(procs[a])
      requires exists b :: 0 <= b < |procs| && !IsProducer(procs[b])
      modifies this, buffer
      ensures IsRun(trace) && |trace| == steps + 1 && trace[0] == old(View()) && trace[steps] == View()
      ensures removed <= inserted
    {
      ghost var a: nat :| a < |procs| && IsProducer(procs[a]);
      ghost var b: nat :| b < |procs| && !IsProducer(procs[b]);
      trace := [View()];
      for k := 0 to steps
        invariant IsRun(trace) && |trace| == k + 1 && trace[0] == old(View()) && trace[k] == View()
      {
        ghost var someone := NoDeadlock(trace, k, a, b);
        RunKeepsInv(trace, k);
        var i: nat :| Enabled(View(), i);
        var item: int :| true;
        ghost var before := trace;
        Execute(i, item);
        assert Next(before[k], View());
        Runs.Extend(Next, before, View());
        trace := trace + [View()];
      }
      FirstInFirstOut(trace, steps);
    }
  }
}
