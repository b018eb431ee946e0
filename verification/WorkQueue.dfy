/** The boss and the worker threads of the multithreaded server (pr1/mtgf/handler.c) around
    the request queue.  One shared access per step; every steque call counts as one access.
    The emptiness test of a worker is outside the lock, as in the source. */
module WorkQueue {
  import Counting
  import Runs
  import StequeList

  datatype Request = Request(ctx: int, path: string, arg: int)

  datatype Lock = Free | HeldBy(w: nat)

  /** The next statement of a worker.  `Sending` is the loop over the chunks of the file. */
  datatype Pc = Test | LockRequests | Pop | UnlockRequests | Lookup | LockFile | Sending | UnlockFile

  /** History of one answer: the descriptor found, the size that `lseek` answered, and how many
      bytes `gfs_send` has taken. */
  datatype Sent = Sent(fildes: int, size: int, bytes: int)

  datatype Worker = Worker(pc: Pc, request: Request, fileLen: int, transferred: int, sent: Sent)

  datatype Status = Running | Exited | Underflow

  datatype State = State(
    status: Status,
    queue: seq<Request>,
    reqlock: Lock, filelock: Lock,
    workers: seq<Worker>,
    enqueued: seq<Request>, popped: seq<Request>, done: seq<Request>, dealt: seq<Sent>)  // history

  /** What the environment answers to a worker: the descriptor of `content_get`, the size found
      by `lseek`, and the results of `pread` and `gfs_send`. */
  datatype Answer = Answer(fildes: int, size: int, readLen: int, writeLen: int)

  predicate Init(s: State) {
    && s.status == Running
    && s.queue == s.enqueued == s.popped == s.done == [] && s.dealt == []
    && s.reqlock == s.filelock == Free
    && forall w :: 0 <= w < |s.workers| ==> s.workers[w].pc == Test
  }

  /** `handler_get`: the boss enqueues a request, without taking a lock. */
  function Enqueue(s: State, request: Request): State {
    s.(queue := s.queue + [request], enqueued := s.enqueued + [request])
  }

  predicate MayRun(pc: Pc, reqlock: Lock, filelock: Lock) {
    (pc == LockRequests ==> reqlock == Free) && (pc == LockFile ==> filelock == Free)
  }

  predicate Enabled(s: State, w: nat) {
    s.status == Running && w < |s.workers| && MayRun(s.workers[w].pc, s.reqlock, s.filelock)
  }

  /** Worker `w` executes its next statement. */
  function Step(s: State, w: nat, a: Answer): State
    requires w < |s.workers|
  {
    var k := s.workers[w];
    match k.pc
    case Test =>
      s.(workers := s.workers[w := k.(pc := if s.queue == [] then Test else LockRequests)])
    case LockRequests =>
      s.(reqlock := HeldBy(w), workers := s.workers[w := k.(pc := Pop)])
    case Pop =>
      if s.queue == [] then s.(status := Underflow)
      else s.(queue := s.queue[1..], popped := s.popped + [s.queue[0]],
              workers := s.workers[w := k.(pc := UnlockRequests, request := s.queue[0])])
    case UnlockRequests =>
      s.(reqlock := Free, workers := s.workers[w := k.(pc := Lookup)])
    case Lookup =>
      if a.fildes < 0 then
        s.(done := s.done + [k.request], dealt := s.dealt + [Sent(a.fildes, 0, 0)],
           workers := s.workers[w := k.(pc := Test)])
      else
        s.(workers := s.workers[w := k.(pc := LockFile, fileLen := a.size, sent := Sent(a.fildes, a.size, 0))])
    case LockFile =>
      s.(filelock := HeldBy(w), workers := s.workers[w := k.(pc := Sending, transferred := 0)])
    case Sending =>
      if k.transferred >= k.fileLen then s.(workers := s.workers[w := k.(pc := UnlockFile)])
      else if a.readLen <= 0 || a.writeLen != a.readLen then s.(status := Exited)
      else
        var sent := k.sent.(bytes := k.sent.bytes + a.writeLen);
        s.(workers := s.workers[w := k.(transferred := k.transferred + a.writeLen, sent := sent)])
    case UnlockFile =>
      s.(filelock := Free, done := s.done + [k.request], dealt := s.dealt + [k.sent],
         workers := s.workers[w := k.(pc := Test)])
  }

  ghost predicate BossMoves(s: State, s': State) {
    s.status == Running && exists q: Request :: s' == Enqueue(s, q)
  }

  ghost predicate WorkerMoves(s: State, s': State) {
    exists w: nat, a: Answer :: Enabled(s, w) && s' == Step(s, w, a)
  }

  ghost predicate Next(s: State, s': State) {
    BossMoves(s, s') || WorkerMoves(s, s')
  }

  ghost predicate IsRun(r: seq<State>) {
    Runs.Linked(Next, r) && Init(r[0])
  }

  // ---------------------------------------------------------------- any number of workers

  /** The worker has popped a request and not yet come back to the head of its loop. */
  predicate Busy(k: Worker) {
    !(k.pc == Test || k.pc == LockRequests || k.pc == Pop)
  }

  predicate Holds(k: Worker, q: Request) {
    Busy(k) && k.request == q
  }

  /** How many workers have the request `q` in their hands. */
  ghost function InHand(workers: seq<Worker>, q: Request): nat {
    Counting.Count(workers, k => Holds(k, q))
  }

  ghost predicate LocksAgree(s: State) {
    && (s.reqlock.HeldBy? ==> s.reqlock.w < |s.workers|)
    && (s.filelock.HeldBy? ==> s.filelock.w < |s.workers|)
    && forall w :: 0 <= w < |s.workers| ==>
         && (s.reqlock == HeldBy(w) <==> s.workers[w].pc == Pop || s.workers[w].pc == UnlockRequests)
         && (s.filelock == HeldBy(w) <==> s.workers[w].pc == Sending || s.workers[w].pc == UnlockFile)
  }

  ghost predicate RequestsKept(s: State) {
    && s.enqueued == s.popped + s.queue
    && forall q: Request :: multiset(s.popped)[q] == multiset(s.done)[q] + InHand(s.workers, q)
  }

  lemma StepKeepsLocks(s: State, w: nat, a: Answer)
    requires LocksAgree(s) && Enabled(s, w)
    ensures LocksAgree(Step(s, w, a))
  {
  }

  lemma StepKeepsQueue(s: State, w: nat, a: Answer)
    requires Enabled(s, w)
    ensures var s' := Step(s, w, a);
            && s'.popped + s'.queue == s.popped + s.queue && s'.enqueued == s.enqueued
            && |s'.workers| == |s.workers| && s'.workers == s.workers[w := s'.workers[w]]
  {
    if s.workers[w].pc == Pop && s.queue != [] {
      assert s.queue == [s.queue[0]] + s.queue[1..];
    }
  }

  /** A step moves the request `q` between the three places, if at all. */
  lemma StepMovesRequest(s: State, w: nat, a: Answer, q: Request)
    requires Enabled(s, w)
    ensures var s' := Step(s, w, a);
            && |s'.workers| == |s.workers|
            && multiset(s'.popped)[q] - multiset(s.popped)[q]
               == multiset(s'.done)[q] - multiset(s.done)[q]
                  + (if Holds(s'.workers[w], q) then 1 else 0) - (if Holds(s.workers[w], q) then 1 else 0)
  {
    match s.workers[w].pc {
      case Pop =>
      case Lookup =>
      case UnlockFile =>
      case _ =>
    }
  }

  lemma StepKeepsRequests(s: State, w: nat, a: Answer)
    requires RequestsKept(s) && Enabled(s, w)
    ensures RequestsKept(Step(s, w, a))
  {
    var s' := Step(s, w, a);
    StepKeepsQueue(s, w, a);
    forall q: Request
      ensures multiset(s'.popped)[q] == multiset(s'.done)[q] + InHand(s'.workers, q)
    {
      StepMovesRequest(s, w, a, q);
      Counting.Update(s.workers, w, s'.workers[w], k => Holds(k, q));
    }
  }

  lemma EnqueueKeepsInv(s: State, q: Request)
    requires LocksAgree(s) && RequestsKept(s)
    ensures LocksAgree(Enqueue(s, q)) && RequestsKept(Enqueue(s, q))
  {
  }

  lemma NextKeepsInv(s: State, s': State)
    requires LocksAgree(s) && RequestsKept(s) && Next(s, s')
    ensures LocksAgree(s') && RequestsKept(s') && |s'.workers| == |s.workers|
  {
    if BossMoves(s, s') {
      var q: Request :| s' == Enqueue(s, q);
      EnqueueKeepsInv(s, q);
    } else {
      var w: nat, a: Answer :| Enabled(s, w) && s' == Step(s, w, a);
      StepKeepsLocks(s, w, a);
      StepKeepsQueue(s, w, a);
      StepKeepsRequests(s, w, a);
    }
  }

  lemma {:induction false} RunKeepsInv(r: seq<State>, k: nat)
    requires IsRun(r) && k < |r|
    ensures LocksAgree(r[k]) && RequestsKept(r[k]) && |r[k].workers| == |r[0].workers|
  {
    if k == 0 {
      forall q: Request
        ensures InHand(r[0].workers, q) == 0
      {
        Counting.Nobody(r[0].workers, k => Holds(k, q));
      }
    } else {
      RunKeepsInv(r, k - 1);
      assert Runs.Moves(Next, r, k - 1);
      NextKeepsInv(r[k - 1], r[k]);
    }
  }

  /** For any number of workers: requests are popped in the order in which they were enqueued,
      and each popped request is in the hands of exactly one worker or has been dealt with. */
  lemma NoRequestLostOrDoubled(r: seq<State>, k: nat)
    requires IsRun(r) && k < |r|
    ensures r[k].popped <= r[k].enqueued && r[k].enqueued == r[k].popped + r[k].queue
    ensures forall q: Request :: multiset(r[k].popped)[q] == multiset(r[k].done)[q] + InHand(r[k].workers, q)
  {
    RunKeepsInv(r, k);
  }

  /** A worker that is done with a request holds neither lock, whether or not the file was found. */
  lemma DoneMeansUnlocked(r: seq<State>, k: nat, w: nat)
    requires IsRun(r) && k < |r| && w < |r[k].workers| && r[k].workers[w].pc == Test
    ensures r[k].reqlock != HeldBy(w) && r[k].filelock != HeldBy(w)
    ensures |r[k].workers| == 1 ==> r[k].reqlock == Free && r[k].filelock == Free
  {
    RunKeepsInv(r, k);
  }

  lemma MutualExclusion(r: seq<State>, k: nat, v: nat, w: nat)
    requires IsRun(r) && k < |r| && v < w < |r[k].workers|
    ensures !(r[k].workers[v].pc == Pop && r[k].workers[w].pc == Pop)
    ensures !(r[k].workers[v].pc == Sending && r[k].workers[w].pc == Sending)
  {
    RunKeepsInv(r, k);
  }

  // ---------------------------------------------------------------- what is sent for a request

  function Max(a: int, b: int): int {
    if a < b then b else a
  }

  /** Nothing for a file that was not found, and for one that was, at least the whole of it. */
  predicate IsServed(x: Sent) {
    if x.fildes < 0 then x.bytes == 0 else x.bytes >= Max(x.size, 0)
  }

  /** And not a byte more. */
  predicate IsServedExactly(x: Sent) {
    if x.fildes < 0 then x.bytes == 0 else x.bytes == Max(x.size, 0)
  }

  /** The counter of the loop agrees with what has been sent of the file. */
  predicate CountsWhatIsSent(k: Worker) {
    match k.pc
    case LockFile => k.sent.fildes >= 0 && k.sent.size == k.fileLen && k.sent.bytes == 0
    case Sending => k.sent.fildes >= 0 && k.sent.size == k.fileLen && k.sent.bytes == k.transferred >= 0
    case UnlockFile => k.sent.fildes >= 0 && k.sent.size == k.fileLen && k.sent.bytes >= Max(k.fileLen, 0)
    case _ => true
  }

  ghost predicate SendsAgree(s: State) {
    && |s.dealt| == |s.done|
    && (forall w :: 0 <= w < |s.workers| ==> CountsWhatIsSent(s.workers[w]))
    && forall i :: 0 <= i < |s.dealt| ==> IsServed(s.dealt[i])
  }

  /** No `pread` has gone past the end of a file. */
  predicate StaysWithin(s: State) {
    forall w :: 0 <= w < |s.workers| && (s.workers[w].pc == Sending || s.workers[w].pc == UnlockFile) ==>
      s.workers[w].sent.bytes <= Max(s.workers[w].sent.size, 0)
  }

  ghost predicate DealtExactly(s: State) {
    forall i :: 0 <= i < |s.dealt| ==> IsServedExactly(s.dealt[i])
  }

  lemma StepKeepsSends(s: State, w: nat, a: Answer)
    requires SendsAgree(s) && Enabled(s, w)
    ensures SendsAgree(Step(s, w, a))
  {
  }

  lemma StepKeepsExact(s: State, w: nat, a: Answer)
    requires SendsAgree(s) && StaysWithin(s) && DealtExactly(s) && Enabled(s, w)
    ensures DealtExactly(Step(s, w, a))
  {
    assert CountsWhatIsSent(s.workers[w]);
  }

  /** The process exits exactly when a `pread` delivers nothing, or `gfs_send` does not take all
      of what has been read, before the whole file has been sent. */
  lemma ExitsIff(s: State, w: nat, a: Answer)
    requires SendsAgree(s) && Enabled(s, w)
    ensures Step(s, w, a).status == Exited <==>
            && s.workers[w].pc == Sending && s.workers[w].sent.bytes < s.workers[w].sent.size
            && (a.readLen <= 0 || a.writeLen != a.readLen)
  {
    assert CountsWhatIsSent(s.workers[w]);
  }

  lemma NextKeepsSends(s: State, s': State)
    requires SendsAgree(s) && Next(s, s')
    ensures SendsAgree(s') && (StaysWithin(s) && DealtExactly(s) ==> DealtExactly(s'))
  {
    if !BossMoves(s, s') {
      var w: nat, a: Answer :| Enabled(s, w) && s' == Step(s, w, a);
      hide Step, SendsAgree, StaysWithin, DealtExactly;
      StepKeepsSends(s, w, a);
      if StaysWithin(s) && DealtExactly(s) {
        StepKeepsExact(s, w, a);
      }
    }
  }

  /** For any number of workers: when a request is done, its file was not found and nothing of it
      has been sent, or as many bytes as it has; more only if a `pread` went past its end. */
  lemma {:induction false} DoneMeansSent(r: seq<State>, k: nat)
    requires IsRun(r) && k < |r|
    ensures SendsAgree(r[k]) && |r[k].dealt| == |r[k].done|
    ensures forall i :: 0 <= i < |r[k].dealt| ==> IsServed(r[k].dealt[i])
    ensures (forall j :: 0 <= j < k ==> StaysWithin(r[j])) ==>
              forall i :: 0 <= i < |r[k].dealt| ==> IsServedExactly(r[k].dealt[i])
  {
    if k == 0 {
    } else {
      DoneMeansSent(r, k - 1);
      assert Runs.Moves(Next, r, k - 1);
      hide Next, StaysWithin, IsServed, IsServedExactly, CountsWhatIsSent;
      NextKeepsSends(r[k - 1], r[k]);
    }
  }

  // ---------------------------------------------------------------- one worker

  /** A lone worker past its emptiness test finds what it saw, and deals with the requests in order. */
  ghost predicate LoneWorkerInv(s: State) {
    && |s.workers| == 1
    && s.status != Underflow
    && (s.workers[0].pc == LockRequests || s.workers[0].pc == Pop ==> s.queue != [])
    && s.popped == s.done + (if Busy(s.workers[0]) then [s.workers[0].request] else [])
  }

  lemma NextKeepsLone(s: State, s': State)
    requires LoneWorkerInv(s) && Next(s, s')
    ensures LoneWorkerInv(s')
  {
    if !BossMoves(s, s') {
      var w: nat, a: Answer :| Enabled(s, w) && s' == Step(s, w, a);
      assert w == 0;
    }
  }

  lemma {:induction false} LoneWorkerIsSafe(r: seq<State>, k: nat)
    requires IsRun(r) && k < |r| && |r[0].workers| == 1
    ensures LoneWorkerInv(r[k])
  {
    if k == 0 {
    } else {
      LoneWorkerIsSafe(r, k - 1);
      assert Runs.Moves(Next, r, k - 1);
      NextKeepsLone(r[k - 1], r[k]);
    }
  }

  // ---------------------------------------------------------------- one worker deals with every request

  /** At time `i` the worker moves if `turn(i)`; otherwise the boss enqueues a request or rests. */
  ghost predicate MovesAt(r: nat -> State, turn: nat -> bool, i: nat) {
    if turn(i) then exists a: Answer :: Enabled(r(i), 0) && r(i + 1) == Step(r(i), 0, a)
    else r(i + 1) == r(i) || BossMoves(r(i), r(i + 1))
  }

  /** An infinite run of the boss and one worker without an I/O error. */
  ghost predicate IsInfiniteRun(r: nat -> State, turn: nat -> bool) {
    && Init(r(0)) && |r(0).workers| == 1
    && forall i: nat :: MovesAt(r, turn, i) && r(i).status != Exited
  }

  ghost predicate MovesFrom(turn: nat -> bool, i: nat) {
    exists j: nat :: j >= i && turn(j)
  }

  /** The worker moves again and again. */
  ghost predicate Fair(turn: nat -> bool) {
    forall i: nat :: MovesFrom(turn, i)
  }

  ghost predicate LoneInv(s: State) {
    LoneWorkerInv(s) && LocksAgree(s) && RequestsKept(s)
  }

  /** Nothing ever holds the lone worker up, so that a scheduler can be fair. */
  lemma LoneWorkerMayMove(s: State)
    requires LoneInv(s) && s.status == Running
    ensures Enabled(s, 0)
  {
  }

  lemma InitIsLone(s: State)
    requires Init(s) && |s.workers| == 1
    ensures LoneInv(s)
  {
    forall q: Request
      ensures InHand(s.workers, q) == 0
    {
      Counting.Nobody(s.workers, k => Holds(k, q));
    }
  }

  lemma NextKeepsLoneInv(s: State, s': State)
    requires LoneInv(s) && Next(s, s')
    ensures LoneInv(s')
  {
    hide Next;
    NextKeepsLone(s, s');
    NextKeepsInv(s, s');
  }

  lemma MoveIsNext(r: nat -> State, turn: nat -> bool, i: nat)
    requires MovesAt(r, turn, i)
    ensures r(i + 1) == r(i) || Next(r(i), r(i + 1))
  {
    if turn(i) {
      var a: Answer :| Enabled(r(i), 0) && r(i + 1) == Step(r(i), 0, a);
      hide Enabled, Step;
      assert WorkerMoves(r(i), r(i + 1));
    }
  }

  lemma {:induction false} InfiniteRunKeepsInv(r: nat -> State, turn: nat -> bool, i: nat)
    requires IsInfiniteRun(r, turn)
    ensures LoneInv(r(i))
  {
    hide LoneInv, Next, MovesAt;
    if i == 0 {
      InitIsLone(r(0));
    } else {
      InfiniteRunKeepsInv(r, turn, i - 1);
      MoveIsNext(r, turn, i - 1);
      assert i - 1 + 1 == i;
      if r(i) != r(i - 1) {
        NextKeepsLoneInv(r(i - 1), r(i));
      }
    }
  }

  /** How far the worker is from being done with a request, its loop over the chunks aside. */
  function Stage(s: State): nat
    requires |s.workers| == 1
  {
    match s.workers[0].pc
    case Test => 8
    case LockRequests => 7
    case Pop => 6
    case UnlockRequests => 5
    case Lookup => 4
    case LockFile => 3
    case Sending => 2
    case UnlockFile => 1
  }

  function BytesLeft(s: State): nat
    requires |s.workers| == 1
  {
    var k := s.workers[0];
    if k.pc == Sending && k.transferred < k.fileLen then k.fileLen - k.transferred else 0
  }

  /** A request more is done, or the worker is nearer to that. */
  predicate Nearer(s: State, s': State)
    requires |s.workers| == 1 && |s'.workers| == 1
  {
    || |s'.done| == |s.done| + 1
    || (s'.done == s.done && Stage(s') < Stage(s))
    || (s'.done == s.done && Stage(s') == Stage(s) && BytesLeft(s') < BytesLeft(s))
  }

  /** As long as a request waits, each step of the worker takes it nearer to the end of one. */
  lemma StepMakesProgress(s: State, a: Answer)
    requires LoneInv(s) && Enabled(s, 0) && |s.done| < |s.enqueued|
    ensures var s' := Step(s, 0, a);
            |s'.workers| == 1 && s'.enqueued == s.enqueued && (s'.status == Running ==> Nearer(s, s'))
  {
  }

  /** Until the worker moves, the boss only adds requests. */
  lemma {:induction false} BossOnlyAdds(r: nat -> State, turn: nat -> bool, i: nat, j: nat)
    requires IsInfiniteRun(r, turn) && i <= j && forall k :: i <= k < j ==> !turn(k)
    ensures r(j).workers == r(i).workers && r(j).done == r(i).done && r(i).enqueued <= r(j).enqueued
    decreases j - i
  {
    if i == j {
    } else {
      assert MovesAt(r, turn, i);
      BossOnlyAdds(r, turn, i + 1, j);
    }
  }

  lemma {:induction false} NextTurn(turn: nat -> bool, i: nat, k: nat) returns (j: nat)
    requires i <= k && turn(k)
    ensures i <= j <= k && turn(j) && forall x :: i <= x < j ==> !turn(x)
    decreases k - i
  {
    if turn(i) {
      j := i;
    } else {
      j := NextTurn(turn, i + 1, k);
    }
  }

  lemma DoneInOrder(s: State, k: nat)
    requires LoneInv(s) && k < |s.done|
    ensures k < |s.enqueued| && s.done[k] == s.enqueued[k]
  {
  }

  lemma LoneWorkerRuns(s: State)
    requires LoneInv(s) && s.status != Exited
    ensures s.status == Running && |s.workers| == 1
  {
  }

  lemma NearerWithMore(s: State, t: State, s': State)
    requires |s.workers| == 1 && t.workers == s.workers && t.done == s.done && |s'.workers| == 1
    ensures Nearer(t, s') ==> Nearer(s, s')
  {
  }

  lemma TurnMakesProgress(r: nat -> State, turn: nat -> bool, m: nat)
    requires IsInfiniteRun(r, turn) && turn(m) && |r(m).done| < |r(m).enqueued|
    ensures LoneInv(r(m + 1)) && r(m + 1).enqueued == r(m).enqueued
    ensures |r(m).workers| == |r(m + 1).workers| == 1 && Nearer(r(m), r(m + 1))
  {
    hide LoneInv, Step, Enabled, Nearer, Init, LoneWorkerInv;
    InfiniteRunKeepsInv(r, turn, m);
    InfiniteRunKeepsInv(r, turn, m + 1);
    assert MovesAt(r, turn, m) && MovesAt(r, turn, m + 1);
    LoneWorkerRuns(r(m));
    LoneWorkerRuns(r(m + 1));
    var a: Answer :| Enabled(r(m), 0) && r(m + 1) == Step(r(m), 0, a);
    StepMakesProgress(r(m), a);
  }

  lemma InfiniteRunIsLone(r: nat -> State, turn: nat -> bool, i: nat)
    requires IsInfiniteRun(r, turn)
    ensures |r(i).workers| == 1
  {
    InfiniteRunKeepsInv(r, turn, i);
  }

  /** From time `i` to the time after the next step of the worker. */
  lemma OneStep(r: nat -> State, turn: nat -> bool, i: nat) returns (j: nat)
    requires IsInfiniteRun(r, turn) && Fair(turn) && |r(i).done| < |r(i).enqueued|
    ensures j > i && LoneInv(r(j)) && r(i).enqueued <= r(j).enqueued
    ensures |r(i).workers| == |r(j).workers| == 1 && Nearer(r(i), r(j))
  {
    hide LoneInv, IsInfiniteRun, Nearer;
    assert MovesFrom(turn, i);
    var next: nat :| next >= i && turn(next);
    var m := NextTurn(turn, i, next);
    j := m + 1;
    InfiniteRunIsLone(r, turn, i);
    BossOnlyAdds(r, turn, i, m);
    TurnMakesProgress(r, turn, m);
    NearerWithMore(r(i), r(m), r(j));
  }

  lemma {:induction false} InfiniteRunKeepsSends(r: nat -> State, turn: nat -> bool, i: nat)
    requires IsInfiniteRun(r, turn)
    ensures SendsAgree(r(i)) && ((forall j: nat :: StaysWithin(r(j))) ==> DealtExactly(r(i)))
  {
    hide Next, MovesAt, StaysWithin;
    if i == 0 {
    } else {
      InfiniteRunKeepsSends(r, turn, i - 1);
      MoveIsNext(r, turn, i - 1);
      assert i - 1 + 1 == i;
      hide SendsAgree, DealtExactly;
      if r(i) != r(i - 1) {
        NextKeepsSends(r(i - 1), r(i));
      }
    }
  }

  lemma {:induction false} EventuallyDone(r: nat -> State, turn: nat -> bool, k: nat, i: nat) returns (j: nat)
    requires IsInfiniteRun(r, turn) && Fair(turn) && LoneInv(r(i)) && |r(i).workers| == 1 && k < |r(i).enqueued|
    ensures j >= i && k < |r(j).done| && r(j).done[k] == r(i).enqueued[k]
    decreases if k < |r(i).done| then 0 else k + 1 - |r(i).done|, Stage(r(i)), BytesLeft(r(i))
  {
    hide LoneInv, Stage, BytesLeft, IsInfiniteRun, Fair;
    if k < |r(i).done| {
      j := i;
      DoneInOrder(r(i), k);
    } else {
      var m := OneStep(r, turn, i);
      j := EventuallyDone(r, turn, k, m);
    }
  }

  /** Under a fair scheduler and without I/O errors, the worker deals with every request that is
      ever enqueued, whatever else the boss enqueues: its file is not found, or sent as a whole,
      and nothing but it, unless a `pread` goes past its end. */
  lemma EveryRequestIsDone(r: nat -> State, turn: nat -> bool, k: nat, i: nat) returns (j: nat)
    requires IsInfiniteRun(r, turn) && Fair(turn) && k < |r(i).enqueued|
    ensures j >= i && k < |r(j).done| == |r(j).dealt| && r(j).done[k] == r(i).enqueued[k]
    ensures IsServed(r(j).dealt[k])
    ensures (forall m: nat :: StaysWithin(r(m))) ==> IsServedExactly(r(j).dealt[k])
  {
    InfiniteRunKeepsInv(r, turn, i);
    j := EventuallyDone(r, turn, k, i);
    InfiniteRunKeepsSends(r, turn, j);
  }

  const NOT_FOUND := Answer(-1, 0, 0, 0)

  /** A run in which the boss enqueues one request, whose file is then not found. */
  function Example(q: Request, i: nat): (s: State)
    ensures |s.workers| == 1
  {
    if i == 0 then State(Running, [], Free, Free, [Worker(Test, q, 0, 0, Sent(0, 0, 0))], [], [], [], [])
    else if i == 1 then Enqueue(Example(q, 0), q)
    else Step(Example(q, i - 1), 0, NOT_FOUND)
  }

  /** The worker runs and is not busy with a file. */
  predicate HasNoFile(s: State) {
    && |s.workers| == 1 && s.status == Running
    && s.workers[0].pc != LockFile && s.workers[0].pc != Sending && s.workers[0].pc != UnlockFile
  }

  lemma StepWithoutFile(s: State)
    requires LoneInv(s) && HasNoFile(s)
    ensures Enabled(s, 0) && HasNoFile(Step(s, 0, NOT_FOUND))
  {
  }

  lemma {:induction false} ExampleGoesOn(q: Request, i: nat)
    ensures LoneInv(Example(q, i)) && HasNoFile(Example(q, i))
  {
    hide LoneInv, Step, Enabled;
    if i == 0 {
      InitIsLone(Example(q, 0));
    } else {
      var s, s' := Example(q, i - 1), Example(q, i);
      ExampleGoesOn(q, i - 1);
      StepWithoutFile(s);
      if i == 1 {
        assert BossMoves(s, s');
      } else {
        assert WorkerMoves(s, s');
      }
      NextKeepsLoneInv(s, s');
    }
  }

  lemma ExampleMoves(q: Request, i: nat)
    ensures if i >= 1 then Enabled(Example(q, i), 0) && Example(q, i + 1) == Step(Example(q, i), 0, NOT_FOUND)
            else BossMoves(Example(q, i), Example(q, i + 1))
    ensures Example(q, i).status != Exited
  {
    hide LoneInv, Step, Enabled;
    ExampleGoesOn(q, i);
    StepWithoutFile(Example(q, i));
  }

  lemma FirstRequest(q: Request)
    ensures Example(q, 1).enqueued == [q]
  {
  }

  /** There are such runs, and fair ones among them. */
  lemma FairRunsExist(q: Request) returns (r: nat -> State, turn: nat -> bool)
    ensures IsInfiniteRun(r, turn) && Fair(turn) && r(1).enqueued == [q]
  {
    r, turn := (i: nat) => Example(q, i), (i: nat) => i >= 1;
    assert Init(r(0));
    hide LoneInv, Step, Enqueue, Init, Enabled, Example;
    forall i: nat
      ensures MovesAt(r, turn, i) && r(i).status != Exited
    {
      ExampleMoves(q, i);
      assert r(i) == Example(q, i) && r(i + 1) == Example(q, i + 1);
      if turn(i) {
        assert r(i + 1) == Step(r(i), 0, NOT_FOUND);
      }
    }
    forall i: nat
      ensures MovesFrom(turn, i)
    {
      assert i + 1 >= i && turn(i + 1);
    }
    FirstRequest(q);
  }

  // ---------------------------------------------------------------- how many workers are safe

  ghost predicate UnderflowReachable(n: nat) {
    exists r: seq<State>, k: nat :: IsRun(r) && |r[0].workers| == n && k < |r| && r[k].status == Underflow
  }

  lemma {:induction false} NoWorkerNoUnderflow(r: seq<State>, k: nat)
    requires IsRun(r) && k < |r| && |r[0].workers| == 0
    ensures r[k].status == Running && r[k].workers == []
  {
    if k == 0 {
    } else {
      NoWorkerNoUnderflow(r, k - 1);
      assert Runs.Moves(Next, r, k - 1);
    }
  }

  /** Two workers see the same single request, and one of them takes the lock. */
  lemma BothSeeTheRequest(n: nat, q: Request) returns (r: seq<State>)
    requires n >= 2
    ensures |r| == 5 && Init(r[0]) && |r[0].workers| == n
    ensures forall k :: 0 <= k < 4 ==> Next(r[k], r[k + 1])
    ensures var s := r[4];
            && s.status == Running && s.queue == [q] && |s.workers| == n
            && s.workers[0].pc == Pop && s.workers[1].pc == LockRequests
  {
    var a := Answer(0, 0, 0, 0);
    var idle := Worker(Test, q, 0, 0, Sent(0, 0, 0));
    var s0 := State(Running, [], Free, Free, seq(n, _ => idle), [], [], [], []);
    var s1 := Enqueue(s0, q);
    var s2 := Step(s1, 0, a);
    var s3 := Step(s2, 1, a);
    var s4 := Step(s3, 0, a);
    r := [s0, s1, s2, s3, s4];
    assert BossMoves(s0, s1);
    assert Enabled(s1, 0) && Enabled(s2, 1) && Enabled(s3, 0);
  }

  /** The other one then pops an empty steque. */
  lemma SlowerOnePops(s4: State, q: Request) returns (r: seq<State>)
    requires s4.status == Running && s4.queue == [q] && |s4.workers| >= 2
    requires s4.workers[0].pc == Pop && s4.workers[1].pc == LockRequests
    ensures |r| == 5 && r[0] == s4 && r[4].status == Underflow
    ensures forall k :: 0 <= k < 4 ==> Next(r[k], r[k + 1])
  {
    var a := Answer(0, 0, 0, 0);
    var s5 := Step(s4, 0, a);
    var s6 := Step(s5, 0, a);
    var s7 := Step(s6, 1, a);
    var s8 := Step(s7, 1, a);
    r := [s4, s5, s6, s7, s8];
    assert Enabled(s4, 0) && Enabled(s5, 0) && Enabled(s6, 1) && Enabled(s7, 1);
  }

  /** With two workers or more, a run of eight moves pops an empty steque. */
  lemma TwoWorkersUnderflow(n: nat, q: Request) returns (r: seq<State>)
    requires n >= 2
    ensures IsRun(r) && |r[0].workers| == n && |r| == 9 && r[8].status == Underflow
  {
    hide Next, Init;
    var first := BothSeeTheRequest(n, q);
    var second := SlowerOnePops(first[4], q);
    r := first + second[1..];
    forall k: nat | k + 1 < |r|
      ensures Runs.Moves(Next, r, k)
    {
      if k < 4 {
        assert Next(first[k], first[k + 1]);
      } else {
        assert Next(second[k - 4], second[k - 4 + 1]);
      }
    }
  }

  /** Popping an empty steque can happen if and only if there are two workers or more. */
  lemma UnderflowIff(n: nat)
    ensures UnderflowReachable(n) <==> n >= 2
  {
    if n >= 2 {
      var r := TwoWorkersUnderflow(n, Request(0, "", 0));
      assert IsRun(r) && |r[0].workers| == n && 8 < |r| && r[8].status == Underflow;
    }
    forall r: seq<State>, k: nat | IsRun(r) && |r[0].workers| == n && k < |r| && n < 2
      ensures r[k].status != Underflow
    {
      if n == 0 {
        NoWorkerNoUnderflow(r, k);
      } else {
        LoneWorkerIsSafe(r, k);
      }
    }
  }

  // ---------------------------------------------------------------- the shared memory

  predicate TakesRequest(pc: Pc) {
    pc == Test || pc == LockRequests || pc == Pop || pc == UnlockRequests
  }

  /** The request queue, the two locks and the local state of the worker threads. */
  class Server {
    const requeue: StequeList.Steque<Request>
    var reqlock: Lock
    var filelock: Lock
    var workers: seq<Worker>
    var status: Status
    ghost var enqueued: seq<Request>
    ghost var popped: seq<Request>
    ghost var done: seq<Request>
    ghost var dealt: seq<Sent>

    ghost predicate Valid()
      reads this, requeue, requeue.nodes
    {
      requeue.Valid()
    }

    ghost function View(): State
      reads this, requeue, requeue.nodes
    {
      State(status, requeue.Contents(), reqlock, filelock, workers, enqueued, popped, done, dealt)
    }

    constructor (nthreads: nat)
      ensures Valid() && fresh(requeue) && fresh(requeue.nodes)
      ensures Init(View()) && |workers| == nthreads
    {
      requeue := new StequeList.Steque();
      reqlock, filelock, status := Free, Free, Running;
      workers := seq(nthreads, _ => Worker(Test, Request(0, "", 0), 0, 0, Sent(0, 0, 0)));
      enqueued, popped, done, dealt := [], [], [], [];
    }

    /** The boss: `handler_get`. */
    method HandlerGet(request: Request)
      requires Valid() && status == Running
      modifies this, requeue, requeue.nodes
      ensures Valid() && fresh(set n | n in requeue.nodes && n !in old(requeue.nodes))
      ensures View() == Enqueue(old(View()), request)
    {
      requeue.Enqueue(request);
      enqueued := enqueued + [request];
    }

    /** Worker `w` executes its next statement of lines 81-86: test the queue and take a request. */
    method TakeRequest(w: nat)
      requires Valid() && w < |workers| && status == Running && MayRun(workers[w].pc, reqlock, filelock)
      requires TakesRequest(workers[w].pc)
      modifies this, requeue
      ensures Valid() && forall n :: n in requeue.nodes ==> n in old(requeue.nodes)
      ensures forall a :: View() == Step(old(View()), w, a)
    {
      var k := workers[w];
      match k.pc {
        case Test =>
          var empty := requeue.IsEmpty();
          if !empty {
            workers := workers[w := k.(pc := LockRequests)];
          }
        case LockRequests =>
          reqlock := HeldBy(w);
          workers := workers[w := k.(pc := Pop)];
        case Pop =>
          var r := requeue.Pop();
          if r.ExitFailure? {
            status := Underflow;
          } else {
            popped := popped + [r.item];
            workers := workers[w := k.(pc := UnlockRequests, request := r.item)];
          }
        case UnlockRequests =>
          reqlock := Free;
          workers := workers[w := k.(pc := Lookup)];
      }
    }

    /** Worker `w` executes its next statement of lines 94-110: look the file up and take the lock. */
    method LookUp(w: nat, a: Answer)
      requires Valid() && w < |workers| && status == Running && MayRun(workers[w].pc, reqlock, filelock)
      requires workers[w].pc == Lookup || workers[w].pc == LockFile
      modifies this
      ensures Valid() && View() == Step(old(View()), w, a)
    {
      var k := workers[w];
      match k.pc {
        case Lookup =>
          if a.fildes < 0 {
            done, dealt := done + [k.request], dealt + [Sent(a.fildes, 0, 0)];
            workers := workers[w := k.(pc := Test)];
          } else {
            workers := workers[w := k.(pc := LockFile, fileLen := a.size, sent := Sent(a.fildes, a.size, 0))];
          }
        case LockFile =>
          filelock := HeldBy(w);
          workers := workers[w := k.(pc := Sending, transferred := 0)];
      }
    }

    /** Worker `w` executes its next statement of lines 111-127: send the file. */
    method SendFile(w: nat, a: Answer)
      requires Valid() && w < |workers| && status == Running
      requires workers[w].pc == Sending || workers[w].pc == UnlockFile
      modifies this
      ensures Valid() && View() == Step(old(View()), w, a)
    {
      var k := workers[w];
      match k.pc {
        case Sending =>
          if k.transferred < k.fileLen {
            if a.readLen <= 0 || a.writeLen != a.readLen {
              status := Exited;
            } else {
              var sent := k.sent.(bytes := k.sent.bytes + a.writeLen);
              workers := workers[w := k.(transferred := k.transferred + a.writeLen, sent := sent)];
            }
          } else {
            workers := workers[w := k.(pc := UnlockFile)];
          }
        case UnlockFile =>
          filelock := Free;
          done, dealt := done + [k.request], dealt + [k.sent];
          workers := workers[w := k.(pc := Test)];
      }
    }

    /** Worker `w` executes its next statement of `thd_callback`. */
    method Callback(w: nat, a: Answer)
      requires Valid() && w < |workers| && status == Running && MayRun(workers[w].pc, reqlock, filelock)
      modifies this, requeue
      ensures Valid() && forall n :: n in requeue.nodes ==> n in old(requeue.nodes)
      ensures View() == Step(old(View()), w, a)
    {
      if TakesRequest(workers[w].pc) {
        TakeRequest(w);
      } else if workers[w].pc == Lookup || workers[w].pc == LockFile {
        LookUp(w, a);
      } else {
        SendFile(w, a);
      }
    }

    /** Any scheduler for the boss and one worker, until the process exits on an I/O error:
        the worker never pops an empty steque. */
    method Schedule(steps: nat)
      requires Valid() && Init(View()) && |workers| == 1
      modifies this, requeue, requeue.nodes
      ensures Valid() && LoneWorkerInv(View()) && enqueued == popped + requeue.Contents()
      ensures |dealt| == |done| && forall i :: 0 <= i < |dealt| ==> IsServed(dealt[i])
    {
      ghost var trace := [View()];
      var i := 0;
      while i < steps && status == Running
        invariant Valid() && fresh(set n | n in requeue.nodes && n !in old(requeue.nodes))
        invariant IsRun(trace) && |trace[0].workers| == 1 && trace[|trace| - 1] == View()
      {
        ghost var last := |trace| - 1;
        RunKeepsInv(trace, last);
        var boss: bool :| true;
        if boss || !MayRun(workers[0].pc, reqlock, filelock) {
          var request: Request :| true;
          HandlerGet(request);
          assert BossMoves(trace[last], View());
        } else {
          var a: Answer :| true;
          Callback(0, a);
          assert Enabled(trace[last], 0) && WorkerMoves(trace[last], View());
        }
        Runs.Extend(Next, trace, View());
        trace := trace + [View()];
        i := i + 1;
      }
      LoneWorkerIsSafe(trace, |trace| - 1);
      RunKeepsInv(trace, |trace| - 1);
      DoneMeansSent(trace, |trace| - 1);
    }
  }
}
