/** Peterson's algorithm (Preparation/MutualExclusive.c).
    Two processes interleave at the grain of one shared access: the two stores of
    `enter_region` and the two reads of its loop condition are separate steps. */
module Peterson {
  import Runs

  type Proc = p: nat | p < 2 witness 0

  function Other(p: Proc): (q: Proc) {
    1 - p
  }

  /** What a process does next.  `Critical` lies between the return of `enter_region`
      and the call of `leave_region`. */
  datatype Pc = Outside | StoreTurn | ReadTurn | ReadInterested | Critical

  datatype RawState = State(turn: Proc, interested: seq<bool>, pc: seq<Pc>)

  type State = s: RawState | |s.interested| == 2 && |s.pc| == 2
    witness State(0, [false, false], [Outside, Outside])

  const INIT: State := State(0, [false, false], [Outside, Outside])

  predicate InLoop(s: State, p: Proc) {
    s.pc[p] == ReadTurn || s.pc[p] == ReadInterested
  }

  /** Inside `enter_region`, past its first store. */
  predicate Entering(s: State, p: Proc) {
    s.pc[p] == StoreTurn || InLoop(s, p)
  }

  /** The loop condition of `p`, evaluated in one go. */
  predicate Blocked(s: State, p: Proc) {
    InLoop(s, p) && s.turn == p && s.interested[Other(p)]
  }

  /** One shared access of process `p`. */
  function Step(s: State, p: Proc): State {
    match s.pc[p]
    case Outside => s.(interested := s.interested[p := true], pc := s.pc[p := StoreTurn])
    case StoreTurn => s.(turn := p, pc := s.pc[p := ReadTurn])
    case ReadTurn => s.(pc := s.pc[p := if s.turn == p then ReadInterested else Critical])
    case ReadInterested => s.(pc := s.pc[p := if s.interested[Other(p)] then ReadTurn else Critical])
    case Critical => s.(interested := s.interested[p := false], pc := s.pc[p := Outside])
  }

  ghost predicate Next(s: State, s': State) {
    exists p: Proc :: s' == Step(s, p)
  }

  ghost predicate IsRun(r: seq<State>) {
    Runs.Linked(Next, r) && r[0] == INIT
  }

  // ---------------------------------------------------------------- mutual exclusion

  /** A process in the critical region faces a peer that has still to store `turn`,
      or one whose loop condition `turn == process` holds. */
  ghost predicate Inv(s: State) {
    forall p: Proc ::
      && (s.interested[p] <==> s.pc[p] != Outside)
      && (s.pc[p] == Critical ==>
            s.pc[Other(p)] != Critical && (InLoop(s, Other(p)) ==> s.turn == Other(p)))
  }

  lemma StepKeepsInv(s: State, p: Proc)
    requires Inv(s)
    ensures Inv(Step(s, p))
  {
    var q := Other(p);
    assert Other(q) == p;
    assert s.pc[p] == Critical || s.pc[p] != Critical;
    forall x: Proc
      ensures var s' := Step(s, p);
              && (s'.interested[x] <==> s'.pc[x] != Outside)
              && (s'.pc[x] == Critical ==>
                    s'.pc[Other(x)] != Critical && (InLoop(s', Other(x)) ==> s'.turn == Other(x)))
    {
      assert x == p || x == q;
      assert s.pc[q] == Critical ==> (InLoop(s, p) ==> s.turn == p);
      assert s.interested[q] <==> s.pc[q] != Outside;
    }
  }

  lemma {:induction false} RunKeepsInv(r: seq<State>, i: nat)
    requires IsRun(r) && i < |r|
    ensures Inv(r[i])
  {
    if i == 0 {
    } else {
      RunKeepsInv(r, i - 1);
      assert Runs.Moves(Next, r, i - 1);
      var p: Proc :| r[i] == Step(r[i - 1], p);
      StepKeepsInv(r[i - 1], p);
    }
  }

  /** In no state of any run are both processes in the critical region. */
  lemma MutualExclusion(r: seq<State>, i: nat)
    requires IsRun(r) && i < |r|
    ensures !(r[i].pc[0] == Critical && r[i].pc[1] == Critical)
  {
    RunKeepsInv(r, i);
    assert Other(0) == 1;
  }

  // ---------------------------------------------------------------- bounded bypass

  predicate Enters(s: State, s': State, q: Proc) {
    s.pc[q] != Critical && s'.pc[q] == Critical
  }

  /** How often `q` enters the critical region between times `i` and `j`. */
  function Entries(r: seq<State>, q: Proc, i: nat, j: nat): nat
    requires j < |r|
  {
    if j <= i then 0
    else Entries(r, q, i, j - 1) + if Enters(r[j - 1], r[j], q) then 1 else 0
  }

  /** How often the peer of a process that waits in the loop can still overtake it. */
  function Budget(s: State, p: Proc): nat {
    if s.turn == p && InLoop(s, Other(p)) then 1 else 0
  }

  lemma StepSpendsBudget(s: State, p: Proc, x: Proc)
    requires Inv(s) && InLoop(s, p) && InLoop(Step(s, x), p)
    ensures Budget(Step(s, x), p) + (if Enters(s, Step(s, x), Other(p)) then 1 else 0) <= Budget(s, p)
  {
    assert s.interested[p] <==> s.pc[p] != Outside;
    assert x == p || x == Other(p);
  }

  lemma MoveSpendsBudget(s: State, s': State, p: Proc)
    requires Inv(s) && Next(s, s') && InLoop(s, p) && InLoop(s', p)
    ensures Budget(s', p) + (if Enters(s, s', Other(p)) then 1 else 0) <= Budget(s, p)
  {
    var x: Proc :| s' == Step(s, x);
    hide Step;
    StepSpendsBudget(s, p, x);
  }

  lemma {:induction false} EntriesWithinBudget(r: seq<State>, p: Proc, i: nat, j: nat)
    requires IsRun(r) && i <= j < |r|
    requires forall k :: i <= k <= j ==> InLoop(r[k], p)
    ensures Entries(r, Other(p), i, j) + Budget(r[j], p) <= Budget(r[i], p)
    decreases j
  {
    if i == j {
    } else {
      EntriesWithinBudget(r, p, i, j - 1);
      RunKeepsInv(r, j - 1);
      assert Runs.Moves(Next, r, j - 1);
      hide Next, Budget, Enters;
      MoveSpendsBudget(r[j - 1], r[j], p);
    }
  }

  /** While a process that has stored `turn` waits in its loop, the other one enters
      the critical region at most once. */
  lemma BoundedBypass(r: seq<State>, p: Proc, i: nat, j: nat)
    requires IsRun(r) && i <= j < |r|
    requires forall k :: i <= k <= j ==> InLoop(r[k], p)
    ensures Entries(r, Other(p), i, j) <= 1
  {
    EntriesWithinBudget(r, p, i, j);
  }

  // ---------------------------------------------------------------- progress

  /** Two processes in `enter_region` are never both held up. */
  lemma NeverBothBlocked(s: State)
    ensures !(Blocked(s, 0) && Blocked(s, 1))
  {
  }

  /** An infinite run: at time `i` process `sched(i)` takes its next step, except that a
      process outside the region may prefer to stay there. */
  ghost predicate IsInfiniteRun(r: nat -> State, sched: nat -> Proc) {
    && r(0) == INIT
    && forall i: nat ::
        || r(i + 1) == Step(r(i), sched(i))
        || (r(i).pc[sched(i)] == Outside && r(i + 1) == r(i))
  }

  ghost predicate RunsFrom(sched: nat -> Proc, p: Proc, i: nat) {
    exists j: nat :: j >= i && sched(j) == p
  }

  ghost predicate Fair(sched: nat -> Proc) {
    forall p: Proc, i: nat :: RunsFrom(sched, p, i)
  }

  /** The process whose next step brings the entering process `p` nearer to its entry. */
  function Helpful(s: State, p: Proc): Proc {
    if InLoop(s, p) && s.turn == p && s.interested[Other(p)] then Other(p) else p
  }

  /** Distance of the entering process `p` from the critical region. */
  function Rank(s: State, p: Proc): nat {
    var own := if s.pc[p] == ReadTurn then 2 else 1;
    if s.pc[p] == StoreTurn then 30
    else if s.turn != p then 3 - own
    else match s.pc[Other(p)]
         case Outside => 10 + own
         case StoreTurn => 6
         case Critical => 15
         case ReadTurn => 16
         case ReadInterested => 17
  }

  lemma InfiniteRunKeepsInv(r: nat -> State, sched: nat -> Proc, i: nat)
    requires IsInfiniteRun(r, sched)
    ensures Inv(r(i))
  {
    if i == 0 {
    } else {
      InfiniteRunKeepsInv(r, sched, i - 1);
      StepKeepsInv(r(i - 1), sched(i - 1));
      assert r(i - 1 + 1) == Step(r(i - 1), sched(i - 1)) || r(i - 1 + 1) == r(i - 1);
    }
  }

  /** No step takes an entering process further from its entry, the helpful
      process takes it nearer, and until that happens the helpful process stays the same. */
  lemma StepRanks(s: State, p: Proc, x: Proc)
    requires Inv(s) && Entering(s, p)
    ensures var s' := Step(s, x);
            || s'.pc[p] == Critical
            || (Entering(s', p) && Rank(s', p) < Rank(s, p))
            || (Entering(s', p) && Rank(s', p) == Rank(s, p) && x != Helpful(s, p) && Helpful(s', p) == Helpful(s, p))
  {
    assert s.interested[p] <==> s.pc[p] != Outside;
    assert s.interested[Other(p)] <==> s.pc[Other(p)] != Outside;
    assert x == p || x == Other(p);
    assert s.pc[Other(p)] == Critical ==> (InLoop(s, Other(Other(p))) ==> s.turn == Other(Other(p)));
  }

  /** From time `i` to the next time `k` at which the helpful process runs. */
  lemma {:induction false} WaitForHelp(r: nat -> State, sched: nat -> Proc, p: Proc, i: nat, k: nat) returns (j: nat)
    requires IsInfiniteRun(r, sched) && Entering(r(i), p)
    requires i <= k && sched(k) == Helpful(r(i), p)
    ensures j >= i && (r(j).pc[p] == Critical || (Entering(r(j), p) && Rank(r(j), p) < Rank(r(i), p)))
    decreases k - i
  {
    InfiniteRunKeepsInv(r, sched, i);
    StepRanks(r(i), p, sched(i));
    j := i + 1;
    if r(j).pc[p] == Critical || Rank(r(j), p) < Rank(r(i), p) {
    } else {
      j := WaitForHelp(r, sched, p, i + 1, k);
    }
  }

  /** Under a fair scheduler every process in `enter_region` reaches the critical region. */
  lemma {:induction false} NoStarvation(r: nat -> State, sched: nat -> Proc, p: Proc, i: nat) returns (j: nat)
    requires IsInfiniteRun(r, sched) && Fair(sched) && Entering(r(i), p)
    ensures j >= i && r(j).pc[p] == Critical
    decreases Rank(r(i), p)
  {
    assert RunsFrom(sched, Helpful(r(i), p), i);
    var k: nat :| k >= i && sched(k) == Helpful(r(i), p);
    j := WaitForHelp(r, sched, p, i, k);
    if r(j).pc[p] == Critical {
    } else {
      j := NoStarvation(r, sched, p, j);
    }
  }

  // ---------------------------------------------------------------- the shared memory

  /** The globals `turn` and `interested` and the two program counters. */
  class Processes {
    var turn: Proc
    const interested: array<bool>
    const pc: array<Pc>

    ghost predicate Valid()
      reads this
    {
      interested.Length == 2 && pc.Length == 2
    }

    function View(): State
      requires Valid()
      reads this, interested, pc
    {
      State(turn, interested[..], pc[..])
    }

    constructor ()
      ensures Valid() && fresh(interested) && fresh(pc)
      ensures View() == INIT
    {
      turn := 0;
      interested := new bool[2](_ => false);
      pc := new Pc[2](_ => Outside);
    }

    /** Process `process` performs its next shared access. */
    method Advance(process: Proc)
      requires Valid()
      modifies this, interested, pc
      ensures Valid()
      ensures View() == Step(old(View()), process)
    {
      var other := Other(process);
      match pc[process] {
        case Outside =>
          interested[process] := true;
          pc[process] := StoreTurn;
        case StoreTurn =>
          turn := process;
          pc[process] := ReadTurn;
        case ReadTurn =>
          pc[process] := if turn == process then ReadInterested else Critical;
        case ReadInterested =>
          pc[process] := if interested[other] then ReadTurn else Critical;
        case Critical =>
          interested[process] := false;
          pc[process] := Outside;
      }
    }

    /** Any scheduler: at every step an arbitrary process runs. */
    method Schedule(steps: nat) returns (trace: seq<State>)
      requires Valid() && View() == INIT
      modifies this, interested, pc
      ensures Valid()
      ensures IsRun(trace) && |trace| == steps + 1 && trace[steps] == View()
      ensures !(pc[0] == Critical && pc[1] == Critical)
    {
      trace := [View()];
      for i := 0 to steps
        invariant Valid()
        invariant IsRun(trace) && |trace| == i + 1 && trace[i] == View()
      {
        var process: Proc :| true;
        ghost var before := trace;
        Advance(process);
        Runs.Extend(Next, before, View());
        trace := trace + [View()];
      }
      MutualExclusion(trace, steps);
    }
  }
}
