/** Producer and consumer that exchange messages (Preparation/information.c): the consumer
    starts by sending N empty messages, and every item travels in one of them. */
module Messages {
  import Runs

  /** The next statement of a thread; `receive` waits for a message. */
  datatype ProducerPc = Produce | ReceiveEmpty | Build | SendFull
  datatype ConsumerPc = StartUp | ReceiveFull | Extract | SendEmpty | Consume

  datatype State = State(
    n: nat,
    toProducer: seq<int>,  // the two mailboxes
    toConsumer: seq<int>,
    producerPc: ProducerPc, item: int, producerMessage: int,
    consumerPc: ConsumerPc, i: nat, consumerMessage: int, consumerItem: int,
    produced: seq<int>, extracted: seq<int>, consumed: seq<int>)  // history

  /** The messages sent at start-up carry whatever the uninitialised `m` holds. */
  predicate Init(s: State) {
    && s.toProducer == s.toConsumer == s.produced == s.extracted == s.consumed == []
    && s.producerPc == Produce && s.consumerPc == StartUp && s.i == 0
  }

  predicate ProducerEnabled(s: State) {
    s.producerPc == ReceiveEmpty ==> s.toProducer != []
  }

  predicate ConsumerEnabled(s: State) {
    s.consumerPc == ReceiveFull ==> s.toConsumer != []
  }

  /** The producer executes one statement; `v` is what `produce_item` returns. */
  function ProducerStep(s: State, v: int): State
    requires ProducerEnabled(s)
  {
    match s.producerPc
    case Produce => s.(item := v, produced := s.produced + [v], producerPc := ReceiveEmpty)
    case ReceiveEmpty =>
      s.(producerMessage := s.toProducer[0], toProducer := s.toProducer[1..], producerPc := Build)
    case Build => s.(producerMessage := s.item, producerPc := SendFull)
    case SendFull => s.(toConsumer := s.toConsumer + [s.producerMessage], producerPc := Produce)
  }

  /** The consumer executes one statement. */
  function ConsumerStep(s: State): State
    requires ConsumerEnabled(s)
  {
    match s.consumerPc
    case StartUp =>
      if s.i < s.n then s.(toProducer := s.toProducer + [s.consumerMessage], i := s.i + 1)
      else s.(consumerPc := ReceiveFull)
    case ReceiveFull =>
      s.(consumerMessage := s.toConsumer[0], toConsumer := s.toConsumer[1..], consumerPc := Extract)
    case Extract =>
      s.(consumerItem := s.consumerMessage, extracted := s.extracted + [s.consumerMessage], consumerPc := SendEmpty)
    case SendEmpty => s.(toProducer := s.toProducer + [s.consumerMessage], consumerPc := Consume)
    case Consume => s.(consumed := s.consumed + [s.consumerItem], consumerPc := ReceiveFull)
  }

  ghost predicate Next(s: State, s': State) {
    || (ProducerEnabled(s) && exists v :: s' == ProducerStep(s, v))
    || (ConsumerEnabled(s) && s' == ConsumerStep(s))
  }

  ghost predicate IsRun(r: seq<State>) {
    Runs.Linked(Next, r) && Init(r[0])
  }

  // ---------------------------------------------------------------- the invariant

  /** Messages that a thread has received and not yet sent back. */
  function Held(s: State): nat {
    (if s.producerPc == Build || s.producerPc == SendFull then 1 else 0)
    + (if s.consumerPc == Extract || s.consumerPc == SendEmpty then 1 else 0)
  }

  /** The items on their way, oldest first. */
  function InTransit(s: State): seq<int> {
    (if s.consumerPc == Extract then [s.consumerMessage] else [])
    + s.toConsumer
    + (if s.producerPc == SendFull then [s.producerMessage] else [])
    + (if s.producerPc == ReceiveEmpty || s.producerPc == Build then [s.item] else [])
  }

  /** The item that the consumer has extracted and not yet consumed. */
  function InConsumersHand(s: State): seq<int> {
    if s.consumerPc == SendEmpty || s.consumerPc == Consume then [s.consumerItem] else []
  }

  ghost predicate Inv(s: State) {
    && s.i <= s.n
    && (s.consumerPc == StartUp || s.i == s.n)
    && |s.toProducer| + |s.toConsumer| + Held(s) == s.i
    && s.produced == s.extracted + InTransit(s)
    && s.extracted == s.consumed + InConsumersHand(s)
  }

  lemma ProducerKeepsOrder(s: State, v: int)
    requires ProducerEnabled(s)
    ensures InTransit(ProducerStep(s, v)) == InTransit(s) + if s.producerPc == Produce then [v] else []
  {
  }

  lemma ConsumerKeepsOrder(s: State)
    requires ConsumerEnabled(s)
    ensures (if s.consumerPc == Extract then [s.consumerMessage] else []) + InTransit(ConsumerStep(s)) == InTransit(s)
  {
    if s.consumerPc == ReceiveFull {
      assert s.toConsumer == [s.toConsumer[0]] + s.toConsumer[1..];
    }
  }

  lemma ProducerKeepsInv(s: State, v: int)
    requires Inv(s) && ProducerEnabled(s)
    ensures Inv(ProducerStep(s, v))
  {
    ProducerKeepsOrder(s, v);
  }

  lemma ConsumerKeepsInv(s: State)
    requires Inv(s) && ConsumerEnabled(s)
    ensures Inv(ConsumerStep(s))
  {
    ConsumerKeepsOrder(s);
  }

  lemma NextKeepsInv(s: State, s': State)
    requires Inv(s) && Next(s, s')
    ensures Inv(s') && s'.n == s.n
  {
    if v :| ProducerEnabled(s) && s' == ProducerStep(s, v) {
      ProducerKeepsInv(s, v);
    } else {
      ConsumerKeepsInv(s);
    }
  }

  lemma {:induction false} RunKeepsInv(r: seq<State>, k: nat)
    requires IsRun(r) && k < |r|
    ensures Inv(r[k]) && r[k].n == r[0].n
  {
    if k == 0 {
    } else {
      RunKeepsInv(r, k - 1);
      assert Runs.Moves(Next, r, k - 1);
      NextKeepsInv(r[k - 1], r[k]);
    }
  }

  // ---------------------------------------------------------------- what every run keeps

  /** After k of the N start-up sends there are k messages around, and N from then on. */
  lemma MessagesAreConserved(r: seq<State>, k: nat)
    requires IsRun(r) && k < |r|
    ensures |r[k].toProducer| + |r[k].toConsumer| + Held(r[k]) == r[k].i <= r[0].n
    ensures r[k].consumerPc != StartUp ==> r[k].i == r[0].n
    ensures |r[k].toProducer| <= r[0].n && |r[k].toConsumer| <= r[0].n
  {
    RunKeepsInv(r, k);
  }

  /** The values passed to `consume_item` are the first ones that `produce_item` returned, and
      the others are in the consumer's hand or on their way, in order. */
  lemma ItemsArriveInOrder(r: seq<State>, k: nat)
    requires IsRun(r) && k < |r|
    ensures r[k].produced == r[k].consumed + InConsumersHand(r[k]) + InTransit(r[k])
    ensures r[k].extracted == r[k].consumed + InConsumersHand(r[k])
    ensures r[k].consumed <= r[k].extracted <= r[k].produced
  {
    RunKeepsInv(r, k);
  }

  lemma StuckWithoutMessages() returns (r: seq<State>)
    ensures IsRun(r) && |r| == 3 && r[0].n == 0
    ensures !ProducerEnabled(r[2]) && !ConsumerEnabled(r[2])
  {
    var s0 := State(0, [], [], Produce, 0, 0, StartUp, 0, 0, 0, [], [], []);
    var s1 := ProducerStep(s0, 0);
    var s2 := ConsumerStep(s1);
    r := [s0, s1, s2];
    assert Runs.Moves(Next, r, 0) && Runs.Moves(Next, r, 1);
  }

  /** The two threads never wait for each other, if and only if there are messages at all. */
  lemma NoDeadlockIff(n: nat)
    ensures 1 <= n <==> forall r: seq<State>, k: nat :: IsRun(r) && k < |r| && r[0].n == n ==>
                          ProducerEnabled(r[k]) || ConsumerEnabled(r[k])
  {
    forall r: seq<State>, k: nat | 1 <= n && IsRun(r) && k < |r| && r[0].n == n
      ensures ProducerEnabled(r[k]) || ConsumerEnabled(r[k])
    {
      RunKeepsInv(r, k);
    }
    if n == 0 {
      var r := StuckWithoutMessages();
      assert IsRun(r) && 2 < |r| && r[0].n == n;
    }
  }

  // ---------------------------------------------------------------- the mailboxes

  /** The two mailboxes and the local state of the two threads. */
  class Mailboxes {
    const n: nat
    var toProducer: seq<int>
    var toConsumer: seq<int>
    var producerPc: ProducerPc
    var item: int
    var producerMessage: int
    var consumerPc: ConsumerPc
    var i: nat
    var consumerMessage: int
    var consumerItem: int
    var produced: seq<int>  // history variables, read by nobody
    var extracted: seq<int>
    var consumed: seq<int>

    function View(): State
      reads this
    {
      State(n, toProducer, toConsumer, producerPc, item, producerMessage,
            consumerPc, i, consumerMessage, consumerItem, produced, extracted, consumed)
    }

    constructor (n: nat, producerMessage: int, consumerMessage: int)
      ensures Init(View()) && this.n == n
    {
      this.n := n;
      toProducer, toConsumer := [], [];
      producerPc, item, this.producerMessage := ProducerPc.Produce, 0, producerMessage;
      consumerPc, i, this.consumerMessage, consumerItem := ConsumerPc.StartUp, 0, consumerMessage, 0;
      produced, extracted, consumed := [], [], [];
    }

    /** The producer executes its next statement. */
    method Produce(v: int)
      requires ProducerEnabled(View())
      modifies this
      ensures View() == ProducerStep(old(View()), v)
    {
      match producerPc {
        case Produce =>
          item, produced, producerPc := v, produced + [v], ReceiveEmpty;
        case ReceiveEmpty =>
          producerMessage, toProducer, producerPc := toProducer[0], toProducer[1..], Build;
        case Build =>
          producerMessage, producerPc := item, SendFull;
        case SendFull =>
          toConsumer, producerPc := toConsumer + [producerMessage], ProducerPc.Produce;
      }
    }

    /** The consumer executes its next statement. */
    method Consume()
      requires ConsumerEnabled(View())
      modifies this
      ensures View() == ConsumerStep(old(View()))
    {
      match consumerPc {
        case StartUp =>
          if i < n {
            toProducer, i := toProducer + [consumerMessage], i + 1;
          } else {
            consumerPc := ReceiveFull;
          }
        case ReceiveFull =>
          consumerMessage, toConsumer, consumerPc := toConsumer[0], toConsumer[1..], Extract;
        case Extract =>
          consumerItem := consumerMessage;
          extracted, consumerPc := extracted + [consumerItem], SendEmpty;
        case SendEmpty =>
          toProducer, consumerPc := toProducer + [consumerMessage], ConsumerPc.Consume;
        case Consume =>
          consumed, consumerPc := consumed + [consumerItem], ReceiveFull;
      }
    }

    /** Any scheduler: at every step an arbitrary thread that can run does. */
    method Schedule(steps: nat) returns (trace: seq<State>)
      requires Init(View()) && 1 <= n
      modifies this
      ensures IsRun(trace) && |trace| == steps + 1 && trace[0] == old(View()) && trace[steps] == View()
    {
      trace := [View()];
      for k := 0 to steps
        invariant IsRun(trace) && |trace| == k + 1 && trace[0] == old(View()) && trace[k] == View()
      {
        RunKeepsInv(trace, k);
        ghost var before := trace;
        var v: int :| true;
        if {
          case ProducerEnabled(View()) =>
            Produce(v);
            assert View() == ProducerStep(before[k], v);
          case ConsumerEnabled(View()) =>
            Consume();
        }
        Runs.Extend(Next, before, View());
        trace := trace + [View()];
      }
    }
  }
}
