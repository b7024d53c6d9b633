/** The background worker and its task queue, as interleaved atomic steps: any
    number of producers, one consumer, a mutex and a condition variable. */
module BgTask {
  import opened Common

  /** A queue node; the identifier is its address, here its number in the order
      of enqueuing. */
  datatype Node<Task> = Node(id: nat, task: Task)

  /** Where the producer that holds the lock stands in rr_bgt_add_task. */
  datatype Stage<Task> = Locked(task: Task) | Appended | Signalled

  datatype Lock<Task> = Free | HeldByConsumer | HeldByProducer(producer: nat, stage: Stage<Task>)

  /** Where the consumer stands in its loop. */
  datatype Place<Task> =
    | Contending                      // wants the lock, at the start or after a wait
    | Checking                        // has the lock, looks at the queue
    | Waiting                         // blocked on the condition variable, lock released
    | Running(node: Node<Task>)       // lock released, task not yet processed
    | Processed(node: Node<Task>)     // task processed, wants the lock
    | Deleting(node: Node<Task>)      // has the lock, about to delete the node

  /** The shared state, and what has been enqueued and executed so far. */
  datatype State<Task> = State(
    lock: Lock<Task>,
    queue: seq<Node<Task>>,
    consumer: Place<Task>,
    enqueued: seq<Task>,
    executed: seq<Task>)

  function Init<Task>(): State<Task> {
    State(Free, [], Contending, [], [])
  }

  datatype Event<Task> =
    | ProducerLock(producer: nat, task: Task)
    | ProducerAppend
    | ProducerSignal
    | ProducerUnlock
    | ConsumerLock
    | ConsumerWait
    | SpuriousWakeup
    | ConsumerTake
    | ConsumerProcess
    | ConsumerRelock
    | ConsumerDelete

  /** Take the node with the identifier of n out of the queue, wherever it is. */
  function DeleteNode<Task>(queue: seq<Node<Task>>, n: Node<Task>): seq<Node<Task>> {
    if queue == [] then []
    else if queue[0].id == n.id then queue[1..]
    else [queue[0]] + DeleteNode(queue[1..], n)
  }

  /** The step of an event; None where the event cannot happen. */
  function Step<Task>(s: State<Task>, e: Event<Task>): Option<State<Task>> {
    match e
    case ProducerLock(p, task) =>
      if s.lock == Free then Some(s.(lock := HeldByProducer(p, Locked(task)))) else None
    case ProducerAppend =>
      if s.lock.HeldByProducer? && s.lock.stage.Locked? then
        var task := s.lock.stage.task;
        Some(s.(lock := HeldByProducer(s.lock.producer, Appended),
                queue := s.queue + [Node(|s.enqueued|, task)],
                enqueued := s.enqueued + [task]))
      else None
    case ProducerSignal =>
      if s.lock.HeldByProducer? && s.lock.stage.Appended? then
        Some(s.(lock := HeldByProducer(s.lock.producer, Signalled),
                consumer := if s.consumer == Waiting then Contending else s.consumer))
      else None
    case ProducerUnlock =>
      if s.lock.HeldByProducer? && s.lock.stage.Signalled? then Some(s.(lock := Free)) else None
    case ConsumerLock =>
      if s.consumer == Contending && s.lock == Free
      then Some(s.(lock := HeldByConsumer, consumer := Checking)) else None
    case ConsumerWait =>
      if s.consumer == Checking && s.queue == []
      then Some(s.(lock := Free, consumer := Waiting)) else None
    case SpuriousWakeup =>
      if s.consumer == Waiting then Some(s.(consumer := Contending)) else None
    case ConsumerTake =>
      if s.consumer == Checking && s.queue != []
      then Some(s.(lock := Free, consumer := Running(s.queue[0]))) else None
    case ConsumerProcess =>
      if s.consumer.Running?
      then Some(s.(consumer := Processed(s.consumer.node), executed := s.executed + [s.consumer.node.task]))
      else None
    case ConsumerRelock =>
      if s.consumer.Processed? && s.lock == Free
      then Some(s.(lock := HeldByConsumer, consumer := Deleting(s.consumer.node))) else None
    case ConsumerDelete =>
      if s.consumer.Deleting?
      then Some(s.(queue := DeleteNode(s.queue, s.consumer.node), consumer := Checking)) else None
  }

  /** The state after a run of events, None if one of them cannot happen. */
  function Exec<Task>(s: State<Task>, es: seq<Event<Task>>): Option<State<Task>>
    decreases |es|
  {
    if es == [] then Some(s)
    else
      match Step(s, es[0])
      case None => None
      case Some(next) => Exec(next, es[1..])
  }

  // ----- the invariant -----

  /** How many of the queued nodes have been processed already: 1 while the node
      of the task just processed awaits its deletion. */
  function Done<Task>(s: State<Task>): nat {
    if s.consumer.Processed? || s.consumer.Deleting? then 1 else 0
  }

  /** The queue is the part of the history not yet deleted, node by node. */
  ghost predicate QueueIsHistory<Task>(s: State<Task>) {
    && Done(s) <= |s.executed| && |s.executed| - Done(s) + |s.queue| == |s.enqueued|
    && forall i :: 0 <= i < |s.queue| ==>
      && s.queue[i].id == |s.executed| - Done(s) + i
      && s.queue[i].task == s.enqueued[s.queue[i].id]
  }

  /** The node in the consumer's hands is the head of the queue. */
  ghost predicate HeadInHand<Task>(s: State<Task>) {
    (s.consumer.Running? || s.consumer.Processed? || s.consumer.Deleting?) ==>
      |s.queue| > 0 && s.queue[0] == s.consumer.node
  }

  /** A waiting consumer misses nothing: the queue is empty, or the producer that
      filled it is about to signal. */
  ghost predicate NoLostWakeup<Task>(s: State<Task>) {
    s.consumer == Waiting && s.queue != [] ==> s.lock.HeldByProducer? && s.lock.stage.Appended?
  }

  ghost predicate Inv<Task>(s: State<Task>) {
    && (s.lock == HeldByConsumer <==> s.consumer.Checking? || s.consumer.Deleting?)
    && |s.executed| <= |s.enqueued| && s.executed == s.enqueued[..|s.executed|]
    && QueueIsHistory(s) && HeadInHand(s) && NoLostWakeup(s)
  }

  lemma StepKeepsInv<Task>(s: State<Task>, e: Event<Task>)
    requires Inv(s) && Step(s, e).Some?
    ensures Inv(Step(s, e).value)
  {
    var t := Step(s, e).value;
    match e
    case ConsumerProcess =>
      assert t.enqueued[..|s.executed|] + [t.enqueued[|s.executed|]] == t.enqueued[..|s.executed| + 1];
    case ConsumerDelete =>
      assert t.queue == s.queue[1..];
    case _ =>
  }

  lemma {:induction false} ReachableInv<Task>(s: State<Task>, es: seq<Event<Task>>)
    requires Inv(s) && Exec(s, es).Some?
    ensures Inv(Exec(s, es).value)
    decreases |es|
  {
    if es != [] {
      StepKeepsInv(s, es[0]);
      ReachableInv(Step(s, es[0]).value, es[1..]);
    }
  }

  // ----- nothing is lost on the way in -----

  /** A producer gets the lock exactly when it is free. */
  lemma LockIffFree<Task>(s: State<Task>, p: nat, task: Task)
    ensures Step(s, ProducerLock(p, task)).Some? <==> s.lock == Free
  {
  }

  /** The tasks that the producers of a run brought, in the order in which they got
      the lock. */
  function Submitted<Task>(es: seq<Event<Task>>): seq<Task> {
    if es == [] then []
    else
      var last := es[|es| - 1];
      Submitted(es[..|es| - 1]) + if last.ProducerLock? then [last.task] else []
  }

  /** The task of a producer that has the lock but has not appended yet. */
  function InHand<Task>(s: State<Task>): seq<Task> {
    if s.lock.HeldByProducer? && s.lock.stage.Locked? then [s.lock.stage.task] else []
  }

  lemma {:induction false} ExecSplits<Task>(s: State<Task>, es: seq<Event<Task>>)
    requires es != [] && Exec(s, es).Some?
    ensures var before := Exec(s, es[..|es| - 1]);
      before.Some? && Step(before.value, es[|es| - 1]) == Exec(s, es)
    decreases |es|
  {
    var rest := es[1..];
    if rest == [] {
      assert es[..0] == [];
      assert Exec(Step(s, es[0]).value, []) == Exec(s, es);
    } else {
      ExecSplits(Step(s, es[0]).value, rest);
      assert es[..|es| - 1][0] == es[0] && es[..|es| - 1][1..] == rest[..|rest| - 1];
    }
  }

  lemma StepSubmits<Task>(s: State<Task>, e: Event<Task>)
    requires Inv(s) && Step(s, e).Some?
    ensures var t := Step(s, e).value;
      t.enqueued + InHand(t) == s.enqueued + InHand(s) + if e.ProducerLock? then [e.task] else []
  {
    var t := Step(s, e).value;
    match e
    case ProducerLock(_, task) =>
      assert InHand(s) == [] && s.enqueued + InHand(s) == s.enqueued;
    case ProducerAppend =>
      assert InHand(t) == [] && t.enqueued + InHand(t) == t.enqueued;
    case _ =>
      assert t.enqueued == s.enqueued && InHand(t) == InHand(s);
      assert s.enqueued + InHand(s) + [] == s.enqueued + InHand(s);
  }

  /** In every reachable state what has been enqueued is what the producers
      brought, but for the task of one that has not appended it yet. */
  lemma {:induction false} EnqueuedIsSubmitted<Task>(es: seq<Event<Task>>)
    requires Exec(Init(), es).Some?
    ensures var s := Exec(Init<Task>(), es).value; s.enqueued + InHand(s) == Submitted(es)
    decreases |es|
  {
    hide Step, InHand, Inv;
    if es == [] {
      InitInHand<Task>();
    } else {
      ExecSplits(Init<Task>(), es);
      var before := Exec(Init<Task>(), es[..|es| - 1]).value;
      EnqueuedIsSubmitted(es[..|es| - 1]);
      InitInv<Task>();
      ReachableInv(Init<Task>(), es[..|es| - 1]);
      StepSubmits(before, es[|es| - 1]);
    }
  }

  lemma InitInHand<Task>()
    ensures InHand(Init<Task>()) == []
  {
  }

  /** A run that can go no further by itself has executed every task that the
      producers brought, in order and each once. */
  lemma StuckRunExecutedAll<Task>(es: seq<Event<Task>>)
    requires Exec(Init(), es).Some?
    requires forall e: Event<Task> :: Internal(e) ==> Step(Exec(Init<Task>(), es).value, e) == None
    ensures Exec(Init<Task>(), es).value.executed == Submitted(es)
  {
    hide Step, Inv, Internal;
    var s := Exec(Init<Task>(), es).value;
    InitInv<Task>();
    ReachableInv(Init<Task>(), es);
    StuckMeansDone(s);
    EnqueuedIsSubmitted(es);
  }

  /** At any time the executed tasks are the first ones brought. */
  lemma ExecutedWereSubmitted<Task>(es: seq<Event<Task>>)
    requires Exec(Init(), es).Some?
    ensures Exec(Init<Task>(), es).value.executed <= Submitted(es)
  {
    hide Step;
    ExecutedInOrder(es);
    EnqueuedIsSubmitted(es);
  }

  // ----- what it means for every run -----

  /** In every reachable state the executed tasks are the first ones enqueued, in
      that order and each once. */
  lemma ExecutedInOrder<Task>(es: seq<Event<Task>>)
    requires Exec(Init(), es).Some?
    ensures var s := Exec(Init<Task>(), es).value; s.executed <= s.enqueued
  {
    hide QueueIsHistory, HeadInHand, NoLostWakeup;
    InitInv<Task>();
    ReachableInv(Init(), es);
  }

  lemma InitInv<Task>()
    ensures Inv(Init<Task>())
  {
  }

  /** However many tasks are appended meanwhile, the node whose task is being
      processed is the head of the queue, and it is what the deletion removes. */
  lemma HeadStays<Task>(es: seq<Event<Task>>)
    requires Exec(Init(), es).Some?
    ensures var s := Exec(Init<Task>(), es).value;
      && (s.consumer.Running? || s.consumer.Processed? || s.consumer.Deleting? ==>
            s.queue != [] && s.queue[0] == s.consumer.node)
      && (s.consumer.Deleting? ==> Step(s, ConsumerDelete).value.queue == s.queue[1..])
  {
    hide QueueIsHistory, NoLostWakeup;
    InitInv<Task>();
    ReachableInv(Init(), es);
  }

  /** A consumer that waits while no producer is between its append and its
      signal has an empty queue before it. */
  lemma WaitingMeansEmpty<Task>(es: seq<Event<Task>>)
    requires Exec(Init(), es).Some?
    ensures var s := Exec(Init<Task>(), es).value;
      s.consumer == Waiting && !(s.lock.HeldByProducer? && s.lock.stage.Appended?) ==>
        s.queue == [] && s.executed == s.enqueued
  {
    hide HeadInHand;
    InitInv<Task>();
    ReachableInv(Init(), es);
  }

  // ----- the queue drains -----

  /** The steps that need no new producer and no spurious wake-up. */
  predicate Internal<Task>(e: Event<Task>) {
    !e.ProducerLock? && !e.SpuriousWakeup?
  }

  function LockWeight<Task>(lock: Lock<Task>): nat {
    match lock
    case HeldByProducer(_, Locked(_)) => 13
    case HeldByProducer(_, Appended) => 8
    case HeldByProducer(_, Signalled) => 1
    case _ => 0
  }

  function PlaceWeight<Task>(place: Place<Task>): nat {
    match place
    case Contending => 6
    case Checking => 5
    case Running(_) => 4
    case Processed(_) => 3
    case Deleting(_) => 2
    case Waiting => 0
  }

  /** A bound on the internal steps that can still follow. */
  function Weight<Task>(s: State<Task>): nat {
    4 * |s.queue| + LockWeight(s.lock) + PlaceWeight(s.consumer)
  }

  lemma InternalStepDecreases<Task>(s: State<Task>, e: Event<Task>)
    requires Inv(s) && Step(s, e).Some? && Internal(e)
    ensures Weight(Step(s, e).value) < Weight(s)
  {
  }

  /** Left to itself, the system takes boundedly many steps... */
  lemma {:induction false} InternalRunIsShort<Task>(s: State<Task>, es: seq<Event<Task>>)
    requires Inv(s) && Exec(s, es).Some? && forall i :: 0 <= i < |es| ==> Internal(es[i])
    ensures |es| + Weight(Exec(s, es).value) <= Weight(s)
    decreases |es|
  {
    hide Inv, Weight, Step, Internal;
    if es != [] {
      InternalStepDecreases(s, es[0]);
      StepKeepsInv(s, es[0]);
      InternalRunIsShort(Step(s, es[0]).value, es[1..]);
    }
  }

  /** ... and it stops only with every task executed and the consumer waiting. */
  lemma StuckMeansDone<Task>(s: State<Task>)
    requires Inv(s) && forall e: Event<Task> :: Internal(e) ==> Step(s, e) == None
    ensures s.executed == s.enqueued && s.queue == [] && s.consumer == Waiting && s.lock == Free
  {
    assert Internal<Task>(ProducerAppend) && Internal<Task>(ProducerSignal) && Internal<Task>(ProducerUnlock);
    assert Internal<Task>(ConsumerLock) && Internal<Task>(ConsumerWait) && Internal<Task>(ConsumerTake);
    assert Internal<Task>(ConsumerProcess) && Internal<Task>(ConsumerRelock) && Internal<Task>(ConsumerDelete);
  }
}
