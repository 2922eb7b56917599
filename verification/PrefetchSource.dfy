/** The batch source with its prefetch thread (src/nats_source.cpp): a one-slot queue between two threads. */
module PrefetchSource {
  import opened Basics

  /** What the prefetch thread is doing. */
  datatype Fetcher<T> =
    | Waiting
    | Fetching
    | Holding(batch: seq<T>)
    | Failed
    | Done

  /** The fields of the source; `fetched`, `consumed` and `dropped` are the history of its messages. */
  datatype Source<T> = Source(
    messages: seq<T>,           // the batch being consumed
    nextIndex: nat,
    queue: seq<seq<T>>,         // prefetch_batches_
    fetcher: Fetcher<T>,
    stop: bool,
    fetched: seq<T>,
    consumed: seq<T>,
    dropped: seq<T>)
  {
    predicate HasBufferedMessages() {
      nextIndex < |messages|
    }

    function Unread(): seq<T> {
      if nextIndex <= |messages| then messages[nextIndex..] else []
    }

    /** The next messages of the batch being consumed, but at most so many. */
    function Front(size: nat): seq<T> {
      if nextIndex > |messages| then []
      else
        seq(Min(size, |messages| - nextIndex), i requires 0 <= i < |messages| - nextIndex => messages[nextIndex + i])
    }

    function InFlight(): seq<T> {
      if fetcher.Holding? then fetcher.batch else []
    }

    /** What the client has received and the worker has not taken yet. */
    function Received(): seq<T> {
      Unread() + Flatten(queue) + InFlight()
    }

    /** No stop request, no error. */
    predicate Running() {
      !stop && !fetcher.Failed? && !fetcher.Done?
    }
  }

  function Start<T>(): Source<T> {
    Source([], 0, [], Waiting, false, [], [], [])
  }

  /** One atomic step of either thread, at lock boundaries. */
  datatype Step<T> =
    | BeginFetch                 // prefetch: the wait for an empty queue is over
    | FetchReturns(batch: seq<T>)  // prefetch: a batch of the transport, or an empty one
    | FetchFails                 // prefetch: the error is stored for the consumer
    | Push                       // prefetch: hands the batch over, or destroys it after a stop
    | FetchBatch                 // consumer: takes the queued batch, or gives up when there is none
    | Next                       // consumer: the next message of its batch
    | NextFromTransport(direct: seq<T>)  // consumer: Next with nothing buffered fetches for itself
    | Stop

  /** `guarded` is the worker's rule: FetchBatch and Next only as HasBufferedMessages allows. */
  predicate Enabled<T>(size: nat, guarded: bool, s: Source<T>, step: Step<T>) {
    match step
    case BeginFetch => s.fetcher.Waiting? && (s.stop || s.queue == [])
    case FetchReturns(batch) => s.fetcher.Fetching? && |batch| <= size
    case FetchFails => s.fetcher.Fetching?
    case Push => s.fetcher.Holding?
    case FetchBatch => !s.fetcher.Failed? && (guarded ==> !s.HasBufferedMessages())
    case Next => s.HasBufferedMessages()
    case NextFromTransport(direct) => !guarded && !s.HasBufferedMessages() && |direct| <= size
    case Stop => true
  }

  function Apply<T>(s: Source<T>, step: Step<T>): Source<T> {
    match step
    case BeginFetch => s.(fetcher := if s.stop then Done else Fetching)
    case FetchReturns(batch) =>
      s.(fetcher := if batch == [] then Waiting else Holding(batch), fetched := s.fetched + batch)
    case FetchFails => s.(fetcher := Failed)
    case Push =>
      if s.stop then s.(fetcher := Done, dropped := s.dropped + s.InFlight())
      else s.(fetcher := Waiting, queue := s.queue + [s.InFlight()])
    case FetchBatch =>
      var cleared := s.(dropped := s.dropped + s.Unread(), messages := [], nextIndex := 0);
      if s.queue == [] then cleared
      else cleared.(messages := s.queue[0], queue := s.queue[1..])
    case Next =>
      if s.HasBufferedMessages() then
        s.(consumed := s.consumed + [s.messages[s.nextIndex]], nextIndex := s.nextIndex + 1)
      else s
    case NextFromTransport(direct) =>
      var first := direct[..Min(1, |direct|)];
      s.(messages := direct, nextIndex := |first|, fetched := s.fetched + direct, consumed := s.consumed + first)
    case Stop => s.(stop := true)
  }

  /** Everything fetched is, in order, consumed, unread, queued, or in the hands of the prefetch thread. */
  ghost predicate Conserved<T>(s: Source<T>) {
    s.consumed + s.Received() == s.fetched && s.dropped == []
  }

  ghost predicate Bounded<T>(size: nat, s: Source<T>) {
    && s.nextIndex <= |s.messages| <= size
    && |s.queue| <= 1 && (forall batch | batch in s.queue :: |batch| <= size)
    && |s.InFlight()| <= size
    && (s.fetcher.Fetching? || s.fetcher.Holding? ==> s.queue == [])
  }

  /** The invariant of the two threads. */
  ghost predicate Inv<T>(size: nat, s: Source<T>) {
    Bounded(size, s) && (s.Running() ==> Conserved(s))
  }

  /** The front is a stretch of the batch being consumed, from the next message on: as many as asked for, or all. */
  lemma FrontIs<T>(s: Source<T>, size: nat)
    requires s.nextIndex <= |s.messages|
    ensures |s.Front(size)| == if |s.messages| - s.nextIndex < size then |s.messages| - s.nextIndex else size
    ensures s.Front(size) == s.messages[s.nextIndex..s.nextIndex + |s.Front(size)|]
  {
  }

  lemma StepKeepsBound<T>(size: nat, guarded: bool, s: Source<T>, step: Step<T>)
    requires Bounded(size, s) && Enabled(size, guarded, s, step)
    ensures Bounded(size, Apply(s, step))
  {
  }

  /** What the prefetch thread fetched moves from its hands to the queue. */
  lemma PushKeepsReceived<T>(size: nat, s: Source<T>)
    requires Bounded(size, s) && s.fetcher.Holding? && !s.stop
    ensures Apply(s, Push).Received() == s.Received()
  {
    var batch := s.fetcher.batch;
    FlattenOne(batch);
    assert [] + [batch] == [batch];
    MoveLast(s.Unread(), batch);
  }

  lemma MoveLast<T>(unread: seq<T>, batch: seq<T>)
    ensures (unread + []) + batch == (unread + batch) + []
  {
  }

  /** Taking the queued batch into an empty buffer moves it, no more. */
  lemma FetchKeepsReceived<T>(size: nat, s: Source<T>)
    requires Bounded(size, s) && !s.HasBufferedMessages()
    ensures Apply(s, FetchBatch).Received() == s.Received()
  {
    if s.queue != [] {
      FlattenOne(s.queue[0]);
      assert s.queue == [s.queue[0]] && s.queue[1..] == [];
      MoveFirst(s.queue[0], s.InFlight());
    }
  }

  lemma MoveFirst<T>(batch: seq<T>, inFlight: seq<T>)
    ensures ([] + batch) + inFlight == (batch + []) + inFlight
  {
  }

  lemma NextConserves<T>(size: nat, s: Source<T>)
    requires Bounded(size, s) && s.HasBufferedMessages() && Conserved(s)
    ensures Conserved(Apply(s, Next))
  {
    var first, rest := s.messages[s.nextIndex], Apply(s, Next).Unread();
    assert s.Unread() == [first] + rest;
    TakeFirst(s.consumed, first, rest, Flatten(s.queue), s.InFlight());
  }

  lemma TakeFirst<T>(consumed: seq<T>, first: T, rest: seq<T>, queued: seq<T>, inFlight: seq<T>)
    ensures consumed + ((([first] + rest) + queued) + inFlight) == (consumed + [first]) + ((rest + queued) + inFlight)
  {
  }

  lemma ReturnConserves<T>(size: nat, s: Source<T>, batch: seq<T>)
    requires Bounded(size, s) && s.fetcher.Fetching? && Conserved(s)
    ensures Conserved(Apply(s, FetchReturns(batch)))
  {
    AddLast(s.consumed, s.Unread(), batch);
  }

  lemma AddLast<T>(consumed: seq<T>, unread: seq<T>, batch: seq<T>)
    ensures (consumed + ((unread + []) + [])) + batch == consumed + ((unread + []) + batch)
    ensures batch == [] ==> (consumed + ((unread + []) + [])) + batch == consumed + ((unread + []) + [])
  {
  }

  lemma StepConserves<T>(size: nat, s: Source<T>, step: Step<T>)
    requires Bounded(size, s) && Enabled(size, true, s, step)
    requires s.Running() && Conserved(s) && Apply(s, step).Running()
    ensures Conserved(Apply(s, step))
  {
    match step
    case Push => PushKeepsReceived(size, s);
    case FetchBatch => FetchKeepsReceived(size, s);
    case Next => NextConserves(size, s);
    case FetchReturns(batch) => ReturnConserves(size, s, batch);
    case _ =>
  }

  function Run<T>(steps: seq<Step<T>>): Source<T> {
    if steps == [] then Start() else Apply(Run(steps[..|steps| - 1]), steps[|steps| - 1])
  }

  predicate Possible<T>(size: nat, guarded: bool, steps: seq<Step<T>>) {
    steps != [] ==>
      && Possible(size, guarded, steps[..|steps| - 1])
      && Enabled(size, guarded, Run(steps[..|steps| - 1]), steps[|steps| - 1])
  }

  /** The client holds at most two transport batches. */
  lemma AtMostTwoBatches<T>(size: nat, s: Source<T>)
    requires Bounded(size, s)
    ensures |s.Unread()| + |Flatten(s.queue)| + |s.InFlight()| <= 2 * size
  {
    if s.queue != [] {
      FlattenOne(s.queue[0]);
      assert s.queue == [s.queue[0]];
    }
  }

  /** Under every interleaving of the two threads, until a stop or an error: nothing is lost, doubled or reordered,
      the queue holds at most one batch, and the client holds at most two transport batches. */
  lemma {:induction false} PrefetchConserves<T>(size: nat, steps: seq<Step<T>>)
    requires Possible(size, true, steps)
    ensures Inv(size, Run(steps))
    ensures var s := Run(steps); |s.queue| <= 1 && |s.Unread()| + |Flatten(s.queue)| + |s.InFlight()| <= 2 * size
  {
    if steps == [] {
      assert Conserved(Run(steps));
    } else {
      var before, step := steps[..|steps| - 1], steps[|steps| - 1];
      PrefetchConserves(size, before);
      StepKeepsBound(size, true, Run(before), step);
      if Run(steps).Running() {
        StepConserves(size, Run(before), step);
      }
    }
    AtMostTwoBatches(size, Run(steps));
  }

  /** What the worker has taken is always a prefix of what was fetched. */
  lemma ConsumedInOrder<T>(size: nat, steps: seq<Step<T>>)
    requires Possible(size, true, steps) && Run(steps).Running()
    ensures Run(steps).consumed <= Run(steps).fetched
  {
    PrefetchConserves(size, steps);
  }

  lemma Extend<T>(size: nat, guarded: bool, steps: seq<Step<T>>, step: Step<T>)
    requires Possible(size, guarded, steps) && Enabled(size, guarded, Run(steps), step)
    ensures Possible(size, guarded, steps + [step]) && Run(steps + [step]) == Apply(Run(steps), step)
  {
    assert (steps + [step])[..|steps|] == steps;
  }

  /** Without the guard, Next fetches past a batch that already waits in the queue. */
  lemma UnguardedReorders<T>(a: T, b: T) returns (steps: seq<Step<T>>)
    requires a != b
    ensures Possible(1, false, steps) && Run(steps).Running()
    ensures Run(steps).fetched == [a, b] && Run(steps).consumed == [b]
  {
    var s1, s2, s3, s4 := BeginFetch, FetchReturns([a]), Push, NextFromTransport([b]);
    Extend(1, false, [], s1);
    Extend(1, false, [] + [s1], s2);
    Extend(1, false, [] + [s1] + [s2], s3);
    Extend(1, false, [] + [s1] + [s2] + [s3], s4);
    steps := [] + [s1] + [s2] + [s3] + [s4];
  }

  /** The source object.  Every method is one locked section and one step of the history `steps`; the object is valid
      as long as its history is a guarded run. */
  class NatsJetStreamBatchSource<T> {
    const size: nat
    var messages: seq<T>
    var nextIndex: nat
    var queue: seq<seq<T>>
    var fetcher: Fetcher<T>
    var stop: bool
    ghost var fetched: seq<T>
    ghost var consumed: seq<T>
    ghost var dropped: seq<T>
    ghost var steps: seq<Step<T>>

    ghost function State(): Source<T>
      reads this
    {
      Source(messages, nextIndex, queue, fetcher, stop, fetched, consumed, dropped)
    }

    ghost predicate Valid()
      reads this
    {
      Possible(size, true, steps) && State() == Run(steps)
    }

    /** What is proved of every guarded run holds of the object. */
    lemma ValidConserves()
      requires Valid()
      ensures Inv(size, State())
    {
      PrefetchConserves(size, steps);
    }

    lemma InBounds()
      requires Valid()
      ensures nextIndex <= |messages|
    {
      PrefetchConserves(size, steps);
    }

    lemma After(step: Step<T>)
      requires Valid()
      ensures Run(steps + [step]) == Apply(State(), step)
      ensures Possible(size, true, steps + [step]) <==> Enabled(size, true, State(), step)
    {
      assert (steps + [step])[..|steps|] == steps;
    }

    constructor (size: nat)
      ensures Valid() && this.size == size && steps == []
    {
      this.size := size;
      messages, nextIndex, queue, fetcher, stop := [], 0, [], Waiting, false;
      fetched, consumed, dropped, steps := [], [], [], [];
    }

    predicate HasBufferedMessages()
      reads this
      ensures HasBufferedMessages() == State().HasBufferedMessages()
    {
      nextIndex < |messages|
    }

    method ClearBatch()
      modifies this`messages, this`nextIndex, this`dropped
      ensures State() == old(State()).(messages := [], nextIndex := 0, dropped := old(dropped + State().Unread()))
    {
      dropped := dropped + State().Unread();
      messages, nextIndex := [], 0;
    }

    /** Discards what is buffered and takes the queued batch, if there is one; the run stays guarded exactly when
        nothing was buffered. */
    method FetchBatch() returns (taken: bool)
      requires Valid() && !fetcher.Failed?
      modifies this
      ensures State() == Apply(old(State()), Step.FetchBatch) && steps == old(steps) + [Step.FetchBatch]
      ensures taken == (old(queue) != []) && nextIndex == 0
      ensures if taken then messages == old(queue)[0] && queue == old(queue)[1..] else messages == [] && queue == []
      ensures fetcher == old(fetcher) && stop == old(stop) && consumed == old(consumed)
      ensures Valid() <==> !old(HasBufferedMessages())
    {
      After(Step.FetchBatch);
      steps := steps + [Step.FetchBatch];
      ClearBatch();
      if queue == [] {
        return false;
      }
      messages, queue := queue[0], queue[1..];
      taken := true;
    }

    /** The next message; with an empty buffer it takes a batch straight from the transport, past the queue.  The run
        stays guarded exactly when something was buffered. */
    method Next(direct: seq<T>) returns (message: seq<T>)
      requires Valid()
      modifies this
      ensures old(nextIndex < |messages|) ==>
                && State() == Apply(old(State()), Step.Next) && steps == old(steps) + [Step.Next]
                && message == [old(messages[nextIndex])] && messages == old(messages) && nextIndex == old(nextIndex) + 1
      ensures old(nextIndex >= |messages|) ==>
                && State() == Apply(old(State()), NextFromTransport(direct))
                && steps == old(steps) + [NextFromTransport(direct)]
                && message == (if direct == [] then [] else [direct[0]]) && messages == direct && nextIndex == |message|
      ensures queue == old(queue) && fetcher == old(fetcher) && consumed == old(consumed) + message
      ensures Valid() <==> old(HasBufferedMessages())
    {
      InBounds();
      if nextIndex >= |messages| {
        After(NextFromTransport(direct));
        steps := steps + [NextFromTransport(direct)];
        ClearBatch();
        assert dropped == old(dropped);
        messages, fetched := direct, fetched + direct;
        if direct == [] {
          return [];
        }
      } else {
        After(Step.Next);
        steps := steps + [Step.Next];
      }
      message := [messages[nextIndex]];
      consumed := consumed + message;
      nextIndex := nextIndex + 1;
    }

    /** The prefetch thread wakes up: the queue is empty, or it has to stop. */
    method BeginFetch() returns (proceed: bool)
      requires Valid() && fetcher.Waiting? && (stop || queue == [])
      modifies this`fetcher, this`steps
      ensures Valid() && State() == Apply(old(State()), Step.BeginFetch)
      ensures proceed == !stop && fetcher == if stop then Done else Fetching
    {
      After(Step.BeginFetch);
      steps := steps + [Step.BeginFetch];
      proceed := !stop;
      fetcher := if stop then Done else Fetching;
    }

    method FetchReturns(batch: seq<T>)
      requires Valid() && fetcher.Fetching? && |batch| <= size
      modifies this`fetcher, this`fetched, this`steps
      ensures Valid() && State() == Apply(old(State()), Step.FetchReturns(batch))
      ensures fetched == old(fetched) + batch && fetcher == if batch == [] then Waiting else Holding(batch)
    {
      After(Step.FetchReturns(batch));
      steps := steps + [Step.FetchReturns(batch)];
      fetched := fetched + batch;
      fetcher := if batch == [] then Waiting else Holding(batch);
    }

    /** Hands the batch over under the lock, or destroys it when a stop came meanwhile. */
    method Push()
      requires Valid() && fetcher.Holding?
      modifies this`fetcher, this`queue, this`dropped, this`steps
      ensures Valid() && State() == Apply(old(State()), Step.Push)
      ensures if stop then queue == old(queue) && fetcher == Done
              else queue == old(queue) + [old(fetcher.batch)] && fetcher == Waiting
      ensures dropped == if stop then old(dropped) + old(fetcher.batch) else old(dropped)
    {
      After(Step.Push);
      steps := steps + [Step.Push];
      if stop {
        dropped := dropped + fetcher.batch;
        fetcher := Done;
        return;
      }
      queue := queue + [fetcher.batch];
      fetcher := Waiting;
    }
  }
}
