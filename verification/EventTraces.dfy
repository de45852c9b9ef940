/**
 The two ends of the event pipeline as the program runs them (src/etw/session.rs): the callback's
 filters and channel offers, and the consumer's drains. The other thread may take any number of its
 own steps before each receive; each method is tied to a run of the state machine of `EventPipeline`.
 */
module EventTraces {
  import opened Wrappers
  import opened OpcodeDrops
  import opened EventPipeline
  import opened PipelineDelivery

  datatype ConsumeError = StreamDisabled(stream: StreamKind)

  /** The steps of the `ProcessTrace` thread. */
  predicate OfCallback(a: Action) {
    a.Deliver? || a.CallbackSends?
  }

  ghost predicate AllOfCallback(actions: seq<Action>) {
    forall i :: 0 <= i < |actions| ==> OfCallback(actions[i])
  }

  ghost predicate EachOfCallback(arrivals: seq<seq<Action>>) {
    forall i :: 0 <= i < |arrivals| ==> AllOfCallback(arrivals[i])
  }

  lemma {:induction false} RunSnoc(s: State, actions: seq<Action>, a: Action)
    requires ValidDrops(s.config.opcodeDrops)
    ensures Run(s, actions + [a]) == Next(Run(s, actions), a)
    decreases |actions|
  {
    if actions == [] {
      assert Run(s, [a]) == Run(Next(s, a), []);
    } else {
      RunSnoc(Next(s, actions[0]), actions[1..], a);
      assert (actions + [a])[1..] == actions[1..] + [a];
    }
  }

  predicate Enabled(config: Config, stream: StreamKind) {
    if stream.Raw? then config.raw else config.decoded
  }

  /**
   From `s` to `t` one call received the next events of the channel, in order, returned those the
   filter keeps, and added one batch to those returned before.
   */
  ghost predicate Drained(s: State, t: State, stream: StreamKind, filter: Record -> bool, events: seq<Record>) {
    && |t.returned| == |s.returned| + 1 && t.returned[..|s.returned|] == s.returned
    && var b := t.returned[|s.returned|];
    && b.stream == stream && b.filter == filter && b.events == events
    && events == Keep(b.drained, filter)
    && ChannelIn(t, stream).received == ChannelIn(s, stream).received + b.drained
  }

  lemma DrainFinished(s: State, t: State, before: seq<Action>, after: seq<Action>)
    requires ValidDrops(s.config.opcodeDrops) && s.config == t.config
    requires s == Run(Init(s.config), before) && t == Run(Init(s.config), after)
    requires s.consumer.Idle? && t.consumer.Idle?
    requires |t.returned| == |s.returned| + 1 && t.returned[..|s.returned|] == s.returned
    ensures var b := t.returned[|s.returned|]; Drained(s, t, b.stream, b.filter, b.events)
  {
    InitHolds(s.config);
    EveryRunKeeps(Init(s.config), before);
    EveryRunKeeps(Init(s.config), after);
    BatchDrained(s, t);
  }

  lemma BatchDrained(s: State, t: State)
    requires ConsumerInv(s) && ConsumerInv(t) && s.consumer.Idle? && t.consumer.Idle?
    requires |t.returned| == |s.returned| + 1 && t.returned[..|s.returned|] == s.returned
    ensures var b := t.returned[|s.returned|]; Drained(s, t, b.stream, b.filter, b.events)
  {
    var b := t.returned[|s.returned|];
    assert t.returned == s.returned + [b];
    ReturnedSnoc(s.returned, b);
    assert Honest(t.returned[|s.returned|]);
  }

  class EventTrace {
    const config: Config
    var rawQueue: seq<Record>
    var decodedQueue: seq<Record>
    var dropped: nat
    var eventsProcessed: nat
    var callback: CallbackPc
    /** The consumer sits in `recv_timeout`; with capacity 0 an event is then handed over directly. */
    var receiverBlocked: bool
    var handedOver: Option<Record>
    ghost var history: State
    ghost var trace: seq<Action>

    /** The fields show the state that the steps so far lead to. */
    ghost predicate Valid()
      reads this
    {
      && ValidDrops(config.opcodeDrops)
      && history == Run(Init(config), trace)
      && history.rawChannel.capacity == config.capacity && history.decodedChannel.capacity == config.capacity
      && rawQueue == history.rawChannel.queue && decodedQueue == history.decodedChannel.queue
      && dropped == history.dropped && eventsProcessed == history.eventsProcessed
      && callback == history.callback
      && receiverBlocked == history.consumer.Blocked?
    }

    constructor (config: Config)
      requires ValidDrops(config.opcodeDrops)
      ensures Valid() && this.config == config && trace == [] && handedOver.None?
      ensures rawQueue == [] && decodedQueue == [] && dropped == 0 && eventsProcessed == 0
    {
      this.config := config;
      rawQueue, decodedQueue, dropped, eventsProcessed := [], [], 0, 0;
      callback, receiverBlocked, handedOver := Waiting, false, None;
      history, trace := Init(config), [];
    }

    /** The ghost side of every step. */
    ghost method Record(a: Action)
      requires ValidDrops(config.opcodeDrops) && history == Run(Init(config), trace)
      modifies this`history, this`trace
      ensures history == Next(old(history), a) && trace == old(trace) + [a]
      ensures history == Run(Init(config), trace)
    {
      RunSnoc(Init(config), trace, a);
      history, trace := Next(history, a), trace + [a];
    }

    /** The callback's filters: the process filter, then the opcode drops, before any parsing. */
    method BeginCallback(r: EventPipeline.Record)
      requires Valid()
      modifies this`callback, this`history, this`trace
      ensures Valid() && trace == old(trace) + [Deliver(r)]
      ensures old(callback).Waiting? && Wanted(config, r) ==>
                && history.accepted == old(history.accepted) + [r]
                && callback == if config.decoded then SendDecoded(r) else SendRaw(r)
      ensures !(old(callback).Waiting? && Wanted(config, r)) ==>
                history.accepted == old(history.accepted) && callback == old(callback)
      ensures history.consumer == old(history.consumer) && history.returned == old(history.returned)
    {
      Record(Deliver(r));
      WantedIff(config, r);
      if callback != Waiting {
        return;
      }
      if config.processFilter.Some? && r.processId !in config.processFilter.value {
        return;
      }
      var drop := IsDropped(config.opcodeDrops, r.provider, r.opcode);
      if drop {
        return;
      }
      if config.decoded {
        callback := SendDecoded(r);
      } else {
        callback := TowardsRaw(config, r);
      }
    }

    /** One `try_send` of the callback: the decoded stream first, then the raw one. */
    method OfferNext()
      requires Valid()
      modifies this`rawQueue, this`decodedQueue, this`dropped, this`callback, this`receiverBlocked, this`handedOver,
               this`history, this`trace
      ensures Valid() && trace == old(trace) + [CallbackSends] && history.returned == old(history.returned)
      ensures old(callback).Waiting? ==> rawQueue == old(rawQueue) && decodedQueue == old(decodedQueue)
      ensures old(callback).SendDecoded? ==>
                && rawQueue == old(rawQueue)
                && if |old(decodedQueue)| < config.capacity
                   then decodedQueue == old(decodedQueue) + [old(callback).record] && dropped == old(dropped)
                   else decodedQueue == old(decodedQueue) && dropped == old(dropped) + 1
      ensures old(callback).SendRaw? ==>
                && decodedQueue == old(decodedQueue)
                && if |old(rawQueue)| < config.capacity
                   then rawQueue == old(rawQueue) + [old(callback).record] && dropped == old(dropped)
                   else rawQueue == old(rawQueue)
                        && if config.capacity == 0 && old(receiverBlocked)
                           then handedOver == Some(old(callback).record) && dropped == old(dropped)
                           else dropped == old(dropped) + 1
      ensures !old(receiverBlocked) ==> history.consumer == old(history.consumer) && handedOver == old(handedOver)
      ensures old(receiverBlocked) && !receiverBlocked ==>
                handedOver.Some? && history.consumer == Timed([handedOver.value])
      ensures old(receiverBlocked) && receiverBlocked ==> handedOver == old(handedOver)
    {
      Record(CallbackSends);
      match callback
      case Waiting =>
      case SendDecoded(r) =>
        if |decodedQueue| < config.capacity {
          decodedQueue := decodedQueue + [r];
        } else {
          dropped := dropped + 1;
        }
        callback := TowardsRaw(config, r);
      case SendRaw(r) =>
        if |rawQueue| < config.capacity {
          rawQueue := rawQueue + [r];
        } else if config.capacity == 0 && receiverBlocked {
          handedOver, receiverBlocked := Some(r), false;
        } else {
          dropped := dropped + 1;
        }
        callback := Waiting;
    }

    /** Any number of steps of the other thread. */
    method CallbackRuns(actions: seq<Action>)
      requires Valid() && AllOfCallback(actions)
      modifies this`rawQueue, this`decodedQueue, this`dropped, this`callback, this`receiverBlocked, this`handedOver,
               this`history, this`trace
      ensures Valid() && trace == old(trace) + actions && history.returned == old(history.returned)
      ensures !old(receiverBlocked) ==> history.consumer == old(history.consumer) && handedOver == old(handedOver)
      ensures old(receiverBlocked) && !receiverBlocked ==>
                handedOver.Some? && history.consumer == Timed([handedOver.value])
      ensures old(receiverBlocked) && receiverBlocked ==> handedOver == old(handedOver)
    {
      for i := 0 to |actions|
        invariant Valid() && trace == old(trace) + actions[..i] && history.returned == old(history.returned)
        invariant !old(receiverBlocked) ==> history.consumer == old(history.consumer) && handedOver == old(handedOver)
        invariant old(receiverBlocked) && !receiverBlocked ==>
                    handedOver.Some? && history.consumer == Timed([handedOver.value])
        invariant old(receiverBlocked) && receiverBlocked ==> handedOver == old(handedOver)
      {
        assert OfCallback(actions[i]);
        if actions[i].Deliver? {
          BeginCallback(actions[i].record);
        } else {
          OfferNext();
        }
        assert actions[..i + 1] == actions[..i] + [actions[i]];
      }
      assert actions[..|actions|] == actions;
    }

    /** One turn of a filtered drain: `try_recv`, then the filter; None when the channel is empty. */
    method ReceiveFiltered(stream: StreamKind, filter: EventPipeline.Record -> bool, batch: seq<EventPipeline.Record>)
      returns (result: Option<seq<EventPipeline.Record>>)
      requires Valid() && history.consumer.Filtered?
      requires history.consumer.stream == stream && history.consumer.filter == filter && history.consumer.batch == batch
      modifies this
      ensures Valid() && trace == old(trace) + [ConsumerReceives]
      ensures result.None? ==>
                && (if stream.Raw? then rawQueue else decodedQueue) == [] && history.consumer.Idle?
                && history.returned
                   == old(history.returned) + [Batch(stream, filter, old(history.consumer.drained), batch)]
      ensures result.Some? ==>
                && history.returned == old(history.returned) && history.consumer.Filtered?
                && history.consumer.stream == stream && history.consumer.filter == filter
                && history.consumer.batch == result.value
                && |if stream.Raw? then rawQueue else decodedQueue|
                   < old(|if stream.Raw? then rawQueue else decodedQueue|)
    {
      Record(ConsumerReceives);
      var queue := if stream.Raw? then rawQueue else decodedQueue;
      if queue == [] {
        return None;
      }
      if stream.Raw? {
        rawQueue := rawQueue[1..];
      } else {
        decodedQueue := decodedQueue[1..];
      }
      if filter(queue[0]) {
        eventsProcessed := eventsProcessed + 1;
        return Some(batch + [queue[0]]);
      }
      return Some(batch);
    }

    /** The loop of a filtered drain; `arrivals[i]` is what the callback does before the i-th receive. */
    method DrainFiltered(stream: StreamKind, filter: EventPipeline.Record -> bool, arrivals: seq<seq<Action>>)
      returns (batch: seq<EventPipeline.Record>)
      requires Valid() && EachOfCallback(arrivals) && history.consumer == Filtered(stream, filter, [], [])
      modifies this
      ensures Valid() && history.consumer.Idle? && old(trace) <= trace
      ensures (if stream.Raw? then rawQueue else decodedQueue) == []
      ensures |history.returned| == |old(history.returned)| + 1
      ensures history.returned[..|old(history.returned)|] == old(history.returned)
      ensures var b := history.returned[|old(history.returned)|];
              b.stream == stream && b.filter == filter && b.events == batch
    {
      batch := [];
      var i := 0;
      while true
        invariant Valid() && !receiverBlocked && i <= |arrivals| && old(trace) <= trace
        invariant history.returned == old(history.returned) && history.consumer.Filtered?
        invariant history.consumer.stream == stream && history.consumer.filter == filter
                  && history.consumer.batch == batch
        decreases |arrivals| - i, if stream.Raw? then |rawQueue| else |decodedQueue|
      {
        if i < |arrivals| {
          CallbackRuns(arrivals[i]);
          i := i + 1;
        }
        var next := ReceiveFiltered(stream, filter, batch);
        if next.None? {
          break;
        }
        batch := next.value;
      }
    }

    /**
     `next_batch_with_filter` and `next_batch_decoded_with_filter`: receive until the channel is empty,
     keeping what passes the filter.
     */
    method NextBatchWithFilter(stream: StreamKind, filter: EventPipeline.Record -> bool, arrivals: seq<seq<Action>>)
      returns (result: Result<seq<EventPipeline.Record>, ConsumeError>)
      requires Valid() && history.consumer.Idle? && EachOfCallback(arrivals)
      modifies this
      ensures Valid() && history.consumer.Idle? && old(trace) <= trace
      ensures result.Err? <==> !Enabled(config, stream)
      ensures result.Err? ==> trace == old(trace)
      ensures result.Ok? ==>
                && Drained(old(history), history, stream, filter, result.value)
                && (if stream.Raw? then rawQueue else decodedQueue) == []
    {
      if !Enabled(config, stream) {
        return Err(StreamDisabled(stream));
      }
      Record(BeginDrain(stream, filter));
      var batch := DrainFiltered(stream, filter, arrivals);
      DrainFinished(old(history), history, old(trace), trace);
      return Ok(batch);
    }

    /** One receive of the timed drain, from a channel that has an event. */
    method ReceiveTimed(batch: seq<EventPipeline.Record>) returns (longer: seq<EventPipeline.Record>)
      requires Valid() && history.consumer == Timed(batch) && rawQueue != []
      modifies this`rawQueue, this`history, this`trace
      ensures Valid() && trace == old(trace) + [ConsumerReceives] && |rawQueue| < |old(rawQueue)|
      ensures history.consumer == Timed(longer) && history.returned == old(history.returned)
    {
      Record(ConsumerReceives);
      longer := batch + [rawQueue[0]];
      rawQueue := rawQueue[1..];
    }

    /**
     The `recv_timeout` of the timed drain: the callback does `meanwhile` while the consumer is blocked;
     then the first event is taken (or was handed over), or the timeout expires.
     */
    method ReceiveFirst(meanwhile: seq<Action>) returns (first: Option<EventPipeline.Record>)
      requires Valid() && history.consumer.Idle? && config.raw && AllOfCallback(meanwhile)
      modifies this
      ensures Valid() && old(trace) <= trace
      ensures first.Some? ==> history.consumer == Timed([first.value]) && history.returned == old(history.returned)
      ensures first.None? ==>
                && history.consumer.Idle? && rawQueue == []
                && history.returned == old(history.returned) + [Batch(Raw, Everything(), [], [])]
    {
      Record(BeginTimedDrain);
      receiverBlocked := true;
      CallbackRuns(meanwhile);
      if !receiverBlocked {
        return handedOver;
      }
      receiverBlocked := false;
      if rawQueue == [] {
        Record(TimeoutExpires);
        return None;
      }
      Record(ConsumerReceives);
      first := Some(rawQueue[0]);
      rawQueue := rawQueue[1..];
    }

    /** The rest of the timed drain: take what has arrived, and count the whole batch at the end. */
    method DrainTimed(first: EventPipeline.Record, arrivals: seq<seq<Action>>)
      returns (batch: seq<EventPipeline.Record>)
      requires Valid() && EachOfCallback(arrivals) && history.consumer == Timed([first])
      modifies this
      ensures Valid() && history.consumer.Idle? && old(trace) <= trace && rawQueue == []
      ensures history.returned == old(history.returned) + [Batch(Raw, Everything(), batch, batch)]
    {
      batch := [first];
      var i := 0;
      while true
        invariant Valid() && i <= |arrivals| && old(trace) <= trace
        invariant history.returned == old(history.returned) && history.consumer == Timed(batch)
        decreases |arrivals| - i, |rawQueue|
      {
        if i < |arrivals| {
          CallbackRuns(arrivals[i]);
          i := i + 1;
        }
        if rawQueue == [] {
          break;
        }
        batch := ReceiveTimed(batch);
      }
      Record(ConsumerReceives);
      eventsProcessed := eventsProcessed + |batch|;
    }

    /** `next_batch_timeout`: block for the first event, then take what else has arrived. */
    method NextBatchTimeout(meanwhile: seq<Action>, arrivals: seq<seq<Action>>)
      returns (result: Result<seq<EventPipeline.Record>, ConsumeError>)
      requires Valid() && history.consumer.Idle? && AllOfCallback(meanwhile) && EachOfCallback(arrivals)
      modifies this
      ensures Valid() && history.consumer.Idle? && old(trace) <= trace
      ensures result.Err? <==> !config.raw
      ensures result.Err? ==> trace == old(trace)
      ensures result.Ok? ==> Drained(old(history), history, Raw, Everything(), result.value) && rawQueue == []
    {
      if !config.raw {
        return Err(StreamDisabled(Raw));
      }
      var first := ReceiveFirst(meanwhile);
      if first.None? {
        DrainFinished(old(history), history, old(trace), trace);
        return Ok([]);
      }
      var batch := DrainTimed(first.value, arrivals);
      DrainFinished(old(history), history, old(trace), trace);
      return Ok(batch);
    }
  }
}
