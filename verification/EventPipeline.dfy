/**
 The event pipeline of an ETW session (src/etw/session.rs): the `ProcessTrace` thread runs the
 callback, which offers each accepted event to up to two bounded channels, while the consumer
 drains them. The two threads interleave at every channel operation.
 */
module EventPipeline {
  import opened Wrappers
  import opened OpcodeDrops
  import opened Sequences

  /** What of an `EVENT_RECORD` the pipeline looks at; `body` stands for the rest. */
  datatype Record = Record(processId: nat, provider: Guid, opcode: bv8, body: int)

  datatype StreamKind = Raw | Decoded

  /**
   A bounded channel with its history: every event offered to it, every event received from it,
   how many offers were dropped because it was full.
   */
  datatype Channel = Channel(
    capacity: nat,
    queue: seq<Record>,
    offered: seq<Record>,
    received: seq<Record>,
    lost: nat
  )

  datatype Config = Config(
    raw: bool,
    decoded: bool,
    capacity: nat,
    processFilter: Option<set<nat>>,
    opcodeDrops: seq<OpcodeDrop>
  )

  /** Where the callback stands: the decoded stream is offered the event first. */
  datatype CallbackPc = Waiting | SendDecoded(record: Record) | SendRaw(record: Record)

  /**
   Where the consumer stands. `Filtered` counts each kept event at once, `Timed` (after a blocking
   receive) counts the whole batch at the end.
   */
  datatype ConsumerPc =
    | Idle
    | Blocked
    | Filtered(stream: StreamKind, filter: Record -> bool, drained: seq<Record>, batch: seq<Record>)
    | Timed(batch: seq<Record>)

  /** A batch handed to the user: what one call received from its channel and what of it the filter kept. */
  datatype Batch = Batch(stream: StreamKind, filter: Record -> bool, drained: seq<Record>, events: seq<Record>)

  datatype State = State(
    config: Config,
    rawChannel: Channel,
    decodedChannel: Channel,
    dropped: nat,
    eventsProcessed: nat,
    callback: CallbackPc,
    consumer: ConsumerPc,
    accepted: seq<Record>,
    returned: seq<Batch>
  )

  function EmptyChannel(capacity: nat): (c: Channel)
  {
    Channel(capacity, [], [], [], 0)
  }

  function Init(config: Config): (s: State)
  {
    State(config, EmptyChannel(config.capacity), EmptyChannel(config.capacity), 0, 0, Waiting, Idle, [], [])
  }

  // ----- channel operations -----

  /** `try_send`; a channel of capacity 0 hands over only to a receiver that is blocked in `recv_timeout`. */
  function TrySend(c: Channel, e: Record, receiverBlocked: bool): (r: (Channel, bool))
  {
    if |c.queue| < c.capacity then (c.(queue := c.queue + [e], offered := c.offered + [e]), true)
    else if c.capacity == 0 && receiverBlocked then (c.(offered := c.offered + [e], received := c.received + [e]), true)
    else (c.(offered := c.offered + [e], lost := c.lost + 1), false)
  }

  /** `try_recv` on a channel that has an event. */
  function Receive(c: Channel): (r: Channel)
    requires c.queue != []
  {
    c.(queue := c.queue[1..], received := c.received + [c.queue[0]])
  }

  // ----- steps -----

  ghost predicate Accepts(config: Config, r: Record)
    requires ValidDrops(config.opcodeDrops)
  {
    && (config.processFilter.Some? ==> r.processId in config.processFilter.value)
    && !Listed(config.opcodeDrops, r.provider, r.opcode)
  }

  datatype Action =
    | Deliver(record: Record)
    | CallbackSends
    | BeginDrain(stream: StreamKind, filter: Record -> bool)
    | BeginTimedDrain
    | ConsumerReceives
    | TimeoutExpires

  /** After the decoded offer, or with no decoded stream, the raw stream's turn comes if there is one. */
  function TowardsRaw(config: Config, r: Record): (pc: CallbackPc)
  {
    if config.raw then SendRaw(r) else Waiting
  }

  ghost function OnDeliver(s: State, r: Record): (t: State)
    requires ValidDrops(s.config.opcodeDrops)
  {
    if s.callback != Waiting || !Accepts(s.config, r) then s
    else if !s.config.decoded && !s.config.raw then s
    else s.(accepted := s.accepted + [r],
            callback := if s.config.decoded then SendDecoded(r) else TowardsRaw(s.config, r))
  }

  function OnCallbackSends(s: State): (t: State)
  {
    match s.callback
    case Waiting => s
    case SendDecoded(r) =>
      var (c, sent) := TrySend(s.decodedChannel, r, false);
      s.(decodedChannel := c, dropped := if sent then s.dropped else s.dropped + 1, callback := TowardsRaw(s.config, r))
    case SendRaw(r) =>
      var blocked := s.consumer.Blocked?;
      var (c, sent) := TrySend(s.rawChannel, r, blocked);
      s.(rawChannel := c, dropped := if sent then s.dropped else s.dropped + 1, callback := Waiting,
         consumer := if sent && s.rawChannel.capacity == 0 && blocked then Timed([r]) else s.consumer)
  }

  function OnBeginDrain(s: State, stream: StreamKind, filter: Record -> bool): (t: State)
  {
    var enabled := if stream.Raw? then s.config.raw else s.config.decoded;
    if s.consumer.Idle? && enabled then s.(consumer := Filtered(stream, filter, [], [])) else s
  }

  function OnBeginTimedDrain(s: State): (t: State)
  {
    if s.consumer.Idle? && s.config.raw then s.(consumer := Blocked) else s
  }

  function Finish(s: State, batch: Batch, counted: nat): (t: State)
  {
    s.(consumer := Idle, returned := s.returned + [batch], eventsProcessed := s.eventsProcessed + counted)
  }

  /** One receive of a filtered drain; it ends when the channel is empty. */
  function FilteredReceive(s: State): (t: State)
    requires s.consumer.Filtered?
  {
    var Filtered(stream, filter, drained, batch) := s.consumer;
    var c := if stream.Raw? then s.rawChannel else s.decodedChannel;
    if c.queue == [] then Finish(s, Batch(stream, filter, drained, batch), 0)
    else
      var e := c.queue[0];
      var kept := filter(e);
      var moved := if stream.Raw? then s.(rawChannel := Receive(c)) else s.(decodedChannel := Receive(c));
      moved.(consumer := Filtered(stream, filter, drained + [e], if kept then batch + [e] else batch),
             eventsProcessed := if kept then s.eventsProcessed + 1 else s.eventsProcessed)
  }

  /** The timed drain keeps everything it receives. */
  function Everything(): (filter: Record -> bool)
  {
    (_: Record) => true
  }

  function TimedReceive(s: State): (t: State)
    requires s.consumer.Timed?
  {
    var batch := s.consumer.batch;
    if s.rawChannel.queue == [] then Finish(s, Batch(Raw, Everything(), batch, batch), |batch|)
    else s.(rawChannel := Receive(s.rawChannel), consumer := Timed(batch + [s.rawChannel.queue[0]]))
  }

  /** The blocking receive gets the first event. */
  function BlockedReceive(s: State): (t: State)
    requires s.consumer.Blocked?
  {
    if s.rawChannel.queue == [] then s
    else s.(rawChannel := Receive(s.rawChannel), consumer := Timed([s.rawChannel.queue[0]]))
  }

  function OnConsumerReceives(s: State): (t: State)
  {
    match s.consumer
    case Idle => s
    case Blocked => BlockedReceive(s)
    case Filtered(_, _, _, _) => FilteredReceive(s)
    case Timed(_) => TimedReceive(s)
  }

  /** The blocking receive gives up; an empty batch is returned. */
  function OnTimeout(s: State): (t: State)
  {
    if s.consumer.Blocked? then Finish(s, Batch(Raw, Everything(), [], []), 0) else s
  }

  ghost function Next(s: State, a: Action): (t: State)
    requires ValidDrops(s.config.opcodeDrops)
    ensures t.config == s.config
  {
    match a
    case Deliver(r) => OnDeliver(s, r)
    case CallbackSends => OnCallbackSends(s)
    case BeginDrain(stream, filter) => OnBeginDrain(s, stream, filter)
    case BeginTimedDrain => OnBeginTimedDrain(s)
    case ConsumerReceives => OnConsumerReceives(s)
    case TimeoutExpires => OnTimeout(s)
  }

  ghost function Run(s: State, actions: seq<Action>): (t: State)
    requires ValidDrops(s.config.opcodeDrops)
    ensures t.config == s.config
    decreases |actions|
  {
    if actions == [] then s else Run(Next(s, actions[0]), actions[1..])
  }

  // ----- subsequences -----

  /** a is b with some elements left out. */
  ghost predicate Subsequence(a: seq<Record>, b: seq<Record>)
    decreases |b|
  {
    a == [] || (b != [] && (Subsequence(a, b[..|b| - 1])
                            || (a[|a| - 1] == b[|b| - 1] && Subsequence(a[..|a| - 1], b[..|b| - 1]))))
  }

  lemma SubsequenceKeeps(a: seq<Record>, b: seq<Record>, x: Record)
    requires Subsequence(a, b)
    ensures Subsequence(a + [x], b + [x])
  {
    assert (a + [x])[..|a|] == a && (b + [x])[..|b|] == b;
  }

  lemma SubsequenceSkips(a: seq<Record>, b: seq<Record>, x: Record)
    requires Subsequence(a, b)
    ensures Subsequence(a, b + [x])
  {
    assert (b + [x])[..|b|] == b;
  }

  // ----- what every step keeps -----

  /** Conservation, order and bound on one channel. */
  ghost predicate ChannelInv(c: Channel) {
    && |c.queue| <= c.capacity
    && |c.offered| == |c.received| + |c.queue| + c.lost
    && Subsequence(c.received + c.queue, c.offered)
  }

  /** What a channel has been offered, given what the callback accepted and where it stands. */
  ghost predicate OffersInStep(s: State) {
    && (s.config.decoded ==>
          s.accepted == s.decodedChannel.offered + (if s.callback.SendDecoded? then [s.callback.record] else []))
    && (s.config.raw ==>
          s.accepted == s.rawChannel.offered + (if s.callback.Waiting? then [] else [s.callback.record]))
    && (!s.config.decoded ==> !s.callback.SendDecoded? && s.decodedChannel == EmptyChannel(s.config.capacity))
    && (!s.config.raw ==> !s.callback.SendRaw? && s.rawChannel == EmptyChannel(s.config.capacity))
  }

  /** The events of `s` that the filter keeps, in order. */
  function Keep(s: seq<Record>, filter: Record -> bool): (kept: seq<Record>)
  {
    if s == [] then []
    else
      var last := s[|s| - 1];
      Keep(s[..|s| - 1], filter) + (if filter(last) then [last] else [])
  }

  function TotalReturned(batches: seq<Batch>): (n: nat)
  {
    if batches == [] then 0 else TotalReturned(batches[..|batches| - 1]) + |batches[|batches| - 1].events|
  }

  /** Everything the finished calls received from one channel, in order. */
  function DrainedBy(batches: seq<Batch>, stream: StreamKind): (drained: seq<Record>)
  {
    if batches == [] then []
    else
      var last := batches[|batches| - 1];
      DrainedBy(batches[..|batches| - 1], stream) + (if last.stream == stream then last.drained else [])
  }

  /** What the call under way has received from one channel. */
  function InHand(pc: ConsumerPc, stream: StreamKind): (drained: seq<Record>)
  {
    match pc
    case Idle => []
    case Blocked => []
    case Filtered(k, _, drained, _) => if k == stream then drained else []
    case Timed(batch) => if stream.Raw? then batch else []
  }

  function CountedInHand(pc: ConsumerPc): (n: nat)
  {
    if pc.Filtered? then |pc.batch| else 0
  }

  ghost predicate Honest(b: Batch) {
    b.events == Keep(b.drained, b.filter)
  }

  ghost predicate AllHonest(batches: seq<Batch>) {
    forall i :: 0 <= i < |batches| ==> Honest(batches[i])
  }

  /** Every event received is in the batch of the call that received it exactly if its filter keeps it. */
  ghost predicate ConsumerInv(s: State) {
    && s.eventsProcessed == TotalReturned(s.returned) + CountedInHand(s.consumer)
    && s.rawChannel.received == DrainedBy(s.returned, Raw) + InHand(s.consumer, Raw)
    && s.decodedChannel.received == DrainedBy(s.returned, Decoded) + InHand(s.consumer, Decoded)
    && AllHonest(s.returned)
    && ((s.consumer.Blocked? || s.consumer.Timed?) ==> s.config.raw)
    && (s.consumer.Filtered? ==>
          && s.consumer.batch == Keep(s.consumer.drained, s.consumer.filter)
          && if s.consumer.stream.Raw? then s.config.raw else s.config.decoded)
  }

  ghost predicate Inv(s: State) {
    && ChannelInv(s.rawChannel) && ChannelInv(s.decodedChannel)
    && s.rawChannel.capacity == s.config.capacity && s.decodedChannel.capacity == s.config.capacity
    && s.dropped == s.rawChannel.lost + s.decodedChannel.lost
    && OffersInStep(s)
    && ConsumerInv(s)
  }

  lemma InitHolds(config: Config)
    ensures Inv(Init(config))
  {
  }

  lemma SendKeepsChannel(c: Channel, e: Record, blocked: bool)
    requires ChannelInv(c)
    ensures var (d, sent) := TrySend(c, e, blocked);
            && ChannelInv(d) && d.capacity == c.capacity && d.offered == c.offered + [e]
            && d.lost == c.lost + (if sent then 0 else 1)
            && |d.received| == |c.received| + (if sent && |c.queue| >= c.capacity then 1 else 0)
  {
    var all := c.received + c.queue;
    SubsequenceKeeps(all, c.offered, e);
    SubsequenceSkips(all, c.offered, e);
    assert c.received + (c.queue + [e]) == all + [e];
    if |c.queue| == 0 {
      assert (c.received + [e]) + c.queue == all + [e];
    }
  }

  lemma ReceiveKeepsChannel(c: Channel)
    requires ChannelInv(c) && c.queue != []
    ensures ChannelInv(Receive(c)) && |Receive(c).received| == |c.received| + 1
    ensures Receive(c).offered == c.offered && Receive(c).lost == c.lost && Receive(c).capacity == c.capacity
  {
    assert (c.received + [c.queue[0]]) + c.queue[1..] == c.received + c.queue;
  }

  lemma KeepSnoc(s: seq<Record>, filter: Record -> bool, e: Record)
    ensures Keep(s + [e], filter) == Keep(s, filter) + (if filter(e) then [e] else [])
  {
    assert (s + [e])[..|s|] == s;
  }

  /** What a filter keeps: of every event it passes each occurrence, of any other none, in the order received. */
  lemma {:induction false} KeepsWhatPasses(s: seq<Record>, filter: Record -> bool, e: Record)
    ensures Subsequence(Keep(s, filter), s)
    ensures multiset(Keep(s, filter))[e] == if filter(e) then multiset(s)[e] else 0
    decreases |s|
  {
    if s != [] {
      var init, last := s[..|s| - 1], s[|s| - 1];
      assert s == init + [last];
      KeepsWhatPasses(init, filter, e);
      KeepSnoc(init, filter, last);
      if filter(last) {
        SubsequenceKeeps(Keep(init, filter), init, last);
      } else {
        assert Keep(s, filter) == Keep(init, filter);
        SubsequenceSkips(Keep(init, filter), init, last);
      }
    }
  }

  lemma {:induction false} KeepEverything(s: seq<Record>)
    ensures Keep(s, Everything()) == s
    decreases |s|
  {
    if s != [] {
      KeepEverything(s[..|s| - 1]);
    }
  }

  lemma ReturnedSnoc(batches: seq<Batch>, b: Batch)
    ensures TotalReturned(batches + [b]) == TotalReturned(batches) + |b.events|
    ensures DrainedBy(batches + [b], b.stream) == DrainedBy(batches, b.stream) + b.drained
    ensures forall k :: k != b.stream ==> DrainedBy(batches + [b], k) == DrainedBy(batches, k)
    ensures AllHonest(batches) && Honest(b) ==> AllHonest(batches + [b])
  {
    assert (batches + [b])[..|batches|] == batches;
  }

  lemma DeliverKeeps(s: State, r: Record)
    requires Inv(s) && ValidDrops(s.config.opcodeDrops)
    ensures Inv(OnDeliver(s, r))
  {
    assert s.accepted + [] == s.accepted;
  }

  lemma DecodedSendKeeps(s: State)
    requires Inv(s) && s.callback.SendDecoded?
    ensures Inv(OnCallbackSends(s))
  {
    var r := s.callback.record;
    SendKeepsChannel(s.decodedChannel, r, false);
    DecodedSendKeepsReceived(s.decodedChannel, r);
    var t := OnCallbackSends(s);
    assert t.rawChannel == s.rawChannel && t.decodedChannel == TrySend(s.decodedChannel, r, false).0;
    assert ConsumerInv(t) by {
      assert t.consumer == s.consumer && t.returned == s.returned;
    }
  }

  lemma DecodedSendKeepsReceived(c: Channel, r: Record)
    ensures TrySend(c, r, false).0.received == c.received
  {
  }

  lemma RawSendKeeps(s: State)
    requires Inv(s) && s.callback.SendRaw?
    ensures Inv(OnCallbackSends(s))
  {
    var r, blocked := s.callback.record, s.consumer.Blocked?;
    SendKeepsChannel(s.rawChannel, r, blocked);
    var t := OnCallbackSends(s);
    assert t.decodedChannel == s.decodedChannel && t.rawChannel == TrySend(s.rawChannel, r, blocked).0;
    RawSendCounts(s);
  }

  /** A raw event goes into the queue, is handed over, or is dropped; only a hand-over concerns the consumer. */
  lemma RawSendCounts(s: State)
    requires ConsumerInv(s) && s.callback.SendRaw?
    requires s.rawChannel.capacity == s.config.capacity
    ensures ConsumerInv(OnCallbackSends(s))
  {
    var r, t := s.callback.record, OnCallbackSends(s);
    if |s.rawChannel.queue| >= s.rawChannel.capacity && s.rawChannel.capacity == 0 && s.consumer.Blocked? {
      assert t.consumer == Timed([r]) && t.rawChannel.received == s.rawChannel.received + [r];
      EmptyRight(DrainedBy(s.returned, Raw));
    } else {
      assert t.consumer == s.consumer && t.rawChannel.received == s.rawChannel.received;
    }
  }

  lemma CallbackKeeps(s: State)
    requires Inv(s)
    ensures Inv(OnCallbackSends(s))
  {
    match s.callback
    case Waiting =>
    case SendDecoded(_) => DecodedSendKeeps(s);
    case SendRaw(_) => RawSendKeeps(s);
  }

  /** A call that ends moves what it has in hand into the list of batches. */
  lemma FinishCounts(s: State, b: Batch, counted: nat)
    requires ConsumerInv(s) && Honest(b) && counted + CountedInHand(s.consumer) == |b.events|
    requires b.drained == InHand(s.consumer, b.stream)
    requires forall k :: k != b.stream ==> InHand(s.consumer, k) == []
    ensures ConsumerInv(Finish(s, b, counted))
  {
    ReturnedSnoc(s.returned, b);
  }

  lemma FinishKeeps(s: State, b: Batch, counted: nat)
    requires Inv(s) && Honest(b) && counted + CountedInHand(s.consumer) == |b.events|
    requires b.drained == InHand(s.consumer, b.stream)
    requires forall k :: k != b.stream ==> InHand(s.consumer, k) == []
    ensures Inv(Finish(s, b, counted))
  {
    FinishCounts(s, b, counted);
  }

  lemma BlockedKeeps(s: State)
    requires Inv(s) && s.consumer.Blocked?
    ensures Inv(BlockedReceive(s))
  {
    if s.rawChannel.queue != [] {
      ReceiveKeepsChannel(s.rawChannel);
    }
  }

  lemma TimedKeeps(s: State)
    requires Inv(s) && s.consumer.Timed?
    ensures Inv(TimedReceive(s))
  {
    if s.rawChannel.queue != [] {
      ReceiveKeepsChannel(s.rawChannel);
    } else {
      KeepEverything(s.consumer.batch);
      FinishKeeps(s, Batch(Raw, Everything(), s.consumer.batch, s.consumer.batch), |s.consumer.batch|);
    }
  }

  /** What a drain under way did to the books: one event more received and in hand, in the batch if it is kept. */
  lemma ReceivedOne(s: State, t: State, e: Record, kept: bool)
    requires ConsumerInv(s) && s.consumer.Filtered? && t.consumer.Filtered? && t.config == s.config
    requires t.returned == s.returned && t.consumer.stream == s.consumer.stream
             && t.consumer.filter == s.consumer.filter
    requires kept == s.consumer.filter(e) && t.consumer.drained == s.consumer.drained + [e]
    requires t.consumer.batch == if kept then s.consumer.batch + [e] else s.consumer.batch
    requires t.eventsProcessed == if kept then s.eventsProcessed + 1 else s.eventsProcessed
    requires t.rawChannel.received
          == if s.consumer.stream.Raw? then s.rawChannel.received + [e] else s.rawChannel.received
    requires t.decodedChannel.received
          == if s.consumer.stream.Raw? then s.decodedChannel.received else s.decodedChannel.received + [e]
    ensures ConsumerInv(t)
  {
    assert t.consumer.batch == Keep(t.consumer.drained, t.consumer.filter) by {
      KeepSnoc(s.consumer.drained, s.consumer.filter, e);
    }
    assert t.rawChannel.received == DrainedBy(t.returned, Raw) + InHand(t.consumer, Raw) by {
      ConcatAssoc(DrainedBy(s.returned, Raw), s.consumer.drained, [e]);
    }
    assert t.decodedChannel.received == DrainedBy(t.returned, Decoded) + InHand(t.consumer, Decoded) by {
      ConcatAssoc(DrainedBy(s.returned, Decoded), s.consumer.drained, [e]);
    }
  }

  /** The books of a filtered drain that received an event: it joins the batch exactly if the filter keeps it. */
  lemma FilteredCounts(s: State)
    requires s.consumer.Filtered? && ConsumerInv(s)
    requires (if s.consumer.stream.Raw? then s.rawChannel else s.decodedChannel).queue != []
    ensures ConsumerInv(FilteredReceive(s))
  {
    var c := if s.consumer.stream.Raw? then s.rawChannel else s.decodedChannel;
    ReceivedOne(s, FilteredReceive(s), c.queue[0], s.consumer.filter(c.queue[0]));
  }

  lemma FilteredRawKeeps(s: State)
    requires Inv(s) && s.consumer.Filtered? && s.consumer.stream.Raw?
    ensures Inv(FilteredReceive(s))
  {
    if s.rawChannel.queue != [] {
      FilteredCounts(s);
      var t := FilteredReceive(s);
      ReceiveKeepsChannel(s.rawChannel);
      assert t.rawChannel == Receive(s.rawChannel);
      assert t.decodedChannel == s.decodedChannel;
    } else {
      FinishKeeps(s, Batch(s.consumer.stream, s.consumer.filter, s.consumer.drained, s.consumer.batch), 0);
    }
  }

  lemma FilteredDecodedKeeps(s: State)
    requires Inv(s) && s.consumer.Filtered? && s.consumer.stream.Decoded?
    ensures Inv(FilteredReceive(s))
  {
    if s.decodedChannel.queue != [] {
      FilteredCounts(s);
      var t := FilteredReceive(s);
      ReceiveKeepsChannel(s.decodedChannel);
      assert t.decodedChannel == Receive(s.decodedChannel);
      assert t.rawChannel == s.rawChannel;
    } else {
      FinishKeeps(s, Batch(s.consumer.stream, s.consumer.filter, s.consumer.drained, s.consumer.batch), 0);
    }
  }

  lemma ConsumerKeeps(s: State)
    requires Inv(s)
    ensures Inv(OnConsumerReceives(s))
  {
    match s.consumer
    case Idle =>
    case Blocked => BlockedKeeps(s);
    case Timed(_) => TimedKeeps(s);
    case Filtered(stream, _, _, _) =>
      if stream.Raw? {
        FilteredRawKeeps(s);
      } else {
        FilteredDecodedKeeps(s);
      }
  }

  lemma StepKeeps(s: State, a: Action)
    requires Inv(s) && ValidDrops(s.config.opcodeDrops)
    ensures Inv(Next(s, a))
  {
    match a
    case Deliver(r) => DeliverKeeps(s, r);
    case CallbackSends => CallbackKeeps(s);
    case BeginDrain(stream, filter) =>
    case BeginTimedDrain =>
    case ConsumerReceives => ConsumerKeeps(s);
    case TimeoutExpires =>
      if s.consumer.Blocked? {
        FinishKeeps(s, Batch(Raw, Everything(), [], []), 0);
      }
  }

  /** The invariant holds in every state of every interleaving of callbacks and drains. */
  lemma {:induction false} EveryRunKeeps(s: State, actions: seq<Action>)
    requires Inv(s) && ValidDrops(s.config.opcodeDrops)
    ensures Inv(Run(s, actions))
    decreases |actions|
  {
    if actions != [] {
      StepKeeps(s, actions[0]);
      EveryRunKeeps(Next(s, actions[0]), actions[1..]);
    }
  }

  /**
   The accounting a user sees, in every reachable state: on each enabled stream the events accepted
   are those received, queued and dropped (and the one being offered); received then queued is an
   in-order subsequence of them; no queue exceeds its capacity; `events_dropped` is the sum over
   both streams; what the calls received, one after the other, is what left the channel; each
   batch is what its filter kept; and between calls `events_processed` is the total of the
   returned batch sizes.
   */
  lemma PipelineAccounting(config: Config, actions: seq<Action>)
    requires ValidDrops(config.opcodeDrops)
    ensures var s := Run(Init(config), actions);
            && (config.raw && s.callback.Waiting? ==>
                  && |s.accepted| == |s.rawChannel.received| + |s.rawChannel.queue| + s.rawChannel.lost
                  && Subsequence(s.rawChannel.received + s.rawChannel.queue, s.accepted))
            && (config.decoded && !s.callback.SendDecoded? ==>
                  && |s.accepted| == |s.decodedChannel.received| + |s.decodedChannel.queue| + s.decodedChannel.lost
                  && Subsequence(s.decodedChannel.received + s.decodedChannel.queue, s.accepted))
            && |s.rawChannel.queue| <= config.capacity && |s.decodedChannel.queue| <= config.capacity
            && s.dropped == s.rawChannel.lost + s.decodedChannel.lost
            && AllHonest(s.returned)
            && (s.consumer.Idle? ==>
                  && s.rawChannel.received == DrainedBy(s.returned, Raw)
                  && s.decodedChannel.received == DrainedBy(s.returned, Decoded)
                  && s.eventsProcessed == TotalReturned(s.returned))
  {
    InitHolds(config);
    EveryRunKeeps(Init(config), actions);
    var s := Run(Init(config), actions);
    assert s.decodedChannel.offered + [] == s.decodedChannel.offered;
    assert s.rawChannel.offered + [] == s.rawChannel.offered;
  }
}
