/**
 Which events of an ETW session reach the user (src/etw/session.rs, `trace_callback_fn`): which of those that
 ETW delivers the callback offers, and which of its offers a channel keeps, over every run.
 */
module PipelineDelivery {
  import opened Wrappers
  import opened OpcodeDrops
  import opened Sequences
  import opened EventPipeline

  // ----- what the callback lets through -----

  /** Some stream is open, the process is in the filter if there is one, and no entry names class and opcode. */
  ghost predicate Wanted(config: Config, r: Record)
    requires ValidDrops(config.opcodeDrops)
  {
    && (config.decoded || config.raw)
    && (config.processFilter == None || r.processId in config.processFilter.value)
    && forall i :: 0 <= i < |config.opcodeDrops| && config.opcodeDrops[i].provider == r.provider ==>
                     !config.opcodeDrops[i].Contains(r.opcode)
  }

  /** How many offers an event makes: one per open stream. */
  function Offers(config: Config): (n: nat)
  {
    (if config.decoded then 1 else 0) + (if config.raw then 1 else 0)
  }

  /**
   The wanted events among those delivered while the callback has no offer left to make, in order; `left` is
   the number of offers it has still to make for the event before.
   */
  ghost function Passed(config: Config, actions: seq<Action>, left: nat): (events: seq<Record>)
    requires ValidDrops(config.opcodeDrops)
    decreases |actions|
  {
    if actions == [] then []
    else if actions[0].Deliver? && left == 0 && Wanted(config, actions[0].record) then
      [actions[0].record] + Passed(config, actions[1..], Offers(config))
    else if actions[0].CallbackSends? && left > 0 then Passed(config, actions[1..], left - 1)
    else Passed(config, actions[1..], left)
  }

  function Left(s: State): (n: nat)
  {
    match s.callback
    case Waiting => 0
    case SendDecoded(_) => Offers(s.config)
    case SendRaw(_) => 1
  }

  /** The callback offers only to open streams. */
  predicate Aligned(s: State) {
    (s.callback.SendDecoded? ==> s.config.decoded) && (s.callback.SendRaw? ==> s.config.raw)
  }

  lemma StepPasses(s: State, a: Action)
    requires ValidDrops(s.config.opcodeDrops) && Aligned(s)
    ensures var t := Next(s, a);
            && Aligned(t)
            && (a.Deliver? && Left(s) == 0 && Wanted(s.config, a.record) ==>
                  t.accepted == s.accepted + [a.record] && Left(t) == Offers(s.config))
            && (!(a.Deliver? && Left(s) == 0 && Wanted(s.config, a.record)) ==>
                  && t.accepted == s.accepted
                  && Left(t) == if a.CallbackSends? && Left(s) > 0 then Left(s) - 1 else Left(s))
  {
    if a.Deliver? {
      WantedIff(s.config, a.record);
    }
  }

  lemma WantedIff(config: Config, r: Record)
    requires ValidDrops(config.opcodeDrops)
    ensures Wanted(config, r) <==> Accepts(config, r) && (config.decoded || config.raw)
  {
  }

  lemma {:induction false} RunPasses(s: State, actions: seq<Action>)
    requires ValidDrops(s.config.opcodeDrops) && Aligned(s)
    ensures Run(s, actions).accepted == s.accepted + Passed(s.config, actions, Left(s))
    decreases |actions|
  {
    if actions == [] {
      EmptyRight(s.accepted);
    } else {
      var t := Next(s, actions[0]);
      StepPasses(s, actions[0]);
      RunPasses(t, actions[1..]);
      if actions[0].Deliver? {
        ConcatAssoc(s.accepted, [actions[0].record], Passed(s.config, actions[1..], Left(t)));
      }
    }
  }

  // ----- what the channels keep -----

  function ChannelIn(s: State, stream: StreamKind): (c: Channel)
  {
    if stream.Raw? then s.rawChannel else s.decodedChannel
  }

  /** The action makes an offer to the stream. */
  predicate OffersTo(s: State, a: Action, stream: StreamKind) {
    a.CallbackSends? && if stream.Raw? then s.callback.SendRaw? else s.callback.SendDecoded?
  }

  /** There is room: a free slot, or on a raw stream without slots a receiver that waits. */
  predicate HasRoom(s: State, stream: StreamKind) {
    || |ChannelIn(s, stream).queue| < s.config.capacity
    || (stream.Raw? && s.config.capacity == 0 && s.consumer.Blocked?)
  }

  /** The events offered to the stream while it had room, in order. */
  ghost function Kept(s: State, actions: seq<Action>, stream: StreamKind): (events: seq<Record>)
    requires ValidDrops(s.config.opcodeDrops)
    decreases |actions|
  {
    if actions == [] then []
    else
      (if OffersTo(s, actions[0], stream) && HasRoom(s, stream) then [s.callback.record] else [])
      + Kept(Next(s, actions[0]), actions[1..], stream)
  }

  /** How many offers the stream had no room for. */
  ghost function Refused(s: State, actions: seq<Action>, stream: StreamKind): (n: nat)
    requires ValidDrops(s.config.opcodeDrops)
    decreases |actions|
  {
    if actions == [] then 0
    else
      (if OffersTo(s, actions[0], stream) && !HasRoom(s, stream) then 1 else 0)
      + Refused(Next(s, actions[0]), actions[1..], stream)
  }

  predicate Sized(s: State) {
    s.rawChannel.capacity == s.config.capacity && s.decodedChannel.capacity == s.config.capacity
    && |s.rawChannel.queue| <= s.config.capacity && |s.decodedChannel.queue| <= s.config.capacity
  }

  /** One step: an offer with room joins what the channel holds or has handed over, one without is lost. */
  lemma StepKeepsOffer(s: State, a: Action, stream: StreamKind)
    requires ValidDrops(s.config.opcodeDrops) && Sized(s)
    ensures var t := Next(s, a);
            var c, d := ChannelIn(s, stream), ChannelIn(t, stream);
            && Sized(t)
            && d.received + d.queue
               == (c.received + c.queue)
                  + (if OffersTo(s, a, stream) && HasRoom(s, stream) then [s.callback.record] else [])
            && d.lost == c.lost + if OffersTo(s, a, stream) && !HasRoom(s, stream) then 1 else 0
  {
    var t := Next(s, a);
    var c, d := ChannelIn(s, stream), ChannelIn(t, stream);
    EmptyRight(c.received + c.queue);
    if OffersTo(s, a, stream) {
      OfferKept(s, stream);
    } else if d != c {
      assert c.queue != [] && d == Receive(c);
      ReceiveKeepsAll(c);
    }
  }

  lemma OfferKept(s: State, stream: StreamKind)
    requires Sized(s) && OffersTo(s, CallbackSends, stream)
    ensures var c, d := ChannelIn(s, stream), ChannelIn(OnCallbackSends(s), stream);
            && (HasRoom(s, stream) ==>
                  d.received + d.queue == (c.received + c.queue) + [s.callback.record] && d.lost == c.lost)
            && (!HasRoom(s, stream) ==> d.received == c.received && d.queue == c.queue && d.lost == c.lost + 1)
  {
    var c, r := ChannelIn(s, stream), s.callback.record;
    assert c.received + (c.queue + [r]) == (c.received + c.queue) + [r];
    if |c.queue| == 0 {
      assert (c.received + [r]) + c.queue == (c.received + c.queue) + [r];
    }
  }

  lemma ReceiveKeepsAll(c: Channel)
    requires c.queue != []
    ensures Receive(c).received + Receive(c).queue == c.received + c.queue && Receive(c).lost == c.lost
  {
  }

  lemma {:induction false} RunKeepsOffers(s: State, actions: seq<Action>, stream: StreamKind)
    requires ValidDrops(s.config.opcodeDrops) && Sized(s)
    ensures var c, d := ChannelIn(s, stream), ChannelIn(Run(s, actions), stream);
            && d.received + d.queue == (c.received + c.queue) + Kept(s, actions, stream)
            && d.lost == c.lost + Refused(s, actions, stream)
    decreases |actions|
  {
    var c := ChannelIn(s, stream);
    if actions == [] {
      EmptyRight(c.received + c.queue);
    } else {
      var t := Next(s, actions[0]);
      StepKeepsOffer(s, actions[0], stream);
      RunKeepsOffers(t, actions[1..], stream);
      ConcatAssoc(c.received + c.queue,
                  if OffersTo(s, actions[0], stream) && HasRoom(s, stream) then [s.callback.record] else [],
                  Kept(t, actions[1..], stream));
    }
  }

  /**
   Over every run: the callback offers exactly the wanted events, in order; each stream has received and
   queued exactly those offered while it had room, in order; and `events_dropped` counts exactly the offers
   for which there was none.
   */
  lemma PipelineDelivers(config: Config, actions: seq<Action>)
    requires ValidDrops(config.opcodeDrops)
    ensures var s := Run(Init(config), actions);
            && s.accepted == Passed(config, actions, 0)
            && s.rawChannel.received + s.rawChannel.queue == Kept(Init(config), actions, Raw)
            && s.decodedChannel.received + s.decodedChannel.queue == Kept(Init(config), actions, Decoded)
            && s.dropped == Refused(Init(config), actions, Raw) + Refused(Init(config), actions, Decoded)
  {
    InitHolds(config);
    EveryRunKeeps(Init(config), actions);
    RunPasses(Init(config), actions);
    RunKeepsOffers(Init(config), actions, Raw);
    RunKeepsOffers(Init(config), actions, Decoded);
    EmptyLeft(Passed(config, actions, 0));
    EmptyLeft(Kept(Init(config), actions, Raw));
    EmptyLeft(Kept(Init(config), actions, Decoded));
  }

  /** Whenever an offer is made to it, the stream has room. */
  ghost predicate AlwaysRoom(s: State, actions: seq<Action>, stream: StreamKind)
    requires ValidDrops(s.config.opcodeDrops)
    decreases |actions|
  {
    actions == [] || ((OffersTo(s, actions[0], stream) ==> HasRoom(s, stream))
                      && AlwaysRoom(Next(s, actions[0]), actions[1..], stream))
  }

  lemma {:induction false} RoomRefusesNothing(s: State, actions: seq<Action>, stream: StreamKind)
    requires ValidDrops(s.config.opcodeDrops)
    ensures AlwaysRoom(s, actions, stream) <==> Refused(s, actions, stream) == 0
    decreases |actions|
  {
    if actions != [] {
      RoomRefusesNothing(Next(s, actions[0]), actions[1..], stream);
    }
  }

  /** Nothing is dropped exactly if at each offer there was room; then a stream gets every wanted event. */
  lemma NothingDroppedIff(config: Config, actions: seq<Action>)
    requires ValidDrops(config.opcodeDrops)
    ensures var s := Run(Init(config), actions);
            && (s.dropped == 0
                <==> AlwaysRoom(Init(config), actions, Raw) && AlwaysRoom(Init(config), actions, Decoded))
            && (s.dropped == 0 && s.callback.Waiting? && config.raw ==>
                  s.rawChannel.received + s.rawChannel.queue == Passed(config, actions, 0))
            && (s.dropped == 0 && s.callback.Waiting? && config.decoded ==>
                  s.decodedChannel.received + s.decodedChannel.queue == Passed(config, actions, 0))
  {
    var s := Run(Init(config), actions);
    PipelineDelivers(config, actions);
    PipelineAccounting(config, actions);
    RoomRefusesNothing(Init(config), actions, Raw);
    RoomRefusesNothing(Init(config), actions, Decoded);
    if s.dropped == 0 {
      WholeSubsequence(s.rawChannel.received + s.rawChannel.queue, s.accepted);
      WholeSubsequence(s.decodedChannel.received + s.decodedChannel.queue, s.accepted);
    }
  }

  lemma {:induction false} SubsequenceIsShorter(a: seq<Record>, b: seq<Record>)
    requires Subsequence(a, b)
    ensures |a| <= |b|
    decreases |b|
  {
    if a != [] {
      var n := |b| - 1;
      if Subsequence(a, b[..n]) {
        SubsequenceIsShorter(a, b[..n]);
      } else {
        SubsequenceIsShorter(a[..|a| - 1], b[..n]);
      }
    }
  }

  lemma {:induction false} WholeSubsequence(a: seq<Record>, b: seq<Record>)
    ensures Subsequence(a, b) && |a| == |b| ==> a == b
    decreases |b|
  {
    if Subsequence(a, b) && |a| == |b| && b != [] {
      var n := |b| - 1;
      if Subsequence(a, b[..n]) {
        SubsequenceIsShorter(a, b[..n]);
      }
      WholeSubsequence(a[..n], b[..n]);
      assert a == a[..n] + [a[n]] && b == b[..n] + [b[n]];
    }
  }
}
