/**
 Overlapped reads and writes of a pipe server with a timeout (src/pipes/server.rs). The kernel's
 side is scripted: a script says what each system call of one operation answers and when, and all
 statements hold for every script.
 */
module OverlappedPipe {
  import opened Wrappers
  import opened Bytes
  import opened Sequences

  const IO_PENDING := 997
  const MORE_DATA := 234
  const BROKEN_PIPE := 109
  const PIPE_NOT_CONNECTED := 233

  /** The wait that never times out. */
  const INFINITE: nat := 0xFFFF_FFFF

  /** What the caller asked for: room for bytes to come in, or bytes to go out. */
  datatype Request = ReadInto(room: nat) | WriteFrom(data: seq<byte>)

  /** How the kernel finishes an operation: it moves up to `count` bytes and reports success or a code. */
  datatype Completion = Success(count: nat) | Failure(code: nat, count: nat)

  datatype Operation = Idle | Pending(request: Request) | Completed(completion: Completion)

  /**
   One operation's environment. `startCode` is the error of ReadFile or WriteFile, if any;
   `arriving` is what the client writes while the operation is under way; `inTime` says whether it
   completes before the wait gives up; a `completion` after that may be the cancellation or may have
   outrun it.
   */
  datatype Script = Script(
    resetOk: bool,
    startCode: Option<nat>,
    arriving: seq<byte>,
    waitFails: bool,
    inTime: bool,
    completion: Completion
  )

  datatype IoError = ResetFailed | TimedOut | Failed(code: nat) | UnexpectedMoreData | BrokenPipe

  datatype Outcome = Done(count: nat) | Partial(count: nat) | EndOfStream

  datatype PipeReadError = ErrorMoreData | ErrorEndOfStream | ErrorFailed(code: nat)

  function ClassifyPipeReadError(code: nat): (e: PipeReadError)
  {
    if code == BROKEN_PIPE || code == PIPE_NOT_CONNECTED then ErrorEndOfStream
    else if code == MORE_DATA then ErrorMoreData
    else ErrorFailed(code)
  }

  /** `duration_to_wait_ms`: whole milliseconds, clamped to 32 bits; the clamp is the infinite wait. */
  function DurationToWaitMs(nanoseconds: nat): (ms: nat)
    ensures ms <= 0xFFFF_FFFF
    ensures ms == 0xFFFF_FFFF <==> nanoseconds >= 0xFFFF_FFFF * 1_000_000
    ensures ms < 0xFFFF_FFFF ==> ms * 1_000_000 <= nanoseconds < (ms + 1) * 1_000_000
  {
    var ms := nanoseconds / 1_000_000;
    if ms < INFINITE then ms else INFINITE
  }

  function TimeoutMs(ioTimeout: Option<nat>): (ms: nat)
  {
    if ioTimeout.None? then INFINITE else DurationToWaitMs(ioTimeout.value)
  }

  // ----- what an operation does, by its script -----

  /**
   How many bytes a completion moves. A read that fails, other than for a message that goes on, takes
   nothing out of the pipe; a write that fails may have put out a part.
   */
  function Moved(completion: Completion, request: Request, available: nat): (n: nat)
    ensures request.ReadInto? ==> n <= request.room && n <= available
    ensures request.WriteFrom? ==> n <= |request.data|
  {
    var limit := if request.ReadInto? then Min(request.room, available) else |request.data|;
    if completion.Success? || completion.code == MORE_DATA || request.WriteFrom? then Min(completion.count, limit)
    else 0
  }

  /** The operation was accepted by the kernel, so its buffer and OVERLAPPED are in use. */
  predicate Starts(script: Script) {
    script.resetOk && (script.startCode.None? || script.startCode.value == IO_PENDING
                       || script.startCode.value == MORE_DATA)
  }

  /** The completion the kernel reports: a start that answered at once fixes its kind. */
  function CompletionOf(script: Script): (c: Completion)
  {
    if script.startCode.None? then Success(script.completion.count)
    else if script.startCode.value == MORE_DATA then Failure(MORE_DATA, script.completion.count)
    else script.completion
  }

  predicate TimesOut(script: Script, ioTimeout: Option<nat>) {
    && Starts(script) && script.startCode == Some(IO_PENDING)
    && !script.waitFails && !script.inTime && TimeoutMs(ioTimeout) != INFINITE
  }

  /** What the caller learns of an operation that moved n bytes. */
  function Reported(script: Script, ioTimeout: Option<nat>, n: nat): (r: Result<Outcome, IoError>)
  {
    if !script.resetOk then Err(ResetFailed)
    else if !Starts(script) then
      match ClassifyPipeReadError(script.startCode.value)
      case ErrorEndOfStream => Ok(EndOfStream)
      case ErrorFailed(code) => Err(Failed(code))
      case ErrorMoreData => Err(UnexpectedMoreData)
    else if TimesOut(script, ioTimeout) then Err(TimedOut)
    else if CompletionOf(script).Success? then Ok(Done(n))
    else
      match ClassifyPipeReadError(CompletionOf(script).code)
      case ErrorMoreData => Ok(Partial(n))
      case ErrorEndOfStream => Ok(EndOfStream)
      case ErrorFailed(code) => Err(Failed(code))
  }

  // ----- what the caller is told, in Windows error codes -----

  /** The code the start was refused with; pending (997) and a message that goes on (234) are no refusals. */
  function RefusedWith(script: Script): (code: Option<nat>)
  {
    if script.startCode in {None, Some(997), Some(234)} then None else script.startCode
  }

  /** A pending operation (997) that is not complete when a finite wait, under 2^32 - 1 ms, is over. */
  predicate GivesUp(script: Script, ioTimeout: Option<nat>) {
    && script.resetOk && script.startCode == Some(997) && !script.waitFails && !script.inTime
    && ioTimeout.Some? && ioTimeout.value < 0xFFFF_FFFF * 1_000_000
  }

  /** The code an accepted operation ends with; None for success. */
  function EndsWith(script: Script): (code: Option<nat>)
  {
    if script.startCode == None then None
    else if script.startCode == Some(234) then Some(234)
    else if script.completion.Success? then None
    else Some(script.completion.code)
  }

  /** 109 and 233 are the client's end of the pipe gone. */
  predicate ClientGone(code: Option<nat>) {
    code == Some(109) || code == Some(233)
  }

  /** What a read tells: how many bytes, none where the client is gone, a message cut (234) like a whole one. */
  ghost predicate ReadTells(script: Script, ioTimeout: Option<nat>, n: nat, r: Result<nat, IoError>) {
    if !script.resetOk then r == Err(ResetFailed)
    else if RefusedWith(script).Some? then
      r == if ClientGone(RefusedWith(script)) then Ok(0) else Err(Failed(RefusedWith(script).value))
    else if GivesUp(script, ioTimeout) then r == Err(TimedOut)
    else if EndsWith(script) in {None, Some(234)} then r == Ok(n)
    else r == if ClientGone(EndsWith(script)) then Ok(0) else Err(Failed(EndsWith(script).value))
  }

  /** What a write tells: the same, but a client that is gone is an error. */
  ghost predicate WriteTells(script: Script, ioTimeout: Option<nat>, n: nat, r: Result<nat, IoError>) {
    if !script.resetOk then r == Err(ResetFailed)
    else if RefusedWith(script).Some? then
      r == if ClientGone(RefusedWith(script)) then Err(BrokenPipe) else Err(Failed(RefusedWith(script).value))
    else if GivesUp(script, ioTimeout) then r == Err(TimedOut)
    else if EndsWith(script) in {None, Some(234)} then r == Ok(n)
    else r == if ClientGone(EndsWith(script)) then Err(BrokenPipe) else Err(Failed(EndsWith(script).value))
  }

  lemma TimesOutIff(script: Script, ioTimeout: Option<nat>)
    ensures TimesOut(script, ioTimeout) <==> GivesUp(script, ioTimeout)
    ensures Starts(script) <==> script.resetOk && RefusedWith(script).None?
  {
  }

  // ----- the server -----

  class NamedPipeServer {
    const ioTimeout: Option<nat>
    var ioEventSet: bool
    var operation: Operation
    /** What the client wrote and nobody took yet; what went out to the client. */
    var incoming: seq<byte>
    var outgoing: seq<byte>
    /** What the latest operation put into the caller's buffer. */
    var buffer: seq<byte>

    /** The event is set exactly when the operation under way is complete. */
    ghost predicate EventTells()
      reads this
    {
      match operation
      case Idle => true
      case Pending(_) => !ioEventSet
      case Completed(_) => ioEventSet
    }

    constructor (ioTimeout: Option<nat>)
      ensures this.ioTimeout == ioTimeout && operation.Idle? && incoming == [] && outgoing == [] && buffer == []
    {
      this.ioTimeout := ioTimeout;
      ioEventSet, operation, incoming, outgoing, buffer := false, Idle, [], [], [];
    }

    /** The kernel completes the pending operation: it moves the bytes and sets the event. */
    method KernelCompletes(completion: Completion)
      requires operation.Pending?
      modifies this
      ensures var request := old(operation).request;
              var n := Moved(completion, request, old(|incoming|));
              && operation == Completed(if completion.Success? then Success(n) else Failure(completion.code, n))
              && ioEventSet
              && (if request.ReadInto? then
                    buffer == old(incoming)[..n] && incoming == old(incoming)[n..] && outgoing == old(outgoing)
                  else
                    buffer == [] && incoming == old(incoming) && outgoing == old(outgoing) + request.data[..n])
    {
      var request := operation.request;
      var n := Moved(completion, request, |incoming|);
      if request.ReadInto? {
        buffer, incoming := incoming[..n], incoming[n..];
      } else {
        buffer, outgoing := [], outgoing + request.data[..n];
      }
      operation := Completed(if completion.Success? then Success(n) else Failure(completion.code, n));
      ioEventSet := true;
    }

    /** The operation is complete and has moved exactly the bytes its completion says. */
    ghost predicate Finished(request: Request, script: Script, incomingBefore: seq<byte>, outgoingBefore: seq<byte>)
      reads this
    {
      var completion := CompletionOf(script);
      var n := Moved(completion, request, |incomingBefore|);
      && operation == Completed(if completion.Success? then Success(n) else Failure(completion.code, n))
      && (if request.ReadInto? then
            buffer == incomingBefore[..n] && incoming == incomingBefore[n..] && outgoing == outgoingBefore
          else
            buffer == [] && incoming == incomingBefore && outgoing == outgoingBefore + request.data[..n])
    }

    /** ReadFile or WriteFile: refused, under way, or complete at once. */
    method Start(request: Request, script: Script) returns (code: Option<nat>)
      requires operation.Idle? && !ioEventSet && script.resetOk
      modifies this
      ensures code == script.startCode && EventTells()
      ensures operation.Idle? <==> !Starts(script)
      ensures operation.Pending? <==> script.startCode == Some(IO_PENDING)
      ensures operation.Pending? ==> operation.request == request
      ensures !operation.Completed? ==> buffer == [] && incoming == old(incoming) && outgoing == old(outgoing)
      ensures operation.Completed? ==> Finished(request, script, old(incoming), old(outgoing))
    {
      buffer := [];
      code := script.startCode;
      if code.Some? && code.value != IO_PENDING && code.value != MORE_DATA {
        return;
      }
      operation := Pending(request);
      if code != Some(IO_PENDING) {
        KernelCompletes(CompletionOf(script));
      }
    }

    /** WaitForSingleObject on the event: only a finite wait on a pending operation can time out. */
    method Await(timeoutMs: nat, script: Script) returns (timedOut: bool)
      requires !operation.Idle? && EventTells()
      requires operation.Pending? <==> script.startCode == Some(IO_PENDING)
      modifies this
      ensures timedOut <==> old(operation).Pending? && !script.waitFails && !script.inTime && timeoutMs != INFINITE
      ensures operation == old(operation) || (old(operation).Pending? && !timedOut)
      ensures operation == old(operation) ==>
                && incoming == old(incoming) && outgoing == old(outgoing)
                && buffer == old(buffer) && ioEventSet == old(ioEventSet)
      ensures operation != old(operation) ==>
                Finished(old(operation).request, script, old(incoming), old(outgoing)) && ioEventSet
    {
      if script.waitFails || ioEventSet {
        return false;
      }
      if script.inTime || timeoutMs == INFINITE {
        KernelCompletes(script.completion);
        return false;
      }
      return true;
    }

    /** GetOverlappedResult with its wait flag: it returns once the event is set. */
    method AwaitResult(script: Script) returns (result: Result<nat, (nat, nat)>)
      requires !operation.Idle? && EventTells()
      requires operation.Pending? ==> script.startCode == Some(IO_PENDING)
      modifies this
      ensures operation.Completed?
      ensures old(operation).Completed? ==>
                && operation == old(operation) && incoming == old(incoming)
                && outgoing == old(outgoing) && buffer == old(buffer)
      ensures old(operation).Pending? ==> Finished(old(operation).request, script, old(incoming), old(outgoing))
      ensures result == match operation.completion
                        case Success(n) => Ok(n)
                        case Failure(code, n) => Err((code, n))
    {
      if operation.Pending? {
        KernelCompletes(script.completion);
      }
      match operation.completion
      case Success(n) => return Ok(n);
      case Failure(code, n) => return Err((code, n));
    }

    /**
     `overlapped_io`: reset the event, start, wait, and on a timeout cancel and wait for the
     cancellation. On every path it returns with no operation pending.
     */
    method OverlappedIo(request: Request, script: Script) returns (result: Result<Outcome, IoError>)
      requires !operation.Pending?
      modifies this
      ensures !operation.Pending?
      ensures Starts(script) ==> Finished(request, script, old(incoming) + script.arriving, old(outgoing))
      ensures !Starts(script) ==>
                buffer == [] && incoming == old(incoming) + script.arriving && outgoing == old(outgoing)
      ensures result == Reported(script, ioTimeout,
                                 Moved(CompletionOf(script), request, |old(incoming) + script.arriving|))
    {
      incoming := incoming + script.arriving;
      buffer := [];
      if !script.resetOk {
        return Err(ResetFailed);
      }
      ioEventSet, operation := false, Idle;
      var code := Start(request, script);
      if code.Some? && code.value != IO_PENDING && code.value != MORE_DATA {
        match ClassifyPipeReadError(code.value)
        case ErrorEndOfStream => return Ok(EndOfStream);
        case ErrorFailed(c) => return Err(Failed(c));
        case ErrorMoreData => return Err(UnexpectedMoreData);
      }
      var timedOut := Await(TimeoutMs(ioTimeout), script);
      if timedOut {
        var _ := AwaitResult(script);
        return Err(TimedOut);
      }
      var outcome := AwaitResult(script);
      match outcome
      case Ok(n) => return Ok(Done(n));
      case Err((c, n)) =>
        match ClassifyPipeReadError(c)
        case ErrorMoreData => return Ok(Partial(n));
        case ErrorEndOfStream => return Ok(EndOfStream);
        case ErrorFailed(e) => return Err(Failed(e));
    }

    /**
     `read`: the bytes put into the buffer are the next of the client's; the caller learns of all of
     them, unless the read timed out and its completion outran the cancellation.
     */
    method Read(room: nat, script: Script) returns (result: Result<nat, IoError>)
      requires !operation.Pending?
      modifies this
      ensures !operation.Pending? && outgoing == old(outgoing)
      ensures buffer + incoming == old(incoming) + script.arriving && |buffer| <= room
      ensures |buffer| == Taken(ReadCall(room, script), |old(incoming) + script.arriving|)
      ensures result.Ok? ==> result.value == |buffer|
      ensures result == Err(TimedOut) <==> TimesOut(script, ioTimeout)
      ensures result.Err? && buffer != [] ==> TimesOut(script, ioTimeout)
      ensures ReadTells(script, ioTimeout, |buffer|, result)
    {
      TimesOutIff(script, ioTimeout);
      var outcome := OverlappedIo(ReadInto(room), script);
      match outcome
      case Err(e) => return Err(e);
      case Ok(Done(n)) => return Ok(n);
      case Ok(Partial(n)) => return Ok(n);
      case Ok(EndOfStream) => return Ok(0);
    }

    /**
     `write`: what went out is a prefix of the data. The caller learns how much exactly if the result is
     a success; after a timeout, or a completion with an error, part of it may be out without a word.
     */
    method Write(data: seq<byte>, script: Script) returns (result: Result<nat, IoError>)
      requires !operation.Pending?
      modifies this
      ensures !operation.Pending? && incoming == old(incoming) + script.arriving
      ensures outgoing == old(outgoing) + data[..Sent(data, script)]
      ensures result.Ok? <==> Starts(script) && !TimesOut(script, ioTimeout) && Accepted(CompletionOf(script))
      ensures result.Ok? ==> result.value == Sent(data, script)
      ensures result == Err(TimedOut) <==> TimesOut(script, ioTimeout)
      ensures WriteTells(script, ioTimeout, Sent(data, script), result)
    {
      TimesOutIff(script, ioTimeout);
      var outcome := OverlappedIo(WriteFrom(data), script);
      match outcome
      case Err(e) => return Err(e);
      case Ok(Done(n)) => return Ok(n);
      case Ok(Partial(n)) => return Ok(n);
      case Ok(EndOfStream) => return Err(BrokenPipe);
    }
  }

  /** How much of the data a write puts out. */
  function Sent(data: seq<byte>, script: Script): (n: nat)
    ensures n <= |data|
  {
    if Starts(script) then Moved(CompletionOf(script), WriteFrom(data), 0) else 0
  }

  predicate Accepted(completion: Completion) {
    completion.Success? || completion.code == MORE_DATA
  }

  /** A write that breaks after three of four bytes: they are out, and the caller learns only of the broken pipe. */
  lemma BrokenWriteSendsUnseen()
    ensures var script := Script(true, Some(IO_PENDING), [], false, true, Failure(BROKEN_PIPE, 3));
            && Sent([1, 2, 3, 4], script) == 3
            && Reported(script, None, 3) == Ok(EndOfStream)
  {
  }

  // ----- whole runs of reads -----

  datatype ReadCall = ReadCall(room: nat, script: Script)

  /** How many bytes a read takes out of the pipe. */
  function Taken(call: ReadCall, available: nat): (n: nat)
    ensures n <= available
  {
    if Starts(call.script) then Moved(CompletionOf(call.script), ReadInto(call.room), available) else 0
  }

  function AllArriving(calls: seq<ReadCall>): (bytes: seq<byte>)
  {
    if calls == [] then [] else calls[0].script.arriving + AllArriving(calls[1..])
  }

  /** What the caller has received after these reads, and what is left in the pipe. */
  function ReadStream(calls: seq<ReadCall>, ioTimeout: Option<nat>, incoming: seq<byte>): (r: (seq<byte>, seq<byte>))
    decreases |calls|
  {
    if calls == [] then ([], incoming)
    else
      var all := incoming + calls[0].script.arriving;
      var n := Taken(calls[0], |all|);
      var (received, rest) := ReadStream(calls[1..], ioTimeout, all[n..]);
      (if TimesOut(calls[0].script, ioTimeout) then received else all[..n] + received, rest)
  }

  /** Some read timed out although its completion had already taken bytes. */
  predicate LosesRace(calls: seq<ReadCall>, ioTimeout: Option<nat>, incoming: seq<byte>)
    decreases |calls|
  {
    calls != []
    && var all := incoming + calls[0].script.arriving;
    var n := Taken(calls[0], |all|);
    (TimesOut(calls[0].script, ioTimeout) && n > 0) || LosesRace(calls[1..], ioTimeout, all[n..])
  }

  /** Joins what one read took with the rest of the stream. */
  lemma {:induction false} StreamStep(all: seq<byte>, n: nat, later: seq<byte>, received: seq<byte>, rest: seq<byte>)
    requires n <= |all|
    ensures all[..n] + received + rest == all + later <==> received + rest == all[n..] + later
  {
    var head := all[..n];
    assert head + received + rest == head + (received + rest);
    assert all + later == head + (all[n..] + later);
    SameHead(head, received + rest, all[n..] + later);
  }

  lemma {:induction false} SameHead(head: seq<byte>, a: seq<byte>, b: seq<byte>)
    ensures head + a == head + b <==> a == b
  {
    assert (head + a)[|head|..] == a && (head + b)[|head|..] == b;
  }

  lemma {:induction false} StreamLength(calls: seq<ReadCall>, ioTimeout: Option<nat>, incoming: seq<byte>)
    ensures var (received, rest) := ReadStream(calls, ioTimeout, incoming);
            && |received| + |rest| <= |incoming| + |AllArriving(calls)|
            && (|received| + |rest| == |incoming| + |AllArriving(calls)| <==> !LosesRace(calls, ioTimeout, incoming))
    decreases |calls|
  {
    if calls != [] {
      var all := incoming + calls[0].script.arriving;
      StreamLength(calls[1..], ioTimeout, all[Taken(calls[0], |all|)..]);
    }
  }

  /**
   Over every sequence of reads, what was received followed by what is left is what the client
   wrote, in order, exactly if no timed-out read had its completion outrun the cancellation.
   */
  lemma {:induction false} ReadsDeliverStreamIff(calls: seq<ReadCall>, ioTimeout: Option<nat>, incoming: seq<byte>)
    ensures var (received, rest) := ReadStream(calls, ioTimeout, incoming);
            received + rest == incoming + AllArriving(calls) <==> !LosesRace(calls, ioTimeout, incoming)
    decreases |calls|
  {
    StreamLength(calls, ioTimeout, incoming);
    if !LosesRace(calls, ioTimeout, incoming) {
      if calls == [] {
        assert [] + incoming == incoming + [];
      } else {
        var all := incoming + calls[0].script.arriving;
        var n := Taken(calls[0], |all|);
        var later := AllArriving(calls[1..]);
        ReadsDeliverStreamIff(calls[1..], ioTimeout, all[n..]);
        var (received, rest) := ReadStream(calls[1..], ioTimeout, all[n..]);
        StreamStep(all, n, later, received, rest);
        assert incoming + (calls[0].script.arriving + later) == all + later;
        if n == 0 {
          assert all[..0] + received == received;
        }
      }
    }
  }

  /** Without a timeout, or with one the clamp makes infinite, reads are a prefix of the client's bytes. */
  lemma {:induction false} UntimedReadsAreAPrefix(calls: seq<ReadCall>, ioTimeout: Option<nat>, incoming: seq<byte>)
    requires ioTimeout.None? || ioTimeout.value >= INFINITE * 1_000_000
    ensures ReadStream(calls, ioTimeout, incoming).0 <= incoming + AllArriving(calls)
  {
    NoTimeoutNoRace(calls, ioTimeout, incoming);
    ReadsDeliverStreamIff(calls, ioTimeout, incoming);
    var (received, rest) := ReadStream(calls, ioTimeout, incoming);
    assert received <= received + rest;
  }

  lemma {:induction false} NoTimeoutNoRace(calls: seq<ReadCall>, ioTimeout: Option<nat>, incoming: seq<byte>)
    requires TimeoutMs(ioTimeout) == INFINITE
    ensures !LosesRace(calls, ioTimeout, incoming)
    decreases |calls|
  {
    if calls != [] {
      var all := incoming + calls[0].script.arriving;
      NoTimeoutNoRace(calls[1..], ioTimeout, all[Taken(calls[0], |all|)..]);
    }
  }

  /** A timed-out read whose two bytes had arrived before the cancellation took effect: they are lost. */
  lemma TimedOutReadLosesBytes()
    ensures var race := Script(true, Some(IO_PENDING), [1, 2], false, false, Success(2));
            var calm := Script(true, None, [3], false, true, Success(8));
            ReadStream([ReadCall(8, race), ReadCall(8, calm)], Some(1_000_000), []) == ([3], [])
  {
    var race := Script(true, Some(IO_PENDING), [1, 2], false, false, Success(2));
    var calm := Script(true, None, [3], false, true, Success(8));
    var second := [ReadCall(8, calm)];
    assert [] + race.arriving == [1, 2] && [] + calm.arriving == [3];
    assert TimeoutMs(Some(1_000_000)) == 1;
    assert [1, 2][2..] == [] && [3][..1] + [] == [3] && [3][1..] == [];
    assert second[1..] == [];
    assert ReadStream(second, Some(1_000_000), []) == ([3], []);
    assert [ReadCall(8, race), ReadCall(8, calm)][1..] == second;
  }

  /** One read more: the caller's bytes and the pipe's, in step with the stream. */
  lemma StreamNext(calls: seq<ReadCall>, i: nat, ioTimeout: Option<nat>, incoming: seq<byte>, received: seq<byte>)
    requires i < |calls|
    ensures var all := incoming + calls[i].script.arriving;
            var n := Taken(calls[i], |all|);
            var now := ReadStream(calls[i..], ioTimeout, incoming);
            var next := ReadStream(calls[i + 1..], ioTimeout, all[n..]);
            && now.1 == next.1
            && received + now.0
               == (if TimesOut(calls[i].script, ioTimeout) then received else received + all[..n]) + next.0
  {
    var all := incoming + calls[i].script.arriving;
    var n := Taken(calls[i], |all|);
    var left := calls[i..];
    assert left[0] == calls[i] && left[1..] == calls[i + 1..];
    ConcatAssoc(received, all[..n], ReadStream(calls[i + 1..], ioTimeout, all[n..]).0);
  }

  /** The reads of one connection, on the server itself: the caller goes on after errors. */
  method ReadRepeatedly(server: NamedPipeServer, calls: seq<ReadCall>) returns (received: seq<byte>)
    requires !server.operation.Pending?
    modifies server
    ensures !server.operation.Pending?
    ensures (received, server.incoming) == ReadStream(calls, server.ioTimeout, old(server.incoming))
  {
    received := [];
    ghost var whole := ReadStream(calls, server.ioTimeout, server.incoming);
    assert calls[0..] == calls;
    EmptyLeft(whole.0);
    for i := 0 to |calls|
      invariant !server.operation.Pending?
      invariant received + ReadStream(calls[i..], server.ioTimeout, server.incoming).0 == whole.0
      invariant ReadStream(calls[i..], server.ioTimeout, server.incoming).1 == whole.1
    {
      StreamNext(calls, i, server.ioTimeout, server.incoming, received);
      received := ReadOnce(server, calls[i], received);
    }
    assert calls[|calls|..] == [];
    EmptyRight(received);
  }

  /** One read, its bytes appended to what the caller has. */
  method ReadOnce(server: NamedPipeServer, call: ReadCall, received: seq<byte>) returns (r: seq<byte>)
    requires !server.operation.Pending?
    modifies server
    ensures !server.operation.Pending?
    ensures var all := old(server.incoming) + call.script.arriving;
            var n := Taken(call, |all|);
            && server.incoming == all[n..]
            && r == if TimesOut(call.script, server.ioTimeout) then received else received + all[..n]
  {
    ghost var all := server.incoming + call.script.arriving;
    var result := server.Read(call.room, call.script);
    assert server.buffer == all[..|server.buffer|] && server.incoming == all[|server.buffer|..];
    if result.Ok? {
      return received + server.buffer;
    }
    if server.buffer == [] {
      EmptyRight(received);
    }
    return received;
  }
}
