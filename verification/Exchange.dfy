/**
 * One exchange between the host and a storage device: the receive loop with its growing buffer and its
 * exponential back-off (ExchangePacket, ExchangeStructure and ExponentialDelay in TrustedPeripheral).
 */
module Exchange {
  import opened Common
  import opened ComPackets
  import opened Archives

  //
  // Exponential delay, in nanoseconds
  //

  function Pow2(n: nat): (p: nat)
    ensures p > 0
  {
    if n == 0 then 1 else 2 * Pow2(n - 1)
  }

  class ExponentialDelay {
    var delay: nat
    const maxDelay: nat
    var totalDelay: nat

    constructor (delay: nat, maxDelay: nat)
      ensures this.delay == delay && this.maxDelay == maxDelay && totalDelay == 0
    {
      this.delay, this.maxDelay, totalDelay := delay, maxDelay, 0;
    }

    /** Waits, unless the waits so far already exceed the limit; a limit of zero is no limit. */
    method Delay() returns (r: Result<()>)
      modifies this
      ensures r == if maxDelay != 0 && old(totalDelay) > maxDelay then Err(NoResponse) else Ok(())
      ensures r.Ok? ==> delay == 2 * old(delay) && totalDelay == old(totalDelay) + old(delay)
      ensures r.Err? ==> delay == old(delay) && totalDelay == old(totalDelay)
    {
      if maxDelay != 0 && totalDelay > maxDelay {
        return Err(NoResponse);
      }
      totalDelay := totalDelay + delay;
      delay := delay * 2;
      r := Ok(());
    }
  }

  const INITIAL_DELAY: nat := 1_000            // one microsecond
  const MAX_DELAY: nat := 2_000_000_000        // two seconds
  const MAX_WAITS: nat := 21

  /** The delay object after some number of successful waits. */
  predicate Waited(waits: nat, initial: nat, delay: nat, total: nat) {
    delay == initial * Pow2(waits) && total == initial * (Pow2(waits) - 1)
  }

  lemma WaitOnce(waits: nat, initial: nat, delay: nat, total: nat)
    requires Waited(waits, initial, delay, total)
    ensures Waited(waits + 1, initial, 2 * delay, total + delay)
  {
  }

  lemma Pow2Monotone(a: nat, b: nat)
    requires a <= b
    ensures Pow2(a) <= Pow2(b)
    decreases b - a
  {
    if a < b {
      Pow2Monotone(a, b - 1);
    }
  }

  /** Whatever the limit, the waits never add up to more than twice the limit plus the first delay. */
  lemma {:induction false} TotalDelayBound(waits: nat, initial: nat, max: nat)
    requires max > 0
    requires waits > 0 ==> initial * (Pow2(waits - 1) - 1) <= max
    ensures initial * (Pow2(waits) - 1) <= 2 * max + initial
  {
    if waits > 0 {
      var before := initial * (Pow2(waits - 1) - 1);
      assert initial * (Pow2(waits) - 1) == 2 * before + initial;
    }
  }

  /** With the limits in use a wait is allowed exactly 21 times, and then 2,097,151 microseconds have passed. */
  lemma WaitAllowedIff(waits: nat, delay: nat, total: nat)
    requires Waited(waits, INITIAL_DELAY, delay, total)
    ensures total <= MAX_DELAY <==> waits < MAX_WAITS
    ensures waits == MAX_WAITS ==> total == 2_097_151_000
  {
    assert Pow2(10) == 1024;
    assert Pow2(20) == 1_048_576;
    if waits < MAX_WAITS {
      Pow2Monotone(waits, 20);
    } else {
      Pow2Monotone(21, waits);
    }
  }

  //
  // The device as the host sees it
  //

  /** Answers to a receive with a buffer of the given size: the bytes written to its front, and a new state. */
  type Receiver<!S> = (S, nat) -> (Result<seq<byte>>, S)

  /** The loop variables of ExchangePacket, or its outcome. */
  datatype Host<+S> =
    | Running(device: S, buffer: seq<byte>, delay: nat, total: nat, received: seq<ComPacket>)
    | Stopped(device: S, result: Result<ComPacket>)

  const INITIAL_BUFFER: nat := 2048
  const BUFFER_LIMIT: nat := 1_048_576

  function Start<S>(device: S): Host<S> {
    Running(device, Zeros(INITIAL_BUFFER), INITIAL_DELAY, 0, [])
  }

  /** A device writes to the front of the buffer and cannot write past its end. */
  function Overwrite(buffer: seq<byte>, data: seq<byte>): (r: seq<byte>)
    ensures |r| == |buffer|
  {
    if |data| <= |buffer| then data + buffer[|data|..] else data[..|buffer|]
  }

  function Conclude(received: seq<ComPacket>): Result<ComPacket> {
    if received == [] then Err(NoResponse)
    else if |received| > 1 then Err(ProtocolFailure)
    else Ok(received[0])
  }

  /** What the host does with a frame it has received. */
  function Handle<S>(device: S, buffer: seq<byte>, delay: nat, total: nat, received: seq<ComPacket>, c: ComPacket)
    : Host<S>
  {
    if c.minTransfer > |buffer| then
      if c.minTransfer < BUFFER_LIMIT
      then Running(device, buffer + Zeros(c.minTransfer - |buffer|), delay, total, received)
      else Stopped(device, Err(ProtocolFailure))
    else
      var received' := if c.payload != [] then received + [c] else received;
      if c.outstandingData == 0 then Stopped(device, Conclude(received'))
      else if c.outstandingData == 1 then
        if total > MAX_DELAY then Stopped(device, Err(NoResponse))
        else Running(device, buffer, 2 * delay, total + delay, received')
      else Running(device, buffer, delay, total, received')
  }

  /** One pass of the loop. */
  function Step<S>(receive: Receiver<S>, h: Host<S>): Host<S> {
    if h.Stopped? then h else
    var (r, device) := receive(h.device, |h.buffer|);
    if r.Err? then Stopped(device, Err(r.error)) else
    var buffer := Overwrite(h.buffer, r.value);
    var c := LoadComPacket(buffer);
    if c.Err? then Stopped(device, Err(c.error))
    else Handle(device, buffer, h.delay, h.total, h.received, c.value)
  }

  function Run<S>(receive: Receiver<S>, h: Host<S>, n: nat): Host<S> {
    if n == 0 then h else Step(receive, Run(receive, h, n - 1))
  }

  lemma {:induction false} RunAdds<S>(receive: Receiver<S>, h: Host<S>, m: nat, n: nat)
    ensures Run(receive, Run(receive, h, m), n) == Run(receive, h, m + n)
  {
    hide Step;
    if n > 0 {
      RunAdds(receive, h, m, n - 1);
    }
  }

  lemma {:induction false} StoppedStays<S>(receive: Receiver<S>, h: Host<S>, m: nat, n: nat)
    requires m <= n && Run(receive, h, m).Stopped?
    ensures Run(receive, h, n) == Run(receive, h, m)
    decreases n
  {
    if m < n {
      StoppedStays(receive, h, m, n - 1);
    }
  }

  //
  // Termination
  //

  /** A pass that neither stops, nor grows the buffer, nor waits. */
  predicate Spins<S>(receive: Receiver<S>, h: Host<S>) {
    h.Running? && var h' := Step(receive, h); h'.Running? && |h'.buffer| == |h.buffer| && h'.total == h.total
  }

  /** Reachable loop states: the buffer is below the limit once grown, and the delay is where its waits left it. */
  predicate InLoop<S>(h: Host<S>, waits: nat) {
    h.Running? && INITIAL_BUFFER <= |h.buffer| < BUFFER_LIMIT && waits <= MAX_WAITS
    && Waited(waits, INITIAL_DELAY, h.delay, h.total)
  }

  /** Passes other than spinning ones that are still possible. */
  function Budget<S>(h: Host<S>, waits: nat): nat
    requires InLoop(h, waits)
  {
    (BUFFER_LIMIT - 1 - |h.buffer|) + (MAX_WAITS - waits)
  }

  /** The lexicographic argument: a pass that goes on either grows the buffer, or uses up a wait, or spins. */
  lemma PassProgress<S>(receive: Receiver<S>, h: Host<S>, waits: nat) returns (waits': nat)
    requires InLoop(h, waits) && Step(receive, h).Running?
    ensures InLoop(Step(receive, h), waits')
    ensures var size, size' := |h.buffer|, |Step(receive, h).buffer|;
      if Spins(receive, h) then size' == size && waits' == waits
      else (size' > size && waits' == waits) || (size' == size && waits' == waits + 1)
  {
    hide LoadComPacket, Waited;
    WaitAllowedIff(waits, h.delay, h.total);
    WaitOnce(waits, INITIAL_DELAY, h.delay, h.total);
    DelayIsPositive(waits, h.delay, h.total);
    var h' := Step(receive, h);
    waits' := if h'.total == h.total then waits else waits + 1;
  }

  lemma DelayIsPositive(waits: nat, delay: nat, total: nat)
    requires Waited(waits, INITIAL_DELAY, delay, total)
    ensures delay > 0
  {
  }

  function SpinCount<S>(receive: Receiver<S>, h: Host<S>, n: nat): (count: nat)
    ensures count <= n
  {
    if n == 0 then 0
    else SpinCount(receive, h, n - 1) + if Spins(receive, Run(receive, h, n - 1)) then 1 else 0
  }

  lemma StartInLoop<S>(device: S)
    ensures InLoop(Start(device), 0)
    ensures Budget(Start(device), 0) == 1_046_548
  {
  }

  /** However the device behaves, an exchange still running after n receives has spun in all but 1,046,548 of them. */
  lemma {:induction false} RunningMeansSpinning<S>(receive: Receiver<S>, h: Host<S>, waits: nat, n: nat)
    returns (waits': nat)
    requires InLoop(h, waits) && Run(receive, h, n).Running?
    ensures InLoop(Run(receive, h, n), waits')
    ensures Budget(Run(receive, h, n), waits') + n <= Budget(h, waits) + SpinCount(receive, h, n)
  {
    hide Step, InLoop, Spins;
    if n == 0 {
      waits' := waits;
    } else {
      if Run(receive, h, n - 1).Stopped? {
        StoppedStays(receive, h, n - 1, n);
      }
      var w := RunningMeansSpinning(receive, h, waits, n - 1);
      waits' := PassProgress(receive, Run(receive, h, n - 1), w);
    }
  }

  /** A device that never makes the host spin is done with within 1,046,549 receives. */
  lemma StopsWithoutSpinning<S>(receive: Receiver<S>, device: S)
    requires forall n: nat :: n <= 1_046_549 ==> !Spins(receive, Run(receive, Start(device), n))
    ensures Run(receive, Start(device), 1_046_549).Stopped?
  {
    if Run(receive, Start(device), 1_046_549).Running? {
      StartInLoop(device);
      var _ := RunningMeansSpinning(receive, Start(device), 0, 1_046_549);
      NoSpins(receive, Start(device), 1_046_549);
    }
  }

  lemma {:induction false} NoSpins<S>(receive: Receiver<S>, h: Host<S>, n: nat)
    requires forall i: nat :: i < n ==> !Spins(receive, Run(receive, h, i))
    ensures SpinCount(receive, h, n) == 0
  {
    if n > 0 {
      NoSpins(receive, h, n - 1);
    }
  }

  ghost predicate RunsForever<S(!new)>(receive: Receiver<S>, h: Host<S>) {
    forall n: nat :: Run(receive, h, n).Running?
  }

  ghost predicate SpinsForeverFrom<S(!new)>(receive: Receiver<S>, h: Host<S>, from: nat) {
    forall n: nat :: n >= from ==> Spins(receive, Run(receive, h, n))
  }

  /** Only finitely many passes of an endless exchange do anything but spin. */
  lemma {:induction false} EventuallySpins<S(!new)>(receive: Receiver<S>, h: Host<S>, waits: nat)
    requires InLoop(h, waits) && RunsForever(receive, h)
    ensures exists from: nat :: SpinsForeverFrom(receive, h, from)
    decreases Budget(h, waits)
  {
    hide Step, InLoop, Spins;
    if n: nat :| !Spins(receive, Run(receive, h, n)) {
      assert Run(receive, h, n).Running? && Run(receive, h, n + 1).Running?;
      var last, next := Run(receive, h, n), Run(receive, h, n + 1);
      var w' := AfterNonSpin(receive, h, waits, n);
      forall k: nat ensures Run(receive, next, k).Running? {
        RunAdds(receive, h, n + 1, k);
      }
      EventuallySpins(receive, next, w');
      var from: nat :| SpinsForeverFrom(receive, next, from);
      forall k: nat | k >= n + 1 + from ensures Spins(receive, Run(receive, h, k)) {
        RunAdds(receive, h, n + 1, k - (n + 1));
      }
      assert SpinsForeverFrom(receive, h, n + 1 + from);
    } else {
      assert SpinsForeverFrom(receive, h, 0);
    }
  }

  /** Along the way the budget never grows. */
  lemma {:induction false} BudgetNeverGrows<S>(receive: Receiver<S>, h: Host<S>, waits: nat, n: nat)
    returns (waits': nat)
    requires InLoop(h, waits) && Run(receive, h, n).Running?
    ensures InLoop(Run(receive, h, n), waits') && Budget(Run(receive, h, n), waits') <= Budget(h, waits)
  {
    if n == 0 {
      waits' := waits;
    } else {
      var w := BudgetNeverGrows(receive, h, waits, n - 1);
      waits' := PassProgress(receive, Run(receive, h, n - 1), w);
    }
  }

  lemma AfterNonSpin<S>(receive: Receiver<S>, h: Host<S>, waits: nat, n: nat) returns (waits': nat)
    requires InLoop(h, waits) && Run(receive, h, n).Running? && Run(receive, h, n + 1).Running?
    requires !Spins(receive, Run(receive, h, n))
    ensures InLoop(Run(receive, h, n + 1), waits') && Budget(Run(receive, h, n + 1), waits') < Budget(h, waits)
  {
    hide Step, Spins;
    var w := BudgetNeverGrows(receive, h, waits, n);
    assert Run(receive, h, n + 1) == Step(receive, Run(receive, h, n));
    waits' := PassProgress(receive, Run(receive, h, n), w);
  }

  /** The exchange never ends exactly when, from some receive on, every receive makes the host spin. */
  lemma NeverStopsIff<S(!new)>(receive: Receiver<S>, device: S)
    ensures RunsForever(receive, Start(device)) <==>
      exists from: nat :: SpinsForeverFrom(receive, Start(device), from)
  {
    var h := Start(device);
    if RunsForever(receive, h) {
      StartInLoop(device);
      EventuallySpins(receive, h, 0);
    }
    if from: nat :| SpinsForeverFrom(receive, h, from) {
      forall n: nat ensures Run(receive, h, n).Running? {
        assert Spins(receive, Run(receive, h, n + from));
        if Run(receive, h, n).Stopped? {
          StoppedStays(receive, h, n, n + from);
        }
      }
    }
  }

  /** Spinning is what a frame that fits the buffer and reports two or more bytes outstanding causes, nothing else. */
  lemma SpinsIff<S>(receive: Receiver<S>, h: Host<S>, waits: nat)
    requires InLoop(h, waits)
    ensures Spins(receive, h) <==>
      && receive(h.device, |h.buffer|).0.Ok?
      && var c := LoadComPacket(Overwrite(h.buffer, receive(h.device, |h.buffer|).0.value));
      && c.Ok? && c.value.minTransfer <= |h.buffer| && c.value.outstandingData >= 2
  {
    hide LoadComPacket, Waited;
    DelayIsPositive(waits, h.delay, h.total);
  }

  function StuckFrame(): ComPacket {
    ComPacket(0, 0, 2, 0, [])
  }

  /** A device that always answers with an empty frame and two bytes outstanding. */
  function StuckReceive(device: (), size: nat): (Result<seq<byte>>, ()) {
    (Ok(SaveComPacket(StuckFrame())), ())
  }

  lemma StuckDeviceNeverStops()
    ensures RunsForever(StuckReceive, Start(()))
  {
    forall n: nat ensures Run(StuckReceive, Start(()), n).Running? {
      StuckRuns(n);
    }
  }

  lemma StuckFrameLoads(stale: seq<byte>)
    ensures |SaveComPacket(StuckFrame())| == 20
    ensures LoadComPacket(SaveComPacket(StuckFrame()) + stale) == Ok(StuckFrame())
  {
    ComPacketSize(StuckFrame());
    ComPacketRoundTripIff(StuckFrame(), stale);
  }

  lemma StuckStep(h: Host<()>)
    requires h.Running? && |h.buffer| == INITIAL_BUFFER
    ensures var h' := Step(StuckReceive, h); h'.Running? && |h'.buffer| == INITIAL_BUFFER
  {
    hide LoadComPacket, SaveComPacket, Conclude;
    StuckFrameLoads(h.buffer[20..]);
    assert Overwrite(h.buffer, SaveComPacket(StuckFrame())) == SaveComPacket(StuckFrame()) + h.buffer[20..];
  }

  lemma {:induction false} StuckRuns(n: nat)
    ensures var h := Run(StuckReceive, Start(()), n); h.Running? && |h.buffer| == INITIAL_BUFFER
  {
    hide Step, StuckReceive;
    if n > 0 {
      StuckRuns(n - 1);
      StuckStep(Run(StuckReceive, Start(()), n - 1));
    }
  }

  //
  // What an exchange comes to, frame by frame
  //

  /** A frame, and how many bytes the buffer had that it was received into. */
  datatype Seen = Seen(frame: ComPacket, size: nat)

  /** A frame whose sender asks for no more room than there is is taken; otherwise the buffer grows to that size. */
  predicate Taken(s: Seen) {
    s.frame.minTransfer <= s.size
  }

  /**
   * The frames that a device gives away one receive after another: each receive overwrites the front of the buffer, and
   * the frame is read from all of it.
   */
  ghost predicate Trace<S>(receive: Receiver<S>, state: S, buffer: seq<byte>, seen: seq<Seen>, state': S,
                           buffer': seq<byte>)
    decreases |seen|
  {
    if seen == [] then state' == state && buffer' == buffer
    else
      var (r, next) := receive(state, |buffer|);
      && r.Ok? && |r.value| <= |buffer|
      && var filled := r.value + buffer[|r.value|..];
      && LoadComPacket(filled) == Ok(seen[0].frame) && seen[0].size == |buffer|
      && var room := if Taken(seen[0]) then filled else filled + Zeros(seen[0].frame.minTransfer - |buffer|);
         Trace(receive, next, room, seen[1..], state', buffer')
  }

  /** The host receives once more: the buffer has to grow, to less than a mebibyte, or bytes are outstanding. */
  predicate GoesOn(s: Seen) {
    if Taken(s) then s.frame.outstandingData > 0 else s.frame.minTransfer < 1_048_576
  }

  predicate AllGoOn(seen: seq<Seen>) {
    forall i :: 0 <= i < |seen| ==> GoesOn(seen[i])
  }

  /** A device that is busy: it reports exactly one outstanding byte. */
  predicate Busy(s: Seen) {
    Taken(s) && s.frame.outstandingData == 1
  }

  function BusyCount(seen: seq<Seen>): (n: nat)
    ensures n <= |seen|
  {
    if seen == [] then 0 else (if Busy(seen[0]) then 1 else 0) + BusyCount(seen[1..])
  }

  predicate Carries(s: Seen) {
    Taken(s) && s.frame.payload != []
  }

  /** The frames with a payload among those that are taken, in order. */
  function Carriers(seen: seq<Seen>): seq<ComPacket> {
    if seen == [] then [] else (if Carries(seen[0]) then [seen[0].frame] else []) + Carriers(seen[1..])
  }

  /** Exactly one of the frames carries a payload. */
  predicate OnlyCarrier(seen: seq<Seen>, i: nat) {
    && i < |seen| && Carries(seen[i])
    && forall j :: 0 <= j < |seen| && Carries(seen[j]) ==> j == i
  }

  /** The one frame with a payload is the answer; none is no response, and several are a breach of the protocol. */
  ghost predicate Answered(seen: seq<Seen>, result: Result<ComPacket>) {
    && (result.Ok? <==> exists i: nat :: OnlyCarrier(seen, i))
    && (forall i: nat :: OnlyCarrier(seen, i) ==> result == Ok(seen[i].frame))
    && (result.Err? ==>
          result.error == if exists i :: 0 <= i < |seen| && Carries(seen[i]) then ProtocolFailure else NoResponse)
  }

  /**
   * How an exchange ends: behind frames that make the host go on, at most 21 of them from a busy device, comes a frame
   * with nothing outstanding, or a busy device for the 22nd time, or a frame that asks for a mebibyte or more.
   */
  ghost predicate Ends(seen: seq<Seen>, result: Result<ComPacket>) {
    && seen != []
    && var last := seen[|seen| - 1];
    && AllGoOn(seen[..|seen| - 1]) && BusyCount(seen[..|seen| - 1]) <= 21
    && if !Taken(last) then last.frame.minTransfer >= 1_048_576 && result == Err(ProtocolFailure)
       else if last.frame.outstandingData == 0 then Answered(seen, result)
       else Busy(last) && BusyCount(seen[..|seen| - 1]) == 21 && result == Err(NoResponse)
  }

  /** An exchange also ends when a receive raises, or what it leaves in the buffer is no frame. */
  ghost predicate Breaks<S>(receive: Receiver<S>, seen: seq<Seen>, state: S, buffer: seq<byte>,
                            result: Result<ComPacket>)
  {
    && AllGoOn(seen) && BusyCount(seen) <= 21
    && var r := receive(state, |buffer|).0;
    if r.Err? then result == Err(r.error)
    else
      && |r.value| <= |buffer|
      && var frame := LoadComPacket(r.value + buffer[|r.value|..]);
         frame.Err? && result == Err(frame.error)
  }

  lemma FilledBuffer(buffer: seq<byte>, data: seq<byte>)
    requires |data| <= |buffer|
    ensures Overwrite(buffer, data) == data + buffer[|data|..] && |data + buffer[|data|..]| == |buffer|
  {
  }

  /** One pass over a frame that makes the host go on. */
  lemma FramePass<S>(receive: Receiver<S>, h: Host<S>, waits: nat, s: Seen, next: S, data: seq<byte>)
    requires InLoop(h, waits) && GoesOn(s) && s.size == |h.buffer| && (Busy(s) ==> waits < 21)
    requires receive(h.device, |h.buffer|) == (Ok(data), next) && |data| <= |h.buffer|
    requires LoadComPacket(data + h.buffer[|data|..]) == Ok(s.frame)
    ensures var h' := Step(receive, h);
      && InLoop(h', waits + if Busy(s) then 1 else 0)
      && h'.device == next
      && h'.received == h.received + (if Carries(s) then [s.frame] else [])
      && h'.buffer == if Taken(s) then data + h.buffer[|data|..]
                      else data + h.buffer[|data|..] + Zeros(s.frame.minTransfer - |h.buffer|)
  {
    hide LoadComPacket, Waited;
    FilledBuffer(h.buffer, data);
    WaitAllowedIff(waits, h.delay, h.total);
    WaitOnce(waits, INITIAL_DELAY, h.delay, h.total);
    assert h.received + [] == h.received;
  }

  lemma {:induction false} TraceRuns<S>(receive: Receiver<S>, h: Host<S>, waits: nat, seen: seq<Seen>, state': S,
                                        buffer': seq<byte>)
    requires InLoop(h, waits) && AllGoOn(seen) && waits + BusyCount(seen) <= 21
    requires Trace(receive, h.device, h.buffer, seen, state', buffer')
    ensures var h' := Run(receive, h, |seen|);
      && InLoop(h', waits + BusyCount(seen))
      && h'.device == state' && h'.buffer == buffer' && h'.received == h.received + Carriers(seen)
    decreases |seen|
  {
    hide Step, InLoop, LoadComPacket, GoesOn, Busy, Carries;
    LoopBuffer(h, waits);
    if seen == [] {
      assert h.received + [] == h.received;
    } else {
      var (r, next) := receive(h.device, |h.buffer|);
      FramePass(receive, h, waits, seen[0], next, r.value);
      var h1 := Step(receive, h);
      assert Run(receive, h, 0) == h && Run(receive, h, 1) == h1;
      TraceRuns(receive, h1, waits + (if Busy(seen[0]) then 1 else 0), seen[1..], state', buffer');
      RunAdds(receive, h, 1, |seen| - 1);
      AppendAssociates(h.received, if Carries(seen[0]) then [seen[0].frame] else [], Carriers(seen[1..]));
    }
  }

  lemma LoopBuffer<S>(h: Host<S>, waits: nat)
    requires InLoop(h, waits)
    ensures h.Running?
  {
  }

  /** One more frame at the end of a trace. */
  lemma {:induction false} TraceSplits<S>(receive: Receiver<S>, state: S, buffer: seq<byte>, seen: seq<Seen>, state': S,
                                          buffer': seq<byte>)
    returns (state1: S, buffer1: seq<byte>)
    requires seen != [] && Trace(receive, state, buffer, seen, state', buffer')
    ensures Trace(receive, state, buffer, seen[..|seen| - 1], state1, buffer1)
    ensures Trace(receive, state1, buffer1, seen[|seen| - 1..], state', buffer')
    decreases |seen|
  {
    hide LoadComPacket, Taken;
    if |seen| == 1 {
      state1, buffer1 := state, buffer;
      assert seen[0..] == seen && seen[..0] == [];
    } else {
      var (r, next) := receive(state, |buffer|);
      var filled := r.value + buffer[|r.value|..];
      var room := if Taken(seen[0]) then filled else filled + Zeros(seen[0].frame.minTransfer - |buffer|);
      state1, buffer1 := TraceSplits(receive, next, room, seen[1..], state', buffer');
      CutBehindFirst(seen);
    }
  }

  lemma CutBehindFirst(seen: seq<Seen>)
    requires |seen| >= 2
    ensures seen[..|seen| - 1] != [] && seen[..|seen| - 1][0] == seen[0]
    ensures seen[1..][..|seen| - 2] == seen[..|seen| - 1][1..]
    ensures seen[1..][|seen| - 2..] == seen[|seen| - 1..]
  {
  }

  lemma {:induction false} NoCarriers(seen: seq<Seen>)
    ensures Carriers(seen) == [] <==> forall i :: 0 <= i < |seen| ==> !Carries(seen[i])
  {
    hide Carries;
    if seen != [] {
      NoCarriers(seen[1..]);
      assert forall i :: 0 < i < |seen| ==> seen[i] == seen[1..][i - 1];
    }
  }

  lemma {:induction false} SoleCarrier(seen: seq<Seen>, i: nat)
    requires OnlyCarrier(seen, i)
    ensures Carriers(seen) == [seen[i].frame]
  {
    hide Carries;
    var rest := seen[1..];
    assert forall k :: 0 < k < |seen| ==> seen[k] == rest[k - 1];
    if i == 0 {
      NoCarriers(rest);
      assert [seen[0].frame] + [] == [seen[0].frame];
    } else {
      SoleCarrier(rest, i - 1);
      assert [] + Carriers(rest) == Carriers(rest);
    }
  }

  lemma {:induction false} CarrierFound(seen: seq<Seen>) returns (i: nat)
    requires |Carriers(seen)| == 1
    ensures OnlyCarrier(seen, i)
  {
    hide Carries;
    var rest := seen[1..];
    assert forall k :: 0 < k < |seen| ==> seen[k] == rest[k - 1];
    if Carries(seen[0]) {
      NoCarriers(rest);
      i := 0;
    } else {
      var k := CarrierFound(rest);
      i := k + 1;
    }
  }

  lemma ConcludesAsAnswered(seen: seq<Seen>, result: Result<ComPacket>)
    requires Answered(seen, result)
    ensures result == Conclude(Carriers(seen))
  {
    hide Carries, OnlyCarrier, Carriers;
    NoCarriers(seen);
    if i: nat :| OnlyCarrier(seen, i) {
      SoleCarrier(seen, i);
    } else if |Carriers(seen)| == 1 {
      var k := CarrierFound(seen);
    }
  }

  /** The last frame of an exchange. */
  lemma LastPass<S>(receive: Receiver<S>, h: Host<S>, waits: nat, s: Seen, next: S, data: seq<byte>,
                    result: Result<ComPacket>)
    requires InLoop(h, waits) && s.size == |h.buffer|
    requires receive(h.device, |h.buffer|) == (Ok(data), next) && |data| <= |h.buffer|
    requires LoadComPacket(data + h.buffer[|data|..]) == Ok(s.frame)
    requires if !Taken(s) then s.frame.minTransfer >= 1_048_576 && result == Err(ProtocolFailure)
             else if s.frame.outstandingData == 0
             then result == Conclude(h.received + if Carries(s) then [s.frame] else [])
             else Busy(s) && waits == 21 && result == Err(NoResponse)
    ensures Step(receive, h) == Stopped(next, result)
  {
    hide LoadComPacket, Waited, Conclude;
    FilledBuffer(h.buffer, data);
    WaitAllowedIff(waits, h.delay, h.total);
    assert h.received + [] == h.received;
  }

  lemma LastOfCarriers(seen: seq<Seen>, s: Seen)
    ensures Carriers(seen + [s]) == Carriers(seen) + if Carries(s) then [s.frame] else []
  {
    hide Carries;
    if seen == [] {
      assert [s][1..] == [] && seen + [s] == [s];
    } else {
      LastOfCarriers(seen[1..], s);
      assert (seen + [s])[1..] == seen[1..] + [s];
      AppendAssociates(if Carries(seen[0]) then [seen[0].frame] else [], Carriers(seen[1..]),
                       if Carries(s) then [s.frame] else []);
    }
  }

  /** The loop in front of the last frame of a trace, and how that frame is received. */
  lemma BeforeLast<S>(receive: Receiver<S>, state: S, seen: seq<Seen>, state': S, buffer': seq<byte>)
    returns (h: Host<S>, data: seq<byte>)
    requires seen != [] && Trace(receive, state, Zeros(2048), seen, state', buffer')
    requires AllGoOn(seen[..|seen| - 1]) && BusyCount(seen[..|seen| - 1]) <= 21
    ensures h == Run(receive, Start(state), |seen| - 1) && h.Running?
    ensures InLoop(h, BusyCount(seen[..|seen| - 1])) && h.received == Carriers(seen[..|seen| - 1])
    ensures receive(h.device, |h.buffer|) == (Ok(data), state') && |data| <= |h.buffer|
    ensures LoadComPacket(data + h.buffer[|data|..]) == Ok(seen[|seen| - 1].frame)
    ensures seen[|seen| - 1].size == |h.buffer|
  {
    hide Run, Step, InLoop, LoadComPacket, AllGoOn, BusyCount, Carriers;
    var n := |seen| - 1;
    var state1, buffer1 := TraceSplits(receive, state, Zeros(2048), seen, state', buffer');
    StartInLoop(state);
    TraceRuns(receive, Start(state), 0, seen[..n], state1, buffer1);
    h := Run(receive, Start(state), n);
    LoopBuffer(h, BusyCount(seen[..n]));
    assert [] + Carriers(seen[..n]) == Carriers(seen[..n]);
    data := OneFrame(receive, state1, buffer1, seen[n..], state', buffer');
  }

  lemma OneFrame<S>(receive: Receiver<S>, state: S, buffer: seq<byte>, seen: seq<Seen>, state': S, buffer': seq<byte>)
    returns (data: seq<byte>)
    requires |seen| == 1 && Trace(receive, state, buffer, seen, state', buffer')
    ensures receive(state, |buffer|) == (Ok(data), state') && |data| <= |buffer|
    ensures LoadComPacket(data + buffer[|data|..]) == Ok(seen[0].frame) && seen[0].size == |buffer|
  {
    hide LoadComPacket;
    assert seen[1..] == [];
    data := receive(state, |buffer|).0.value;
  }

  /** Whatever the device, frames that end an exchange end it with that result. */
  lemma EndReached<S>(receive: Receiver<S>, state: S, seen: seq<Seen>, state': S, buffer': seq<byte>,
                      result: Result<ComPacket>)
    requires Trace(receive, state, Zeros(2048), seen, state', buffer') && Ends(seen, result)
    ensures Run(receive, Start(state), |seen|) == Stopped(state', result)
  {
    hide Step, InLoop, LoadComPacket, GoesOn, Busy, Carries, Conclude, Answered, Trace;
    var n := |seen| - 1;
    var h, data := BeforeLast(receive, state, seen, state', buffer');
    LastOfCarriers(seen[..n], seen[n]);
    assert seen == seen[..n] + [seen[n]];
    if Taken(seen[n]) && seen[n].frame.outstandingData == 0 {
      ConcludesAsAnswered(seen, result);
    }
    LastPass(receive, h, BusyCount(seen[..n]), seen[n], state', data, result);
  }

  lemma BreakReached<S>(receive: Receiver<S>, state: S, seen: seq<Seen>, state': S, buffer': seq<byte>,
                        result: Result<ComPacket>)
    requires Trace(receive, state, Zeros(2048), seen, state', buffer') && Breaks(receive, seen, state', buffer', result)
    ensures Run(receive, Start(state), |seen| + 1) == Stopped(receive(state', |buffer'|).1, result)
  {
    hide InLoop, LoadComPacket, GoesOn, Busy, Carries;
    StartInLoop(state);
    TraceRuns(receive, Start(state), 0, seen, state', buffer');
    LoopBuffer(Run(receive, Start(state), |seen|), BusyCount(seen));
    var r := receive(state', |buffer'|).0;
    if r.Ok? {
      FilledBuffer(buffer', r.value);
    }
  }

  /**
   * What an exchange comes to is decided by the frames alone: the result is the one that the frames leave, and so is
   * the state of the device.
   */
  ghost predicate DecidedByFrames<S(!new)>(receive: Receiver<S>, state: S, last: S, result: Result<ComPacket>) {
    && (forall seen, state', buffer', r
            {:trigger Trace(receive, state, Zeros(2048), seen, state', buffer'), Ends(seen, r)} ::
          Trace(receive, state, Zeros(2048), seen, state', buffer') && Ends(seen, r) ==> result == r && last == state')
    && (forall seen, state', buffer', r {:trigger Breaks(receive, seen, state', buffer', r)} ::
          Trace(receive, state, Zeros(2048), seen, state', buffer') && Breaks(receive, seen, state', buffer', r) ==>
          result == r && last == receive(state', |buffer'|).1)
  }

  lemma LoopIsDecided<S(!new)>(receive: Receiver<S>, state: S, n: nat, last: S, result: Result<ComPacket>)
    requires Run(receive, Start(state), n) == Stopped(last, result)
    ensures DecidedByFrames(receive, state, last, result)
  {
    hide Run, Trace, Ends, Breaks;
    forall seen, state', buffer', r | Trace(receive, state, Zeros(2048), seen, state', buffer') && Ends(seen, r)
      ensures result == r && last == state'
    {
      EndReached(receive, state, seen, state', buffer', r);
      StopsOnce(receive, Start(state), n, |seen|);
    }
    forall seen, state', buffer', r |
      Trace(receive, state, Zeros(2048), seen, state', buffer') && Breaks(receive, seen, state', buffer', r)
      ensures result == r && last == receive(state', |buffer'|).1
    {
      BreakReached(receive, state, seen, state', buffer', r);
      StopsOnce(receive, Start(state), n, |seen| + 1);
    }
  }

  lemma StopsOnce<S>(receive: Receiver<S>, h: Host<S>, m: nat, n: nat)
    requires Run(receive, h, m).Stopped? && Run(receive, h, n).Stopped?
    ensures Run(receive, h, m) == Run(receive, h, n)
  {
    hide Run;
    StoppedStays(receive, h, m, m + n);
    StoppedStays(receive, h, n, m + n);
  }

  //
  // The loop of the program, over any device
  //

  /** Takes the bytes of a message, or refuses them, and moves to a new state. */
  type Sender<!S> = (S, seq<byte>) -> (Result<()>, S)

  /** A storage device, with its virtual send and receive as functions of its state. */
  class StorageDevice<!S> {
    var state: S
    const send: Sender<S>
    const receive: Receiver<S>

    constructor (state: S, send: Sender<S>, receive: Receiver<S>)
      ensures this.state == state && this.send == send && this.receive == receive
    {
      this.state, this.send, this.receive := state, send, receive;
    }

    method SecuritySend(data: seq<byte>) returns (r: Result<()>)
      modifies this
      ensures (r, state) == send(old(state), data)
    {
      var (r', state') := send(state, data);
      r, state := r', state';
    }

    method SecurityReceive(size: nat) returns (r: Result<seq<byte>>)
      modifies this
      ensures (r, state) == receive(old(state), size)
    {
      var (r', state') := receive(state, size);
      r, state := r', state';
    }
  }

  /** The receive loop. It ends because a pass that goes on grows the buffer or, at the same size, uses up a wait. */
  method ReceiveLoop<S(!new)>(device: StorageDevice<S>) returns (result: Result<ComPacket>)
    requires forall n: nat :: !Spins(device.receive, Run(device.receive, Start(device.state), n))
    modifies device
    ensures exists n: nat :: Run(device.receive, Start(old(device.state)), n) == Stopped(device.state, result)
  {
    hide LoadComPacket;
    ghost var h := Start(device.state);
    ghost var start := h;
    ghost var n, waits := 0, 0;
    StartInLoop(device.state);
    var receivedPackets: seq<ComPacket> := [];
    var receiveBuffer := Zeros(INITIAL_BUFFER);
    var delay := new ExponentialDelay(INITIAL_DELAY, MAX_DELAY);
    while true
      invariant h == Run(device.receive, start, n) && InLoop(h, waits)
      invariant h == Running(device.state, receiveBuffer, delay.delay, delay.totalDelay, receivedPackets)
      decreases BUFFER_LIMIT - |receiveBuffer|, MAX_WAITS - waits
    {
      ghost var next := Step(device.receive, h);
      assert next == Run(device.receive, start, n + 1);
      assert !Spins(device.receive, h);
      if next.Running? {
        waits := PassProgress(device.receive, h, waits);
      }
      h, n := next, n + 1;
      var data :- device.SecurityReceive(|receiveBuffer|);
      receiveBuffer := Overwrite(receiveBuffer, data);
      var receivedPacket :- DeSerializeComPacket(receiveBuffer);
      if receivedPacket.minTransfer > |receiveBuffer| {
        if receivedPacket.minTransfer < BUFFER_LIMIT {
          receiveBuffer := receiveBuffer + Zeros(receivedPacket.minTransfer - |receiveBuffer|);
          continue;
        }
        return Err(ProtocolFailure);
      }
      if receivedPacket.payload != [] {
        receivedPackets := receivedPackets + [receivedPacket];
      }
      if receivedPacket.outstandingData == 0 {
        break;
      }
      if receivedPacket.outstandingData == 1 {
        var _ :- delay.Delay();
      }
    }
    result := Conclude(receivedPackets);
  }

  /** ExchangePacket: one send, then the receive loop. */
  method ExchangePacket<S(!new)>(device: StorageDevice<S>, packet: ComPacket) returns (result: Result<ComPacket>)
    requires var (sent, state) := device.send(device.state, SaveComPacket(packet));
      sent.Ok? ==> forall n: nat :: !Spins(device.receive, Run(device.receive, Start(state), n))
    modifies device
    ensures var (sent, state) := device.send(old(device.state), SaveComPacket(packet));
      if sent.Err? then result == Err(sent.error) && device.state == state
      else
        && DecidedByFrames(device.receive, state, device.state, result)
        && exists n: nat :: Run(device.receive, Start(state), n) == Stopped(device.state, result)
  {
    hide DecidedByFrames, Run;
    var sendBuffer := SerializeComPacket(packet);
    var _ :- device.SecuritySend(sendBuffer);
    ghost var state := device.state;
    result := ReceiveLoop(device);
    ghost var n: nat :| Run(device.receive, Start(state), n) == Stopped(device.state, result);
    LoopIsDecided(device.receive, state, n, device.state, result);
  }

  //
  // ExchangeStructure
  //

  /** The two fields of a communication-layer reply that its retry loop looks at. */
  datatype StructureReply = StructureReply(requestCode: uint32, availableDataLength: uint16)

  predicate NoDataYet(reply: Result<StructureReply>) {
    reply.Ok? && reply.value.requestCode != 0 && reply.value.availableDataLength == 0
  }

  /**
   * The retry loop ends against any device: at most 21 replies without data are waited for. A send or a receive may
   * raise, and so may the decoding of a reply.
   */
  method ExchangeStructure(sent: Result<()>, replies: nat -> Result<StructureReply>)
    returns (r: Result<StructureReply>, receives: nat)
    ensures sent.Err? ==> r == Err(sent.error) && receives == 0
    ensures sent.Ok? ==> 1 <= receives <= MAX_WAITS + 1
    ensures forall i :: 0 <= i < receives - 1 ==> NoDataYet(replies(i))
    ensures sent.Ok? ==> var last := replies(receives - 1);
      r == if last.Ok? && (last.value.requestCode == 0 || last.value.availableDataLength == 0) then Err(NoResponse)
           else last
    ensures sent.Ok? && NoDataYet(replies(receives - 1)) ==> receives == MAX_WAITS + 1
  {
    if sent.Err? {
      return Err(sent.error), 0;
    }
    var delay := new ExponentialDelay(INITIAL_DELAY, MAX_DELAY);
    receives := 0;
    while true
      invariant Waited(receives, INITIAL_DELAY, delay.delay, delay.totalDelay)
      invariant receives <= MAX_WAITS
      invariant forall i :: 0 <= i < receives ==> NoDataYet(replies(i))
      decreases MAX_WAITS - receives
    {
      var received := replies(receives);
      receives := receives + 1;
      if received.Err? {
        return received, receives;
      }
      var reply := received.value;
      if reply.requestCode == 0 {
        return Err(NoResponse), receives;
      }
      if reply.availableDataLength == 0 {
        WaitAllowedIff(receives - 1, delay.delay, delay.totalDelay);
        WaitOnce(receives - 1, INITIAL_DELAY, delay.delay, delay.totalDelay);
        var waited := delay.Delay();
        if waited.Err? {
          return Err(NoResponse), receives;
        }
        continue;
      }
      return Ok(reply), receives;
    }
  }
}
