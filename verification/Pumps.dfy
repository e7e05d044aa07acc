/** The two bounded pumps around a child process: the signature verifier's, which
    feeds a blob and counts output, and the service manager's, which captures
    output (`deployment/blob_verifier.py`, `deployment/analytics_service_recovery.py`).
    Times are in microseconds. Only waits take time, and each at least one. */
module Pumps {
  import opened Wrappers

  type Bytes = seq<nat>

  const COUNT_LIMIT: nat := 65536
  const CAPTURE_LIMIT: nat := 32768
  const EXECUTION_TIMEOUT: nat := 30_000_000
  const NAP: nat := 10_000
  const COSIGN_REAP: nat := 1_000_000
  const CAPTURE_REAP: nat := 5_000_000

  datatype Stream = In | Out | Err

  datatype Cleanup = KillGroup | Reap | Close(s: Stream)

  /** Where an interrupt can arrive: while pumping or waiting, or in a cleanup step. */
  datatype Point = Working | Cleaning(step: Cleanup)

  /** The child: all it will ever write, how much of it was read, what it was given. */
  class Child {
    const out: Bytes
    const err: Bytes
    const calm: bool // no interrupt, failure or blocked read; it ends with its streams
    const pace: nat // and then no wait for a ready stream takes longer
    var outAt: nat
    var errAt: nat
    var received: Bytes
    var clock: nat
    ghost var cleaned: seq<Cleanup>
    ghost var interrupts: seq<Point>

    constructor (out: Bytes, err: Bytes, calm: bool, pace: nat, clock: nat)
      ensures this.out == out && this.err == err && this.clock == clock && Valid()
      ensures this.calm == calm && this.pace == pace
      ensures outAt == 0 && errAt == 0 && received == [] && cleaned == [] && interrupts == []
    {
      this.out, this.err, this.calm, this.pace, this.clock := out, err, calm, pace, clock;
      outAt, errAt, received, cleaned, interrupts := 0, 0, [], [], [];
    }

    ghost predicate Valid()
      reads this
    {
      outAt <= |out| && errAt <= |err|
    }

    /** Everything read from a stream so far. */
    function ReadFrom(s: Stream): Bytes
      requires Valid()
      reads this
    {
      match s case In => [] case Out => out[..outAt] case Err => err[..errAt]
    }

    function AllOf(s: Stream): Bytes {
      match s case In => [] case Out => out case Err => err
    }

    /** How a call ends; an interrupt is recorded. */
    method Ends(p: Point) returns (o: Outcome)
      modifies this`interrupts
      ensures interrupts == old(interrupts) + (if o == Control then [p] else [])
      ensures calm ==> o == Returned
    {
      o := *;
      o := if calm then Returned else o;
      if o == Control {
        interrupts := interrupts + [p];
      }
    }

    /** The next ready streams, within the time left; none only when that ran out. */
    method Select(open: set<Stream>, deadline: nat) returns (o: Outcome, ready: set<Stream>)
      requires clock < deadline && open != {}
      modifies this`clock, this`interrupts
      ensures old(clock) < clock <= deadline && ready <= open
      ensures ready == {} && o == Returned ==> clock == deadline
      ensures interrupts == old(interrupts) + (if o == Control then [Working] else [])
      ensures calm && pace > 0 ==> o == Returned && ready != {} && clock <= old(clock) + pace
    {
      var d: nat :| 1 <= d <= deadline - clock && (calm && pace > 0 ==> d <= pace);
      var some: set<Stream> := *;
      ready := some * open;
      if calm {
        var s :| s in open;
        ready := ready + {s};
      }
      clock := if ready == {} then deadline else clock + d;
      o := Ends(Working);
    }

    /** `os.read`: some next bytes, or none at the end; a blocked read is `None`. */
    method ReadChunk(s: Stream, limit: nat) returns (o: Outcome, chunk: Option<Bytes>)
      requires Valid() && s != In && limit > 0
      modifies this`outAt, this`errAt, this`interrupts
      ensures Valid()
      ensures interrupts == old(interrupts) + (if o == Control then [Working] else [])
      ensures o != Returned || chunk.None? ==> outAt == old(outAt) && errAt == old(errAt)
      ensures chunk.Some? && o == Returned ==>
        && |chunk.value| <= limit && ReadFrom(s) == old(ReadFrom(s)) + chunk.value
        && (chunk.value == [] ==> ReadFrom(s) == AllOf(s))
        && outAt == old(outAt) + (if s == Out then |chunk.value| else 0)
        && errAt == old(errAt) + (if s == Err then |chunk.value| else 0)
      ensures forall t: Stream | t != s :: ReadFrom(t) == old(ReadFrom(t))
      ensures calm ==> o == Returned && chunk.Some?
    {
      o := Ends(Working);
      var blocked: bool := *;
      if o != Returned || (blocked && !calm) {
        return o, None;
      }
      var all, at := AllOf(s), if s == Out then outAt else errAt;
      var n: nat :| n <= limit && at + n <= |all| && (n == 0 ==> at == |all|);
      chunk := Some(all[at..at + n]);
      if s == Out {
        outAt := at + n;
      } else {
        errAt := at + n;
      }
      assert all[..at + n] == all[..at] + all[at..at + n];
    }

    /** `os.write` of a non-empty rest: one byte or more. */
    method WriteSome(data: Bytes) returns (o: Outcome, n: nat)
      modifies this`received, this`interrupts
      ensures n <= |data| && received == old(received) + data[..n]
      ensures o != Returned ==> n == 0
      ensures o == Returned && data != [] ==> n > 0
      ensures calm ==> o == Returned
      ensures interrupts == old(interrupts) + (if o == Control then [Working] else [])
    {
      o := Ends(Working);
      n := 0;
      if o == Returned && data != [] {
        n :| 0 < n <= |data|;
      }
      received := received + data[..n];
    }

    /** `waitid` until the child has ended or the deadline passed, with naps of 10 ms
        between; `cut` is whether a nap is shortened to the time left. */
    method AwaitExit(deadline: nat, cut: bool) returns (o: Outcome, returncode: int)
      requires clock <= deadline
      modifies this`clock, this`interrupts
      ensures old(clock) <= clock && clock < deadline + NAP && (cut ==> clock <= deadline)
      ensures interrupts == old(interrupts) + (if o == Control then [Working] else [])
      ensures calm ==> o == Returned
    {
      returncode := 0;
      while true
        invariant old(clock) <= clock && clock < deadline + NAP && (cut ==> clock <= deadline)
        invariant interrupts == old(interrupts)
        decreases deadline + NAP - clock
      {
        var ended: bool := *;
        o := Ends(Working);
        if ended || calm || o != Returned {
          returncode := *;
          return;
        }
        if clock >= deadline {
          return Failed, 0;
        }
        clock := clock + (if cut && deadline - clock < NAP then deadline - clock else NAP);
      }
    }

    /** One cleanup step; only reaping waits, and no longer than it is told. */
    method CleanUp(step: Cleanup, reap: nat) returns (o: Outcome)
      modifies this`cleaned, this`clock, this`interrupts
      ensures cleaned == old(cleaned) + [step]
      ensures old(clock) <= clock <= old(clock) + (if step == Reap then reap else 0)
      ensures interrupts == old(interrupts) + (if o == Control then [Cleaning(step)] else [])
      ensures calm ==> o == Returned
    {
      cleaned := cleaned + [step];
      if step == Reap {
        var d: nat :| d <= reap;
        clock := clock + d;
      }
      o := Ends(Cleaning(step));
    }
  }

  /** The longest that `n` waits take. */
  function Longest(pace: nat, n: nat): nat {
    if n == 0 then 0 else Longest(pace, n - 1) + pace
  }

  lemma {:induction false} OneMoreWait(pace: nat, k: nat, n: nat)
    requires k < n
    ensures Longest(pace, k) + pace <= Longest(pace, n)
  {
    if k < n - 1 {
      OneMoreWait(pace, k, n - 1);
    }
  }

  // ----- feeding and counting -----------------------------------------------

  const COSIGN_CLEANUP: seq<Cleanup> := [KillGroup, Reap, Close(In), Close(Out), Close(Err)]

  datatype ProcessResult = ProcessResult(returncode: int, stdoutBytes: nat, stderrBytes: nat)

  class CosignProcess {
    const child: Child
    const blob: Bytes
    var offset: nat
    var outCount: nat
    var errCount: nat
    var open: set<Stream>

    constructor (child: Child, blob: Bytes)
      requires child.Valid() && child.received == [] && child.outAt == 0 && child.errAt == 0
      ensures this.child == child && this.blob == blob && Valid() && open == {In, Out, Err}
    {
      this.child, this.blob, offset, outCount, errCount, open := child, blob, 0, 0, 0, {In, Out, Err};
    }

    /** What was sent is a prefix of the blob, what was counted was read, and a
        stream is given up only when it is finished. */
    ghost predicate Valid()
      reads this, child
    {
      && child.Valid() && offset <= |blob| && child.received == blob[..offset]
      && outCount == child.outAt && errCount == child.errAt
      && (In !in open ==> offset == |blob|)
      && (Out !in open ==> outCount == |child.out|)
      && (Err !in open ==> errCount == |child.err|)
    }

    /** What is left to move, and the streams still open: a bound on the waits. */
    ghost function Rank(): nat
      requires Valid()
      reads this, child
    {
      (|blob| - offset) + (|child.out| - child.outAt) + (|child.err| - child.errAt) + |open|
    }

    /** The child does not write too much. */
    predicate Modest() {
      |child.out| <= COUNT_LIMIT && |child.err| <= COUNT_LIMIT
    }

    ghost predicate Bounded()
      reads this
    {
      outCount <= COUNT_LIMIT && errCount <= COUNT_LIMIT
    }

    /** One ready stream. */
    method Handle(s: Stream) returns (o: Outcome)
      requires Valid() && Bounded()
      modifies this`offset, this`outCount, this`errCount, this`open, child`outAt, child`errAt, child`received, child`interrupts
      ensures Valid() && old(open) - {s} <= open <= old(open) && (o == Returned ==> Bounded())
      ensures o == Returned && s in old(open) ==> Rank() < old(Rank())
      ensures child.calm && Modest() ==> o == Returned
      ensures child.interrupts == old(child.interrupts) + (if o == Control then [Working] else [])
      ensures outCount <= COUNT_LIMIT + 65536 && errCount <= COUNT_LIMIT + 65536
    {
      if s == In {
        o := Feed();
      } else {
        o := Count(s);
      }
    }

    /** The next piece of the blob, as much of it as goes. */
    method Feed() returns (o: Outcome)
      requires Valid()
      modifies this`offset, this`open, child`received, child`interrupts
      ensures Valid() && old(open) - {In} <= open <= old(open)
      ensures o == Returned && In in old(open) ==> Rank() < old(Rank())
      ensures child.calm ==> o == Returned
      ensures child.interrupts == old(child.interrupts) + (if o == Control then [Working] else [])
    {
      var n;
      var piece := blob[offset..if offset + 65536 <= |blob| then offset + 65536 else |blob|];
      o, n := child.WriteSome(piece);
      assert blob[..offset + n] == blob[..offset] + piece[..n];
      offset := offset + n;
      if o == Returned && offset == |blob| {
        open := open - {In};
      }
    }

    /** The next output, counted. */
    method Count(s: Stream) returns (o: Outcome)
      requires Valid() && Bounded() && s != In
      modifies this`outCount, this`errCount, this`open, child`outAt, child`errAt, child`interrupts
      ensures Valid() && old(open) - {s} <= open <= old(open) && (o == Returned ==> Bounded())
      ensures o == Returned && s in old(open) ==> Rank() < old(Rank())
      ensures child.calm && Modest() ==> o == Returned
      ensures child.interrupts == old(child.interrupts) + (if o == Control then [Working] else [])
      ensures outCount <= COUNT_LIMIT + 65536 && errCount <= COUNT_LIMIT + 65536
    {
      var chunk;
      o, chunk := child.ReadChunk(s, 65536);
      if o != Returned || chunk.None? {
        return if o == Returned then Failed else o; // a blocked read is an error here
      }
      if s == Out {
        outCount := outCount + |chunk.value|;
      } else {
        errCount := errCount + |chunk.value|;
      }
      if outCount > COUNT_LIMIT || errCount > COUNT_LIMIT {
        return Failed;
      }
      if chunk.value == [] {
        open := open - {s};
      }
    }

    /** The selector loop: every stream to its end, within the limits; no exit is
        later than the deadline, and success comes before it. */
    method Pump(deadline: nat) returns (o: Outcome)
      requires Valid() && open == {In, Out, Err} && Bounded() && child.clock <= deadline
      modifies this`offset, this`outCount, this`errCount, this`open
      modifies child`outAt, child`errAt, child`received, child`clock, child`interrupts
      ensures Valid() && old(child.clock) <= child.clock <= deadline
      ensures o == Returned ==> open == {} && Bounded() && child.clock < deadline
      ensures child.interrupts == old(child.interrupts) + (if o == Control then [Working] else [])
      ensures Unhurried(old(child.clock), old(Rank()), deadline) ==> (o == Returned <==> Modest())
    {
      o := Returned;
      ghost var start, rank := child.clock, Rank();
      while open != {}
        invariant Valid() && Bounded() && o == Returned && Rank() <= rank
        invariant Unhurried(start, rank, deadline) && Modest() ==>
          child.clock + Longest(child.pace, Rank()) <= start + Longest(child.pace, rank)
        invariant old(child.clock) <= child.clock <= deadline && (open == {} ==> child.clock < deadline)
        invariant child.interrupts == old(child.interrupts)
        decreases deadline - child.clock
      {
        if child.clock >= deadline {
          return Failed;
        }
        ghost var before := Rank();
        var ready;
        o, ready := child.Select(open, deadline);
        if o != Returned { return; }
        o := HandleAll(ready);
        if o != Returned { return; }
        if ready != {} {
          OneMoreWait(child.pace, Rank(), before);
        }
        if child.clock >= deadline {
          return Failed;
        }
      }
    }

    /** Nothing goes wrong, and there is time for every wait. */
    predicate Unhurried(clock: nat, rank: nat, deadline: nat) {
      child.calm && child.pace > 0 && clock + Longest(child.pace, rank) < deadline
    }

    method HandleAll(ready: set<Stream>) returns (o: Outcome)
      requires Valid() && Bounded() && ready <= open
      modifies this`offset, this`outCount, this`errCount, this`open
      modifies child`outAt, child`errAt, child`received, child`interrupts
      ensures Valid() && (o == Returned ==> Bounded())
      ensures o == Returned ==> Rank() <= old(Rank()) && (ready != {} ==> Rank() < old(Rank()))
      ensures child.calm && Modest() ==> o == Returned
      ensures child.interrupts == old(child.interrupts) + (if o == Control then [Working] else [])
    {
      o := Returned;
      var rest := ready;
      while rest != {}
        invariant Valid() && Bounded() && o == Returned && child.interrupts == old(child.interrupts)
        invariant rest <= open && rest <= ready
        invariant Rank() <= old(Rank()) && (rest != ready ==> Rank() < old(Rank()))
        decreases |rest|
      {
        var s :| s in rest;
        rest := rest - {s};
        o := Handle(s);
        if o != Returned { return; }
      }
    }

    /** `_CosignProcess.run`: success means the whole blob went in, in order, and all
        output stayed within its limit; every path ends with each cleanup once and
        within 31 s, and every interrupt, wherever it arrives, is passed on. */
    method Run() returns (o: Outcome, result: ProcessResult)
      requires Valid() && open == {In, Out, Err} && Bounded() && child.cleaned == [] && child.interrupts == []
      modifies this`offset, this`outCount, this`errCount, this`open
      modifies child`outAt, child`errAt, child`received, child`clock, child`cleaned, child`interrupts
      ensures child.cleaned == [KillGroup, Reap, Close(In), Close(Out), Close(Err)]
      ensures child.Valid() && child.received <= blob
      ensures child.clock <= old(child.clock) + 30_000_000 + 1_000_000
      ensures o == Control <==> child.interrupts != []
      ensures o == Returned ==>
        && child.received == blob && child.ReadFrom(Out) == child.out && child.ReadFrom(Err) == child.err
        && result.stdoutBytes == |child.out| <= 65536 && result.stderrBytes == |child.err| <= 65536
      ensures Unhurried(0, old(Rank()), 30_000_000) ==> (o == Returned <==> |child.out| <= 65536 && |child.err| <= 65536)
    {
      var deadline := child.clock + EXECUTION_TIMEOUT;
      result := ProcessResult(0, 0, 0);
      o := Pump(deadline);
      if o == Returned {
        var returncode;
        o, returncode := child.AwaitExit(deadline, true);
        result := ProcessResult(returncode, outCount, errCount);
        if o == Returned && offset != |blob| {
          o := Failed;
        }
      }
      var cleanup := CleanAll();
      if o != Control && cleanup != Returned {
        o := cleanup;
      }
      assert blob[..|blob|] == blob && child.out[..|child.out|] == child.out && child.err[..|child.err|] == child.err;
    }

    /** The `finally` of `run`: an interrupt in it wins over a failure in it. */
    method CleanAll() returns (o: Outcome)
      modifies child`cleaned, child`clock, child`interrupts
      ensures child.cleaned == old(child.cleaned) + COSIGN_CLEANUP
      ensures old(child.clock) <= child.clock <= old(child.clock) + COSIGN_REAP
      ensures old(child.interrupts) <= child.interrupts
      ensures o == Control <==> child.interrupts != old(child.interrupts)
      ensures child.calm ==> o == Returned
    {
      o := Returned;
      var k := 0;
      while k < |COSIGN_CLEANUP|
        invariant 0 <= k <= |COSIGN_CLEANUP| && child.cleaned == old(child.cleaned) + COSIGN_CLEANUP[..k]
        invariant old(child.clock) <= child.clock <= old(child.clock) + (if k <= 1 then 0 else COSIGN_REAP)
        invariant old(child.interrupts) <= child.interrupts
        invariant o == Control <==> child.interrupts != old(child.interrupts)
        invariant child.calm ==> o == Returned
      {
        var step := child.CleanUp(COSIGN_CLEANUP[k], COSIGN_REAP);
        o := if o == Control || step == Control then Control else if step == Failed then Failed else o;
        k := k + 1;
      }
    }
  }

  // ----- capturing ----------------------------------------------------------

  const CAPTURE_CLEANUP: seq<Cleanup> := [KillGroup, Reap, Close(Out), Close(Err)]

  class Capture {
    const child: Child
    var stdout: Bytes
    var stderr: Bytes
    var open: set<Stream>

    constructor (child: Child)
      requires child.Valid() && child.outAt == 0 && child.errAt == 0
      ensures this.child == child && Valid() && open == {Out, Err}
    {
      this.child, stdout, stderr, open := child, [], [], {Out, Err};
    }

    /** What is captured is what was read, cut at the limit. */
    ghost predicate Valid()
      reads this, child
    {
      && child.Valid()
      && stdout == Cut(child.ReadFrom(Out)) && stderr == Cut(child.ReadFrom(Err))
      && (Out !in open ==> child.ReadFrom(Out) == child.out)
      && (Err !in open ==> child.ReadFrom(Err) == child.err)
      && In !in open
    }

    /** What is left to read, and the streams still open: a bound on the waits. */
    ghost function Rank(): nat
      requires Valid()
      reads this, child
    {
      (|child.out| - child.outAt) + (|child.err| - child.errAt) + |open|
    }

    /** The child does not write too much. */
    predicate Modest() {
      |child.out| <= CAPTURE_LIMIT && |child.err| <= CAPTURE_LIMIT
    }

    /** Nothing goes wrong, and there is time for every wait. */
    predicate Unhurried(clock: nat, rank: nat, deadline: nat) {
      child.calm && child.pace > 0 && clock + Longest(child.pace, rank) < deadline
    }

    ghost predicate Whole()
      reads this, child
      requires child.Valid()
    {
      |child.ReadFrom(Out)| <= CAPTURE_LIMIT && |child.ReadFrom(Err)| <= CAPTURE_LIMIT
    }

    method Handle(s: Stream) returns (o: Outcome)
      requires Valid() && Whole() && s != In
      modifies this`stdout, this`stderr, this`open, child`outAt, child`errAt, child`interrupts
      ensures Valid() && (o == Returned ==> Whole()) && old(open) - {s} <= open <= old(open)
      ensures Rank() <= old(Rank())
      ensures child.calm && o == Returned && s in old(open) ==> Rank() < old(Rank())
      ensures child.calm && Modest() ==> o == Returned
      ensures child.interrupts == old(child.interrupts) + (if o == Control then [Working] else [])
    {
      var chunk;
      o, chunk := child.ReadChunk(s, 4096);
      if o != Returned || chunk.None? {
        return; // a blocked read is passed over here
      }
      if chunk.value == [] {
        open := open - {s};
        return;
      }
      var space := CAPTURE_LIMIT - |if s == Out then stdout else stderr|;
      var kept := if |chunk.value| <= space then chunk.value else chunk.value[..space];
      if s == Out {
        stdout := stdout + kept;
      } else {
        stderr := stderr + kept;
      }
      if |chunk.value| > space {
        o := Failed;
      }
    }

    method HandleAll(ready: set<Stream>) returns (o: Outcome)
      requires Valid() && Whole() && ready <= open
      modifies this`stdout, this`stderr, this`open, child`outAt, child`errAt, child`interrupts
      ensures Valid() && (o == Returned ==> Whole()) && Rank() <= old(Rank())
      ensures child.calm && o == Returned && ready != {} ==> Rank() < old(Rank())
      ensures child.calm && Modest() ==> o == Returned
      ensures child.interrupts == old(child.interrupts) + (if o == Control then [Working] else [])
    {
      o := Returned;
      var rest := ready;
      while rest != {}
        invariant Valid() && Whole() && o == Returned && child.interrupts == old(child.interrupts)
        invariant rest <= open && rest <= ready
        invariant Rank() <= old(Rank()) && (child.calm && rest != ready ==> Rank() < old(Rank()))
        decreases |rest|
      {
        var s :| s in rest;
        rest := rest - {s};
        o := Handle(s);
        if o != Returned { return; }
      }
    }

    /** The selector loop: no exit is later than the deadline. */
    method Drain(deadline: nat) returns (o: Outcome)
      requires Valid() && Whole() && child.clock <= deadline
      modifies this`stdout, this`stderr, this`open, child`outAt, child`errAt, child`clock, child`interrupts
      ensures Valid() && (o == Returned ==> Whole() && open == {})
      ensures old(child.clock) <= child.clock <= deadline
      ensures child.interrupts == old(child.interrupts) + (if o == Control then [Working] else [])
      ensures Unhurried(old(child.clock), old(Rank()), deadline) ==> (o == Returned <==> Modest())
    {
      o := Returned;
      ghost var start, rank := child.clock, Rank();
      while open != {}
        invariant Valid() && Whole() && o == Returned && Rank() <= rank
        invariant Unhurried(start, rank, deadline) && Modest() ==>
          child.clock + Longest(child.pace, Rank()) <= start + Longest(child.pace, rank)
        invariant old(child.clock) <= child.clock <= deadline && child.interrupts == old(child.interrupts)
        decreases deadline - child.clock
      {
        if child.clock >= deadline {
          return Failed;
        }
        ghost var before := Rank();
        var ready;
        o, ready := child.Select(open, deadline);
        if o != Returned { return; }
        o := HandleAll(ready);
        if o != Returned { return; }
        if Rank() < before {
          OneMoreWait(child.pace, Rank(), before);
        }
      }
    }

    /** `_capture_command`: whatever happens, what is kept is what the child wrote
        first; success means all of it. It ends within its timeout, one nap and the
        reaping. A failing cleanup never replaces an error, and an interrupt is passed
        on exactly if it arrived before the cleanup: one in the cleanup never is. */
    method Run(timeout: nat) returns (o: Outcome, returncode: int)
      requires Valid() && open == {Out, Err} && Whole() && child.cleaned == [] && child.interrupts == []
      modifies this`stdout, this`stderr, this`open
      modifies child`outAt, child`errAt, child`clock, child`cleaned, child`interrupts
      ensures child.cleaned == [KillGroup, Reap, Close(Out), Close(Err)]
      ensures stdout <= child.out && stderr <= child.err && |stdout| <= 32768 && |stderr| <= 32768
      ensures child.clock < old(child.clock) + timeout + 10_000 + 5_000_000
      ensures o == Control <==> Working in child.interrupts
      ensures o == Returned ==> child.interrupts == []
      ensures o == Returned ==> stdout == child.out && stderr == child.err
      ensures Unhurried(0, old(Rank()), timeout) ==> (o == Returned <==> |child.out| <= 32768 && |child.err| <= 32768)
    {
      var deadline := child.clock + timeout;
      returncode := 0;
      o := Drain(deadline);
      if o == Returned {
        o, returncode := child.AwaitExit(deadline, false);
      }
      var clean := CleanAll();
      if o == Returned && !clean {
        o := Failed;
      }
    }

    method CleanAll() returns (clean: bool)
      modifies child`cleaned, child`clock, child`interrupts
      ensures child.cleaned == old(child.cleaned) + CAPTURE_CLEANUP
      ensures old(child.clock) <= child.clock <= old(child.clock) + CAPTURE_REAP
      ensures Working in child.interrupts <==> Working in old(child.interrupts)
      ensures old(child.interrupts) <= child.interrupts && (clean ==> child.interrupts == old(child.interrupts))
      ensures child.calm ==> clean
    {
      clean := true;
      var k := 0;
      while k < |CAPTURE_CLEANUP|
        invariant 0 <= k <= |CAPTURE_CLEANUP| && child.cleaned == old(child.cleaned) + CAPTURE_CLEANUP[..k]
        invariant old(child.clock) <= child.clock <= old(child.clock) + (if k <= 1 then 0 else CAPTURE_REAP)
        invariant Working in child.interrupts <==> Working in old(child.interrupts)
        invariant old(child.interrupts) <= child.interrupts && (clean ==> child.interrupts == old(child.interrupts))
        invariant child.calm ==> clean
      {
        var step := child.CleanUp(CAPTURE_CLEANUP[k], CAPTURE_REAP);
        clean := clean && step == Returned;
        k := k + 1;
      }
    }
  }

  /** The first bytes, as many as may be kept. */
  function Cut(b: Bytes): Bytes {
    if |b| <= CAPTURE_LIMIT then b else b[..CAPTURE_LIMIT]
  }
}
