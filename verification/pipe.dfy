/** The synchronous pipe of src/io/pipe.go: any number of goroutines reading, writing and closing,
    as a step system. Everything done between taking and releasing the mutex l is one step; Wait
    parks a goroutine and Signal moves one parked goroutine back to the mutex. */
module Pipe {
  import opened Wrappers
  import opened Bits

  datatype Error = ErrClosedPipe | EOF | OtherError(code: nat)

  /** The fields that l protects. */
  datatype Shared = Shared(data: Option<seq<byte>>, rerr: Option<Error>, werr: Option<Error>)

  // ---- The critical sections, as functions of the shared fields ----

  /** A section ends at Wait, or at the unlocking of l with the results of the call. */
  datatype Outcome = Waits | Returns(n: int, err: Option<Error>)

  datatype Section = Section(after: Shared, outcome: Outcome, signalReader: bool, signalWriter: bool)

  /** read, from the top of its loop, into a buffer of the given size. */
  function ReadSection(s: Shared, size: nat): Section {
    if s.rerr.Some? then Section(s, Returns(0, Some(ErrClosedPipe)), false, false)
    else if s.data.Some? then
      var n := Min(size, |s.data.value|);
      var rest := s.data.value[n..];
      if rest == [] then Section(s.(data := None), Returns(n, None), false, true)
      else Section(s.(data := Some(rest)), Returns(n, None), false, false)
    else if s.werr.Some? then Section(s, Returns(0, s.werr), false, false)
    else Section(s, Waits, false, false)
  }

  /** write of b, from the top of its loop, with the error found so far. */
  function WriteLoop(s: Shared, b: seq<byte>, err: Option<Error>): (Section, Option<Error>) {
    if s.data.None? then (Section(s, Returns(|b|, err), false, false), err)
    else if s.rerr.Some? then
      (Section(s.(data := None), Returns(|b| - |s.data.value|, s.rerr), false, false), s.rerr)
    else (Section(s, Waits, false, false), if s.werr.Some? then Some(ErrClosedPipe) else err)
  }

  /** write, from its start. */
  function WriteStart(s: Shared, b: seq<byte>): (Section, Option<Error>) {
    if s.werr.Some? then (Section(s, Returns(0, Some(ErrClosedPipe)), false, false), Some(ErrClosedPipe))
    else
      var (loop, err) := WriteLoop(s.(data := Some(b)), b, None);
      (loop.(signalReader := true), err)
  }

  // ---- The same sections as methods on the pipe structure ----

  class PipeFields {
    var data: Option<seq<byte>>
    var rerr: Option<Error>
    var werr: Option<Error>

    constructor ()
      ensures Value() == Shared(None, None, None)
    {
      data, rerr, werr := None, None, None;
    }

    ghost function Value(): Shared
      reads this
    {
      Shared(data, rerr, werr)
    }

    /** One round of read's loop; the bytes are copied to the front of b. */
    method Read(b: array<byte>) returns (outcome: Outcome, signalWriter: bool)
      modifies this`data, b
      ensures var section := ReadSection(old(Value()), b.Length);
              Value() == section.after && outcome == section.outcome && signalWriter == section.signalWriter
      ensures var n := if outcome.Returns? then outcome.n else 0;
              && 0 <= n <= b.Length && b[n..] == old(b[n..])
              && (n > 0 ==> old(data).Some? && n <= |old(data).value| && b[..n] == old(data).value[..n])
    {
      signalWriter := false;
      if rerr.Some? {
        return Returns(0, Some(ErrClosedPipe)), false;
      }
      if data.Some? {
        var source := data.value;
        var n := 0;
        while n < b.Length && n < |source|
          invariant 0 <= n <= b.Length && n <= |source|
          invariant b[..n] == source[..n] && b[n..] == old(b[n..])
          invariant data == old(data)
        {
          b[n] := source[n];
          n := n + 1;
        }
        data := Some(source[n..]);
        if |data.value| == 0 {
          data := None;
          signalWriter := true;
        }
        return Returns(n, None), signalWriter;
      }
      if werr.Some? {
        return Returns(0, werr), false;
      }
      outcome := Waits;
    }

    /** The start of write, up to its first Wait or its return. */
    method Write(b: seq<byte>) returns (outcome: Outcome, err: Option<Error>, signalReader: bool)
      modifies this`data
      ensures var (section, e) := WriteStart(old(Value()), b);
              Value() == section.after && outcome == section.outcome && signalReader == section.signalReader && err == e
    {
      signalReader := false;
      if werr.Some? {
        err := Some(ErrClosedPipe);
        return Returns(0, err), err, false;
      }
      data := Some(b);
      outcome, err := ContinueWrite(b, None);
      signalReader := true;
    }

    /** One round of write's loop. */
    method ContinueWrite(b: seq<byte>, found: Option<Error>) returns (outcome: Outcome, err: Option<Error>)
      modifies this`data
      ensures var (section, e) := WriteLoop(old(Value()), b, found);
              Value() == section.after && outcome == section.outcome && err == e
    {
      err := found;
      if data.Some? && rerr.None? {
        if werr.Some? {
          err := Some(ErrClosedPipe);
        }
        return Waits, err;
      }
      if data.Some? {
        err := rerr;
      }
      var n := |b| - (if data.Some? then |data.value| else 0);
      data := None;
      outcome := Returns(n, err);
    }

    method RClose(err: Option<Error>)
      modifies this`rerr
      ensures Value() == old(Value()).(rerr := Some(err.GetOr(ErrClosedPipe)))
    {
      rerr := Some(err.GetOr(ErrClosedPipe));
    }

    method WClose(err: Option<Error>)
      modifies this`werr
      ensures Value() == old(Value()).(werr := Some(err.GetOr(EOF)))
    {
      werr := Some(err.GetOr(EOF));
    }
  }

  // ---- The step system ----

  /** Where a goroutine stands. Gate: waiting for rl or wl. Ready: holding it, waiting for l, either
      at the start of the call or after being signalled. Parked: in Wait, not signalled. Leaving:
      l released, rl or wl still held. A closing goroutine only waits for l. */
  datatype Phase =
    | Idle
    | ReadGate(size: nat)
    | ReadReady(size: nat)
    | ReadParked(size: nat)
    | ReadLeaving
    | WriteGate(b: seq<byte>)
    | WriteEnter(b: seq<byte>)
    | WriteParked(b: seq<byte>, err: Option<Error>)
    | WriteWoken(b: seq<byte>, err: Option<Error>)
    | WriteLeaving
    | Closing(readSide: bool, cause: Option<Error>)
  {
    predicate HoldsReadGate() { ReadReady? || ReadParked? || ReadLeaving? }
    predicate HoldsWriteGate() { WriteEnter? || WriteParked? || WriteWoken? || WriteLeaving? }
    predicate Reading() { ReadGate? || HoldsReadGate() }
    predicate Writing() { WriteGate? || HoldsWriteGate() }
    predicate Offering() { WriteParked? || WriteWoken? }
  }

  /** A finished write: its argument and results. */
  datatype Finished = Finished(b: seq<byte>, n: int, err: Option<Error>)

  /** A finished read: the size of its buffer, the bytes it has put there, and its error. */
  datatype FinishedRead = FinishedRead(size: nat, bytes: seq<byte>, err: Option<Error>)

  /** What has happened, in order: handed and written, the finished reads and writes, and received, the bytes of all
      reads; offered, the arguments of all writes that began while the write side was open; rcauses and
      wcauses, the errors that either side has been closed with. */
  datatype State = State(
    threads: seq<Phase>, shared: Shared, rl: Option<nat>, wl: Option<nat>,
    received: seq<byte>, written: seq<Finished>, handed: seq<FinishedRead>,
    offered: seq<seq<byte>>, rcauses: seq<Error>, wcauses: seq<Error>)

  ghost predicate Init(s: State) {
    && (forall t :: 0 <= t < |s.threads| ==> s.threads[t] == Idle)
    && s.shared == Shared(None, None, None) && s.rl == s.wl == None && s.received == [] && s.written == []
    && s.handed == [] && s.offered == [] && s.rcauses == [] && s.wcauses == []
  }

  /** Signal on rwait: moves one parked reader, if there is one. */
  ghost predicate SignalReader(before: seq<Phase>, after: seq<Phase>) {
    if exists t :: 0 <= t < |before| && before[t].ReadParked? then
      exists t :: 0 <= t < |before| && before[t].ReadParked? && after == before[t := ReadReady(before[t].size)]
    else after == before
  }

  /** Signal on wwait. */
  ghost predicate SignalWriter(before: seq<Phase>, after: seq<Phase>) {
    if exists t :: 0 <= t < |before| && before[t].WriteParked? then
      exists t :: 0 <= t < |before| && before[t].WriteParked? &&
                  after == before[t := WriteWoken(before[t].b, before[t].err)]
    else after == before
  }

  ghost predicate Signals(before: seq<Phase>, after: seq<Phase>, reader: bool, writer: bool) {
    exists middle :: SignalsVia(before, middle, after, reader, writer)
  }

  ghost predicate SignalsVia(before: seq<Phase>, middle: seq<Phase>, after: seq<Phase>, reader: bool, writer: bool) {
    && (if reader then SignalReader(before, middle) else middle == before)
    && (if writer then SignalWriter(middle, after) else after == middle)
  }

  /** Goroutine t starts a call. */
  ghost predicate Start(s: State, s': State, t: nat)
    requires t < |s.threads|
  {
    && s.threads[t].Idle?
    && exists p: Phase :: (p.ReadGate? || p.WriteGate? || p.Closing?) && s' == s.(threads := s.threads[t := p])
  }

  /** Taking or releasing rl or wl. */
  ghost predicate Gate(s: State, s': State, t: nat)
    requires t < |s.threads|
  {
    match s.threads[t]
    case ReadGate(size) => s.rl.None? && s' == s.(threads := s.threads[t := ReadReady(size)], rl := Some(t))
    case WriteGate(b) => s.wl.None? && s' == s.(threads := s.threads[t := WriteEnter(b)], wl := Some(t))
    case ReadLeaving => s' == s.(threads := s.threads[t := Idle], rl := None)
    case WriteLeaving => s' == s.(threads := s.threads[t := Idle], wl := None)
    case _ => false
  }

  ghost predicate Read(s: State, s': State, t: nat)
    requires t < |s.threads|
  {
    s.threads[t].ReadReady? &&
    var size := s.threads[t].size;
    var section := ReadSection(s.shared, size);
    var next := if section.outcome.Waits? then ReadParked(size) else ReadLeaving;
    && Signals(s.threads[t := next], s'.threads, false, section.signalWriter)
    && s' == s.(threads := s'.threads, shared := section.after,
                received := s.received + Bytes(s.shared, section),
                handed := s.handed + Reported(size, s.shared, section))
  }

  ghost function Reported(size: nat, s: Shared, section: Section): seq<FinishedRead> {
    if section.outcome.Returns? then [FinishedRead(size, Bytes(s, section), section.outcome.err)] else []
  }

  /** The bytes a read section hands to its caller. */
  ghost function Bytes(s: Shared, section: Section): seq<byte> {
    if section.outcome.Returns? && s.data.Some? && 0 <= section.outcome.n <= |s.data.value|
    then s.data.value[..section.outcome.n] else []
  }

  ghost predicate Write(s: State, s': State, t: nat)
    requires t < |s.threads|
  {
    (s.threads[t].WriteEnter? || s.threads[t].WriteWoken?) &&
    var b := s.threads[t].b;
    var (section, err) := if s.threads[t].WriteEnter? then WriteStart(s.shared, b)
                          else WriteLoop(s.shared, b, s.threads[t].err);
    var next := if section.outcome.Waits? then WriteParked(b, err) else WriteLeaving;
    && Signals(s.threads[t := next], s'.threads, section.signalReader, false)
    && s' == s.(threads := s'.threads, shared := section.after,
                written := if section.outcome.Waits? then s.written
                           else s.written + [Finished(b, section.outcome.n, section.outcome.err)],
                offered := if s.threads[t].WriteEnter? && s.shared.werr.None? then s.offered + [b] else s.offered)
  }

  ghost predicate Close(s: State, s': State, t: nat)
    requires t < |s.threads|
  {
    s.threads[t].Closing? &&
    var cause := s.threads[t].cause;
    && Signals(s.threads[t := Idle], s'.threads, true, true)
    && s' == s.(threads := s'.threads,
                shared := if s.threads[t].readSide then s.shared.(rerr := Some(cause.GetOr(ErrClosedPipe)))
                          else s.shared.(werr := Some(cause.GetOr(EOF))),
                rcauses := if s.threads[t].readSide then s.rcauses + [cause.GetOr(ErrClosedPipe)] else s.rcauses,
                wcauses := if s.threads[t].readSide then s.wcauses else s.wcauses + [cause.GetOr(EOF)])
  }

  /** A step of goroutine t that is in a call. */
  ghost predicate Acts(s: State, s': State, t: nat)
    requires t < |s.threads|
  {
    Gate(s, s', t) || Read(s, s', t) || Write(s, s', t) || Close(s, s', t)
  }

  ghost predicate Next(s: State, s': State) {
    exists t :: 0 <= t < |s.threads| && (Start(s, s', t) || Acts(s, s', t))
  }

  ghost predicate Run(run: seq<State>) {
    |run| > 0 && Init(run[0]) && forall i :: 0 <= i < |run| - 1 ==> Next(run[i], run[i + 1])
  }

  // ---- The invariant ----

  /** rl and wl exclude: the holder is exactly the goroutine in a phase that holds the gate. */
  ghost predicate Gates(threads: seq<Phase>, rl: Option<nat>, wl: Option<nat>) {
    && (forall t :: 0 <= t < |threads| ==> (threads[t].HoldsReadGate() <==> rl == Some(t)))
    && (forall t :: 0 <= t < |threads| ==> (threads[t].HoldsWriteGate() <==> wl == Some(t)))
    && (rl.Some? ==> rl.value < |threads|) && (wl.Some? ==> wl.value < |threads|)
  }

  /** No lost wakeup: nobody stays parked once what it waits for has happened. */
  ghost predicate ParkedForCause(threads: seq<Phase>, s: Shared) {
    forall t :: 0 <= t < |threads| ==>
      match threads[t]
      case ReadParked(_) => s.data.None? && s.rerr.None? && s.werr.None?
      case WriteParked(_, _) => s.data.Some? && s.rerr.None?
      case _ => true
  }

  /** Pending data is the unread end of the argument of the one writer that offers it. */
  ghost predicate DataOwned(threads: seq<Phase>, s: Shared, wl: Option<nat>) {
    s.data.Some? ==>
      && wl.Some? && wl.value < |threads| && threads[wl.value].Offering()
      && |s.data.value| <= |threads[wl.value].b|
      && s.data.value == threads[wl.value].b[|threads[wl.value].b| - |s.data.value|..]
  }

  /** What has been read of the pending write. */
  ghost function Consumed(threads: seq<Phase>, s: Shared, wl: Option<nat>): seq<byte> {
    if wl.Some? && wl.value < |threads| && threads[wl.value].Offering() then
      var b := threads[wl.value].b;
      var left := if s.data.Some? then |s.data.value| else 0;
      if left <= |b| then b[..|b| - left] else []
    else []
  }

  ghost function Delivered(written: seq<Finished>): seq<byte> {
    if written == [] then []
    else
      var last := written[|written| - 1];
      Delivered(written[..|written| - 1]) + if 0 <= last.n <= |last.b| then last.b[..last.n] else []
  }

  ghost predicate HonestCounts(written: seq<Finished>) {
    forall w :: w in written ==> 0 <= w.n <= |w.b| && (w.n < |w.b| ==> w.err.Some?)
  }

  ghost predicate Inv(s: State) {
    && Gates(s.threads, s.rl, s.wl)
    && ParkedForCause(s.threads, s.shared)
    && DataOwned(s.threads, s.shared, s.wl)
    && s.received == Delivered(s.written) + Consumed(s.threads, s.shared, s.wl)
    && HonestCounts(s.written)
  }

  // ---- Every step keeps it ----

  ghost predicate MovedOn(p: Phase, q: Phase) {
    || q == p
    || (p.ReadParked? && q == ReadReady(p.size))
    || (p.WriteParked? && q == WriteWoken(p.b, p.err))
  }

  /** A signal only moves parked goroutines on, and leaves none of the signalled kind parked. */
  lemma SignalsMoveOn(before: seq<Phase>, after: seq<Phase>, reader: bool, writer: bool,
                      rl: Option<nat>, wl: Option<nat>)
    requires Gates(before, rl, wl) && Signals(before, after, reader, writer)
    ensures |after| == |before| && Gates(after, rl, wl)
    ensures forall t :: 0 <= t < |before| ==> MovedOn(before[t], after[t])
    ensures reader ==> forall t :: 0 <= t < |after| ==> !after[t].ReadParked?
    ensures writer ==> forall t :: 0 <= t < |after| ==> !after[t].WriteParked?
    ensures !reader && !writer ==> after == before
    ensures !reader ==> forall t :: 0 <= t < |after| && before[t].ReadParked? ==> after[t] == before[t]
    ensures !writer ==> forall t :: 0 <= t < |after| && before[t].WriteParked? ==> after[t] == before[t]
  {
  }

  /** Moving goroutines on changes neither who owns the data nor what has been consumed. */
  lemma OffersMoveOn(before: seq<Phase>, after: seq<Phase>, s: Shared, rl: Option<nat>, wl: Option<nat>)
    requires |after| == |before| && forall t :: 0 <= t < |before| ==> MovedOn(before[t], after[t])
    ensures DataOwned(before, s, wl) ==> DataOwned(after, s, wl)
    ensures Consumed(after, s, wl) == Consumed(before, s, wl)
  {
  }

  /** Everybody parked has cause, except perhaps those about to be signalled. */
  ghost predicate ParkedOrSignalled(threads: seq<Phase>, s: Shared, reader: bool, writer: bool) {
    forall t :: 0 <= t < |threads| ==>
      match threads[t]
      case ReadParked(_) => reader || (s.data.None? && s.rerr.None? && s.werr.None?)
      case WriteParked(_, _) => writer || (s.data.Some? && s.rerr.None?)
      case _ => true
  }

  lemma SignalsRestore(before: seq<Phase>, after: seq<Phase>, s: Shared, reader: bool, writer: bool,
                       rl: Option<nat>, wl: Option<nat>)
    requires Gates(before, rl, wl) && Signals(before, after, reader, writer)
    requires ParkedOrSignalled(before, s, reader, writer) && DataOwned(before, s, wl)
    ensures Gates(after, rl, wl) && ParkedForCause(after, s) && DataOwned(after, s, wl)
    ensures Consumed(after, s, wl) == Consumed(before, s, wl)
  {
    SignalsMoveOn(before, after, reader, writer, rl, wl);
    OffersMoveOn(before, after, s, rl, wl);
  }

  lemma GateKeepsInv(s: State, s': State, t: nat)
    requires Inv(s) && t < |s.threads| && Gate(s, s', t)
    ensures Inv(s')
  {
    hide Delivered, HonestCounts;
    assert Consumed(s'.threads, s'.shared, s'.wl) == Consumed(s.threads, s.shared, s.wl);
  }

  lemma StartKeepsInv(s: State, s': State, t: nat)
    requires Inv(s) && t < |s.threads| && Start(s, s', t)
    ensures Inv(s')
  {
    hide Delivered, HonestCounts;
    assert Consumed(s'.threads, s'.shared, s'.wl) == Consumed(s.threads, s.shared, s.wl);
  }

  lemma ReadSectionEffect(threads: seq<Phase>, s: Shared, rl: Option<nat>, wl: Option<nat>, t: nat)
    requires Gates(threads, rl, wl) && ParkedForCause(threads, s) && DataOwned(threads, s, wl)
    requires t < |threads| && threads[t].ReadReady?
    ensures var section := ReadSection(s, threads[t].size);
            var middle := threads[t := if section.outcome.Waits? then ReadParked(threads[t].size) else ReadLeaving];
            && Gates(middle, rl, wl) && DataOwned(middle, section.after, wl)
            && ParkedOrSignalled(middle, section.after, false, section.signalWriter)
            && Consumed(middle, section.after, wl) == Consumed(threads, s, wl) + Bytes(s, section)
  {
  }

  lemma ReadKeepsInv(s: State, s': State, t: nat)
    requires Inv(s) && t < |s.threads| && Read(s, s', t)
    ensures Inv(s')
  {
    hide Gates, ParkedForCause, DataOwned, Consumed, Delivered, HonestCounts, ReadSection, Signals, Bytes,
      ParkedOrSignalled;
    var section := ReadSection(s.shared, s.threads[t].size);
    var middle := s.threads[t := if section.outcome.Waits? then ReadParked(s.threads[t].size) else ReadLeaving];
    ReadSectionEffect(s.threads, s.shared, s.rl, s.wl, t);
    SignalsRestore(middle, s'.threads, section.after, false, section.signalWriter, s.rl, s.wl);
  }

  lemma DeliveredNext(written: seq<Finished>, w: Finished)
    requires 0 <= w.n <= |w.b|
    ensures Delivered(written + [w]) == Delivered(written) + w.b[..w.n]
  {
    assert (written + [w])[..|written|] == written;
  }

  /** The end or the parking of a write, whether it has just started or been signalled. */
  lemma WriteSectionEffect(threads: seq<Phase>, s: Shared, rl: Option<nat>, wl: Option<nat>, t: nat)
    requires Gates(threads, rl, wl) && DataOwned(threads, s, wl)
    requires t < |threads| && (threads[t].WriteEnter? || threads[t].WriteWoken?)
    ensures var b := threads[t].b;
            var (section, err) := if threads[t].WriteEnter? then WriteStart(s, b) else WriteLoop(s, b, threads[t].err);
            var middle := threads[t := if section.outcome.Waits? then WriteParked(b, err) else WriteLeaving];
            && Gates(middle, rl, wl) && DataOwned(middle, section.after, wl)
            && (section.outcome.Waits? ==> Consumed(middle, section.after, wl) == Consumed(threads, s, wl))
            && (section.outcome.Returns? ==>
                  && 0 <= section.outcome.n <= |b| && (section.outcome.n < |b| ==> section.outcome.err.Some?)
                  && Consumed(threads, s, wl) == b[..section.outcome.n] && Consumed(middle, section.after, wl) == [])
  {
    SameGates(threads, rl, wl, t);
    hide Gates;
    if threads[t].WriteEnter? {
      assert s.data.None?;
      if s.werr.None? { assert threads[t].b[0..] == threads[t].b; }
    }
  }

  lemma SameGates(threads: seq<Phase>, rl: Option<nat>, wl: Option<nat>, t: nat)
    requires Gates(threads, rl, wl) && t < |threads| && threads[t].HoldsWriteGate()
    ensures wl == Some(t)
    ensures forall p: Phase {:trigger threads[t := p]} :: p.HoldsWriteGate() ==> Gates(threads[t := p], rl, wl)
  {
  }

  lemma WriteSectionParks(threads: seq<Phase>, s: Shared, rl: Option<nat>, wl: Option<nat>, t: nat)
    requires Gates(threads, rl, wl) && ParkedForCause(threads, s) && DataOwned(threads, s, wl)
    requires t < |threads| && (threads[t].WriteEnter? || threads[t].WriteWoken?)
    ensures var b := threads[t].b;
            var (section, err) := if threads[t].WriteEnter? then WriteStart(s, b) else WriteLoop(s, b, threads[t].err);
            var middle := threads[t := if section.outcome.Waits? then WriteParked(b, err) else WriteLeaving];
            ParkedOrSignalled(middle, section.after, section.signalReader, false)
  {
    assert wl == Some(t);
  }

  lemma WriteKeepsInv(s: State, s': State, t: nat)
    requires Inv(s) && t < |s.threads| && Write(s, s', t)
    ensures Inv(s')
  {
    hide Gates, ParkedForCause, DataOwned, Consumed, Delivered, WriteStart, WriteLoop, Signals, ParkedOrSignalled;
    var b := s.threads[t].b;
    var (section, err) := if s.threads[t].WriteEnter? then WriteStart(s.shared, b)
                          else WriteLoop(s.shared, b, s.threads[t].err);
    var middle := s.threads[t := if section.outcome.Waits? then WriteParked(b, err) else WriteLeaving];
    WriteSectionEffect(s.threads, s.shared, s.rl, s.wl, t);
    WriteSectionParks(s.threads, s.shared, s.rl, s.wl, t);
    SignalsRestore(middle, s'.threads, section.after, section.signalReader, false, s.rl, s.wl);
    if section.outcome.Returns? {
      DeliveredNext(s.written, Finished(b, section.outcome.n, section.outcome.err));
    }
  }

  lemma CloseKeepsInv(s: State, s': State, t: nat)
    requires Inv(s) && t < |s.threads| && Close(s, s', t)
    ensures Inv(s')
  {
    hide Delivered, HonestCounts, Signals;
    var middle := s.threads[t := Idle];
    SignalsRestore(middle, s'.threads, s'.shared, true, true, s.rl, s.wl);
    assert Consumed(middle, s'.shared, s.wl) == Consumed(s.threads, s.shared, s.wl);
  }

  lemma NextKeepsInv(s: State, s': State)
    requires Inv(s) && Next(s, s')
    ensures Inv(s')
  {
    var t :| 0 <= t < |s.threads| && (Start(s, s', t) || Acts(s, s', t));
    if Start(s, s', t) { StartKeepsInv(s, s', t); }
    else if Gate(s, s', t) { GateKeepsInv(s, s', t); }
    else if Read(s, s', t) { ReadKeepsInv(s, s', t); }
    else if Write(s, s', t) { WriteKeepsInv(s, s', t); }
    else { CloseKeepsInv(s, s', t); }
  }

  lemma {:induction false} InvAlways(run: seq<State>, i: nat)
    requires Run(run) && i < |run|
    ensures Inv(run[i])
  {
    if i > 0 {
      InvAlways(run, i - 1);
      assert Next(run[i - 1], run[i - 1 + 1]);
      NextKeepsInv(run[i - 1], run[i]);
    }
  }

  // ---- What follows for every run ----

  /** In no reachable state are a reader and a writer both parked without a signal, and each is
      parked only for cause: nothing to read and nobody closed, or data still unread. */
  lemma NoLostWakeup(run: seq<State>, i: nat, t: nat, u: nat)
    requires Run(run) && i < |run| && t < |run[i].threads| && u < |run[i].threads|
    ensures run[i].threads[t].ReadParked? ==>
      run[i].shared.data.None? && run[i].shared.rerr.None? && run[i].shared.werr.None?
    ensures run[i].threads[u].WriteParked? ==> run[i].shared.data.Some? && run[i].shared.rerr.None?
    ensures !(run[i].threads[t].ReadParked? && run[i].threads[u].WriteParked?)
    ensures run[i].threads[t].ReadParked? && run[i].threads[u].ReadParked? ==> t == u
    ensures run[i].threads[t].WriteParked? && run[i].threads[u].WriteParked? ==> t == u
  {
    InvAlways(run, i);
  }

  /** The bytes returned by all reads are those of the finished writes, in order, cut to what each
      write reports, followed by the consumed part of the pending one. Short writes report errors; while
      nobody has closed either side, all writes are full and report none. */
  lemma Conservation(run: seq<State>, i: nat)
    requires Run(run) && i < |run|
    ensures run[i].received == Delivered(run[i].written) + Consumed(run[i].threads, run[i].shared, run[i].wl)
    ensures forall w :: w in run[i].written ==> 0 <= w.n <= |w.b| && (w.n < |w.b| ==> w.err.Some?)
    ensures run[i].rcauses == [] && run[i].wcauses == [] ==>
      forall w :: w in run[i].written ==> w.n == |w.b| && w.err == None
    ensures (forall t :: 0 <= t < |run[i].threads| ==> !run[i].threads[t].Offering()) ==>
      run[i].received == Delivered(run[i].written)
  {
    hide Run, Inv, Records;
    InvAlways(run, i);
    Delivers(run[i]);
    forall w | w in run[i].written
      ensures run[i].rcauses == [] && run[i].wcauses == [] ==> w.n == |w.b| && w.err == None
    {
      WritesReport(run, i, w);
    }
  }

  lemma Delivers(s: State)
    requires Inv(s)
    ensures s.received == Delivered(s.written) + Consumed(s.threads, s.shared, s.wl)
    ensures forall w :: w in s.written ==> 0 <= w.n <= |w.b| && (w.n < |w.b| ==> w.err.Some?)
    ensures (forall t :: 0 <= t < |s.threads| ==> !s.threads[t].Offering()) ==> s.received == Delivered(s.written)
  {
  }

  /** A read that reports the writer's close does so with nothing pending: all bytes of every
      write so far, the one still returning included, have been read. */
  lemma CloseReportedLast(run: seq<State>, i: nat, t: nat)
    requires Run(run) && i < |run| && t < |run[i].threads| && run[i].threads[t].ReadReady?
    requires var outcome := ReadSection(run[i].shared, run[i].threads[t].size).outcome;
             run[i].shared.rerr.None? && outcome.Returns? && outcome.err.Some?
    ensures ReadSection(run[i].shared, run[i].threads[t].size).outcome == Returns(0, run[i].shared.werr)
    ensures run[i].shared.data.None?
    ensures forall u :: 0 <= u < |run[i].threads| ==> !run[i].threads[u].WriteParked?
    ensures forall u :: 0 <= u < |run[i].threads| && run[i].threads[u].WriteWoken? ==>
      run[i].received == Delivered(run[i].written) + run[i].threads[u].b
  {
    InvAlways(run, i);
  }

  /** Closing releases everybody: once the read side is closed nobody is parked, and once the write
      side is closed no reader is. */
  lemma CloseReleases(run: seq<State>, i: nat, t: nat)
    requires Run(run) && i < |run| && t < |run[i].threads|
    ensures run[i].shared.rerr.Some? ==> !run[i].threads[t].ReadParked? && !run[i].threads[t].WriteParked?
    ensures run[i].shared.werr.Some? ==> !run[i].threads[t].ReadParked?
  {
    InvAlways(run, i);
  }

  // ---- What calls report ----

  ghost function Taken(rs: seq<FinishedRead>): seq<byte> {
    if rs == [] then [] else Taken(rs[..|rs| - 1]) + rs[|rs| - 1].bytes
  }

  /** A write only reports what the read side was closed with, or that the write side is closed. */
  ghost predicate WriteErr(err: Option<Error>, rcauses: seq<Error>, wcauses: seq<Error>) {
    err.Some? ==> err.value in rcauses || (err.value == ErrClosedPipe && wcauses != [])
  }

  /** A read gives bytes or an error: that the read side is closed, or what the write side was closed
      with. It gives neither only into an empty buffer or from an empty write. */
  ghost predicate HonestRead(r: FinishedRead, offered: seq<seq<byte>>, rcauses: seq<Error>, wcauses: seq<Error>) {
    && |r.bytes| <= r.size
    && (r.err.Some? ==>
          r.bytes == [] && ((r.err.value == ErrClosedPipe && rcauses != []) || r.err.value in wcauses))
    && (r.err.None? && r.bytes == [] ==> r.size == 0 || [] in offered)
  }

  ghost predicate Closed(err: Option<Error>, causes: seq<Error>) {
    err == if causes == [] then None else Some(causes[|causes| - 1])
  }

  ghost predicate Records(s: State) {
    && Closed(s.shared.rerr, s.rcauses) && Closed(s.shared.werr, s.wcauses)
    && (forall t :: 0 <= t < |s.threads| && s.threads[t].Offering() && s.threads[t].err.Some? ==>
          s.threads[t].err == Some(ErrClosedPipe) && s.wcauses != [])
    && (forall w :: w in s.written ==> WriteErr(w.err, s.rcauses, s.wcauses))
    && (forall r :: r in s.handed ==> HonestRead(r, s.offered, s.rcauses, s.wcauses))
    && (s.shared.data == Some([]) ==> [] in s.offered)
    && s.received == Taken(s.handed)
  }

  lemma TakenNext(rs: seq<FinishedRead>, r: FinishedRead)
    ensures Taken(rs + [r]) == Taken(rs) + r.bytes
  {
    assert (rs + [r])[..|rs|] == rs;
  }

  lemma ReadKeepsRecords(s: State, s': State, t: nat)
    requires Inv(s) && Records(s) && t < |s.threads| && Read(s, s', t)
    ensures Records(s')
  {
    hide Gates, ParkedForCause, DataOwned, Consumed, Delivered, HonestCounts, Signals, Taken;
    var section := ReadSection(s.shared, s.threads[t].size);
    var middle := s.threads[t := if section.outcome.Waits? then ReadParked(s.threads[t].size) else ReadLeaving];
    ReadSectionEffect(s.threads, s.shared, s.rl, s.wl, t);
    SignalsMoveOn(middle, s'.threads, false, section.signalWriter, s.rl, s.wl);
    if section.outcome.Returns? {
      var r := FinishedRead(s.threads[t].size, Bytes(s.shared, section), section.outcome.err);
      TakenNext(s.handed, r);
      assert HonestRead(r, s.offered, s.rcauses, s.wcauses) by {
        if s.shared.data.Some? && |s.shared.data.value| == 0 { assert s.shared.data == Some([]); }
      }
    } else {
      assert s'.received == s.received && s'.handed == s.handed;
    }
  }

  lemma WriteKeepsRecords(s: State, s': State, t: nat)
    requires Inv(s) && Records(s) && t < |s.threads| && Write(s, s', t)
    ensures Records(s')
  {
    hide ParkedForCause, DataOwned, Consumed, Delivered, HonestCounts, Signals, Taken, HonestRead, ParkedOrSignalled;
    var b := s.threads[t].b;
    var (section, err) := if s.threads[t].WriteEnter? then WriteStart(s.shared, b)
                          else WriteLoop(s.shared, b, s.threads[t].err);
    var middle := s.threads[t := if section.outcome.Waits? then WriteParked(b, err) else WriteLeaving];
    WriteSectionEffect(s.threads, s.shared, s.rl, s.wl, t);
    WriteSectionParks(s.threads, s.shared, s.rl, s.wl, t);
    SignalsMoveOn(middle, s'.threads, section.signalReader, false, s.rl, s.wl);
    forall r | r in s'.handed ensures HonestRead(r, s'.offered, s'.rcauses, s'.wcauses) {
      MoreHonest(r, s, s');
    }
  }

  lemma MoreHonest(r: FinishedRead, s: State, s': State)
    requires HonestRead(r, s.offered, s.rcauses, s.wcauses)
    requires s.offered <= s'.offered && s.rcauses <= s'.rcauses && s.wcauses <= s'.wcauses
    ensures HonestRead(r, s'.offered, s'.rcauses, s'.wcauses)
  {
    assert forall x :: x in s.offered ==> x in s'.offered;
    assert forall x :: x in s.wcauses ==> x in s'.wcauses;
  }

  lemma CloseKeepsRecords(s: State, s': State, t: nat)
    requires Inv(s) && Records(s) && t < |s.threads| && Close(s, s', t)
    ensures Records(s')
  {
    hide ParkedForCause, DataOwned, Consumed, Delivered, HonestCounts, Signals, Taken, HonestRead;
    SignalsMoveOn(s.threads[t := Idle], s'.threads, true, true, s.rl, s.wl);
    forall r | r in s'.handed ensures HonestRead(r, s'.offered, s'.rcauses, s'.wcauses) {
      MoreHonest(r, s, s');
    }
  }

  lemma {:induction false} RecordsAlways(run: seq<State>, i: nat)
    requires Run(run) && i < |run|
    ensures Records(run[i])
  {
    if i > 0 {
      RecordsAlways(run, i - 1);
      InvAlways(run, i - 1);
      assert Next(run[i - 1], run[i - 1 + 1]);
      hide Inv, Records, Next;
      NextKeepsRecords(run[i - 1], run[i]);
    }
  }

  lemma NextKeepsRecords(s: State, s': State)
    requires Inv(s) && Records(s) && Next(s, s')
    ensures Records(s')
  {
    hide Inv, Records, Start, Gate, Read, Write, Close;
    var t :| 0 <= t < |s.threads| && (Start(s, s', t) || Acts(s, s', t));
    if Read(s, s', t) { ReadKeepsRecords(s, s', t); }
    else if Write(s, s', t) { WriteKeepsRecords(s, s', t); }
    else if Close(s, s', t) { CloseKeepsRecords(s, s', t); }
    else { QuietKeepsRecords(s, s', t); }
  }

  lemma QuietKeepsRecords(s: State, s': State, t: nat)
    requires Records(s) && t < |s.threads| && (Start(s, s', t) || Gate(s, s', t))
    ensures Records(s')
  {
    hide WriteErr, HonestRead, Closed, Taken;
  }

  /** What finished writes report: while nobody has closed either side, all bytes and no error; in any
      case all bytes unless there is an error, and then one that a close accounts for. */
  lemma WritesReport(run: seq<State>, i: nat, w: Finished)
    requires Run(run) && i < |run| && w in run[i].written
    ensures run[i].rcauses == [] && run[i].wcauses == [] ==> w.n == |w.b| && w.err == None
    ensures w.err == None ==> w.n == |w.b|
    ensures w.err.Some? ==> w.err.value in run[i].rcauses || (w.err.value == ErrClosedPipe && run[i].wcauses != [])
    ensures 0 <= w.n <= |w.b|
  {
    InvAlways(run, i);
    RecordsAlways(run, i);
  }

  /** What finished reads report: some bytes or an error, except into an empty buffer or from an empty
      write; and no error but those that a close accounts for. */
  lemma ReadsReport(run: seq<State>, i: nat, r: FinishedRead)
    requires Run(run) && i < |run| && r in run[i].handed
    ensures run[i].rcauses == [] && run[i].wcauses == [] ==> r.err == None
    ensures r.err.Some? ==>
      r.bytes == [] && ((r.err.value == ErrClosedPipe && run[i].rcauses != []) || r.err.value in run[i].wcauses)
    ensures r.err == None && r.bytes == [] ==> r.size == 0 || [] in run[i].offered
    ensures |r.bytes| <= r.size && run[i].received == Taken(run[i].handed)
  {
    RecordsAlways(run, i);
  }

  /** The round of a read, by what has happened: closed for reading; bytes to take, as many as fit; closed
      for writing; or nothing yet. */
  lemma ReadRound(run: seq<State>, i: nat, t: nat, s': State)
    requires Run(run) && i < |run| && t < |run[i].threads| && Read(run[i], s', t)
    ensures var s, size := run[i], run[i].threads[t].size;
            if s.rcauses != [] then
              s'.handed == s.handed + [FinishedRead(size, [], Some(ErrClosedPipe))] && s'.shared == s.shared
            else if s.shared.data.Some? then
              var data := s.shared.data.value;
              if size < |data| then
                s'.handed == s.handed + [FinishedRead(size, data[..size], None)] && s'.shared.data == Some(data[size..])
              else s'.handed == s.handed + [FinishedRead(size, data, None)] && s'.shared.data == None
            else if s.wcauses != [] then
              && s'.handed == s.handed + [FinishedRead(size, [], Some(s.wcauses[|s.wcauses| - 1]))]
              && s'.shared == s.shared
            else s'.handed == s.handed && s'.threads[t] == ReadParked(size) && s'.shared == s.shared
  {
    var s, size := run[i], run[i].threads[t].size;
    CausesKnown(run, i);
    hide Run, Signals;
    if ReadSection(s.shared, size).outcome.Waits? {
      WriterStays(s.threads[t := ReadParked(size)], s'.threads, false);
    } else if s.shared.data.Some? && size >= |s.shared.data.value| {
      var data := s.shared.data.value;
      assert data[..|data|] == data && data[|data|..] == [];
    }
  }

  lemma CausesKnown(run: seq<State>, i: nat)
    requires Run(run) && i < |run|
    ensures Closed(run[i].shared.rerr, run[i].rcauses) && Closed(run[i].shared.werr, run[i].wcauses)
  {
    hide Run;
    RecordsAlways(run, i);
  }

  /** Without a signal to writers, parked ones stay parked; without any, everybody stays as they are. */
  lemma WriterStays(before: seq<Phase>, after: seq<Phase>, reader: bool)
    requires Signals(before, after, reader, false)
    ensures |after| == |before| && (!reader ==> after == before)
    ensures forall t :: 0 <= t < |before| && before[t].WriteParked? ==> after[t] == before[t]
  {
  }

  /** The round of a write: closed for writing before it began; all its bytes taken; closed for reading;
      or still waiting, with its bytes offered. */
  lemma WriteRound(run: seq<State>, i: nat, t: nat, s': State)
    requires Run(run) && i < |run| && t < |run[i].threads| && Write(run[i], s', t)
    ensures var s, p := run[i], run[i].threads[t];
            if p.WriteEnter? && s.wcauses != [] then
              s'.written == s.written + [Finished(p.b, 0, Some(ErrClosedPipe))] && s'.shared == s.shared
            else if p.WriteWoken? && s.shared.data.None? then
              s'.written == s.written + [Finished(p.b, |p.b|, p.err)] && s'.shared == s.shared
            else if s.rcauses != [] then
              var left := if p.WriteEnter? then |p.b| else |s.shared.data.value|;
              && s'.written == s.written + [Finished(p.b, |p.b| - left, Some(s.rcauses[|s.rcauses| - 1]))]
              && s'.shared.data == None
            else
              && s'.written == s.written && s'.threads[t].WriteParked?
              && s'.threads[t].b == p.b && s'.shared.data == (if p.WriteEnter? then Some(p.b) else s.shared.data)
              && s'.threads[t].err ==
                 if s.wcauses != [] then Some(ErrClosedPipe) else if p.WriteEnter? then None else p.err
  {
    var s, p := run[i], run[i].threads[t];
    CausesKnown(run, i);
    hide Run, Signals;
    var (section, err) := if p.WriteEnter? then WriteStart(s.shared, p.b) else WriteLoop(s.shared, p.b, p.err);
    if section.outcome.Waits? {
      WriterStays(s.threads[t := WriteParked(p.b, err)], s'.threads, section.signalReader);
    }
  }

  // ---- Freedom from deadlock ----

  /** A goroutine at l or at a free gate can act. */
  lemma CanAct(s: State, t: nat) returns (s': State)
    requires t < |s.threads|
    requires match s.threads[t]
             case ReadGate(_) => s.rl.None?
             case WriteGate(_) => s.wl.None?
             case Idle => false
             case ReadParked(_) => false
             case WriteParked(_, _) => false
             case _ => true
    ensures Acts(s, s', t)
  {
    match s.threads[t] {
      case ReadGate(size) => s' := s.(threads := s.threads[t := ReadReady(size)], rl := Some(t));
      case WriteGate(b) => s' := s.(threads := s.threads[t := WriteEnter(b)], wl := Some(t));
      case ReadLeaving => s' := s.(threads := s.threads[t := Idle], rl := None);
      case WriteLeaving => s' := s.(threads := s.threads[t := Idle], wl := None);
      case ReadReady(size) =>
        var section := ReadSection(s.shared, size);
        var next := if section.outcome.Waits? then ReadParked(size) else ReadLeaving;
        var threads := DoSignals(s.threads[t := next], false, section.signalWriter);
        s' := s.(threads := threads, shared := section.after, received := s.received + Bytes(s.shared, section),
                 handed := s.handed + Reported(size, s.shared, section));
        assert Read(s, s', t);
      case WriteEnter(b) => s' := DoWrite(s, t);
      case WriteWoken(b, _) => s' := DoWrite(s, t);
      case Closing(readSide, cause) =>
        var threads := DoSignals(s.threads[t := Idle], true, true);
        s' := s.(threads := threads,
                 shared := if readSide then s.shared.(rerr := Some(cause.GetOr(ErrClosedPipe)))
                           else s.shared.(werr := Some(cause.GetOr(EOF))),
                 rcauses := if readSide then s.rcauses + [cause.GetOr(ErrClosedPipe)] else s.rcauses,
                 wcauses := if readSide then s.wcauses else s.wcauses + [cause.GetOr(EOF)]);
        assert Close(s, s', t);
    }
  }

  lemma DoWrite(s: State, t: nat) returns (s': State)
    requires t < |s.threads| && (s.threads[t].WriteEnter? || s.threads[t].WriteWoken?)
    ensures Write(s, s', t)
  {
    var b := s.threads[t].b;
    var (section, err) := if s.threads[t].WriteEnter? then WriteStart(s.shared, b)
                          else WriteLoop(s.shared, b, s.threads[t].err);
    var threads := DoSignals(s.threads[t := if section.outcome.Waits? then WriteParked(b, err) else WriteLeaving],
                             section.signalReader, false);
    s' := s.(threads := threads, shared := section.after,
             written := if section.outcome.Waits? then s.written
                        else s.written + [Finished(b, section.outcome.n, section.outcome.err)],
             offered := if s.threads[t].WriteEnter? && s.shared.werr.None? then s.offered + [b] else s.offered);
  }

  lemma DoSignals(before: seq<Phase>, reader: bool, writer: bool) returns (after: seq<Phase>)
    ensures Signals(before, after, reader, writer)
  {
    var middle := before;
    if reader && exists t :: 0 <= t < |before| && before[t].ReadParked? {
      var t :| 0 <= t < |before| && before[t].ReadParked?;
      middle := before[t := ReadReady(before[t].size)];
    }
    assert reader ==> SignalReader(before, middle);
    after := middle;
    if writer && exists t :: 0 <= t < |middle| && middle[t].WriteParked? {
      var t :| 0 <= t < |middle| && middle[t].WriteParked?;
      after := middle[t := WriteWoken(middle[t].b, middle[t].err)];
    }
    assert writer ==> SignalWriter(middle, after);
    assert SignalsVia(before, middle, after, reader, writer);
  }

  /** No mutual deadlock: while a read and a write are both in progress, some goroutine in a call
      can act; nobody new has to start. */
  lemma NoDeadlock(run: seq<State>, i: nat, r: nat, w: nat) returns (t: nat, s': State)
    requires Run(run) && i < |run| && r < |run[i].threads| && w < |run[i].threads|
    requires run[i].threads[r].Reading() && run[i].threads[w].Writing()
    ensures t < |run[i].threads| && (run[i].threads[t].Reading() || run[i].threads[t].Writing()) && Acts(run[i], s', t)
  {
    var s := run[i];
    InvAlways(run, i);
    var reader := if s.threads[r].ReadGate? && s.rl.Some? then s.rl.value else r;
    var writer := if s.threads[w].WriteGate? && s.wl.Some? then s.wl.value else w;
    t := if s.threads[reader].ReadParked? then writer else reader;
    s' := CanAct(s, t);
  }
}
