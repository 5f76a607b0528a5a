/** The JSONL audit sink of audit.go as a step system: any number of logging goroutines, a bounded
    channel, one drain goroutine, and a close that runs once.  Every interleaving is a run. */
module AuditSink {
  import opened Text

  type Entry = string

  /** A Close result: None is nil. */
  type CloseError = Option<string>

  datatype Drain = Waiting | Holding(e: Entry) | Exited

  /** How far the body of the once has come. */
  datatype Closing = Unstarted | Entered | FlagSet | ChannelClosed | Drained | Finished

  /** What the drain made of one entry it took. */
  datatype Handled = Handled(e: Entry, persisted: bool)

  datatype Sink = Sink(
    capacity: nat,
    closed: bool,                    // the atomic flag
    queue: seq<Entry>,               // the channel's buffer
    channelClosed: bool,
    drain: Drain,
    done: bool,                      // the done channel is closed
    lines: seq<Entry>,               // written to the file, in order
    fileCloses: nat,                 // calls of the writer's Close
    closeErr: CloseError,
    written: nat,
    dropped: nat,
    inFlight: map<nat, Entry>,       // goroutines past the closed check, before the send
    closing: Closing,
    waiting: set<nat>,               // goroutines inside Close
    returned: seq<CloseError>,       // what Close has returned, call by call
    // history
    calls: nat,                      // Log calls that got past the closed check
    panics: nat,                     // sends on the closed channel
    accepted: seq<Entry>,            // everything ever queued, in order
    handled: seq<Handled>)           // everything the drain has finished with, in order

  ghost predicate Init(s: Sink) {
    && s.capacity > 0 && !s.closed && s.queue == [] && !s.channelClosed
    && s.drain == Waiting && !s.done && s.lines == [] && s.fileCloses == 0
    && s.written == 0 && s.dropped == 0 && s.inFlight == map[] && s.closing == Unstarted
    && s.waiting == {} && s.returned == []
    && s.calls == 0 && s.panics == 0 && s.accepted == [] && s.handled == []
  }

  datatype Step =
    | LogCheck(id: nat, e: Entry)    // enqueue: the closed check, and the payload frozen
    | LogEnqueue(id: nat)            // enqueue: the select, when the channel has room
    | LogDrop(id: nat)               // enqueue: its default, when the channel is full
    | LogPanic(id: nat)              // enqueue: the send, when the channel has been closed
    | DrainTake | DrainWrite(ok: bool) | DrainExit
    | CloseCall(id: nat)             // Close: reaching the once
    | CloseSetFlag | CloseChannel | CloseAwait | CloseFile(err: CloseError)
    | CloseReturn(id: nat)

  predicate Enabled(s: Sink, t: Step) {
    match t
    case LogCheck(id, _) => id !in s.inFlight
    case LogEnqueue(id) => id in s.inFlight && !s.channelClosed && |s.queue| < s.capacity
    case LogDrop(id) => id in s.inFlight && !s.channelClosed && |s.queue| == s.capacity
    case LogPanic(id) => id in s.inFlight && s.channelClosed
    case DrainTake => s.drain == Waiting && s.queue != []
    case DrainWrite(_) => s.drain.Holding?
    case DrainExit => s.drain == Waiting && s.queue == [] && s.channelClosed
    case CloseCall(id) => id !in s.waiting
    case CloseSetFlag => s.closing == Entered
    case CloseChannel => s.closing == FlagSet
    case CloseAwait => s.closing == ChannelClosed && s.done
    case CloseFile(_) => s.closing == Drained
    case CloseReturn(id) => id in s.waiting && s.closing == Finished
  }

  function Apply(s: Sink, t: Step): Sink
    requires Enabled(s, t)
  {
    match t
    case LogCheck(id, e) =>
      if s.closed then s else s.(inFlight := s.inFlight[id := e], calls := s.calls + 1)
    case LogEnqueue(id) =>
      s.(inFlight := s.inFlight - {id}, queue := s.queue + [s.inFlight[id]], accepted := s.accepted + [s.inFlight[id]])
    case LogDrop(id) => s.(inFlight := s.inFlight - {id}, dropped := s.dropped + 1)
    case LogPanic(id) => s.(inFlight := s.inFlight - {id}, panics := s.panics + 1)
    case DrainTake => s.(drain := Holding(s.queue[0]), queue := s.queue[1..])
    case DrainWrite(ok) =>
      var next := s.(drain := Waiting, handled := s.handled + [Handled(s.drain.e, ok)]);
      if ok then next.(lines := s.lines + [s.drain.e], written := s.written + 1)
      else next.(dropped := s.dropped + 1)
    case DrainExit => s.(drain := Exited, done := true)
    case CloseCall(id) =>
      s.(waiting := s.waiting + {id}, closing := if s.closing == Unstarted then Entered else s.closing)
    case CloseSetFlag => s.(closing := FlagSet, closed := true)
    case CloseChannel => s.(closing := ChannelClosed, channelClosed := true)
    case CloseAwait => s.(closing := Drained)
    case CloseFile(err) => s.(closing := Finished, closeErr := err, fileCloses := s.fileCloses + 1)
    case CloseReturn(id) => s.(waiting := s.waiting - {id}, returned := s.returned + [s.closeErr])
  }

  /** A run: its steps, and the states before each and after the last. */
  datatype Run = Run(states: seq<Sink>, steps: seq<Step>)

  ghost predicate IsRun(r: Run) {
    && |r.states| == |r.steps| + 1 && Init(r.states[0])
    && forall i :: 0 <= i < |r.steps| ==> Enabled(r.states[i], r.steps[i]) && r.states[i + 1] == Apply(r.states[i], r.steps[i])
  }

  // ----- what every step keeps

  function Held(s: Sink): seq<Entry> { if s.drain.Holding? then [s.drain.e] else [] }

  function Taken(hs: seq<Handled>): seq<Entry> {
    if hs == [] then [] else Taken(hs[..|hs| - 1]) + [hs[|hs| - 1].e]
  }

  function Persisted(hs: seq<Handled>): seq<Entry> {
    if hs == [] then []
    else Persisted(hs[..|hs| - 1]) + if hs[|hs| - 1].persisted then [hs[|hs| - 1].e] else []
  }

  /** No entry is lost track of. */
  predicate Conserved(s: Sink) {
    s.calls == s.written + s.dropped + |s.queue| + |Held(s)| + |s.inFlight| + s.panics
  }

  /** First in, first out: what was accepted is what was handled, then what is held, then the queue. */
  predicate Ordered(s: Sink) {
    s.accepted == Taken(s.handled) + Held(s) + s.queue && s.lines == Persisted(s.handled) && s.written == |s.lines|
  }

  function Rank(c: Closing): nat {
    match c case Unstarted => 0 case Entered => 1 case FlagSet => 2 case ChannelClosed => 3 case Drained => 4 case Finished => 5
  }

  /** The close sequence and the drain are in step. */
  predicate Sequenced(s: Sink) {
    && (s.closed <==> Rank(s.closing) >= 2)
    && (s.channelClosed <==> Rank(s.closing) >= 3)
    && (s.done <==> s.drain == Exited)
    && (s.done ==> s.queue == [] && s.channelClosed)
    && (Rank(s.closing) >= 4 ==> s.done)
    && s.fileCloses == (if s.closing == Finished then 1 else 0)
    && (s.waiting != {} ==> s.closing != Unstarted)
    && (s.panics > 0 ==> s.channelClosed)
  }

  /** Whoever closes is told the same. */
  predicate SameAnswer(s: Sink) {
    && (s.returned != [] ==> s.closing == Finished)
    && forall i :: 0 <= i < |s.returned| ==> s.returned[i] == s.closeErr
  }

  predicate Inv(s: Sink) {
    s.capacity > 0 && |s.queue| <= s.capacity && Conserved(s) && Ordered(s) && Sequenced(s) && SameAnswer(s)
  }

  lemma InitHolds(s: Sink)
    requires Init(s)
    ensures Inv(s)
  {
  }

  lemma MapGrows(m: map<nat, Entry>, id: nat, e: Entry)
    requires id !in m
    ensures |m[id := e]| == |m| + 1
  {
    assert m[id := e].Keys == m.Keys + {id};
    assert |m[id := e].Keys| == |m[id := e]| && |m.Keys| == |m|;
  }

  lemma MapShrinks(m: map<nat, Entry>, id: nat)
    requires id in m
    ensures |m - {id}| == |m| - 1
  {
    assert (m - {id}).Keys == m.Keys - {id};
    assert |(m - {id}).Keys| == |m - {id}| && |m.Keys| == |m|;
  }

  lemma ConservedLog(s: Sink, t: Step)
    requires Enabled(s, t) && Conserved(s) && IsLog(t)
    ensures Conserved(Apply(s, t))
  {
    if t.LogCheck? {
      MapGrows(s.inFlight, t.id, t.e);
    } else {
      MapShrinks(s.inFlight, t.id);
    }
  }

  lemma ConservedStep(s: Sink, t: Step)
    requires Enabled(s, t) && Conserved(s)
    ensures Conserved(Apply(s, t))
  {
    hide Conserved;
    if IsLog(t) {
      ConservedLog(s, t);
    } else {
      ConservedOther(s, t);
    }
  }

  lemma ConservedOther(s: Sink, t: Step)
    requires Enabled(s, t) && Conserved(s) && !IsLog(t)
    ensures Conserved(Apply(s, t))
  {
    var after := Apply(s, t);
    assert after.inFlight == s.inFlight && after.calls == s.calls && after.panics == s.panics;
    hide Enabled;
  }

  lemma OrderedWrite(s: Sink, ok: bool)
    requires s.drain.Holding? && Ordered(s)
    ensures Ordered(Apply(s, DrainWrite(ok)))
  {
    var hs := s.handled + [Handled(s.drain.e, ok)];
    assert hs[..|hs| - 1] == s.handled;
    assert Taken(hs) + [] + s.queue == Taken(s.handled) + [s.drain.e] + s.queue;
    assert Persisted(s.handled) + [] == Persisted(s.handled);
  }

  lemma OrderedStep(s: Sink, t: Step)
    requires Enabled(s, t) && Ordered(s)
    ensures Ordered(Apply(s, t))
  {
    hide Taken, Persisted;
    if t.DrainWrite? {
      OrderedWrite(s, t.ok);
    } else if t.LogEnqueue? {
      assert s.accepted + [s.inFlight[t.id]] == Taken(s.handled) + Held(s) + (s.queue + [s.inFlight[t.id]]);
    } else if t.DrainTake? {
      assert s.queue == [s.queue[0]] + s.queue[1..];
      assert Taken(s.handled) + [] + s.queue == Taken(s.handled) + [s.queue[0]] + s.queue[1..];
    }
  }

  lemma SequencedStep(s: Sink, t: Step)
    requires Enabled(s, t) && Sequenced(s)
    ensures Sequenced(Apply(s, t))
  {
  }

  lemma SameAnswerStep(s: Sink, t: Step)
    requires Enabled(s, t) && SameAnswer(s)
    ensures SameAnswer(Apply(s, t))
  {
  }

  lemma InvStep(s: Sink, t: Step)
    requires Enabled(s, t) && Inv(s)
    ensures Inv(Apply(s, t))
  {
    hide Conserved, Ordered, Sequenced, SameAnswer;
    ConservedStep(s, t);
    OrderedStep(s, t);
    SequencedStep(s, t);
    SameAnswerStep(s, t);
  }

  /** The invariant holds all along every run. */
  lemma {:induction false} InvAlways(r: Run, i: nat)
    requires IsRun(r) && i < |r.states|
    ensures Inv(r.states[i])
  {
    if i == 0 {
      InitHolds(r.states[0]);
    } else {
      InvAlways(r, i - 1);
      assert Enabled(r.states[i - 1], r.steps[i - 1]);
      InvStep(r.states[i - 1], r.steps[i - 1]);
    }
  }

  // ----- conservation and capacity

  /** At every moment of every run each call is written, dropped, queued, held or in flight, and the
      queue is within its bound. */
  lemma EveryCallAccounted(r: Run, i: nat)
    requires IsRun(r) && i < |r.states|
    ensures var s := r.states[i];
            && s.calls == s.written + s.dropped + |s.queue| + |Held(s)| + |s.inFlight| + s.panics
            && |s.queue| <= s.capacity
  {
    InvAlways(r, i);
  }

  /** The three ways out of enqueue's select. */
  function WaysOut(id: nat): seq<Step> { [LogEnqueue(id), LogDrop(id), LogPanic(id)] }

  /** In every state of every run a goroutine in the select has exactly one way out of it, and takes it
      alone: it never waits for the drain, the writer or another goroutine. */
  lemma LoggingNeverWaits(r: Run, i: nat, id: nat) returns (way: Step)
    requires IsRun(r) && i < |r.states| && id in r.states[i].inFlight
    ensures way in WaysOut(id) && Enabled(r.states[i], way)
    ensures forall t :: t in WaysOut(id) && Enabled(r.states[i], t) ==> t == way
    ensures id !in Apply(r.states[i], way).inFlight
  {
    InvAlways(r, i);
    hide Conserved, Ordered, Sequenced, SameAnswer;
    var s := r.states[i];
    way := if s.channelClosed then LogPanic(id) else if |s.queue| < s.capacity then LogEnqueue(id) else LogDrop(id);
    assert way == WaysOut(id)[0] || way == WaysOut(id)[1] || way == WaysOut(id)[2];
  }

  /** And it is in the select, with the payload it froze, until it takes a way out. */
  lemma InFlightUntilOut(s: Sink, t: Step, id: nat)
    requires Enabled(s, t) && id in s.inFlight
    ensures t in WaysOut(id) <==> id !in Apply(s, t).inFlight
    ensures id in Apply(s, t).inFlight ==> Apply(s, t).inFlight[id] == s.inFlight[id]
  {
    assert WaysOut(id)[0] == LogEnqueue(id) && WaysOut(id)[1] == LogDrop(id) && WaysOut(id)[2] == LogPanic(id);
  }

  // ----- order

  predicate Subsequence(a: seq<Entry>, b: seq<Entry>) {
    if a == [] then true
    else if b == [] then false
    else if a[|a| - 1] == b[|b| - 1] && Subsequence(a[..|a| - 1], b[..|b| - 1]) then true
    else Subsequence(a, b[..|b| - 1])
  }

  lemma {:induction false} SubsequenceExtend(a: seq<Entry>, b: seq<Entry>, c: seq<Entry>)
    requires Subsequence(a, b)
    ensures Subsequence(a, b + c)
  {
    if c == [] {
      assert b + c == b;
    } else {
      assert (b + c)[..|b + c| - 1] == b + c[..|c| - 1];
      SubsequenceExtend(a, b, c[..|c| - 1]);
    }
  }

  lemma {:induction false} PersistedIsSubsequence(hs: seq<Handled>)
    ensures Subsequence(Persisted(hs), Taken(hs))
  {
    if hs != [] {
      var before, last := hs[..|hs| - 1], hs[|hs| - 1];
      PersistedIsSubsequence(before);
      var t := Taken(hs);
      assert t[..|t| - 1] == Taken(before);
      if last.persisted {
        var p := Persisted(hs);
        assert p[..|p| - 1] == Persisted(before);
      } else {
        assert Persisted(hs) == Persisted(before);
      }
    }
  }

  /** The lines of the file are a subsequence of the accepted entries, in the order they came in. */
  lemma LinesInOrder(r: Run, i: nat)
    requires IsRun(r) && i < |r.states|
    ensures Subsequence(r.states[i].lines, r.states[i].accepted)
  {
    InvAlways(r, i);
    var s := r.states[i];
    PersistedIsSubsequence(s.handled);
    SubsequenceExtend(s.lines, Taken(s.handled), Held(s) + s.queue);
    assert s.accepted == Taken(s.handled) + (Held(s) + s.queue);
  }

  // ----- what the counters count

  /** A call dropped, and an entry lost by the writer. */
  predicate Drops(t: Step) { t.LogDrop? || (t.DrainWrite? && !t.ok) }

  function CountDrops(ts: seq<Step>): nat {
    if ts == [] then 0 else CountDrops(ts[..|ts| - 1]) + if Drops(ts[|ts| - 1]) then 1 else 0
  }

  function CountWrites(ts: seq<Step>): nat {
    if ts == [] then 0 else CountWrites(ts[..|ts| - 1]) + if ts[|ts| - 1] == DrainWrite(true) then 1 else 0
  }

  /** The dropped counter counts the calls that found the queue full and the entries that could not be
      written, and nothing else; the written counter counts the entries that could. */
  lemma {:induction false} CountersCount(r: Run, i: nat)
    requires IsRun(r) && i < |r.states|
    ensures r.states[i].dropped == CountDrops(r.steps[..i]) && r.states[i].written == CountWrites(r.steps[..i])
    ensures r.states[i].capacity == r.states[0].capacity
    ensures forall j :: 0 <= j < i && r.steps[j].LogDrop? ==> |r.states[j].queue| == r.states[0].capacity
  {
    hide Apply;
    if i > 0 {
      CountersCount(r, i - 1);
      assert Enabled(r.states[i - 1], r.steps[i - 1]);
      CounterStep(r.states[i - 1], r.steps[i - 1]);
      assert r.steps[..i][..i - 1] == r.steps[..i - 1];
    }
  }

  lemma CounterStep(s: Sink, t: Step)
    requires Enabled(s, t)
    ensures Apply(s, t).dropped == s.dropped + if Drops(t) then 1 else 0
    ensures Apply(s, t).written == s.written + if t == DrainWrite(true) then 1 else 0
    ensures Apply(s, t).capacity == s.capacity
    ensures t.LogDrop? ==> |s.queue| == s.capacity
  {
  }

  /** What was accepted, read off the run: the payloads of the sends that found room, in that order. */
  ghost function Enqueued(r: Run, i: nat): seq<Entry>
    requires IsRun(r) && i <= |r.steps|
  {
    if i == 0 then []
    else
      var t := r.steps[i - 1];
      assert Enabled(r.states[i - 1], t);
      Enqueued(r, i - 1) + if t.LogEnqueue? then [r.states[i - 1].inFlight[t.id]] else []
  }

  lemma {:induction false} AcceptedAreEnqueued(r: Run, i: nat)
    requires IsRun(r) && i < |r.states|
    ensures r.states[i].accepted == Enqueued(r, i)
  {
    hide Apply, Enabled;
    if i > 0 {
      AcceptedAreEnqueued(r, i - 1);
      assert Enabled(r.states[i - 1], r.steps[i - 1]);
      AcceptedStep(r.states[i - 1], r.steps[i - 1]);
    }
  }

  lemma AcceptedStep(s: Sink, t: Step)
    requires Enabled(s, t)
    ensures t.LogEnqueue? ==> t.id in s.inFlight
    ensures Apply(s, t).accepted == s.accepted + if t.LogEnqueue? then [s.inFlight[t.id]] else []
  {
  }

  /** A goroutine past the check carries the payload it was called with. */
  lemma PayloadIsFrozen(s: Sink, t: Step)
    requires Enabled(s, t) && t.LogCheck? && !s.closed
    ensures t.id in Apply(s, t).inFlight && Apply(s, t).inFlight[t.id] == t.e && Apply(s, t).calls == s.calls + 1
  {
  }

  // ----- closing

  /** No write is ever attempted on a closed writer, and the writer is closed at most once. */
  lemma NoWriteAfterClose(r: Run, i: nat)
    requires IsRun(r) && i < |r.steps|
    ensures r.steps[i].DrainWrite? ==> r.states[i].fileCloses == 0
    ensures r.steps[i].CloseFile? ==> r.states[i].fileCloses == 0
    ensures r.states[i + 1].fileCloses <= 1
  {
    InvAlways(r, i);
    InvAlways(r, i + 1);
    assert Enabled(r.states[i], r.steps[i]);
  }

  /** Every Close returns the error of the one close of the writer, which comes first. */
  lemma EveryCloseSameError(r: Run, i: nat, j: nat)
    requires IsRun(r) && i < |r.states| && j < |r.states[i].returned|
    ensures r.states[i].fileCloses == 1 && r.states[i].returned[j] == r.states[i].closeErr
  {
    InvAlways(r, i);
  }

  /** The error does not change once some call has returned it. */
  lemma CloseErrorIsFinal(r: Run, i: nat)
    requires IsRun(r) && i < |r.steps| && r.states[i].closing == Finished
    ensures r.states[i + 1].closing == Finished && r.states[i + 1].closeErr == r.states[i].closeErr
    ensures r.states[i + 1].lines == r.states[i].lines
  {
    InvAlways(r, i);
    assert Enabled(r.states[i], r.steps[i]);
  }

  /** That error is what the writer's close gave: it ran in an earlier step, and only there. */
  lemma {:induction false} CloseErrorIsTheFiles(r: Run, i: nat)
    requires IsRun(r) && i < |r.states|
    ensures r.states[i].closing == Finished <==> exists j :: 0 <= j < i && r.steps[j].CloseFile?
    ensures forall j :: 0 <= j < i && r.steps[j].CloseFile? ==> r.states[i].closeErr == r.steps[j].err
  {
    hide Apply, Inv;
    if i == 0 {
      assert r.states[0].closing != Finished;
    } else {
      var s, t := r.states[i - 1], r.steps[i - 1];
      CloseErrorIsTheFiles(r, i - 1);
      assert Enabled(s, t);
      FileStep(s, t);
      if r.states[i].closing == Finished && !t.CloseFile? {
        assert s.closing == Finished;
      }
    }
  }

  lemma FileStep(s: Sink, t: Step)
    requires Enabled(s, t)
    ensures t.CloseFile? ==> s.closing != Finished && Apply(s, t).closing == Finished && Apply(s, t).closeErr == t.err
    ensures !t.CloseFile? ==> Apply(s, t).closeErr == s.closeErr && (Apply(s, t).closing == Finished <==> s.closing == Finished)
  {
  }

  /** So every Close returns the error of that step. */
  lemma EveryCloseReturnsTheFiles(r: Run, i: nat, j: nat)
    requires IsRun(r) && i < |r.states| && j < |r.states[i].returned|
    ensures exists k :: 0 <= k < i && r.steps[k].CloseFile? && r.states[i].returned[j] == r.steps[k].err
  {
    EveryCloseSameError(r, i, j);
    InvAlways(r, i);
    CloseErrorIsTheFiles(r, i);
    hide IsRun, Conserved, Ordered;
    var k :| 0 <= k < i && r.steps[k].CloseFile?;
  }

  /** Once Close has returned, a call that is not in flight was written or dropped, or panicked. */
  lemma ClosedMeansDrained(r: Run, i: nat)
    requires IsRun(r) && i < |r.states| && r.states[i].returned != []
    ensures var s := r.states[i];
            s.queue == [] && s.drain == Exited && s.calls == s.written + s.dropped + |s.inFlight| + s.panics
  {
    InvAlways(r, i);
  }

  // ----- the documented contract: no Log concurrent with Close

  predicate IsLog(t: Step) { t.LogCheck? || t.LogEnqueue? || t.LogDrop? || t.LogPanic? }

  predicate CloseUnderWay(s: Sink) { s.closing != Unstarted && s.closing != Finished }

  /** No Log is under way when the first Close begins, and none runs until it has finished. */
  ghost predicate NoLogDuringClose(r: Run)
    requires IsRun(r)
  {
    forall i :: 0 <= i < |r.steps| ==>
      && (r.steps[i].CloseCall? && r.states[i].closing == Unstarted ==> r.states[i].inFlight == map[])
      && (CloseUnderWay(r.states[i]) ==> !IsLog(r.steps[i]))
  }

  lemma {:induction false} ContractKeepsQuiet(r: Run, i: nat)
    requires IsRun(r) && NoLogDuringClose(r) && i < |r.states|
    ensures r.states[i].panics == 0
    ensures r.states[i].closing != Unstarted ==> r.states[i].inFlight == map[]
  {
    hide Inv, Enabled, Apply;
    if i > 0 {
      ContractKeepsQuiet(r, i - 1);
      InvAlways(r, i - 1);
      QuietStep(r.states[i - 1], r.steps[i - 1]);
    }
  }

  lemma QuietStep(s: Sink, t: Step)
    requires Inv(s) && Enabled(s, t) && s.panics == 0
    requires s.closing != Unstarted ==> s.inFlight == map[]
    requires t.CloseCall? && s.closing == Unstarted ==> s.inFlight == map[]
    requires CloseUnderWay(s) ==> !IsLog(t)
    ensures Apply(s, t).panics == 0 && (Apply(s, t).closing != Unstarted ==> Apply(s, t).inFlight == map[])
  {
    hide Conserved, Ordered, SameAnswer;
  }

  /** Under the contract nothing panics, and after Close every call was written or dropped. */
  lemma ContractAccountsForAll(r: Run, i: nat)
    requires IsRun(r) && NoLogDuringClose(r) && i < |r.states|
    ensures r.states[i].panics == 0
    ensures r.states[i].returned != [] ==> r.states[i].calls == r.states[i].written + r.states[i].dropped
  {
    ContractKeepsQuiet(r, i);
    InvAlways(r, i);
  }

  /** Outside the contract a goroutine caught between the check and the send does panic. */
  lemma LogDuringCloseCanPanic(s: Sink, id: nat, e: Entry, closer: nat) returns (r: Run)
    requires Init(s)
    ensures IsRun(r) && r.states[0] == s && r.states[|r.states| - 1].panics == 1
  {
    var s1 := Apply(s, LogCheck(id, e));
    var s2 := Apply(s1, CloseCall(closer));
    var s3 := Apply(s2, CloseSetFlag);
    var s4 := Apply(s3, CloseChannel);
    var s5 := Apply(s4, LogPanic(id));
    r := Run([s, s1, s2, s3, s4, s5], [LogCheck(id, e), CloseCall(closer), CloseSetFlag, CloseChannel, LogPanic(id)]);
  }

  // ----- Close always comes to an end

  function DrainLeft(d: Drain): nat { match d case Waiting => 1 case Holding(_) => 2 case Exited => 0 }

  /** What is left to do before the once is done. */
  function CloseLeft(s: Sink): nat {
    (5 - Rank(s.closing)) + 2 * |s.queue| + DrainLeft(s.drain)
  }

  /** The step of the closer or the drain that is due. */
  function DueStep(s: Sink): Step {
    if s.closing == Entered then CloseSetFlag
    else if s.closing == FlagSet then CloseChannel
    else if s.closing == Drained then CloseFile(None)
    else if s.done then CloseAwait
    else if s.drain.Holding? then DrainWrite(true)
    else if s.queue != [] then DrainTake
    else DrainExit
  }

  /** While a close is under way some step of it is possible, and every step of the drain or the
      closer brings the end nearer: a close cannot hang on the drain. */
  lemma CloseMakesProgress(s: Sink, t: Step)
    requires Inv(s) && CloseUnderWay(s)
    ensures Enabled(s, DueStep(s)) && CloseLeft(Apply(s, DueStep(s))) < CloseLeft(s)
    ensures Enabled(s, t) && !IsLog(t) && !t.CloseCall? && !t.CloseReturn? ==> CloseLeft(Apply(s, t)) < CloseLeft(s)
    ensures Enabled(s, t) && (t.CloseCall? || t.CloseReturn? || s.channelClosed) ==> CloseLeft(Apply(s, t)) <= CloseLeft(s)
  {
    hide Conserved, Ordered, SameAnswer;
    DueStepIsEnabled(s);
    StepLeaves(s, DueStep(s));
    if Enabled(s, t) {
      StepLeaves(s, t);
    }
  }

  lemma DueStepIsEnabled(s: Sink)
    requires Sequenced(s) && CloseUnderWay(s)
    ensures var t := DueStep(s); Enabled(s, t) && !IsLog(t) && !t.CloseCall? && !t.CloseReturn?
  {
  }

  lemma StepLeaves(s: Sink, t: Step)
    requires Sequenced(s) && CloseUnderWay(s) && Enabled(s, t)
    ensures !IsLog(t) && !t.CloseCall? && !t.CloseReturn? ==> CloseLeft(Apply(s, t)) < CloseLeft(s)
    ensures t.CloseCall? || t.CloseReturn? || s.channelClosed ==> CloseLeft(Apply(s, t)) <= CloseLeft(s)
  {
  }
}
