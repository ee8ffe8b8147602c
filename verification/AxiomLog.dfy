/** The batching log writer of internal/axiomlog/axiomlog.go: writers append lines to a buffer, a loop
    ships snapshots of it, a one-slot channel asks the loop to hurry. */
module AxiomLog {
  import Runs

  const MAX_BATCH_EVENTS := 100
  const MAX_BUFFER_BYTES := 0x40_0000

  /** The bytes of a list of lines. */
  function Bytes(lines: seq<string>): string {
    if lines == [] then "" else Bytes(lines[..|lines| - 1]) + lines[|lines| - 1]
  }

  function Size(lines: seq<string>): nat {
    if lines == [] then 0 else Size(lines[..|lines| - 1]) + |lines[|lines| - 1]|
  }

  lemma BytesSnoc(lines: seq<string>, p: string)
    ensures Bytes(lines + [p]) == Bytes(lines) + p
  {
    assert (lines + [p])[..|lines|] == lines;
  }

  lemma SizeSnoc(lines: seq<string>, p: string)
    ensures Size(lines + [p]) == Size(lines) + |p|
  {
    assert (lines + [p])[..|lines|] == lines;
  }

  lemma {:induction false} BytesHaveSize(lines: seq<string>)
    ensures |Bytes(lines)| == Size(lines)
  {
    if lines != [] { BytesHaveSize(lines[..|lines| - 1]); }
  }

  predicate AllEmpty(lines: seq<string>) { forall i :: 0 <= i < |lines| ==> lines[i] == "" }

  lemma {:induction false} SizeZero(lines: seq<string>)
    ensures Size(lines) == 0 <==> AllEmpty(lines)
  {
    if lines != [] {
      var n := |lines| - 1;
      SizeZero(lines[..n]);
      assert AllEmpty(lines) <==> AllEmpty(lines[..n]) && lines[n] == "" by {
        assert forall i :: 0 <= i < n ==> lines[..n][i] == lines[i];
      }
    }
  }

  // ---------------------------------------------------------------- the writer object

  class Writer {
    var batch: string
    var count: nat
    /** The lines the buffer is made of. */
    ghost var lines: seq<string>

    ghost predicate Valid()
      reads this
    {
      batch == Bytes(lines) && |batch| == Size(lines) && count == |lines| && |batch| <= MAX_BUFFER_BYTES
    }

    constructor ()
      ensures Valid() && lines == []
    {
      batch, count, lines := "", 0, [];
    }

    /** Write's lock section; `full` is whether a kick is to be sent. */
    method Write(p: string) returns (n: nat, full: bool)
      requires Valid()
      modifies this
      ensures Valid() && n == |p|
      ensures lines == if Size(old(lines)) + |p| <= MAX_BUFFER_BYTES then old(lines) + [p] else old(lines)
      ensures full == (|lines| >= MAX_BATCH_EVENTS)
    {
      if |batch| + |p| <= MAX_BUFFER_BYTES {
        BytesSnoc(lines, p);
        SizeSnoc(lines, p);
        batch := batch + p;
        count := count + 1;
        lines := lines + [p];
      }
      full := count >= MAX_BATCH_EVENTS;
      n := |p|;
    }

    /** flush's lock section: a copy of whole lines, and an empty buffer. */
    method Snapshot() returns (data: string)
      requires Valid()
      modifies this
      ensures Valid() && data == Bytes(old(lines))
      ensures lines == if data == "" then old(lines) else []
    {
      data := "";
      if |batch| == 0 { return; }
      data := batch;
      batch, count, lines := "", 0, [];
    }
  }

  // ---------------------------------------------------------------- writers, loop and Close together

  /** `sending` counts the writers that found the buffer full and are about to send a kick. `accepted`,
      `shipped` and `acceptedAtClose` record the history. */
  datatype State = State(batch: seq<string>, kick: bool, sending: nat, loopFlushing: bool, loopDone: bool,
                         stopped: bool, closeFlushing: bool, closed: bool,
                         accepted: seq<string>, shipped: seq<seq<string>>, acceptedAtClose: nat)

  const INIT := State([], false, 0, false, false, false, false, false, [], [], 0)

  datatype Event =
    | Write(p: string)
    | SendKick
    | LoopTick
    | LoopKick
    | LoopFlush
    | LoopStop
    | Close
    | CloseFlush

  predicate Enabled(s: State, e: Event) {
    match e
    case Write(_) => true
    case SendKick => s.sending > 0
    case LoopTick => !s.loopFlushing && !s.loopDone
    case LoopKick => !s.loopFlushing && !s.loopDone && s.kick
    case LoopFlush => s.loopFlushing
    case LoopStop => !s.loopFlushing && !s.loopDone && s.stopped
    case Close => !s.stopped
    case CloseFlush => s.closeFlushing
  }

  function Flushed(s: State): State {
    if Size(s.batch) == 0 then s else s.(batch := [], shipped := s.shipped + [s.batch])
  }

  function Appended(s: State, p: string): State {
    s.(batch := s.batch + [p], accepted := s.accepted + [p])
  }

  function AfterWrite(s: State, p: string): State {
    var t := if Size(s.batch) + |p| <= MAX_BUFFER_BYTES then Appended(s, p) else s;
    if |t.batch| >= MAX_BATCH_EVENTS then t.(sending := t.sending + 1) else t
  }

  function Step(s: State, e: Event): State {
    match e
    case Write(p) => AfterWrite(s, p)
    case SendKick => s.(kick := true, sending := if s.sending > 0 then s.sending - 1 else 0)
    case LoopTick => s.(loopFlushing := true)
    case LoopKick => s.(kick := false, loopFlushing := true)
    case LoopFlush => Flushed(s).(loopFlushing := false)
    case LoopStop => s.(loopDone := true)
    case Close => s.(stopped := true, closeFlushing := true, acceptedAtClose := |s.accepted|)
    case CloseFlush => Flushed(s).(closeFlushing := false, closed := true)
  }

  function Flatten(batches: seq<seq<string>>): seq<string> {
    if batches == [] then [] else Flatten(batches[..|batches| - 1]) + batches[|batches| - 1]
  }

  lemma FlattenSnoc(batches: seq<seq<string>>, b: seq<string>)
    ensures Flatten(batches + [b]) == Flatten(batches) + b
  {
    assert (batches + [b])[..|batches|] == batches;
  }

  /** A shipped snapshot is a list of whole lines, not all empty, within the buffer bound. */
  ghost predicate Proper(b: seq<string>) { 0 < Size(b) <= MAX_BUFFER_BYTES }

  ghost predicate AllProper(shipped: seq<seq<string>>) { forall i :: 0 <= i < |shipped| ==> Proper(shipped[i]) }

  ghost predicate Complete(s: State) {
    Size(s.batch) <= MAX_BUFFER_BYTES && s.accepted == Flatten(s.shipped) + s.batch
  }

  /** A flush is on its way: a kick waits, a writer is about to send one, or the loop is about to flush. */
  ghost predicate FlushComing(s: State) { s.kick || s.sending > 0 || s.loopFlushing }

  ghost predicate Noticed(s: State) {
    |s.batch| >= MAX_BATCH_EVENTS && Size(s.batch) > 0 ==> FlushComing(s)
  }

  /** Of the lines accepted before Close, only empty ones can still be in the buffer. */
  ghost predicate OnlyEmptyLeft(accepted: seq<string>, shipped: nat, until: nat) {
    until <= |accepted| && forall i :: shipped <= i < until ==> accepted[i] == ""
  }

  ghost predicate Closing(s: State) {
    && (s.closed || s.closeFlushing ==> s.stopped && s.acceptedAtClose <= |s.accepted|)
    && (s.closed ==> OnlyEmptyLeft(s.accepted, |Flatten(s.shipped)|, s.acceptedAtClose))
  }

  ghost predicate Inv(s: State) { Complete(s) && AllProper(s.shipped) && Noticed(s) && Closing(s) }

  lemma FlushedKeeps(s: State)
    requires Complete(s) && AllProper(s.shipped)
    ensures var t := Flushed(s);
      Complete(t) && AllProper(t.shipped) && t.accepted == s.accepted && |Flatten(t.shipped)| >= |Flatten(s.shipped)|
    ensures AllEmpty(Flushed(s).batch)
  {
    SizeZero(s.batch);
    if Size(s.batch) > 0 {
      FlattenSnoc(s.shipped, s.batch);
      assert Proper(s.batch);
    }
  }

  lemma CloseFlushKeepsInv(s: State)
    requires Inv(s) && s.closeFlushing
    ensures Inv(Step(s, CloseFlush))
  {
    FlushedKeeps(s);
    var t := Flushed(s);
    forall i | |Flatten(t.shipped)| <= i < |t.accepted| ensures t.accepted[i] == "" {
      assert t.accepted[i] == t.batch[i - |Flatten(t.shipped)|];
    }
  }

  lemma LoopFlushKeepsInv(s: State)
    requires Inv(s) && s.loopFlushing
    ensures Inv(Step(s, LoopFlush))
  {
    FlushedKeeps(s);
    SizeZero(Flushed(s).batch);
  }

  lemma AppendedComplete(s: State, p: string)
    requires Complete(s) && Size(s.batch) + |p| <= MAX_BUFFER_BYTES
    ensures Complete(Appended(s, p)) && Size(Appended(s, p).batch) == Size(s.batch) + |p|
  {
    SizeSnoc(s.batch, p);
    assert Flatten(s.shipped) + s.batch + [p] == Flatten(s.shipped) + (s.batch + [p]);
  }

  lemma WriteKeepsInv(s: State, p: string)
    requires Inv(s)
    ensures Inv(AfterWrite(s, p))
  {
    if Size(s.batch) + |p| <= MAX_BUFFER_BYTES { AppendedComplete(s, p); }
  }

  lemma StepKeepsInv(s: State, e: Event)
    requires Inv(s) && Enabled(s, e)
    ensures Inv(Step(s, e))
  {
    match e
    case Write(p) => WriteKeepsInv(s, p);
    case LoopFlush => LoopFlushKeepsInv(s);
    case CloseFlush => CloseFlushKeepsInv(s);
    case _ =>
  }

  ghost predicate Reachable(es: seq<Event>, s: State) {
    Runs.Legal(Enabled, Step, INIT, es) && s == Runs.After(Step, INIT, es)
  }

  lemma ReachableInv(es: seq<Event>, s: State)
    requires Reachable(es, s)
    ensures Inv(s)
  {
    assert Inv(INIT) by { assert Size([]) == 0; }
    forall s, e | Inv(s) && Enabled(s, e) ensures Inv(Step(s, e)) { StepKeepsInv(s, e); }
    Runs.Keeps(Inv, Enabled, Step, INIT, es);
  }

  /** Nothing accepted is lost, repeated, reordered or cut inside a line: the snapshots in order followed
      by the buffer are the accepted lines in order, and every snapshot stays within the buffer bound. */
  lemma BatchesPartitionLog(es: seq<Event>, s: State)
    requires Reachable(es, s)
    ensures s.accepted == Flatten(s.shipped) + s.batch
    ensures forall i :: 0 <= i < |s.shipped| ==> s.shipped[i] != [] && Size(s.shipped[i]) <= MAX_BUFFER_BYTES
  {
    ReachableInv(es, s);
    forall i | 0 <= i < |s.shipped| ensures s.shipped[i] != [] && Size(s.shipped[i]) <= MAX_BUFFER_BYTES {
      assert Proper(s.shipped[i]);
    }
  }

  /** A full buffer with anything in it is never forgotten. */
  lemma FullBatchIsNoticed(es: seq<Event>, s: State)
    requires Reachable(es, s) && |s.batch| >= 100 && Size(s.batch) > 0
    ensures FlushComing(s)
  {
    ReachableInv(es, s);
  }

  /** Once Close has returned, every line accepted before it was called has been shipped, empty ones
      excepted, which have nothing to ship. */
  lemma CloseShipsEverything(es: seq<Event>, s: State)
    requires Reachable(es, s) && s.closed
    ensures Flatten(s.shipped) <= s.accepted
    ensures forall i :: |Flatten(s.shipped)| <= i < s.acceptedAtClose ==> i < |s.accepted| && s.accepted[i] == ""
  {
    ReachableInv(es, s);
  }

  // ---------------------------------------------------------------- flushes can be made

  ghost predicate LoopLives(s: State) { s.loopDone ==> s.stopped }

  lemma ReachableLives(es: seq<Event>, s: State)
    requires Reachable(es, s)
    ensures LoopLives(s)
  {
    Runs.Keeps(LoopLives, Enabled, Step, INIT, es);
  }

  /** Until Close is called the loop can flush at any time, at once or after a tick. */
  lemma LoopCanFlush(es: seq<Event>, s: State)
    requires Reachable(es, s) && !s.stopped
    ensures s.loopFlushing || Enabled(s, LoopTick)
    ensures var t := if s.loopFlushing then s else Step(s, LoopTick);
      Enabled(t, LoopFlush) && Size(Step(t, LoopFlush).batch) == 0 && !Step(t, LoopFlush).loopFlushing
  {
    ReachableLives(es, s);
    SizeZero(s.batch);
  }

  /** Close can be called once, and then returns having flushed. */
  lemma CloseCanReturn(es: seq<Event>, s: State)
    requires Reachable(es, s)
    ensures Enabled(INIT, Close) && (Enabled(s, Close) <==> !s.stopped)
    ensures Enabled(s, Close) ==>
      var t := Step(Step(s, Close), CloseFlush);
      && Step(s, Close).stopped && Enabled(Step(s, Close), CloseFlush) && t.closed && !t.closeFlushing && Size(t.batch) == 0
      && Flatten(t.shipped) + t.batch == s.accepted
  {
    ReachableInv(es, s);
    FlushedKeeps(s);
    SizeZero(Flushed(s).batch);
  }

  // ---------------------------------------------------------------- what is accepted

  function Said(e: Event): seq<string> { if e.Write? then [e.p] else [] }

  /** The lines written in a run. */
  function LinesOf(es: seq<Event>): seq<string>
    decreases |es|
  {
    if es == [] then [] else Said(es[0]) + LinesOf(es[1..])
  }

  lemma {:induction false} SizeConcat(a: seq<string>, b: seq<string>)
    ensures Size(a + b) == Size(a) + Size(b)
  {
    if b == [] {
      assert a + b == a;
    } else {
      var n := |b| - 1;
      SizeConcat(a, b[..n]);
      SizeSnoc(a + b[..n], b[n]);
      SizeSnoc(b[..n], b[n]);
      assert a + b == a + b[..n] + [b[n]] && b == b[..n] + [b[n]];
    }
  }

  lemma StepAccepts(s: State, e: Event)
    requires Complete(s) && Size(s.accepted + Said(e)) <= 0x40_0000
    ensures Step(s, e).accepted == s.accepted + Said(e)
  {
    if e.Write? {
      SizeConcat(Flatten(s.shipped), s.batch);
      SizeSnoc(s.accepted, e.p);
    }
  }

  lemma {:induction false} AcceptedFrom(s: State, es: seq<Event>)
    requires Inv(s) && Runs.Legal(Enabled, Step, s, es) && Size(s.accepted + LinesOf(es)) <= 0x40_0000
    ensures Runs.After(Step, s, es).accepted == s.accepted + LinesOf(es)
    decreases |es|
  {
    if es == [] {
      assert s.accepted + [] == s.accepted;
    } else {
      var first, rest := Said(es[0]), LinesOf(es[1..]);
      assert s.accepted + (first + rest) == s.accepted + first + rest;
      SizeConcat(s.accepted + first, rest);
      StepAccepts(s, es[0]);
      StepKeepsInv(s, es[0]);
      AcceptedFrom(Step(s, es[0]), es[1..]);
    }
  }

  /** A log of no more than four MiB is accepted whole, whatever is shipped of it meanwhile. */
  lemma AcceptedWhole(es: seq<Event>, s: State)
    requires Reachable(es, s) && Size(LinesOf(es)) <= 0x40_0000
    ensures s.accepted == LinesOf(es)
  {
    assert Reachable([], INIT);
    ReachableInv([], INIT);
    assert [] + LinesOf(es) == LinesOf(es);
    AcceptedFrom(INIT, es);
  }

  /** Only a line the buffer has no room for is dropped, and the next snapshot makes room. */
  lemma DroppedExactly(es: seq<Event>, s: State, p: string)
    requires Reachable(es, s)
    ensures Step(s, Write(p)).accepted == (if Size(s.batch) + |p| <= 0x40_0000 then s.accepted + [p] else s.accepted)
    ensures s.loopFlushing ==> Size(Step(s, LoopFlush).batch) == 0
  {
    SizeZero(s.batch);
  }

  // ---------------------------------------------------------------- empty lines

  ghost predicate CanReach(s: State) { exists es :: Reachable(es, s) }

  lemma ReachNext(s: State, e: Event)
    requires CanReach(s) && Enabled(s, e)
    ensures CanReach(Step(s, e))
  {
    var es :| Reachable(es, s);
    Runs.Continue(Enabled, Step, INIT, es, e);
    assert Reachable(es + [e], Step(s, e));
  }

  function Empties(n: nat): (lines: seq<string>)
    ensures |lines| == n && AllEmpty(lines)
  {
    seq(n, _ => "")
  }

  function Writers(n: nat): nat { if n < MAX_BATCH_EVENTS then 0 else n - MAX_BATCH_EVENTS + 1 }

  /** After `n` empty writes, none of the kicks sent yet. */
  function Written(n: nat): State { INIT.(batch := Empties(n), accepted := Empties(n), sending := Writers(n)) }

  lemma {:induction false} WriteEmpties(n: nat)
    ensures CanReach(Written(n))
  {
    if n == 0 {
      assert Written(0) == INIT;
      assert Reachable([], INIT);
    } else {
      WriteEmpties(n - 1);
      SizeZero(Empties(n - 1));
      ReachNext(Written(n - 1), Write(""));
      assert Empties(n - 1) + [""] == Empties(n);
      assert Step(Written(n - 1), Write("")) == Written(n);
    }
  }

  lemma {:induction false} SendKicks(s: State)
    requires CanReach(s) && s.sending > 0
    ensures CanReach(s.(kick := true, sending := 0))
    decreases s.sending
  {
    ReachNext(s, SendKick);
    var t := s.(kick := true, sending := s.sending - 1);
    assert Step(s, SendKick) == t;
    if t.sending > 0 { SendKicks(t); }
  }

  /** A run of `n` empty writes after which the buffer is full, has been flushed, and stays as it is with
      nothing on its way. */
  lemma EmptyLinesStick(n: nat)
    requires n >= MAX_BATCH_EVENTS
    ensures var s := INIT.(batch := Empties(n), accepted := Empties(n)); CanReach(s) && !FlushComing(s)
  {
    var s := INIT.(batch := Empties(n), accepted := Empties(n));
    WriteEmpties(n);
    SendKicks(Written(n));
    var kicked := s.(kick := true);
    assert Written(n).(kick := true, sending := 0) == kicked;
    ReachNext(kicked, LoopKick);
    var flushing := s.(loopFlushing := true);
    assert Step(kicked, LoopKick) == flushing;
    ReachNext(flushing, LoopFlush);
    SizeZero(Empties(n));
    assert Step(flushing, LoopFlush) == s;
  }

  /** Exactly which full buffers always have a flush on its way: those with a byte in them. */
  lemma NoticedExactly(batch: seq<string>)
    requires |batch| >= MAX_BATCH_EVENTS
    ensures (forall s :: CanReach(s) && s.batch == batch ==> FlushComing(s)) <==> Size(batch) > 0
  {
    SizeZero(batch);
    if Size(batch) > 0 {
      forall s | CanReach(s) && s.batch == batch ensures FlushComing(s) {
        var es :| Reachable(es, s);
        FullBatchIsNoticed(es, s);
      }
    } else {
      assert batch == Empties(|batch|);
      EmptyLinesStick(|batch|);
    }
  }
}
