/** Log, snapshot and rotation as a step relation over all interleavings of clients, the log
    writer, the snapshot worker and restarts. A line reaches the file whole. */
module WalMachine {
  import opened Bytes
  import opened Wal
  import opened Shards

  datatype Phase =
    | Idle
    | Scanning(next: nat, partial: Index)  // shards below next are already in the snapshot
    | Renamed                              // new snapshot in place, old log not yet rotated

  /** mem is the union of the shards. inflight holds the operation of each client that has
      changed its shard and not yet enqueued; one per key, which is the assumption that each
      key's operations are enqueued in the order they were stored. dirty collects the keys that
      changed after the running snapshot had scanned their shard. */
  datatype State = State(mem: Index, inflight: map<string, Op>, queue: seq<Op>, buf: seq<Op>, log: seq<Op>,
                         snap: Index, phase: Phase, dirty: set<string>)

  datatype Step =
    | Store(op: Op)        // a client changes the shard
    | Enqueue(key: string) // and hands the operation to the writer
    | Dequeue              // the writer formats one operation into the buffer
    | Spill(n: nat)        // the first n buffered lines reach the file
    | BeginSnapshot
    | ScanShard
    | Rename
    | Rotate
    | Restart              // the process stops anywhere and loads snapshot and log again

  const INITIAL := State(map[], map[], [], [], [], map[], Idle, {})

  predicate Enabled(s: State, step: Step) {
    match step
    case Store(op) => op.key !in s.inflight
    case Enqueue(k) => k in s.inflight
    case Dequeue => s.queue != []
    case Spill(n) => n <= |s.buf|
    case BeginSnapshot => s.phase.Idle?
    case ScanShard => s.phase.Scanning? && s.phase.next < NUM_SHARDS
    case Rename => s.phase.Scanning? && s.phase.next == NUM_SHARDS
    case Rotate => s.phase.Renamed?
    case Restart => true
  }

  predicate Scanned(s: State, k: string) {
    s.phase.Renamed? || (s.phase.Scanning? && ShardOf(k) < s.phase.next)
  }

  function Shard(m: Index, i: nat): Index {
    map k | k in m && ShardOf(k) == i :: m[k]
  }

  function Next(s: State, step: Step): State
    requires Enabled(s, step)
  {
    match step
    case Store(op) =>
      s.(mem := Apply(s.mem, op), inflight := s.inflight[op.key := op],
         dirty := if Scanned(s, op.key) then s.dirty + {op.key} else s.dirty)
    case Enqueue(k) => s.(queue := s.queue + [s.inflight[k]], inflight := s.inflight - {k})
    case Dequeue => s.(buf := s.buf + [s.queue[0]], queue := s.queue[1..])
    case Spill(n) => s.(log := s.log + s.buf[..n], buf := s.buf[n..])
    case BeginSnapshot => s.(phase := Scanning(0, map[]), dirty := {})
    case ScanShard =>
      s.(phase := Scanning(s.phase.next + 1, s.phase.partial + Shard(s.mem, s.phase.next)))
    case Rename => s.(snap := s.phase.partial, phase := Renamed)
    case Rotate => s.(log := [], buf := [], phase := Idle, dirty := {})
    case Restart => State(Replay(s.snap, s.log), map[], [], [], s.log, s.snap, Idle, {})
  }

  function Pending(s: State): seq<Op> { s.log + s.buf + s.queue }

  /** Replaying file, buffer and queue over the snapshot gives memory, but for the keys whose
      last operation is still on its way into the queue. */
  ghost predicate Consistent(s: State) {
    forall k :: Get(s.mem, k) ==
                if k in s.inflight then Effect(s.inflight[k]) else Get(Replay(s.snap, Pending(s)), k)
  }

  /** What the snapshot worker has collected is current except on dirty keys. */
  ghost predicate PhaseInv(s: State) {
    match s.phase
    case Idle => s.dirty == {}
    case Scanning(next, partial) =>
      next <= NUM_SHARDS
      && forall k :: if ShardOf(k) < next then k in s.dirty || Get(partial, k) == Get(s.mem, k)
                     else k !in s.dirty && k !in partial
    case Renamed => forall k :: k in s.dirty || Get(s.snap, k) == Get(s.mem, k)
  }

  ghost predicate Traced(s: State, k: string) { k in s.inflight || Mentions(Pending(s), k) }

  ghost predicate Inv(s: State) {
    && (forall k :: k in s.inflight ==> s.inflight[k].key == k)
    && Consistent(s)
    && PhaseInv(s)
    && (forall k :: k in s.dirty ==> Traced(s, k))
  }

  /** The last operation on k has not left the queue. */
  ghost predicate Waiting(s: State, k: string) { k in s.inflight || Mentions(s.queue, k) }

  /** Every key that changed after its shard was scanned has its last operation still waiting, or
      is back at the entry that was scanned. */
  ghost predicate RotateSafe(s: State) {
    forall k :: k in s.dirty ==> Waiting(s, k) || Get(s.snap, k) == Get(s.mem, k)
  }

  lemma ReplayTail(m: Index, a: seq<Op>, b: seq<Op>, k: string)
    ensures Get(Replay(m, a + b), k) == if Mentions(b, k) then Effect(Last(b, k)) else Get(Replay(m, a), k)
  {
    ReplayConcat(m, a, b);
    ReplayAt(Replay(m, a), b, k);
  }

  lemma OneMention(op: Op, k: string)
    ensures Mentions([op], k) <==> op.key == k
  {
    assert [op][0] == op;
  }

  lemma StoreKeepsPhase(s: State, op: Op)
    requires Inv(s) && Enabled(s, Store(op))
    ensures PhaseInv(Next(s, Store(op)))
  {
    forall k ensures k != op.key ==> Get(Next(s, Store(op)).mem, k) == Get(s.mem, k) {}
  }

  lemma StoreKeepsInv(s: State, op: Op)
    requires Inv(s) && Enabled(s, Store(op))
    ensures Inv(Next(s, Store(op)))
  {
    var t := Next(s, Store(op));
    assert Pending(t) == Pending(s);
    StoreKeepsPhase(s, op);
    forall k | k in t.dirty ensures Traced(t, k) {
      assert k in s.dirty ==> Traced(s, k);
    }
  }

  lemma EnqueueKeepsInv(s: State, key: string)
    requires Inv(s) && Enabled(s, Enqueue(key))
    ensures Inv(Next(s, Enqueue(key)))
  {
    var t := Next(s, Enqueue(key));
    var op := s.inflight[key];
    assert Pending(t) == Pending(s) + [op];
    forall k
      ensures Get(t.mem, k) == if k in t.inflight then Effect(t.inflight[k]) else Get(Replay(t.snap, Pending(t)), k)
      ensures Traced(s, k) ==> Traced(t, k)
    {
      ReplayTail(s.snap, Pending(s), [op], k);
      OneMention(op, k);
      MentionsConcat(Pending(s), [op], k);
    }
  }

  lemma MovePending(s: State, step: Step)
    requires Enabled(s, step) && (step.Dequeue? || step.Spill?)
    ensures Pending(Next(s, step)) == Pending(s)
  {
    if step.Dequeue? {
      assert s.queue == [s.queue[0]] + s.queue[1..];
    } else {
      assert s.buf == s.buf[..step.n] + s.buf[step.n..];
    }
  }

  /** Moving operations along the pipeline changes neither the pending sequence nor memory. */
  lemma MoveKeepsInv(s: State, step: Step)
    requires Inv(s) && Enabled(s, step) && (step.Dequeue? || step.Spill?)
    ensures Inv(Next(s, step))
  {
    MovePending(s, step);
    forall k | k in s.dirty ensures Traced(Next(s, step), k) {
      assert Traced(s, k);
    }
  }

  lemma ScanKeepsInv(s: State)
    requires Inv(s) && Enabled(s, ScanShard)
    ensures Inv(Next(s, ScanShard))
  {
    var t := Next(s, ScanShard);
    assert Pending(t) == Pending(s);
    forall k | k in t.dirty ensures Traced(t, k) {
      assert Traced(s, k);
    }
  }

  /** The new snapshot may stand in for the old one while the whole log is still there. */
  lemma RenameKeepsInv(s: State)
    requires Inv(s) && Enabled(s, Rename)
    ensures Inv(Next(s, Rename))
  {
    var t := Next(s, Rename);
    assert Pending(t) == Pending(s);
    forall k ensures k !in s.inflight ==> Get(t.mem, k) == Get(Replay(t.snap, Pending(t)), k) {
      ReplayAt(s.snap, Pending(s), k);
      ReplayAt(t.snap, Pending(s), k);
      assert k in s.dirty ==> Traced(s, k);
    }
    forall k | k in t.dirty ensures Traced(t, k) {
      assert Traced(s, k);
    }
  }

  /** Rotation keeps memory recoverable exactly when each dirty key is still waiting or has
      returned to the entry that was scanned. */
  lemma RotateExactly(s: State)
    requires Inv(s) && Enabled(s, Rotate)
    ensures Consistent(Next(s, Rotate)) <==> RotateSafe(s)
  {
    var t := Next(s, Rotate);
    assert Pending(t) == s.queue;
    forall k
      ensures k !in s.inflight ==>
                (Get(t.mem, k) == Get(Replay(t.snap, Pending(t)), k)
                 <==> k !in s.dirty || Waiting(s, k) || Get(s.snap, k) == Get(s.mem, k))
    {
      ReplayTail(s.snap, s.log + s.buf, s.queue, k);
      ReplayAt(s.snap, s.queue, k);
    }
  }

  /** A step keeps the invariant exactly when it is not an unsafe rotation. */
  lemma StepKeepsInvExactly(s: State, step: Step)
    requires Inv(s) && Enabled(s, step)
    ensures Inv(Next(s, step)) <==> (step.Rotate? ==> RotateSafe(s))
  {
    match step
    case Store(op) => StoreKeepsInv(s, op);
    case Enqueue(k) => EnqueueKeepsInv(s, k);
    case Dequeue => MoveKeepsInv(s, step);
    case Spill(n) => MoveKeepsInv(s, step);
    case BeginSnapshot => assert Pending(Next(s, step)) == Pending(s);
    case ScanShard => ScanKeepsInv(s);
    case Rename => RenameKeepsInv(s);
    case Rotate => RotateExactly(s);
    case Restart => assert Pending(Next(s, step)) == s.log;
  }

  // ---- Whole runs ----

  ghost predicate Legal(s: State, steps: seq<Step>)
    decreases |steps|
  {
    steps == []
    || (Enabled(s, steps[0]) && (steps[0].Rotate? ==> RotateSafe(s)) && Legal(Next(s, steps[0]), steps[1..]))
  }

  /** The state after steps, up to the first one that is not enabled. */
  function Run(s: State, steps: seq<Step>): State
    decreases |steps|
  {
    if steps == [] || !Enabled(s, steps[0]) then s else Run(Next(s, steps[0]), steps[1..])
  }

  lemma {:induction false} RunKeepsInv(s: State, steps: seq<Step>)
    requires Inv(s) && Legal(s, steps)
    ensures Inv(Run(s, steps))
    decreases |steps|
  {
    if steps != [] {
      StepKeepsInvExactly(s, steps[0]);
      RunKeepsInv(Next(s, steps[0]), steps[1..]);
    }
  }

  /** At every point of every run, replaying file, buffer and queue over the snapshot and then
      finishing the stores in flight gives the memory map. */
  lemma RunRecovers(steps: seq<Step>, k: string)
    requires Legal(INITIAL, steps)
    ensures var s := Run(INITIAL, steps);
            Get(s.mem, k) == if k in s.inflight then Effect(s.inflight[k]) else Get(Replay(s.snap, Pending(s)), k)
  {
    RunKeepsInv(INITIAL, steps);
  }

  /** The operation of k that has changed memory and is not yet queued. */
  function InFlight(s: State, k: string): seq<Op> {
    if k in s.inflight then [s.inflight[k]] else []
  }

  /** A restart loses nothing but the operations that had not reached the file: redoing exactly
      those, the one in flight last, gives memory back, and every key without one is untouched. */
  lemma RestartLosesOnlyUnflushed(s: State, k: string)
    requires Inv(s)
    ensures var t, lost := Next(s, Restart), s.buf + s.queue + InFlight(s, k);
            Get(Replay(t.mem, lost), k) == Get(s.mem, k)
            && (!Mentions(lost, k) ==> Get(t.mem, k) == Get(s.mem, k))
  {
    var lost := s.buf + s.queue;
    assert Pending(s) == s.log + lost;
    ReplayConcat(s.snap, s.log, lost);
    var t := Next(s, Restart);
    if k in s.inflight {
      var op := s.inflight[k];
      assert (lost + [op])[|lost|].key == k;
      assert (lost + [op])[..|lost|] == lost;
    } else {
      assert lost + [] == lost;
      ReplayAt(t.mem, lost, k);
    }
  }

  lemma DrainedRestartIsExact(s: State)
    requires Inv(s) && s.inflight == map[] && s.queue == [] && s.buf == []
    ensures Next(s, Restart).mem == s.mem
  {
    assert Pending(s) == s.log;
    SameIndex(Next(s, Restart).mem, s.mem);
  }

  // ---- A rotation that is not safe ----

  function Repeat(step: Step, n: nat): seq<Step> { seq(n, i => step) }

  lemma {:induction false} EmptyScan(n: nat, tail: seq<Step>)
    requires n <= NUM_SHARDS
    ensures Run(INITIAL.(phase := Scanning(NUM_SHARDS - n, map[])), Repeat(ScanShard, n) + ([Rename] + tail))
            == Run(INITIAL.(phase := Renamed), tail)
  {
    var s := INITIAL.(phase := Scanning(NUM_SHARDS - n, map[]));
    var steps := Repeat(ScanShard, n) + ([Rename] + tail);
    if n > 0 {
      assert Next(s, ScanShard) == INITIAL.(phase := Scanning(NUM_SHARDS - (n - 1), map[]));
      assert steps[1..] == Repeat(ScanShard, n - 1) + ([Rename] + tail);
      EmptyScan(n - 1, tail);
    } else {
      assert steps[0] == Rename && steps[1..] == tail;
      assert Next(s, Rename) == INITIAL.(phase := Renamed);
    }
  }

  /** The steps of a save that is issued after the scan and written out before the rotation. */
  function LateSave(k: string, e: Entry): seq<Step> {
    [Store(Put(k, e)), Enqueue(k), Dequeue, Spill(1), Rotate]
  }

  function SnapshotAround(tail: seq<Step>): seq<Step> {
    [BeginSnapshot] + (Repeat(ScanShard, NUM_SHARDS) + ([Rename] + tail))
  }

  lemma RunCons(s: State, step: Step, rest: seq<Step>)
    requires Enabled(s, step)
    ensures Run(s, [step] + rest) == Run(Next(s, step), rest)
  {
    assert ([step] + rest)[1..] == rest;
  }

  lemma LateSaveRun(k: string, e: Entry)
    ensures Run(INITIAL.(phase := Renamed), LateSave(k, e)) == INITIAL.(mem := map[k := e])
  {
    var op := Put(k, e);
    var s0 := INITIAL.(phase := Renamed);
    var s1 := s0.(mem := map[k := e], inflight := map[k := op], dirty := {k});
    var s2 := s1.(queue := [op], inflight := map[]);
    var s3 := s2.(buf := [op], queue := []);
    var s4 := s3.(log := [op], buf := []);
    assert Next(s0, Store(op)) == s1;
    assert Next(s1, Enqueue(k)) == s2;
    assert Next(s2, Dequeue) == s3;
    assert Next(s3, Spill(1)) == s4;
    assert Next(s4, Rotate) == INITIAL.(mem := map[k := e]);
    RunCons(s4, Rotate, []);
    RunCons(s3, Spill(1), [Rotate]);
    RunCons(s2, Dequeue, [Spill(1), Rotate]);
    RunCons(s1, Enqueue(k), [Dequeue, Spill(1), Rotate]);
    RunCons(s0, Store(op), [Enqueue(k), Dequeue, Spill(1), Rotate]);
  }

  /** A save issued after the scan is gone for good once the log is rotated, although its line
      had reached the file. */
  lemma LateSaveIsLost(k: string, e: Entry)
    ensures var s := Run(INITIAL, SnapshotAround(LateSave(k, e)));
            Get(s.mem, k) == Some(e) && Get(Next(s, Restart).mem, k) == None
  {
    var steps := SnapshotAround(LateSave(k, e));
    assert steps[1..] == Repeat(ScanShard, NUM_SHARDS) + ([Rename] + LateSave(k, e));
    assert Next(INITIAL, BeginSnapshot) == INITIAL.(phase := Scanning(0, map[]));
    EmptyScan(NUM_SHARDS, LateSave(k, e));
    LateSaveRun(k, e);
  }
}
