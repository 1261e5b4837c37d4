/** The value store and its log together, through restarts. The free list reaches its file at once,
    an index entry only with the log; so a restart can bring an entry back whose extent has been
    free in the meantime. */
module StoreRestart {
  import opened Bytes
  import opened Files
  import opened Wal
  import E = ExtentMachine
  import W = WalMachine
  import F = KvFile
  import L = FreeLists

  /** A key and the extent it was given by some save. */
  datatype Claim = Claim(key: string, entry: Entry)

  /** What became of the extent: it is live or about to be freed; it is in the free list; it was
      dropped from the free list, its key being reused, or by a restart, and nobody has a byte of it;
      or a write has taken it since it was freed, or an entry that a restart brought back. */
  datatype Fate = Intact | Freed | Dropped | Taken

  /** What was saved last under a claim, and the fate of the extent since. */
  datatype Past = Past(data: E.Value, fate: Fate)

  type History = map<Claim, Past>

  /** No step forgets a claim. */
  datatype State = State(store: E.State, log: W.State, past: History)

  /** Steps of the store that change the index are steps of the log as well. */
  datatype Step =
    | Write(reqs: seq<E.Req>, taken: Option<string>)
    | Swap(id: nat)
    | Mark(id: nat)
    | Free(key: string)
    | Log(step: W.Step)
    | Restart

  /** The claim that a saver is about to make, or to give up. */
  function ClaimOf(e: E.State, id: nat): Claim
    requires id in e.savers
  {
    Claim(e.savers[id].key, Entry(e.table, e.savers[id].start, e.savers[id].end))
  }

  ghost function StoreStep(step: Step): E.Step
    requires !step.Log? && !step.Restart?
  {
    match step
    case Write(reqs, taken) => E.Write(reqs, taken)
    case Swap(id) => E.Swap(id)
    case Mark(id) => E.Mark(id)
    case Free(k) => E.Free(k)
  }

  /** The operation that a step logs. */
  ghost function Logged(s: State, step: Step): Option<Op>
    requires step.Swap? ==> step.id in s.store.savers
  {
    match step
    case Swap(id) => Some(Put(ClaimOf(s.store, id).key, ClaimOf(s.store, id).entry))
    case Free(k) => Some(Del(k))
    case _ => None
  }

  ghost predicate Enabled(s: State, step: Step) {
    match step
    case Log(l) => !l.Store? && !l.Restart? && W.Enabled(s.log, l)
    case Restart => true
    case _ =>
      E.Enabled(s.store, StoreStep(step))
      && (Logged(s, step).Some? ==> W.Enabled(s.log, W.Store(Logged(s, step).value)))
  }

  /** The index that a restart loads. */
  function Recovered(s: State): Index {
    Replay(s.log.snap, s.log.log)
  }

  /** A write takes the block that is free under key b. */
  function Handed(past: History, b: string): History {
    map c | c in past ::
      if c.key == b && past[c].fate.Freed? then past[c].(fate := Taken) else past[c]
  }

  /** The extent of r enters the free list, in place of the block that was free under the same key. */
  function Released(past: History, r: Claim): History {
    map c | c in past ::
      if c == r then past[c].(fate := Freed)
      else if c.key == r.key && past[c].fate.Freed? then past[c].(fate := Dropped)
      else past[c]
  }

  /** The recovered claims are live. Other extents that were in use are nobody's now, unless a
      recovered entry has them. */
  ghost function FateReloaded(m: Index, c: Claim, fate: Fate): Fate {
    if Get(m, c.key) == Some(c.entry) then Intact
    else if !fate.Intact? && !fate.Dropped? then fate
    else if forall k :: k in m ==> Apart(m[k], c.entry) then Dropped
    else Taken
  }

  ghost function Reloaded(past: History, m: Index): History {
    map c | c in past :: past[c].(fate := FateReloaded(m, c, past[c].fate))
  }

  ghost function NextPast(s: State, step: Step): History
    requires Enabled(s, step)
  {
    match step
    case Write(_, Some(b)) => Handed(s.past, b)
    case Swap(id) => s.past[ClaimOf(s.store, id) := Past(s.store.savers[id].data, Intact)]
    case Mark(id) => Released(s.past, ClaimOf(s.store, id))
    case Free(k) => Released(s.past, Claim(k, s.store.index[k]))
    case Restart => Reloaded(s.past, Recovered(s))
    case _ => s.past
  }

  ghost function NextLog(s: State, step: Step): W.State
    requires Enabled(s, step)
  {
    match Logged(s, step)
    case Some(op) => W.Next(s.log, W.Store(op))
    case None => s.log
  }

  /** The store that a restart leaves: what a client believes to be stored is what was saved under
      the recovered claims. */
  ghost function Restarted(s: State): E.State {
    var m := Recovered(s);
    s.store.(index := m, savers := map[],
             values := map k | k in m && Claim(k, m[k]) in s.past :: s.past[Claim(k, m[k])].data)
  }

  ghost function Next(s: State, step: Step): State
    requires Enabled(s, step)
  {
    match step
    case Log(l) => s.(log := W.Next(s.log, l))
    case Restart => State(Restarted(s), W.Next(s.log, W.Restart), NextPast(s, step))
    case _ => State(E.Next(s.store, StoreStep(step)), NextLog(s, step), NextPast(s, step))
  }

  // ---- The invariant ----

  predicate Apart(a: Entry, b: Entry) { a.end <= b.start || b.end <= a.start }

  ghost predicate Fits(e: E.State, x: Entry) {
    x.file == e.table && 0 <= x.start < x.end <= |e.file|
  }

  /** The extent has the bytes that were saved. */
  ghost predicate Same(e: E.State, c: Claim, d: E.Value) {
    Fits(e, c.entry) && E.Holds(e, c.entry.start, c.entry.end, d)
  }

  /** The role that the extent of an intact claim has. */
  ghost predicate Plays(e: E.State, c: Claim, r: E.Role) {
    && E.Has(e, r)
    && E.SpanOf(e, r) == F.Span(c.entry.start, c.entry.end)
    && (r == E.Live(c.key) || (r.Retired? && e.savers[r.id].key == c.key))
  }

  ghost predicate Kept(e: E.State, c: Claim, d: E.Value) {
    Same(e, c, d) && exists r :: Plays(e, c, r)
  }

  ghost predicate Unused(e: E.State, c: Claim, d: E.Value) {
    && Same(e, c, d)
    && c.key in e.free && e.free[c.key] == L.BlockOf(e.table, c.entry.start, c.entry.end)
  }

  /** No saver, no index entry and no free block has a byte of it. */
  ghost predicate Nobodys(e: E.State, c: Claim, d: E.Value) {
    Same(e, c, d) && forall i :: c.entry.start <= i < c.entry.end ==> !E.Owned(e, i)
  }

  ghost predicate Sound(e: E.State, c: Claim, p: Past) {
    match p.fate
    case Intact => Kept(e, c, p.data)
    case Freed => Unused(e, c, p.data)
    case Dropped => Nobodys(e, c, p.data)
    case Taken => true
  }

  ghost predicate Has(past: History, c: Claim, fate: Fate) { c in past && past[c].fate == fate }

  ghost predicate Histories(e: E.State, past: History) {
    && (forall c :: c in past ==> Sound(e, c, past[c]))
    && (forall c, d :: Has(past, c, Dropped) && Has(past, d, Dropped) && c != d ==> Apart(c.entry, d.entry))
    && (forall k :: k in e.index ==> Has(past, Claim(k, e.index[k]), Intact))
    && (forall id :: id in e.savers && e.savers[id].Swapped? ==> Has(past, ClaimOf(e, id), Intact))
  }

  ghost predicate KnownIndex(past: History, m: Index) {
    forall k :: k in m ==> Claim(k, m[k]) in past
  }

  ghost predicate KnownOps(past: History, ops: seq<Op>) {
    forall i :: 0 <= i < |ops| && ops[i].Put? ==> Claim(ops[i].key, ops[i].entry) in past
  }

  /** Whatever the log or a snapshot names was saved once. */
  ghost predicate Known(past: History, l: W.State) {
    && KnownOps(past, l.log) && KnownOps(past, l.buf) && KnownOps(past, l.queue)
    && (forall k :: k in l.inflight ==> KnownOps(past, [l.inflight[k]]))
    && KnownIndex(past, l.snap) && KnownIndex(past, l.mem)
    && (l.phase.Scanning? ==> KnownIndex(past, l.phase.partial))
  }

  ghost predicate StoreInv(s: State) { E.Inv(s.store) && Histories(s.store, s.past) }

  ghost predicate Inv(s: State) {
    && StoreInv(s)
    && W.Inv(s.log) && s.log.mem == s.store.index && Known(s.past, s.log)
  }

  // ---- A restart ----

  /** No free block and no other recovered entry has a byte of the recovered extent. */
  ghost predicate Unclaimed(s: State, k: string)
    requires k in Recovered(s)
  {
    var e := Recovered(s)[k];
    && Fits(s.store, e)
    && (forall b :: b in s.store.free ==> Apart(e, Entry(s.store.table, s.store.free[b].start, s.store.free[b].end)))
    && (forall l :: l in Recovered(s) && l != k ==> Apart(e, Recovered(s)[l]))
  }

  /** The extent was never freed, or was dropped from the free list before any write took it. If a
      write took it, it must have the same bytes all the same, and no free block and no other
      recovered entry any of them. */
  ghost predicate SafeAt(s: State, k: string)
    requires k in Recovered(s)
  {
    var c := Claim(k, Recovered(s)[k]);
    && c in s.past
    && match s.past[c].fate
       case Intact => true
       case Freed => false
       case Dropped => true
       case Taken => Unclaimed(s, k) && Same(s.store, c, s.past[c].data)
  }

  ghost predicate SafeRestart(s: State) {
    forall k :: k in Recovered(s) ==> SafeAt(s, k)
  }

  lemma {:induction false} ReplayKnown(past: History, m: Index, ops: seq<Op>)
    requires KnownIndex(past, m) && KnownOps(past, ops)
    ensures KnownIndex(past, Replay(m, ops))
  {
    if ops != [] {
      var n := |ops| - 1;
      assert forall i :: 0 <= i < n ==> ops[..n][i] == ops[i];
      ReplayKnown(past, m, ops[..n]);
    }
  }

  lemma KeptFits(e: E.State, c: Claim, d: E.Value) returns (r: E.Role)
    requires Kept(e, c, d)
    ensures Plays(e, c, r)
  {
    r :| Plays(e, c, r);
  }

  /** A byte of an intact claim has an owner. */
  lemma KeptOwned(e: E.State, c: Claim, d: E.Value, i: int)
    requires Kept(e, c, d) && c.entry.start <= i < c.entry.end
    ensures E.Owned(e, i)
  {
    var r := KeptFits(e, c, d);
    assert E.In(i, E.SpanOf(e, r));
  }

  lemma FreeOwned(e: E.State, b: string, i: int)
    requires b in e.free && e.free[b].start <= i < e.free[b].end
    ensures E.Owned(e, i)
  {
    assert E.Has(e, E.Unused(b)) && E.In(i, E.SpanOf(e, E.Unused(b)));
  }

  lemma UnownedNotFree(e: E.State, b: string, i: int)
    requires b in e.free && !E.Owned(e, i)
    ensures !(e.free[b].start <= i < e.free[b].end)
  {
    if e.free[b].start <= i < e.free[b].end {
      FreeOwned(e, b, i);
    }
  }

  /** A dropped extent is apart from all that somebody has. */
  lemma NobodysApart(e: E.State, c: Claim, d: E.Value, x: Entry)
    requires Nobodys(e, c, d) && x.start < x.end
    requires forall i :: x.start <= i < x.end ==> E.Owned(e, i)
    ensures Apart(c.entry, x)
  {
    var i := if c.entry.start <= x.start then x.start else c.entry.start;
    assert x.start <= i < x.end ==> E.Owned(e, i);
  }

  lemma KeptClearOfFree(e: E.State, c: Claim, d: E.Value, b: string)
    requires E.Inv(e) && Kept(e, c, d) && b in e.free
    ensures Apart(c.entry, Entry(e.table, e.free[b].start, e.free[b].end))
  {
    var r := KeptFits(e, c, d);
    assert E.Has(e, E.Unused(b)) && E.Clear(E.SpanOf(e, r), E.SpanOf(e, E.Unused(b)));
  }

  lemma KeptApart(e: E.State, c: Claim, x: E.Value, d: Claim, y: E.Value)
    requires E.Inv(e) && Kept(e, c, x) && Kept(e, d, y) && c != d
    ensures Apart(c.entry, d.entry)
  {
    var q := KeptFits(e, c, x);
    var r := KeptFits(e, d, y);
    assert q != r;
    assert E.Clear(E.SpanOf(e, q), E.SpanOf(e, r));
  }

  lemma KeptClearOfDropped(e: E.State, c: Claim, x: E.Value, d: Claim, y: E.Value)
    requires Kept(e, c, x) && Nobodys(e, d, y)
    ensures Apart(c.entry, d.entry)
  {
    forall i | c.entry.start <= i < c.entry.end ensures E.Owned(e, i) {
      KeptOwned(e, c, x, i);
    }
    NobodysApart(e, d, y, c.entry);
  }

  lemma DroppedClearOfFree(e: E.State, c: Claim, d: E.Value, b: string)
    requires E.Inv(e) && Nobodys(e, c, d) && b in e.free
    ensures Apart(c.entry, Entry(e.table, e.free[b].start, e.free[b].end))
  {
    assert E.Has(e, E.Unused(b)) && E.Good(e, E.Unused(b));
    forall i | e.free[b].start <= i < e.free[b].end ensures E.Owned(e, i) {
      FreeOwned(e, b, i);
    }
    NobodysApart(e, c, d, Entry(e.table, e.free[b].start, e.free[b].end));
  }

  /** Two claims, neither of them freed or taken. */
  lemma UntakenApart(s: State, c: Claim, d: Claim)
    requires StoreInv(s) && c != d
    requires Has(s.past, c, Intact) || Has(s.past, c, Dropped)
    requires Has(s.past, d, Intact) || Has(s.past, d, Dropped)
    ensures Apart(c.entry, d.entry)
  {
    var p, q := s.past[c], s.past[d];
    assert Sound(s.store, c, p) && Sound(s.store, d, q);
    match (p.fate, q.fate)
    case (Intact, Intact) => KeptApart(s.store, c, p.data, d, q.data);
    case (Intact, Dropped) => KeptClearOfDropped(s.store, c, p.data, d, q.data);
    case (Dropped, Intact) => KeptClearOfDropped(s.store, d, q.data, c, p.data);
    case (Dropped, Dropped) =>
  }

  lemma UntakenClearOfFree(s: State, c: Claim, b: string)
    requires StoreInv(s) && (Has(s.past, c, Intact) || Has(s.past, c, Dropped)) && b in s.store.free
    ensures Apart(c.entry, Entry(s.store.table, s.store.free[b].start, s.store.free[b].end))
  {
    var p := s.past[c];
    assert Sound(s.store, c, p);
    if p.fate.Intact? {
      KeptClearOfFree(s.store, c, p.data, b);
    } else {
      DroppedClearOfFree(s.store, c, p.data, b);
    }
  }

  lemma RecoveredApart(s: State, k: string, l: string)
    requires StoreInv(s) && SafeRestart(s) && k in Recovered(s) && l in Recovered(s) && k != l
    ensures Apart(Recovered(s)[k], Recovered(s)[l])
  {
    var c, d := Claim(k, Recovered(s)[k]), Claim(l, Recovered(s)[l]);
    assert SafeAt(s, k) && SafeAt(s, l);
    if !s.past[c].fate.Taken? && !s.past[d].fate.Taken? {
      UntakenApart(s, c, d);
    } else {
      assert Unclaimed(s, k) || Unclaimed(s, l);
    }
  }

  lemma RecoveredClearOfFree(s: State, k: string, b: string)
    requires StoreInv(s) && SafeRestart(s) && k in Recovered(s) && b in s.store.free
    ensures Apart(Recovered(s)[k], Entry(s.store.table, s.store.free[b].start, s.store.free[b].end))
  {
    assert SafeAt(s, k);
    var c := Claim(k, Recovered(s)[k]);
    if !s.past[c].fate.Taken? {
      UntakenClearOfFree(s, c, b);
    }
  }

  lemma RecoveredHolds(s: State, k: string)
    requires StoreInv(s) && SafeRestart(s) && k in Recovered(s)
    ensures var c := Claim(k, Recovered(s)[k]); c in s.past && Same(s.store, c, s.past[c].data)
  {
    assert SafeAt(s, k);
    var c := Claim(k, Recovered(s)[k]);
    assert Sound(s.store, c, s.past[c]);
  }

  lemma SafeRestartGood(s: State, r: E.Role)
    requires StoreInv(s) && SafeRestart(s) && E.Has(Restarted(s), r)
    ensures E.Good(Restarted(s), r)
  {
    match r
    case Live(k) => RecoveredHolds(s, k);
    case Unused(b) => assert E.Has(s.store, r) && E.Good(s.store, r);
    case _ =>
  }

  lemma SafeRestartSeparate(s: State, q: E.Role, r: E.Role)
    requires StoreInv(s) && SafeRestart(s) && E.Has(Restarted(s), q) && E.Has(Restarted(s), r) && q != r
    ensures E.Clear(E.SpanOf(Restarted(s), q), E.SpanOf(Restarted(s), r))
  {
    match (q, r)
    case (Live(k), Live(l)) => RecoveredApart(s, k, l);
    case (Live(k), Unused(b)) => RecoveredClearOfFree(s, k, b);
    case (Unused(b), Live(k)) => RecoveredClearOfFree(s, k, b);
    case (Unused(b), Unused(c)) => assert E.Has(s.store, q) && E.Has(s.store, r);
    case _ =>
  }

  /** What a consistent restart says about a recovered entry. */
  lemma GoodRestartAt(s: State, k: string)
    requires E.Inv(Restarted(s)) && k in Recovered(s)
    ensures var c := Claim(k, Recovered(s)[k]);
            Unclaimed(s, k) && c in s.past && Same(s.store, c, s.past[c].data)
  {
    var t := Restarted(s);
    assert E.Has(t, E.Live(k)) && E.Good(t, E.Live(k));
    forall b | b in s.store.free
      ensures Apart(Recovered(s)[k], Entry(s.store.table, s.store.free[b].start, s.store.free[b].end))
    {
      assert E.Has(t, E.Unused(b)) && E.Clear(E.SpanOf(t, E.Live(k)), E.SpanOf(t, E.Unused(b)));
    }
    forall l | l in Recovered(s) && l != k ensures Apart(Recovered(s)[k], Recovered(s)[l]) {
      assert E.Has(t, E.Live(l)) && E.Clear(E.SpanOf(t, E.Live(k)), E.SpanOf(t, E.Live(l)));
    }
  }

  lemma GoodRestartSafeAt(s: State, k: string)
    requires StoreInv(s) && E.Inv(Restarted(s)) && k in Recovered(s)
    ensures SafeAt(s, k)
  {
    GoodRestartAt(s, k);
    var c := Claim(k, Recovered(s)[k]);
    assert Sound(s.store, c, s.past[c]);
    assert s.past[c].fate.Freed? ==>
        !Apart(c.entry, Entry(s.store.table, s.store.free[k].start, s.store.free[k].end));
  }

  lemma SafeRestartInv(s: State)
    requires StoreInv(s) && SafeRestart(s)
    ensures E.Inv(Restarted(s))
  {
    var t := Restarted(s);
    forall r | E.Has(t, r) ensures E.Good(t, r) {
      SafeRestartGood(s, r);
    }
    forall q, r | E.Has(t, q) && E.Has(t, r) && q != r ensures E.Clear(E.SpanOf(t, q), E.SpanOf(t, r)) {
      SafeRestartSeparate(s, q, r);
    }
    forall k | k in t.index ensures k in t.values {
      RecoveredHolds(s, k);
    }
  }

  /** After a restart extents are disjoint, in the file, and hold what was saved under their claims
      if and only if no recovered extent is in the free list, and none was taken by a write, unless
      it has the same bytes and no free block and no other recovered entry has any of them. */
  lemma RestartExactly(s: State)
    requires StoreInv(s)
    ensures E.Inv(Restarted(s)) <==> SafeRestart(s)
  {
    if SafeRestart(s) {
      SafeRestartInv(s);
    }
    if E.Inv(Restarted(s)) {
      forall k | k in Recovered(s) ensures SafeAt(s, k) {
        GoodRestartSafeAt(s, k);
      }
    }
  }

  /** No operation on k is under way to the log file. */
  ghost predicate Settled(s: State, k: string) {
    !Mentions(s.log.buf + s.log.queue + W.InFlight(s.log, k), k)
  }

  /** A key without an operation that had yet to reach the file is never the reason. */
  lemma FlushedKeyIsSafe(s: State, k: string)
    requires Inv(s) && k in Recovered(s) && Settled(s, k)
    ensures Has(s.past, Claim(k, Recovered(s)[k]), Intact) && SafeAt(s, k)
  {
    SettledIsIndexed(s, k);
    assert Has(s.past, Claim(k, s.store.index[k]), Intact);
  }

  /** What a restart recovers for such a key is what memory has. */
  lemma SettledIsIndexed(s: State, k: string)
    requires W.Inv(s.log) && s.log.mem == s.store.index && Settled(s, k)
    ensures Get(Recovered(s), k) == Get(s.store.index, k)
  {
    W.RestartLosesOnlyUnflushed(s.log, k);
  }

  // ---- Steps of the store ----

  lemma WriteKeeps(e: E.State, step: E.Step, c: Claim, d: E.Value)
    requires E.Inv(e) && step.Write? && E.Enabled(e, step) && Kept(e, c, d)
    ensures Kept(E.Next(e, step), c, d)
  {
    var r := KeptFits(e, c, d);
    if r.Retired? {
      E.WriteSavers(e, step.reqs, step.taken, r.id);
    }
    E.WriteRoles(e, step, r);
    E.WriteHolds(e, step, r, d);
    E.WriteFile(e, step);
    assert Plays(E.Next(e, step), c, r);
  }

  lemma WriteUnused(e: E.State, step: E.Step, c: Claim, d: E.Value)
    requires E.Inv(e) && step.Write? && E.Enabled(e, step) && Unused(e, c, d) && step.taken != Some(c.key)
    ensures Unused(E.Next(e, step), c, d)
  {
    E.WriteHolds(e, step, E.Unused(c.key), d);
    E.WriteFile(e, step);
  }

  /** A byte that nobody has is not written. */
  lemma WriteAvoids(e: E.State, step: E.Step, i: nat)
    requires E.Inv(e) && step.Write? && E.Enabled(e, step) && i < |e.file| && !E.Owned(e, i)
    ensures i < |E.Next(e, step).file| && E.Next(e, step).file[i] == e.file[i] && !E.Owned(E.Next(e, step), i)
  {
    E.WriteFile(e, step);
    E.LostExactly(e, step, i);
    if step.taken.Some? {
      UnownedNotFree(e, step.taken.value, i);
      assert E.Has(e, E.Unused(step.taken.value)) && E.Good(e, E.Unused(step.taken.value));
    }
  }

  lemma WriteNobodys(e: E.State, step: E.Step, c: Claim, d: E.Value)
    requires E.Inv(e) && step.Write? && E.Enabled(e, step) && Nobodys(e, c, d)
    ensures Nobodys(E.Next(e, step), c, d)
  {
    var t := E.Next(e, step);
    E.WriteFile(e, step);
    forall i | c.entry.start <= i < c.entry.end ensures t.file[i] == e.file[i] && !E.Owned(t, i) {
      WriteAvoids(e, step, i);
    }
    E.SameSlice(e.file, t.file, c.entry.start, c.entry.end);
  }

  lemma MoveNobodys(e: E.State, step: E.Step, c: Claim, d: E.Value)
    requires E.Inv(e) && !step.Write? && E.Enabled(e, step) && Nobodys(e, c, d)
    ensures Nobodys(E.Next(e, step), c, d)
  {
    forall i | c.entry.start <= i < c.entry.end ensures !E.Owned(E.Next(e, step), i) {
      E.MoveOwned(e, step, i);
    }
  }

  /** Retiring an extent keeps its claim. */
  lemma SwapKeeps(e: E.State, id: nat, c: Claim, d: E.Value)
    requires E.Inv(e) && E.Enabled(e, E.Swap(id)) && Kept(e, c, d)
    ensures Kept(E.Next(e, E.Swap(id)), c, d)
  {
    var r := KeptFits(e, c, d);
    E.MovedOn(e, E.Swap(id), r);
    assert Plays(E.Next(e, E.Swap(id)), c, E.After(e, E.Swap(id), r));
  }

  lemma SwapKeepsNew(e: E.State, id: nat)
    requires E.Inv(e) && E.Enabled(e, E.Swap(id))
    ensures Kept(E.Next(e, E.Swap(id)), ClaimOf(e, id), e.savers[id].data)
  {
    assert E.Has(e, E.InFlight(id)) && E.Good(e, E.InFlight(id));
    assert Plays(E.Next(e, E.Swap(id)), ClaimOf(e, id), E.Live(e.savers[id].key));
  }

  lemma MarkKeeps(e: E.State, id: nat, c: Claim, d: E.Value)
    requires E.Inv(e) && E.Enabled(e, E.Mark(id)) && Kept(e, c, d) && c != ClaimOf(e, id)
    ensures Kept(E.Next(e, E.Mark(id)), c, d)
  {
    var r := KeptFits(e, c, d);
    assert Plays(E.Next(e, E.Mark(id)), c, r);
  }

  /** A live extent is not the one that a saver frees. */
  lemma MarkKeepsLive(e: E.State, id: nat, k: string)
    requires E.Inv(e) && E.Enabled(e, E.Mark(id)) && k in e.index
    ensures Claim(k, e.index[k]) != ClaimOf(e, id)
  {
    assert E.Has(e, E.Live(k)) && E.Good(e, E.Live(k)) && E.Has(e, E.Retired(id));
    assert E.Clear(E.SpanOf(e, E.Live(k)), E.SpanOf(e, E.Retired(id)));
  }

  lemma FreeKeeps(e: E.State, k: string, c: Claim, d: E.Value)
    requires E.Inv(e) && k in e.index && Kept(e, c, d) && c != Claim(k, e.index[k])
    ensures Kept(E.Next(e, E.Free(k)), c, d)
  {
    var r := KeptFits(e, c, d);
    assert E.Has(e, E.Live(k)) && E.Good(e, E.Live(k));
    assert Plays(E.Next(e, E.Free(k)), c, r);
  }

  /** The extents of two savers that are about to free are not the same. */
  lemma RetiredApart(e: E.State, q: E.Role, r: E.Role)
    requires E.Inv(e) && E.Has(e, q) && E.Has(e, r) && q != r
    ensures E.SpanOf(e, q) != E.SpanOf(e, r)
  {
    assert E.Good(e, q) && E.Clear(E.SpanOf(e, q), E.SpanOf(e, r));
  }

  /** The claim whose extent a step enters into the free list. */
  ghost function Given(e: E.State, step: E.Step): Claim
    requires E.Enabled(e, step) && (step.Mark? || step.Free?)
  {
    match step
    case Mark(id) => ClaimOf(e, id)
    case Free(k) => Claim(k, e.index[k])
  }

  lemma GivenIsUnused(e: E.State, step: E.Step, d: E.Value)
    requires E.Enabled(e, step) && (step.Mark? || step.Free?) && Same(e, Given(e, step), d)
    ensures Unused(E.Next(e, step), Given(e, step), d)
  {
  }

  /** What was free under the same key before is dropped. */
  lemma ReplacedIsNobodys(e: E.State, step: E.Step, c: Claim, d: E.Value)
    requires E.Inv(e) && E.Enabled(e, step) && (step.Mark? || step.Free?)
    requires Unused(e, c, d) && c.key == Given(e, step).key
    ensures Nobodys(E.Next(e, step), c, d)
  {
    assert E.Has(e, E.Unused(c.key)) && E.SpanOf(e, E.Unused(c.key)) == F.Span(c.entry.start, c.entry.end);
    forall i | c.entry.start <= i < c.entry.end ensures !E.Owned(E.Next(e, step), i) {
      E.MoveOwned(e, step, i);
    }
  }

  lemma ReleaseSound(e: E.State, past: History, step: E.Step, c: Claim)
    requires E.Inv(e) && Histories(e, past) && E.Enabled(e, step) && (step.Mark? || step.Free?) && c in past
    requires Has(past, Given(e, step), Intact)
    ensures Sound(E.Next(e, step), c, Released(past, Given(e, step))[c])
  {
    var r, p := Given(e, step), past[c];
    assert Sound(e, c, p);
    if c == r {
      GivenIsUnused(e, step, p.data);
    } else {
      match p.fate
      case Intact =>
        if step.Mark? {
          MarkKeeps(e, step.id, c, p.data);
        } else {
          FreeKeeps(e, step.key, c, p.data);
        }
      case Freed =>
        if c.key == r.key {
          ReplacedIsNobodys(e, step, c, p.data);
        }
      case Dropped => MoveNobodys(e, step, c, p.data);
      case Taken =>
    }
  }

  /** A newly dropped extent is apart from those that were dropped before. */
  lemma ReleaseDropped(e: E.State, past: History, r: Claim, c: Claim, d: Claim)
    requires E.Inv(e) && Histories(e, past) && c != d
    requires Has(Released(past, r), c, Dropped) && Has(Released(past, r), d, Dropped)
    ensures Apart(c.entry, d.entry)
  {
    assert Sound(e, c, past[c]) && Sound(e, d, past[d]);
    if past[c].fate.Freed? && past[d].fate.Dropped? {
      DroppedClearOfFree(e, d, past[d].data, c.key);
    }
    if past[d].fate.Freed? && past[c].fate.Dropped? {
      DroppedClearOfFree(e, c, past[c].data, d.key);
    }
  }

  /** The live and retired extents that a step leaves are not the one that it frees. */
  lemma ReleaseLive(e: E.State, past: History, step: E.Step, k: string)
    requires E.Inv(e) && Histories(e, past) && E.Enabled(e, step) && (step.Mark? || step.Free?)
    requires k in E.Next(e, step).index
    ensures Has(Released(past, Given(e, step)), Claim(k, E.Next(e, step).index[k]), Intact)
  {
    if step.Mark? {
      MarkKeepsLive(e, step.id, k);
    }
  }

  lemma ReleaseRetired(e: E.State, past: History, step: E.Step, id: nat)
    requires E.Inv(e) && Histories(e, past) && E.Enabled(e, step) && (step.Mark? || step.Free?)
    requires id in E.Next(e, step).savers && E.Next(e, step).savers[id].Swapped?
    ensures Has(Released(past, Given(e, step)), ClaimOf(E.Next(e, step), id), Intact)
  {
    RetiredApart(e, E.Retired(id), if step.Mark? then E.Retired(step.id) else E.Live(step.key));
  }

  lemma ReleaseKeeps(e: E.State, past: History, step: E.Step)
    requires E.Inv(e) && Histories(e, past) && E.Enabled(e, step) && (step.Mark? || step.Free?)
    ensures Histories(E.Next(e, step), Released(past, Given(e, step)))
  {
    var t, after := E.Next(e, step), Released(past, Given(e, step));
    assert Has(past, Given(e, step), Intact);
    forall c | c in after ensures Sound(t, c, after[c]) {
      ReleaseSound(e, past, step, c);
    }
    forall c, d | Has(after, c, Dropped) && Has(after, d, Dropped) && c != d ensures Apart(c.entry, d.entry) {
      ReleaseDropped(e, past, Given(e, step), c, d);
    }
    forall k | k in t.index ensures Has(after, Claim(k, t.index[k]), Intact) {
      ReleaseLive(e, past, step, k);
    }
    forall id | id in t.savers && t.savers[id].Swapped? ensures Has(after, ClaimOf(t, id), Intact) {
      ReleaseRetired(e, past, step, id);
    }
  }

  lemma SwapSound(e: E.State, past: History, id: nat, c: Claim)
    requires E.Inv(e) && Histories(e, past) && E.Enabled(e, E.Swap(id)) && c in past && c != ClaimOf(e, id)
    ensures Sound(E.Next(e, E.Swap(id)), c, past[c])
  {
    var p := past[c];
    assert Sound(e, c, p);
    match p.fate
    case Intact => SwapKeeps(e, id, c, p.data);
    case Freed =>
    case Dropped => MoveNobodys(e, E.Swap(id), c, p.data);
    case Taken =>
  }

  /** The saver's extent is not live yet, so that its claim may have become live by this step only. */
  lemma SwapRetired(e: E.State, past: History, id: nat, other: nat)
    requires E.Inv(e) && Histories(e, past) && E.Enabled(e, E.Swap(id))
    requires other in E.Next(e, E.Swap(id)).savers && E.Next(e, E.Swap(id)).savers[other].Swapped?
    ensures Has(past, ClaimOf(E.Next(e, E.Swap(id)), other), Intact)
  {
    var key := e.savers[id].key;
    if other == id {
      assert E.Has(e, E.Live(key)) && E.Good(e, E.Live(key));
      assert Has(past, Claim(key, e.index[key]), Intact);
    }
  }

  lemma SwapAllSound(e: E.State, past: History, id: nat, c: Claim)
    requires E.Inv(e) && Histories(e, past) && E.Enabled(e, E.Swap(id))
    requires c in past || c == ClaimOf(e, id)
    ensures Sound(E.Next(e, E.Swap(id)), c, past[ClaimOf(e, id) := Past(e.savers[id].data, Intact)][c])
  {
    if c == ClaimOf(e, id) {
      SwapKeepsNew(e, id);
    } else {
      SwapSound(e, past, id, c);
    }
  }

  lemma SwapIndex(e: E.State, id: nat)
    requires E.Enabled(e, E.Swap(id))
    ensures E.Next(e, E.Swap(id)).index == e.index[ClaimOf(e, id).key := ClaimOf(e, id).entry]
  {
  }

  lemma SwapLive(e: E.State, past: History, id: nat, k: string)
    requires Histories(e, past) && E.Enabled(e, E.Swap(id)) && k in E.Next(e, E.Swap(id)).index
    ensures var c := Claim(k, E.Next(e, E.Swap(id)).index[k]); c == ClaimOf(e, id) || Has(past, c, Intact)
  {
    SwapIndex(e, id);
    if k != ClaimOf(e, id).key {
      assert Has(past, Claim(k, e.index[k]), Intact);
    }
  }

  lemma SwapDropped(e: E.State, past: History, made: Claim, data: E.Value, c: Claim, d: Claim)
    requires Histories(e, past) && c != d
    requires Has(past[made := Past(data, Intact)], c, Dropped) && Has(past[made := Past(data, Intact)], d, Dropped)
    ensures Apart(c.entry, d.entry)
  {
    assert Has(past, c, Dropped) && Has(past, d, Dropped);
  }

  lemma SwapHistories(e: E.State, past: History, id: nat)
    requires E.Inv(e) && Histories(e, past) && E.Enabled(e, E.Swap(id))
    ensures Histories(E.Next(e, E.Swap(id)), past[ClaimOf(e, id) := Past(e.savers[id].data, Intact)])
  {
    var t, after := E.Next(e, E.Swap(id)), past[ClaimOf(e, id) := Past(e.savers[id].data, Intact)];
    forall c | c in after ensures Sound(t, c, after[c]) {
      SwapAllSound(e, past, id, c);
    }
    forall c, d | Has(after, c, Dropped) && Has(after, d, Dropped) && c != d ensures Apart(c.entry, d.entry) {
      SwapDropped(e, past, ClaimOf(e, id), e.savers[id].data, c, d);
    }
    forall k | k in t.index ensures Has(after, Claim(k, t.index[k]), Intact) {
      SwapLive(e, past, id, k);
    }
    forall other | other in t.savers && t.savers[other].Swapped? ensures Has(after, ClaimOf(t, other), Intact) {
      SwapRetired(e, past, id, other);
    }
  }

  ghost function HandedBy(past: History, step: E.Step): History
    requires step.Write?
  {
    if step.taken.Some? then Handed(past, step.taken.value) else past
  }

  lemma WriteSound(e: E.State, past: History, step: E.Step, c: Claim)
    requires E.Inv(e) && Histories(e, past) && step.Write? && E.Enabled(e, step) && c in past
    ensures c in HandedBy(past, step) && Sound(E.Next(e, step), c, HandedBy(past, step)[c])
  {
    var p := past[c];
    assert Sound(e, c, p);
    match p.fate
    case Intact => WriteKeeps(e, step, c, p.data);
    case Freed =>
      if step.taken != Some(c.key) {
        WriteUnused(e, step, c, p.data);
      }
    case Dropped => WriteNobodys(e, step, c, p.data);
    case Taken =>
  }

  lemma WriteRetired(e: E.State, past: History, step: E.Step, id: nat)
    requires Histories(e, past) && step.Write? && E.Enabled(e, step)
    requires id in E.Next(e, step).savers && E.Next(e, step).savers[id].Swapped?
    ensures Has(HandedBy(past, step), ClaimOf(E.Next(e, step), id), Intact)
  {
    E.WriteSavers(e, step.reqs, step.taken, id);
  }

  lemma WriteDropped(e: E.State, past: History, step: E.Step, c: Claim, d: Claim)
    requires Histories(e, past) && step.Write? && c != d
    requires Has(HandedBy(past, step), c, Dropped) && Has(HandedBy(past, step), d, Dropped)
    ensures Apart(c.entry, d.entry)
  {
    assert Has(past, c, Dropped) && Has(past, d, Dropped);
  }

  lemma WriteLive(e: E.State, past: History, step: E.Step, k: string)
    requires Histories(e, past) && step.Write? && k in e.index
    ensures Has(HandedBy(past, step), Claim(k, e.index[k]), Intact)
  {
    assert Has(past, Claim(k, e.index[k]), Intact);
  }

  lemma WriteHistories(e: E.State, past: History, step: E.Step)
    requires E.Inv(e) && Histories(e, past) && step.Write? && E.Enabled(e, step)
    ensures Histories(E.Next(e, step), HandedBy(past, step))
  {
    var t, after := E.Next(e, step), HandedBy(past, step);
    forall c | c in after ensures Sound(t, c, after[c]) {
      WriteSound(e, past, step, c);
    }
    forall c, d | Has(after, c, Dropped) && Has(after, d, Dropped) && c != d ensures Apart(c.entry, d.entry) {
      WriteDropped(e, past, step, c, d);
    }
    forall k | k in t.index ensures Has(after, Claim(k, t.index[k]), Intact) {
      WriteLive(e, past, step, k);
    }
    forall id | id in t.savers && t.savers[id].Swapped? ensures Has(after, ClaimOf(t, id), Intact) {
      WriteRetired(e, past, step, id);
    }
  }

  // ---- Steps of both ----

  lemma MoreKnown(past: History, after: History, l: W.State)
    requires Known(past, l) && past.Keys <= after.Keys
    ensures Known(after, l)
  {
  }

  lemma LogKnown(past: History, l: W.State, step: W.Step)
    requires Known(past, l) && W.Enabled(l, step) && !step.Store? && !step.Restart?
    ensures Known(past, W.Next(l, step))
  {
  }

  lemma Together(e: E.State, l: W.State, past: History)
    requires E.Inv(e) && Histories(e, past) && W.Inv(l) && l.mem == e.index && Known(past, l)
    ensures Inv(State(e, l, past))
  {
  }

  /** The log when an operation enters it whose claim is known by then. */
  lemma LogsOne(past: History, after: History, l: W.State, op: Op)
    requires W.Inv(l) && Known(past, l) && W.Enabled(l, W.Store(op)) && past.Keys <= after.Keys
    requires op.Put? ==> Claim(op.key, op.entry) in after
    ensures W.Inv(W.Next(l, W.Store(op))) && Known(after, W.Next(l, W.Store(op)))
    ensures W.Next(l, W.Store(op)).mem == Apply(l.mem, op)
  {
    W.StoreKeepsInv(l, op);
    MoreKnown(past, after, l);
  }

  lemma SwapKeepsInv(s: State, id: nat)
    requires Inv(s) && Enabled(s, Swap(id))
    ensures Inv(Next(s, Swap(id)))
  {
    var c := ClaimOf(s.store, id);
    var t := State(E.Next(s.store, E.Swap(id)), NextLog(s, Swap(id)), NextPast(s, Swap(id)));
    E.StepKeepsInvExactly(s.store, E.Swap(id));
    SwapHistories(s.store, s.past, id);
    LogsOne(s.past, t.past, s.log, Put(c.key, c.entry));
    Together(t.store, t.log, t.past);
    assert Next(s, Swap(id)) == t;
  }

  lemma FreeKeepsInv(s: State, k: string)
    requires Inv(s) && Enabled(s, Free(k))
    ensures Inv(Next(s, Free(k)))
  {
    var t := State(E.Next(s.store, E.Free(k)), NextLog(s, Free(k)), NextPast(s, Free(k)));
    E.StepKeepsInvExactly(s.store, E.Free(k));
    ReleaseKeeps(s.store, s.past, E.Free(k));
    LogsOne(s.past, t.past, s.log, Del(k));
    Together(t.store, t.log, t.past);
    assert Next(s, Free(k)) == t;
  }

  lemma MarkKeepsInv(s: State, id: nat)
    requires Inv(s) && Enabled(s, Mark(id))
    ensures Inv(Next(s, Mark(id)))
  {
    E.StepKeepsInvExactly(s.store, E.Mark(id));
    ReleaseKeeps(s.store, s.past, E.Mark(id));
    MoreKnown(s.past, NextPast(s, Mark(id)), s.log);
  }

  lemma WriteKeepsInv(s: State, step: Step)
    requires Inv(s) && step.Write? && Enabled(s, step)
    ensures Inv(Next(s, step)) <==> E.Lone(StoreStep(step))
  {
    E.StepKeepsInvExactly(s.store, StoreStep(step));
    WriteHistories(s.store, s.past, StoreStep(step));
    MoreKnown(s.past, NextPast(s, step), s.log);
  }

  lemma LogKeepsInv(s: State, l: W.Step)
    requires Inv(s) && Enabled(s, Log(l))
    ensures Inv(Next(s, Log(l))) <==> (l.Rotate? ==> W.RotateSafe(s.log))
  {
    W.StepKeepsInvExactly(s.log, l);
    LogKnown(s.past, s.log, l);
  }

  lemma RestartSound(s: State, c: Claim)
    requires StoreInv(s) && SafeRestart(s) && c in s.past
    ensures Sound(Restarted(s), c, Reloaded(s.past, Recovered(s))[c])
  {
    var p, m, t := s.past[c], Recovered(s), Restarted(s);
    assert Sound(s.store, c, p);
    if Get(m, c.key) == Some(c.entry) {
      RecoveredHolds(s, c.key);
      assert Plays(t, c, E.Live(c.key));
    } else if (p.fate.Intact? || p.fate.Dropped?) && forall k :: k in m ==> Apart(m[k], c.entry) {
      forall i | c.entry.start <= i < c.entry.end ensures !E.Owned(t, i) {
        RestartUnowned(s, c, i);
      }
    }
  }

  lemma RestartUnowned(s: State, c: Claim, i: int)
    requires StoreInv(s) && SafeRestart(s) && c in s.past && (Has(s.past, c, Intact) || Has(s.past, c, Dropped))
    requires c.entry.start <= i < c.entry.end && forall k :: k in Recovered(s) ==> Apart(Recovered(s)[k], c.entry)
    ensures !E.Owned(Restarted(s), i)
  {
    var t := Restarted(s);
    if E.Owned(t, i) {
      var r :| E.Has(t, r) && E.In(i, E.SpanOf(t, r));
      if r.Unused? {
        UntakenClearOfFree(s, c, r.key);
      }
    }
  }

  lemma RestartDropped(s: State, c: Claim, d: Claim)
    requires StoreInv(s) && c != d
    requires Has(Reloaded(s.past, Recovered(s)), c, Dropped) && Has(Reloaded(s.past, Recovered(s)), d, Dropped)
    ensures Apart(c.entry, d.entry)
  {
    UntakenApart(s, c, d);
  }

  lemma RestartHistories(s: State)
    requires StoreInv(s) && SafeRestart(s)
    ensures Histories(Restarted(s), Reloaded(s.past, Recovered(s)))
  {
    var t, after := Restarted(s), Reloaded(s.past, Recovered(s));
    forall c | c in after ensures Sound(t, c, after[c]) {
      RestartSound(s, c);
    }
    forall c, d | Has(after, c, Dropped) && Has(after, d, Dropped) && c != d ensures Apart(c.entry, d.entry) {
      RestartDropped(s, c, d);
    }
    forall k | k in t.index ensures Has(after, Claim(k, t.index[k]), Intact) {
      RecoveredHolds(s, k);
    }
  }

  lemma RestartKnown(s: State)
    requires Inv(s)
    ensures Known(Reloaded(s.past, Recovered(s)), W.Next(s.log, W.Restart))
  {
    ReplayKnown(s.past, s.log.snap, s.log.log);
    MoreKnown(s.past, Reloaded(s.past, Recovered(s)), W.Next(s.log, W.Restart));
  }

  lemma RestartLog(l: W.State)
    requires W.Inv(l)
    ensures W.Inv(W.Next(l, W.Restart)) && W.Next(l, W.Restart).mem == Replay(l.snap, l.log)
  {
    W.StepKeepsInvExactly(l, W.Restart);
  }

  lemma RestartIsTogether(s: State)
    requires E.Inv(Restarted(s)) && Histories(Restarted(s), Reloaded(s.past, Recovered(s)))
    requires W.Inv(W.Next(s.log, W.Restart)) && W.Next(s.log, W.Restart).mem == Recovered(s)
    requires Known(Reloaded(s.past, Recovered(s)), W.Next(s.log, W.Restart))
    ensures Inv(Next(s, Restart))
  {
    var t := State(Restarted(s), W.Next(s.log, W.Restart), Reloaded(s.past, Recovered(s)));
    Together(t.store, t.log, t.past);
    assert Next(s, Restart) == t;
  }

  lemma RestartKeepsInv(s: State)
    requires Inv(s) && SafeRestart(s)
    ensures Inv(Next(s, Restart))
  {
    SafeRestartInv(s);
    RestartLog(s.log);
    RestartHistories(s);
    RestartKnown(s);
    RestartIsTogether(s);
  }

  /** Not a batch of several writes at the end of the file, not a rotation that loses a line, not an
      unsafe restart. */
  ghost predicate Safe(s: State, step: Step) {
    match step
    case Write(_, _) => E.Lone(StoreStep(step))
    case Log(l) => l.Rotate? ==> W.RotateSafe(s.log)
    case Restart => SafeRestart(s)
    case _ => true
  }

  /** A step keeps store and log consistent with each other exactly when it is safe. */
  lemma StepKeepsInvExactly(s: State, step: Step)
    requires Inv(s) && Enabled(s, step)
    ensures Inv(Next(s, step)) <==> Safe(s, step)
  {
    match step
    case Log(l) => LogKeepsInv(s, l);
    case Restart =>
      RestartExactly(s);
      if SafeRestart(s) {
        RestartKeepsInv(s);
      }
    case Swap(id) => SwapKeepsInv(s, id);
    case Mark(id) => MarkKeepsInv(s, id);
    case Free(k) => FreeKeepsInv(s, k);
    case Write(_, _) => WriteKeepsInv(s, step);
  }

  function Initial(table: string): State {
    State(E.Initial(table), W.INITIAL, map[])
  }

  ghost predicate Legal(s: State, steps: seq<Step>)
    decreases |steps|
  {
    steps == [] || (Enabled(s, steps[0]) && Safe(s, steps[0]) && Legal(Next(s, steps[0]), steps[1..]))
  }

  ghost function Run(s: State, steps: seq<Step>): State
    requires Legal(s, steps)
    decreases |steps|
  {
    if steps == [] then s else Run(Next(s, steps[0]), steps[1..])
  }

  lemma {:induction false} RunKeepsInv(s: State, steps: seq<Step>)
    requires Inv(s) && Legal(s, steps)
    ensures Inv(Run(s, steps))
    decreases |steps|
  {
    if steps != [] {
      StepKeepsInvExactly(s, steps[0]);
      RunKeepsInv(Next(s, steps[0]), steps[1..]);
    }
  }

  /** A key that is indexed, with no operation under way, is indexed after a restart, and its extent
      has the bytes saved last; one that is not indexed stays so. */
  lemma SettledSurvives(s: State, k: string)
    requires Inv(s) && Settled(s, k)
    ensures Get(Recovered(s), k) == Get(s.store.index, k)
    ensures k in s.store.index ==>
              k in s.store.values
              && E.Holds(Restarted(s), s.store.index[k].start, s.store.index[k].end, s.store.values[k])
  {
    SettledIsIndexed(s, k);
    if k in s.store.index {
      assert E.Has(s.store, E.Live(k)) && E.Good(s.store, E.Live(k));
    }
  }

  /** At every point of every run a restart leaves a consistent store exactly when it is safe, and
      the keys that had no operation under way keep their extents and bytes. */
  lemma RunRestarts(table: string, steps: seq<Step>, k: string)
    requires Legal(Initial(table), steps)
    ensures var s := Run(Initial(table), steps);
            (E.Inv(Restarted(s)) <==> SafeRestart(s))
            && (Settled(s, k) ==>
                  && Get(Restarted(s).index, k) == Get(s.store.index, k)
                  && (k in s.store.index ==>
                        k in s.store.values
                        && E.Holds(Restarted(s), s.store.index[k].start, s.store.index[k].end, s.store.values[k])))
  {
    RunKeepsInv(Initial(table), steps);
    var s := Run(Initial(table), steps);
    RestartExactly(s);
    if Settled(s, k) {
      SettledSurvives(s, k);
    }
  }

  // ---- A restart that is not safe ----

  /** A single save at the end of the file. */
  lemma WriteAtEnd(e: E.State, k: string, d: E.Value)
    requires e.savers == map[] && e.free == map[]
    ensures var step := E.Write([E.Req(0, k, d)], None);
            E.Enabled(e, step) && E.Lone(step)
            && E.Next(e, step) == e.(file := e.file + d, savers := map[0 := E.Written(k, d, |e.file|, |e.file| + |d|)])
  {
    var reqs := [E.Req(0, k, d)];
    assert E.Parts(reqs) == [d];
    WrittenAtEnd(e.file, d);
    assert E.Join(e.savers, reqs, |e.file|, false, 0) == map[];
  }

  lemma WrittenAtEnd(c: seq<byte>, d: E.Value)
    ensures F.AfterWrites(c, [d], |c|, false, 1) == c + d
  {
    E.WholeBatch(c, [d], |c|, false);
    StackedOne(c, [d]);
  }

  lemma RunCons(s: State, step: Step, rest: seq<Step>)
    requires Enabled(s, step) && Safe(s, step) && Legal(Next(s, step), rest)
    ensures Legal(s, [step] + rest) && Run(s, [step] + rest) == Run(Next(s, step), rest)
  {
    assert ([step] + rest)[1..] == rest;
  }

  /** One value is saved and reaches the log file; it is saved again, and its first extent is freed
      while the second log line is still queued. */
  function SaveTwice(k: string, a: E.Value, b: E.Value, rest: seq<Step>): seq<Step> {
    [Write([E.Req(0, k, a)], None)] + ([Swap(0)] + ([Log(W.Enqueue(k))] + ([Log(W.Dequeue)] + ([Log(W.Spill(1))]
      + ([Write([E.Req(0, k, b)], None)] + ([Swap(0)] + ([Mark(0)] + rest)))))))
  }

  /** The state after the first save was logged. */
  function SavedOnce(table: string, k: string, a: E.Value): State {
    var e := Entry(table, 0, |a|);
    State(E.State(table, a, map[k := e], map[], map[], map[k := a]),
          W.INITIAL.(mem := map[k := e], log := [Put(k, e)]), map[Claim(k, e) := Past(a, Intact)])
  }

  /** The state after the second one, not yet logged. */
  function SavedAgain(table: string, k: string, a: E.Value, b: E.Value): State {
    var e, x := Entry(table, 0, |a|), Entry(table, |a|, |a| + |b|);
    State(E.State(table, a + b, map[k := x], map[k := L.BlockOf(table, 0, |a|)], map[], map[k := b]),
          SavedOnce(table, k, a).log.(mem := map[k := x], inflight := map[k := Put(k, x)]),
          map[Claim(k, e) := Past(a, Freed), Claim(k, x) := Past(b, Intact)])
  }

  /** The log's way of the first save: in flight, queued, buffered. */
  function Unlogged(table: string, k: string, a: E.Value, inflight: map<string, Op>, queue: seq<Op>, buf: seq<Op>)
    : State
  {
    var done := SavedOnce(table, k, a);
    done.(log := done.log.(inflight := inflight, queue := queue, buf := buf, log := []))
  }

  lemma FirstSwap(table: string, k: string, a: E.Value)
    ensures var s, step := Initial(table), Write([E.Req(0, k, a)], None);
            Enabled(s, step) && Safe(s, step) && Enabled(Next(s, step), Swap(0))
            && Next(Next(s, step), Swap(0)) == Unlogged(table, k, a, map[k := Put(k, Entry(table, 0, |a|))], [], [])
  {
    var s := Initial(table);
    WriteAtEnd(s.store, k, a);
    assert [] + a == a;
    assert map[0 := E.Written(k, a, 0, |a|)] - {0} == map[];
  }

  lemma LogMoves(table: string, k: string, a: E.Value)
    ensures var op := Put(k, Entry(table, 0, |a|));
            var s0, s1 := Unlogged(table, k, a, map[k := op], [], []), Unlogged(table, k, a, map[], [op], []);
            Enabled(s0, Log(W.Enqueue(k))) && Next(s0, Log(W.Enqueue(k))) == s1
            && Enabled(s1, Log(W.Dequeue)) && Next(s1, Log(W.Dequeue)) == Unlogged(table, k, a, map[], [], [op])
  {
  }

  lemma LogSteps(table: string, k: string, a: E.Value, rest: seq<Step>)
    requires Legal(SavedOnce(table, k, a), rest)
    ensures var s := Unlogged(table, k, a, map[k := Put(k, Entry(table, 0, |a|))], [], []);
            var steps := [Log(W.Enqueue(k))] + ([Log(W.Dequeue)] + ([Log(W.Spill(1))] + rest));
            Legal(s, steps) && Run(s, steps) == Run(SavedOnce(table, k, a), rest)
  {
    var op := Put(k, Entry(table, 0, |a|));
    var s0 := Unlogged(table, k, a, map[k := op], [], []);
    var s1 := Unlogged(table, k, a, map[], [op], []);
    var s2 := Unlogged(table, k, a, map[], [], [op]);
    LogMoves(table, k, a);
    assert Next(s2, Log(W.Spill(1))) == SavedOnce(table, k, a);
    RunCons(s2, Log(W.Spill(1)), rest);
    RunCons(s1, Log(W.Dequeue), [Log(W.Spill(1))] + rest);
    RunCons(s0, Log(W.Enqueue(k)), [Log(W.Dequeue)] + ([Log(W.Spill(1))] + rest));
  }

  lemma FirstSave(table: string, k: string, a: E.Value, rest: seq<Step>)
    requires Legal(SavedOnce(table, k, a), rest)
    ensures var steps := [Write([E.Req(0, k, a)], None)] + ([Swap(0)] + ([Log(W.Enqueue(k))] + ([Log(W.Dequeue)]
                         + ([Log(W.Spill(1))] + rest))));
            Legal(Initial(table), steps) && Run(Initial(table), steps) == Run(SavedOnce(table, k, a), rest)
  {
    var logged := [Log(W.Enqueue(k))] + ([Log(W.Dequeue)] + ([Log(W.Spill(1))] + rest));
    var s, step := Initial(table), Write([E.Req(0, k, a)], None);
    FirstSwap(table, k, a);
    LogSteps(table, k, a, rest);
    RunCons(Next(s, step), Swap(0), logged);
    RunCons(s, step, [Swap(0)] + logged);
  }

  /** Written but not indexed, and indexed but the old extent not freed. */
  lemma SecondWrite(table: string, k: string, a: E.Value, b: E.Value)
    ensures var s, step := SavedOnce(table, k, a), Write([E.Req(0, k, b)], None);
            Enabled(s, step) && Safe(s, step)
            && Next(s, step) == s.(store := s.store.(file := a + b,
                                                     savers := map[0 := E.Written(k, b, |a|, |a| + |b|)]))
  {
    WriteAtEnd(SavedOnce(table, k, a).store, k, b);
  }

  function Retiring(table: string, k: string, a: E.Value, b: E.Value): State {
    var done := SavedAgain(table, k, a, b);
    done.(store := done.store.(free := map[], savers := map[0 := E.Swapped(k, 0, |a|)]),
          past := done.past[Claim(k, Entry(table, 0, |a|)) := Past(a, Intact)])
  }

  lemma SecondSwap(table: string, k: string, a: E.Value, b: E.Value)
    ensures var s := SavedOnce(table, k, a);
            var t := s.(store := s.store.(file := a + b, savers := map[0 := E.Written(k, b, |a|, |a| + |b|)]));
            Enabled(t, Swap(0)) && Next(t, Swap(0)) == Retiring(table, k, a, b)
  {
  }

  lemma SecondMark(table: string, k: string, a: E.Value, b: E.Value)
    ensures Enabled(Retiring(table, k, a, b), Mark(0))
    ensures Next(Retiring(table, k, a, b), Mark(0)) == SavedAgain(table, k, a, b)
  {
    var s := Retiring(table, k, a, b);
    assert s.store.savers - {0} == map[];
    assert Released(s.past, ClaimOf(s.store, 0)) == SavedAgain(table, k, a, b).past;
  }

  lemma SecondSave(table: string, k: string, a: E.Value, b: E.Value, rest: seq<Step>)
    requires Legal(SavedAgain(table, k, a, b), rest)
    ensures var steps := [Write([E.Req(0, k, b)], None)] + ([Swap(0)] + ([Mark(0)] + rest));
            Legal(SavedOnce(table, k, a), steps)
            && Run(SavedOnce(table, k, a), steps) == Run(SavedAgain(table, k, a, b), rest)
  {
    var s, step := SavedOnce(table, k, a), Write([E.Req(0, k, b)], None);
    SecondWrite(table, k, a, b);
    SecondSwap(table, k, a, b);
    SecondMark(table, k, a, b);
    RunCons(Retiring(table, k, a, b), Mark(0), rest);
    RunCons(Next(s, step), Swap(0), [Mark(0)] + rest);
    RunCons(s, step, [Swap(0)] + ([Mark(0)] + rest));
  }

  lemma BothSaves(table: string, k: string, a: E.Value, b: E.Value, rest: seq<Step>)
    requires Legal(SavedAgain(table, k, a, b), rest)
    ensures Legal(Initial(table), SaveTwice(k, a, b, rest))
    ensures Run(Initial(table), SaveTwice(k, a, b, rest)) == Run(SavedAgain(table, k, a, b), rest)
  {
    SecondSave(table, k, a, b, rest);
    FirstSave(table, k, a, [Write([E.Req(0, k, b)], None)] + ([Swap(0)] + ([Mark(0)] + rest)));
  }

  /** The log file knows the first save only. */
  lemma FirstIsRecovered(s: State, table: string, k: string, a: E.Value)
    requires s.log.snap == map[] && s.log.log == [Put(k, Entry(table, 0, |a|))]
    ensures Recovered(s) == map[k := Entry(table, 0, |a|)]
  {
    assert Replay(map[], []) == map[];
  }

  /** A restart then brings the first entry back, and its extent is live and free at once. */
  lemma FreedEntryComesBack(table: string, k: string, a: E.Value, b: E.Value)
    ensures Legal(Initial(table), SaveTwice(k, a, b, []))
    ensures var s := Run(Initial(table), SaveTwice(k, a, b, []));
            Recovered(s) == map[k := Entry(table, 0, |a|)] && k in s.store.free
            && s.store.free[k].start == 0 && s.store.free[k].end == |a| && !E.Inv(Restarted(s))
  {
    BothSaves(table, k, a, b, []);
    var s := SavedAgain(table, k, a, b);
    FirstIsRecovered(s, table, k, a);
    if E.Inv(Restarted(s)) {
      GoodRestartAt(s, k);
    }
  }

  /** Another key's value of the same length is saved into the free extent. */
  function Reuse(j: string, k: string, c: E.Value): seq<Step> {
    [Write([E.Req(1, j, c)], Some(k))] + ([Swap(1)] + [])
  }

  function Reused(table: string, k: string, j: string, a: E.Value, b: E.Value, c: E.Value): State {
    var s, e := SavedAgain(table, k, a, b), Entry(table, 0, |a|);
    var log := s.log.(mem := s.log.mem[j := e], inflight := s.log.inflight[j := Put(j, e)]);
    State(s.store.(file := c + b, index := log.mem, free := map[], values := s.store.values[j := c]), log,
          s.past[Claim(k, e) := Past(a, Taken)][Claim(j, e) := Past(c, Intact)])
  }

  /** The bytes of j are in the place of k's first value. */
  function Rewriting(table: string, k: string, j: string, a: E.Value, b: E.Value, c: E.Value): State {
    var s := SavedAgain(table, k, a, b);
    s.(store := s.store.(file := c + b, free := map[], savers := map[1 := E.Written(j, c, 0, |a|)]),
       past := s.past[Claim(k, Entry(table, 0, |a|)) := Past(a, Taken)])
  }

  lemma WriteOver(a: E.Value, b: E.Value, c: E.Value)
    requires |c| == |a|
    ensures F.AfterWrites(a + b, [c], 0, true, 1) == c + b && Off([c], 0) == 0 && Off([c], 1) == |c|
  {
    E.WholeBatch(a + b, [c], 0, true);
    assert [c][..0] == [];
    assert Concat([c]) == c;
    assert Overwrite(a + b, 0, c) == c + b;
  }

  lemma ReuseFits(table: string, k: string, j: string, a: E.Value, b: E.Value, c: E.Value)
    requires |c| == |a|
    ensures E.Enabled(SavedAgain(table, k, a, b).store, E.Write([E.Req(1, j, c)], Some(k)))
  {
    WriteOver(a, b, c);
    assert E.Parts([E.Req(1, j, c)]) == [c];
  }

  lemma ReuseWrite(table: string, k: string, j: string, a: E.Value, b: E.Value, c: E.Value)
    requires |c| == |a|
    ensures var s, step := SavedAgain(table, k, a, b), Write([E.Req(1, j, c)], Some(k));
            Enabled(s, step) && Safe(s, step) && Next(s, step) == Rewriting(table, k, j, a, b, c)
  {
    var s, reqs := SavedAgain(table, k, a, b), [E.Req(1, j, c)];
    WriteOver(a, b, c);
    ReuseFits(table, k, j, a, b, c);
    assert E.Parts(reqs) == [c];
    assert E.Join(s.store.savers, reqs, 0, true, 0) == map[];
    assert Handed(s.past, k) == Rewriting(table, k, j, a, b, c).past;
  }

  lemma ReuseSwap(table: string, k: string, j: string, a: E.Value, b: E.Value, c: E.Value)
    requires |c| == |a| && j != k
    ensures var s := Rewriting(table, k, j, a, b, c);
            Enabled(s, Swap(1)) && Next(s, Swap(1)) == Reused(table, k, j, a, b, c)
  {
    assert Rewriting(table, k, j, a, b, c).store.savers - {1} == map[];
  }

  /** A restart then brings the first entry back although its extent is no longer free: its bytes
      are those saved under j. */
  lemma ReusedExtentComesBack(table: string, k: string, j: string, a: E.Value, b: E.Value, c: E.Value)
    requires |c| == |a| && j != k && c != a
    ensures Legal(Initial(table), SaveTwice(k, a, b, Reuse(j, k, c)))
    ensures var s := Run(Initial(table), SaveTwice(k, a, b, Reuse(j, k, c)));
            && Recovered(s) == map[k := Entry(table, 0, |a|)] && s.store.free == map[]
            && E.Holds(Restarted(s), 0, |a|, c) && Get(s.store.index, j) == Some(Entry(table, 0, |a|))
            && !E.Inv(Restarted(s))
  {
    var s, t, u := SavedAgain(table, k, a, b), Rewriting(table, k, j, a, b, c), Reused(table, k, j, a, b, c);
    ReuseWrite(table, k, j, a, b, c);
    ReuseSwap(table, k, j, a, b, c);
    RunCons(t, Swap(1), []);
    RunCons(s, Write([E.Req(1, j, c)], Some(k)), [Swap(1)] + []);
    BothSaves(table, k, a, b, Reuse(j, k, c));
    FirstIsRecovered(u, table, k, a);
    assert u.store.file[0..|a|] == c;
    if E.Inv(Restarted(u)) {
      GoodRestartAt(u, k);
    }
  }
}
