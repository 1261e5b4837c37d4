/** The value store of one table as a step relation: any number of savers, each of which writes
    its bytes into a free block or at the end of the file, then swaps the index entry, then frees
    the extent it replaced; and Free, which looks up, removes and frees without interruption. */
module ExtentMachine {
  import opened Bytes
  import opened Wal
  import opened FreeLists
  import opened Files
  import opened KvFile

  /** What a saver writes: an encoded value, never empty. */
  type Value = d: seq<byte> | d != [] witness [0]

  /** A saver between its steps: its bytes are in the file but not indexed; or they are indexed
      and it holds the extent that was replaced. */
  datatype Saver =
    | Written(key: string, data: Value, start: int, end: int)
    | Swapped(key: string, start: int, end: int)

  /** values is what a client believes is stored; no step reads it. */
  datatype State = State(table: string, file: seq<byte>, index: Index, free: Blocks,
                         savers: map<nat, Saver>, values: map<string, Value>)

  datatype Req = Req(id: nat, key: string, data: Value)

  datatype Step =
    | Write(reqs: seq<Req>, taken: Option<string>) // one batch, into the free block taken or at the end
    | Swap(id: nat)
    | Mark(id: nat)
    | Free(key: string)

  function Parts(reqs: seq<Req>): (parts: seq<seq<byte>>)
    ensures |parts| == |reqs| && forall j :: 0 <= j < |reqs| ==> parts[j] == reqs[j].data
  {
    seq(|reqs|, j requires 0 <= j < |reqs| => reqs[j].data)
  }

  function Total(reqs: seq<Req>): nat { Off(Parts(reqs), |reqs|) }

  /** Where a batch is written: into the block it takes or at the end of the file. */
  ghost function At(s: State, taken: Option<string>): int
    requires taken.Some? ==> taken.value in s.free
  {
    Base(s.free, taken, |s.file|)
  }

  ghost predicate Enabled(s: State, step: Step) {
    match step
    case Write(reqs, taken) =>
      && reqs != []
      && Distinct(reqs)
      && (forall j :: 0 <= j < |reqs| ==> reqs[j].id !in s.savers)
      && match taken {
        case Some(k) => BestFit(s.free, Total(reqs), s.table, k) && 0 <= s.free[k].start <= |s.file|
        case None => NoFit(s.free, Total(reqs), s.table)
      }
    case Swap(id) => id in s.savers && s.savers[id].Written?
    case Mark(id) => id in s.savers && s.savers[id].Swapped?
    case Free(k) => k in s.index
  }

  /** A batch whose ranges do not overlap: one in a free block, or a single write at the end of
      the file. See BatchDisjointExactly. */
  predicate Lone(step: Step) {
    step.Write? ==> step.taken.Some? || |step.reqs| == 1
  }

  /** The savers of a batch, each with its range. */
  function Join(savers: map<nat, Saver>, reqs: seq<Req>, base: int, block: bool, n: nat): map<nat, Saver>
    requires n <= |reqs|
  {
    if n == 0 then savers
    else
      var span := SpanAt(Parts(reqs), base, block, n - 1);
      Join(savers, reqs, base, block, n - 1)[reqs[n - 1].id :=
        Written(reqs[n - 1].key, reqs[n - 1].data, span.start, span.end)]
  }

  ghost function Next(s: State, step: Step): State
    requires Enabled(s, step)
  {
    match step
    case Write(reqs, taken) =>
      s.(file := AfterWrites(s.file, Parts(reqs), At(s, taken), taken.Some?, |reqs|),
         free := Left(s.free, taken),
         savers := Join(s.savers, reqs, At(s, taken), taken.Some?, |reqs|))
    case Swap(id) =>
      var Written(key, data, start, end) := s.savers[id];
      var t := s.(index := s.index[key := Entry(s.table, start, end)], values := s.values[key := data]);
      if key in s.index && s.index[key] != Entry(s.table, start, end) then
        t.(savers := s.savers[id := Swapped(key, s.index[key].start, s.index[key].end)])
      else t.(savers := s.savers - {id})
    case Mark(id) =>
      var Swapped(key, start, end) := s.savers[id];
      s.(free := s.free[key := BlockOf(s.table, start, end)], savers := s.savers - {id})
    case Free(k) =>
      s.(index := s.index - {k}, values := s.values - {k},
         free := s.free[k := BlockOf(s.table, s.index[k].start, s.index[k].end)])
  }

  // ---- Roles of byte ranges ----

  datatype Role = Live(key: string) | InFlight(id: nat) | Retired(id: nat) | Unused(key: string)
  predicate Has(s: State, r: Role) {
    match r
    case Live(k) => k in s.index
    case InFlight(id) => id in s.savers && s.savers[id].Written?
    case Retired(id) => id in s.savers && s.savers[id].Swapped?
    case Unused(k) => k in s.free
  }

  function SpanOf(s: State, r: Role): Span
    requires Has(s, r)
  {
    match r
    case Live(k) => Span(s.index[k].start, s.index[k].end)
    case InFlight(id) => Span(s.savers[id].start, s.savers[id].end)
    case Retired(id) => Span(s.savers[id].start, s.savers[id].end)
    case Unused(k) => Span(s.free[k].start, s.free[k].end)
  }

  predicate Clear(a: Span, b: Span) { a.end <= b.start || b.end <= a.start }

  predicate In(i: int, a: Span) { a.start <= i < a.end }

  ghost predicate Holds(s: State, a: int, b: int, d: Value) {
    0 <= a <= b <= |s.file| && s.file[a..b] == d
  }

  /** The range is a non-empty part of the file. A live one belongs to the table and holds the
      value of its key, an in-flight one holds what its saver wrote, an unused one is a
      well-labelled block. */
  ghost predicate Good(s: State, r: Role)
    requires Has(s, r)
  {
    var a := SpanOf(s, r);
    && 0 <= a.start < a.end <= |s.file|
    && match r
       case Live(k) => s.index[k].file == s.table && k in s.values && Holds(s, a.start, a.end, s.values[k])
       case InFlight(id) => Holds(s, a.start, a.end, s.savers[id].data)
       case Retired(id) => true
       case Unused(k) => s.free[k] == BlockOf(s.table, a.start, a.end)
  }

  /** No byte has two roles. */
  ghost predicate Separate(s: State) {
    forall q, r :: Has(s, q) && Has(s, r) && q != r ==> Clear(SpanOf(s, q), SpanOf(s, r))
  }

  ghost predicate Inv(s: State) {
    && (forall r :: Has(s, r) ==> Good(s, r))
    && Separate(s)
    && s.values.Keys == s.index.Keys
  }

  function Initial(table: string): State {
    State(table, [], map[], map[], map[], map[])
  }

  ghost predicate Distinct(reqs: seq<Req>) {
    forall i, j :: 0 <= i < j < |reqs| ==> reqs[i].id != reqs[j].id
  }

  lemma {:induction false} JoinNew(savers: map<nat, Saver>, reqs: seq<Req>, base: int, block: bool, n: nat, j: nat)
    requires j < n <= |reqs| && Distinct(reqs)
    ensures var t, span := Join(savers, reqs, base, block, n), SpanAt(Parts(reqs), base, block, j);
            reqs[j].id in t && t[reqs[j].id] == Written(reqs[j].key, reqs[j].data, span.start, span.end)
  {
    if j < n - 1 {
      JoinNew(savers, reqs, base, block, n - 1, j);
    }
  }

  lemma {:induction false} JoinOld(savers: map<nat, Saver>, reqs: seq<Req>, base: int, block: bool, n: nat, id: nat)
    requires n <= |reqs| && forall j :: 0 <= j < n ==> reqs[j].id != id
    ensures var t := Join(savers, reqs, base, block, n);
            (id in t <==> id in savers) && (id in t ==> t[id] == savers[id])
  {
    if n > 0 {
      JoinOld(savers, reqs, base, block, n - 1, id);
    }
  }

  /** The request of this batch that id stands for; None for a saver that was there before. */
  ghost function RequestOf(reqs: seq<Req>, id: nat): Option<nat> {
    if j: nat :| j < |reqs| && reqs[j].id == id then Some(j) else None
  }

  /** Which saver a write step leaves under id, and where its bytes are. */
  lemma WriteSavers(s: State, reqs: seq<Req>, taken: Option<string>, id: nat)
    requires Enabled(s, Write(reqs, taken))
    ensures var t, base, parts := Next(s, Write(reqs, taken)), At(s, taken), Parts(reqs);
            match RequestOf(reqs, id)
            case None => (id in t.savers <==> id in s.savers) && (id in t.savers ==> t.savers[id] == s.savers[id])
            case Some(j) =>
              var span := SpanAt(parts, base, taken.Some?, j);
              && id in t.savers
              && t.savers[id] == Written(reqs[j].key, reqs[j].data, span.start, span.end)
              && base <= span.start < span.end
              && (taken.Some? ==> span.end <= base + Total(reqs))
  {
    match RequestOf(reqs, id)
    case None => JoinOld(s.savers, reqs, At(s, taken), taken.Some?, |reqs|, id);
    case Some(j) =>
      JoinNew(s.savers, reqs, At(s, taken), taken.Some?, |reqs|, j);
      OffMonotone(Parts(reqs), 0, j);
      OffMonotone(Parts(reqs), j + 1, |reqs|);
  }

  /** A role that a write step leaves alone. */
  ghost predicate Old(s: State, step: Step, r: Role)
    requires step.Write?
  {
    Has(s, r) && (r.InFlight? ==> RequestOf(step.reqs, r.id) == None) && !(r.Unused? && step.taken == Some(r.key))
  }

  lemma WriteRoles(s: State, step: Step, r: Role)
    requires Inv(s) && step.Write? && Enabled(s, step)
    ensures var t, base := Next(s, step), At(s, step.taken);
            Has(t, r) ==>
              if Old(s, step, r) then
                SpanOf(t, r) == SpanOf(s, r)
                && (SpanOf(s, r).end <= base || (step.taken.Some? && base + Total(step.reqs) <= SpanOf(s, r).start))
              else
                r.InFlight? && RequestOf(step.reqs, r.id).Some?
                && base <= SpanOf(t, r).start < SpanOf(t, r).end
                && (step.taken.Some? ==> SpanOf(t, r).end <= base + Total(step.reqs))
  {
    if r.InFlight? || r.Retired? {
      WriteSavers(s, step.reqs, step.taken, r.id);
    }
    if step.taken.Some? && Has(s, r) && r != Unused(step.taken.value) {
      assert Clear(SpanOf(s, r), SpanOf(s, Unused(step.taken.value)));
    }
    assert step.taken.Some? ==> Has(s, Unused(step.taken.value));
    assert Has(s, r) ==> Good(s, r);
  }

  /** A write step changes no byte outside the range that it takes, and in a free block the file
      keeps its length. */
  lemma WriteFile(s: State, step: Step)
    requires Inv(s) && step.Write? && Enabled(s, step)
    ensures var t, base := Next(s, step), At(s, step.taken);
            && 0 <= base <= |s.file| <= |t.file|
            && (forall i :: 0 <= i < |s.file| && (i < base || (step.taken.Some? && base + Total(step.reqs) <= i))
                  ==> t.file[i] == s.file[i])
            && (step.taken.Some? ==> |t.file| == |s.file| && base + Total(step.reqs) <= |t.file|)
  {
    var parts := Parts(step.reqs);
    assert parts[..|parts|] == parts;
    ConcatLength(parts);
    if step.taken.Some? {
      assert Has(s, Unused(step.taken.value));
    } else {
      StackedKeeps(s.file, parts);
    }
  }

  lemma PartsApart(parts: seq<seq<byte>>, base: int, i: nat, j: nat)
    requires i < j < |parts|
    ensures SpanAt(parts, base, true, i).end <= SpanAt(parts, base, true, j).start
  {
    OffMonotone(parts, i + 1, j);
  }

  lemma WriteApart(s: State, step: Step, q: Role, r: Role)
    requires Inv(s) && step.Write? && Enabled(s, step) && Lone(step)
    requires Has(Next(s, step), q) && Has(Next(s, step), r) && q != r
    ensures Clear(SpanOf(Next(s, step), q), SpanOf(Next(s, step), r))
  {
    WriteRoles(s, step, q);
    WriteRoles(s, step, r);
    if !Old(s, step, q) && !Old(s, step, r) {
      WriteSavers(s, step.reqs, step.taken, q.id);
      WriteSavers(s, step.reqs, step.taken, r.id);
      var i, j := RequestOf(step.reqs, q.id).value, RequestOf(step.reqs, r.id).value;
      if i < j {
        PartsApart(Parts(step.reqs), At(s, step.taken), i, j);
      } else if j < i {
        PartsApart(Parts(step.reqs), At(s, step.taken), j, i);
      }
    }
  }

  /** Bytes outside the written range keep their content. */
  lemma WriteHolds(s: State, step: Step, r: Role, d: Value)
    requires Inv(s) && step.Write? && Enabled(s, step) && Has(Next(s, step), r) && Old(s, step, r)
    requires Holds(s, SpanOf(s, r).start, SpanOf(s, r).end, d)
    ensures Holds(Next(s, step), SpanOf(s, r).start, SpanOf(s, r).end, d)
  {
    WriteRoles(s, step, r);
    WriteFile(s, step);
    SameSlice(s.file, Next(s, step).file, SpanOf(s, r).start, SpanOf(s, r).end);
  }

  lemma SameSlice(c: seq<byte>, f: seq<byte>, a: nat, b: nat)
    requires a <= b <= |c| <= |f| && forall i :: a <= i < b ==> f[i] == c[i]
    ensures f[a..b] == c[a..b]
  {
  }

  lemma WriteStoresNew(s: State, step: Step, j: nat)
    requires Inv(s) && step.Write? && Enabled(s, step) && Lone(step) && j < |step.reqs|
    ensures var span := SpanAt(Parts(step.reqs), At(s, step.taken), step.taken.Some?, j);
            Holds(Next(s, step), span.start, span.end, step.reqs[j].data)
  {
    WriteFile(s, step);
    if step.taken.Some? {
      WrittenPart(s.file, At(s, step.taken), Parts(step.reqs), j);
      WholeBatch(s.file, Parts(step.reqs), At(s, step.taken), true);
    } else {
      WholeBatch(s.file, Parts(step.reqs), |s.file|, false);
      StackedOne(s.file, Parts(step.reqs));
    }
  }

  lemma WholeBatch(c: seq<byte>, parts: seq<seq<byte>>, base: nat, block: bool)
    requires base <= |c|
    ensures AfterWrites(c, parts, base, block, |parts|)
            == if block then Overwrite(c, base, Concat(parts)) else Stacked(c, base, parts)
  {
    assert parts[..|parts|] == parts;
  }

  lemma WriteGoodOld(s: State, step: Step, r: Role)
    requires Inv(s) && step.Write? && Enabled(s, step) && Has(Next(s, step), r) && Old(s, step, r)
    ensures Good(Next(s, step), r)
  {
    WriteRoles(s, step, r);
    WriteFile(s, step);
    assert Good(s, r);
    match r
    case Live(k) => WriteHolds(s, step, r, s.values[k]);
    case InFlight(id) =>
      WriteSavers(s, step.reqs, step.taken, id);
      WriteHolds(s, step, r, s.savers[id].data);
    case _ =>
  }

  lemma WriteGood(s: State, step: Step, r: Role)
    requires Inv(s) && step.Write? && Enabled(s, step) && Lone(step) && Has(Next(s, step), r)
    ensures Good(Next(s, step), r)
  {
    if Old(s, step, r) {
      WriteGoodOld(s, step, r);
    } else {
      WriteRoles(s, step, r);
      WriteFile(s, step);
      WriteSavers(s, step.reqs, step.taken, r.id);
      WriteStoresNew(s, step, RequestOf(step.reqs, r.id).value);
    }
  }

  lemma WriteKeepsInv(s: State, step: Step)
    requires Inv(s) && step.Write? && Enabled(s, step) && Lone(step)
    ensures Inv(Next(s, step))
  {
    var t := Next(s, step);
    forall r | Has(t, r) ensures Good(t, r) {
      WriteGood(s, step, r);
    }
    forall q, r | Has(t, q) && Has(t, r) && q != r ensures Clear(SpanOf(t, q), SpanOf(t, r)) {
      WriteApart(s, step, q, r);
    }
  }

  /** Two writes of one batch that both begin at the end of the file overlap there. */
  lemma CrowdBreaksInv(s: State, step: Step)
    requires Enabled(s, step) && !Lone(step)
    ensures !Inv(Next(s, step))
  {
    var t, q, r := Next(s, step), InFlight(step.reqs[0].id), InFlight(step.reqs[1].id);
    JoinNew(s.savers, step.reqs, At(s, None), false, |step.reqs|, 0);
    JoinNew(s.savers, step.reqs, At(s, None), false, |step.reqs|, 1);
    assert Has(t, q) && Has(t, r) && q != r;
    assert !Clear(SpanOf(t, q), SpanOf(t, r));
  }

  /** The role a byte range of t had before a swap, mark or free step. */
  ghost function Before(s: State, step: Step, r: Role): Role
    requires !step.Write? && Enabled(s, step)
  {
    match step
    case Swap(id) =>
      var key := s.savers[id].key;
      if r == Live(key) then InFlight(id) else if r == Retired(id) then Live(key) else r
    case Mark(id) => if r == Unused(s.savers[id].key) then Retired(id) else r
    case Free(k) => if r == Unused(k) then Live(k) else r
  }

  lemma RolesBefore(s: State, step: Step, r: Role)
    requires Inv(s) && !step.Write? && Enabled(s, step) && Has(Next(s, step), r)
    ensures Has(s, Before(s, step, r)) && SpanOf(Next(s, step), r) == SpanOf(s, Before(s, step, r))
  {
  }

  /** A saver never finds its own extent already in the index, so the branch that skips freeing
      for an unchanged span is not taken. */
  lemma SameSpanUnreachable(s: State, id: nat)
    requires Inv(s) && Enabled(s, Swap(id))
    ensures s.savers[id].key in s.index ==>
              s.index[s.savers[id].key] != Entry(s.table, s.savers[id].start, s.savers[id].end)
  {
    var key := s.savers[id].key;
    assert Has(s, InFlight(id));
    if key in s.index {
      assert Has(s, Live(key)) && Clear(SpanOf(s, Live(key)), SpanOf(s, InFlight(id)));
    }
  }

  lemma MoveGood(s: State, step: Step, r: Role)
    requires Inv(s) && !step.Write? && Enabled(s, step) && Has(Next(s, step), r)
    ensures Good(Next(s, step), r)
  {
    RolesBefore(s, step, r);
    assert Good(s, Before(s, step, r));
  }

  lemma MoveKeepsInv(s: State, step: Step)
    requires Inv(s) && !step.Write? && Enabled(s, step)
    ensures Inv(Next(s, step))
  {
    var t := Next(s, step);
    forall r | Has(t, r) ensures Good(t, r) {
      MoveGood(s, step, r);
    }
    forall q, r | Has(t, q) && Has(t, r) && q != r ensures Clear(SpanOf(t, q), SpanOf(t, r)) {
      RolesBefore(s, step, q);
      RolesBefore(s, step, r);
      assert Before(s, step, q) != Before(s, step, r);
    }
  }

  /** A step keeps the invariant exactly when it is not a batch of several writes at the end of
      the file. */
  lemma StepKeepsInvExactly(s: State, step: Step)
    requires Inv(s) && Enabled(s, step)
    ensures Inv(Next(s, step)) <==> Lone(step)
  {
    if !Lone(step) {
      CrowdBreaksInv(s, step);
    } else if step.Write? {
      WriteKeepsInv(s, step);
    } else {
      MoveKeepsInv(s, step);
    }
  }

  /** Two first saves of one length that share a batch: one range, which holds the second one's
      bytes. */
  lemma CrowdedBatch(table: string, key: string, a: Value, b: Value)
    requires |a| == |b|
    ensures var step := Write([Req(0, key, a), Req(1, key, b)], None);
            Enabled(Initial(table), step)
            && var s := Next(Initial(table), step);
               && s.file == b && s.index == map[]
               && 0 in s.savers && s.savers[0] == Written(key, a, 0, |a|)
               && 1 in s.savers && s.savers[1] == Written(key, b, 0, |a|)
  {
    var reqs, s0 := [Req(0, key, a), Req(1, key, b)], Initial(table);
    JoinNew(s0.savers, reqs, 0, false, 2, 0);
    JoinNew(s0.savers, reqs, 0, false, 2, 1);
    var parts := Parts(reqs);
    assert parts == [a, b] && parts[..2] == parts && parts[..1] == [a] && [a][..0] == [];
    assert Stacked([], 0, [a]) == Overwrite([], 0, a) == a;
    assert Stacked([], 0, parts) == Overwrite(a, 0, b) == b;
  }

  /** Two saves of one key and length that share a batch at the end of the file: the second
      finds its own range in the index, the branch that SameSpanUnreachable excludes, and what
      was saved first is overwritten before it is indexed. */
  lemma CrowdReachesSameSpan(table: string, key: string, a: Value, b: Value)
    requires |a| == |b|
    ensures var reqs := [Req(0, key, a), Req(1, key, b)];
            Enabled(Initial(table), Write(reqs, None))
            && var s := Next(Initial(table), Write(reqs, None));
               Enabled(s, Swap(0))
               && var t := Next(s, Swap(0));
                  Enabled(t, Swap(1)) && key in t.index
                  && t.index[key] == Entry(table, t.savers[1].start, t.savers[1].end)
                  && t.values[key] == a && Holds(t, t.index[key].start, t.index[key].end, b)
  {
    CrowdedBatch(table, key, a, b);
    assert b[0..|a|] == b;
  }

  // ---- Where bytes get lost ----

  /** Some role covers byte i. A byte of the file that none covers is lost. */
  ghost predicate Owned(s: State, i: int) {
    exists r :: Has(s, r) && In(i, SpanOf(s, r))
  }

  /** The unused tail of the block that a write takes. */
  ghost predicate InTail(s: State, step: Step, i: int)
    requires Enabled(s, step)
  {
    step.Write? && step.taken.Some?
        && s.free[step.taken.value].start + Total(step.reqs) <= i < s.free[step.taken.value].end
  }

  /** The key under which a step enters a block into the free list. */
  function FreedKey(s: State, step: Step): Option<string> {
    match step
    case Mark(id) => if id in s.savers then Some(s.savers[id].key) else None
    case Free(k) => Some(k)
    case _ => None
  }

  /** The free block that a step replaces because it has the same key. */
  ghost predicate InReplaced(s: State, step: Step, i: int) {
    match FreedKey(s, step)
    case Some(k) => Has(s, Unused(k)) && In(i, SpanOf(s, Unused(k)))
    case None => false
  }

  lemma WriteOwnedAfter(s: State, step: Step, i: int, r: Role)
    requires Inv(s) && step.Write? && Enabled(s, step)
    requires Has(Next(s, step), r) && In(i, SpanOf(Next(s, step), r)) && i < |s.file|
    ensures Owned(s, i) && !InTail(s, step, i)
  {
    WriteRoles(s, step, r);
    if step.taken.Some? {
      var u := Unused(step.taken.value);
      assert Has(s, u);
      if Old(s, step, r) {
        assert Clear(SpanOf(s, r), SpanOf(s, u));
        assert In(i, SpanOf(s, r));
      } else {
        assert In(i, SpanOf(s, u));
      }
    } else {
      assert In(i, SpanOf(s, r));
    }
  }

  lemma {:induction false} SomePart(parts: seq<seq<byte>>, x: int, n: nat) returns (j: nat)
    requires n <= |parts| && 0 <= x < Off(parts, n)
    ensures j < n && Off(parts, j) <= x < Off(parts, j + 1)
  {
    j := n - 1;
    if x < Off(parts, n - 1) {
      j := SomePart(parts, x, n - 1);
    }
  }

  /** Every byte that a batch writes belongs to one of its savers, or several. */
  lemma NewBytesOwned(s: State, step: Step, i: int)
    requires Inv(s) && step.Write? && Enabled(s, step) && At(s, step.taken) <= i
    requires if step.taken.Some? then i < At(s, step.taken) + Total(step.reqs) else i < |Next(s, step).file|
    ensures Owned(Next(s, step), i)
  {
    var parts, j := Parts(step.reqs), 0;
    assert parts[..|parts|] == parts;
    if step.taken.Some? {
      j := SomePart(parts, i - At(s, step.taken), |step.reqs|);
    } else {
      j := StackedTop(s.file, parts);
    }
    var id := step.reqs[j].id;
    JoinNew(s.savers, step.reqs, At(s, step.taken), step.taken.Some?, |step.reqs|, j);
    assert Has(Next(s, step), InFlight(id)) && In(i, SpanOf(Next(s, step), InFlight(id)));
  }

  lemma WriteOwnedBefore(s: State, step: Step, i: int, r: Role)
    requires Inv(s) && step.Write? && Enabled(s, step)
    requires Has(s, r) && In(i, SpanOf(s, r)) && !InTail(s, step, i)
    ensures Owned(Next(s, step), i)
  {
    if step.taken.Some? && r == Unused(step.taken.value) {
      NewBytesOwned(s, step, i);
    } else {
      if r.InFlight? || r.Retired? {
        WriteSavers(s, step.reqs, step.taken, r.id);
      }
      assert Has(Next(s, step), r) && SpanOf(Next(s, step), r) == SpanOf(s, r);
    }
  }

  lemma MoveOwned(s: State, step: Step, i: int)
    requires Inv(s) && !step.Write? && Enabled(s, step)
    ensures Owned(Next(s, step), i) <==> Owned(s, i) && !InReplaced(s, step, i)
  {
    var t := Next(s, step);
    if Owned(t, i) {
      var r :| Has(t, r) && In(i, SpanOf(t, r));
      RolesBefore(s, step, r);
      var b := Before(s, step, r);
      assert Has(s, b) && In(i, SpanOf(s, b));
      if FreedKey(s, step).Some? && Has(s, Unused(FreedKey(s, step).value)) {
        assert Clear(SpanOf(s, b), SpanOf(s, Unused(FreedKey(s, step).value)));
      }
    }
    if Owned(s, i) && !InReplaced(s, step, i) {
      var b :| Has(s, b) && In(i, SpanOf(s, b));
      MovedOn(s, step, b);
      assert Has(t, After(s, step, b)) && In(i, SpanOf(t, After(s, step, b)));
    }
  }

  /** The role a byte range of s has after a swap, mark or free step. */
  ghost function After(s: State, step: Step, r: Role): Role
    requires !step.Write? && Enabled(s, step)
  {
    match step
    case Swap(id) =>
      var key := s.savers[id].key;
      if r == InFlight(id) then Live(key) else if r == Live(key) then Retired(id) else r
    case Mark(id) => if r == Retired(id) then Unused(s.savers[id].key) else r
    case Free(k) => if r == Live(k) then Unused(k) else r
  }

  lemma MovedOn(s: State, step: Step, r: Role)
    requires Inv(s) && !step.Write? && Enabled(s, step) && Has(s, r)
    requires FreedKey(s, step).Some? ==> r != Unused(FreedKey(s, step).value)
    ensures Has(Next(s, step), After(s, step, r)) && SpanOf(Next(s, step), After(s, step, r)) == SpanOf(s, r)
  {
    if step.Swap? {
      SameSpanUnreachable(s, step.id);
    }
  }

  /** A step loses a byte exactly if it lies in the unused tail of the block the step takes or in
      the free block whose key the step reuses. What is lost stays lost, and the file grows only
      by bytes that are in use. */
  lemma LostExactly(s: State, step: Step, i: nat)
    requires Inv(s) && Enabled(s, step) && i < |Next(s, step).file|
    ensures |s.file| <= |Next(s, step).file|
    ensures Owned(Next(s, step), i) <==>
            i >= |s.file| || (Owned(s, i) && !InTail(s, step, i) && !InReplaced(s, step, i))
  {
    var t := Next(s, step);
    if step.Write? {
      WriteFile(s, step);
      if i >= |s.file| {
        NewBytesOwned(s, step, i);
      } else if Owned(t, i) {
        var r :| Has(t, r) && In(i, SpanOf(t, r));
        WriteOwnedAfter(s, step, i, r);
      }
      if Owned(s, i) && !InTail(s, step, i) {
        var r :| Has(s, r) && In(i, SpanOf(s, r));
        WriteOwnedBefore(s, step, i, r);
      }
    } else {
      MoveOwned(s, step, i);
    }
  }

  // ---- Whole runs ----

  /** Runs in which no batch has several writes at the end of the file. */
  ghost predicate Legal(s: State, steps: seq<Step>)
    decreases |steps|
  {
    steps == [] || (Enabled(s, steps[0]) && Lone(steps[0]) && Legal(Next(s, steps[0]), steps[1..]))
  }

  ghost function Run(s: State, steps: seq<Step>): State
    requires Legal(s, steps)
    decreases |steps|
  {
    if steps == [] then s else Run(Next(s, steps[0]), steps[1..])
  }

  lemma {:induction false} RunKeepsInv(s: State, steps: seq<Step>)
    requires Inv(s) && Legal(s, steps)
    ensures Inv(Run(s, steps))
    decreases |steps|
  {
    if steps != [] {
      StepKeepsInvExactly(s, steps[0]);
      RunKeepsInv(Next(s, steps[0]), steps[1..]);
    }
  }

  /** However the savers interleave, as long as no two share a batch at the end of the file, no
      byte ever has two of the roles in flight, live, retired and free; in particular an extent that
      is about to be freed is not free yet. */
  lemma OneRolePerByte(table: string, steps: seq<Step>, q: Role, r: Role, i: int)
    requires Legal(Initial(table), steps)
    ensures var s := Run(Initial(table), steps);
            Has(s, q) && Has(s, r) && q != r ==> !(In(i, SpanOf(s, q)) && In(i, SpanOf(s, r)))
  {
    RunKeepsInv(Initial(table), steps);
  }

  /** In every reachable state, the extent that the index names for a key holds the bytes last
      swapped in for it, and a key without a value is not indexed. */
  lemma ExtentsHoldLastSaved(table: string, steps: seq<Step>, k: string)
    requires Legal(Initial(table), steps)
    ensures var s := Run(Initial(table), steps);
            (k in s.index <==> k in s.values)
            && (k in s.index ==> Holds(s, s.index[k].start, s.index[k].end, s.values[k]))
  {
    RunKeepsInv(Initial(table), steps);
    var s := Run(Initial(table), steps);
    assert k in s.index ==> Has(s, Live(k)) && Good(s, Live(k));
  }
}
