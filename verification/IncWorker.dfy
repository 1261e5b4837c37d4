/** The worker of an incremental table's file: how a batch is carried out by kind, how requests
    are collected into batches, and the delete barrier. */
module IncWorker {
  import opened Bytes
  import opened Files
  import opened IncEntry
  import opened IncFile
  import opened IncRows

  // ---- One batch ----

  /** A response to the request at an index of the batch, in the order the responses were sent. */
  datatype Sent = Sent(index: nat, resp: Resp)

  /** The indices of the requests of one kind, in arrival order. */
  function Select(batch: seq<Req>, kind: Kind): (sel: seq<nat>)
    ensures forall k :: 0 <= k < |sel| ==> sel[k] < |batch| && batch[sel[k]].kind == kind
  {
    if batch == [] then []
    else
      var n := |batch| - 1;
      Select(batch[..n], kind) + if batch[n].kind == kind then [n] else []
  }

  /** All positional writes, then all appends, then all reads. */
  function Order(batch: seq<Req>): (order: seq<nat>)
    ensures forall k :: 0 <= k < |order| ==> order[k] < |batch|
  {
    Select(batch, WriteIncOw) + Select(batch, WriteInc) + Select(batch, ReadInc)
  }

  function Indices(n: nat): seq<nat> { seq(n, i => i) }

  /** How often index x is among the requests of one kind. */
  lemma {:induction false} SelectCount(batch: seq<Req>, kind: Kind, x: nat)
    ensures multiset(Select(batch, kind))[x] == if x < |batch| && batch[x].kind == kind then 1 else 0
  {
    if batch != [] {
      SelectCount(batch[..|batch| - 1], kind, x);
    }
  }

  lemma {:induction false} IndicesCount(n: nat, x: nat)
    ensures multiset(Indices(n))[x] == if x < n then 1 else 0
  {
    if n > 0 {
      IndicesCount(n - 1, x);
      assert Indices(n) == Indices(n - 1) + [n - 1];
    }
  }

  lemma OrderIsPermutation(batch: seq<Req>)
    ensures multiset(Order(batch)) == multiset(Indices(|batch|))
  {
    forall x: nat ensures multiset(Order(batch))[x] == multiset(Indices(|batch|))[x] {
      SelectCount(batch, WriteIncOw, x);
      SelectCount(batch, WriteInc, x);
      SelectCount(batch, ReadInc, x);
      IndicesCount(|batch|, x);
    }
  }

  lemma {:induction false} SelectAscends(batch: seq<Req>, kind: Kind)
    ensures forall i, j :: 0 <= i < j < |Select(batch, kind)| ==> Select(batch, kind)[i] < Select(batch, kind)[j]
  {
    if batch != [] {
      SelectAscends(batch[..|batch| - 1], kind);
    }
  }

  /** In the order of a batch no append stands in front of a positional write, no read in front of
      either, and requests of one kind stand in the order in which they arrived. */
  lemma OrderByKind(batch: seq<Req>, i: nat, j: nat)
    requires i < j < |Order(batch)|
    ensures var a, b := batch[Order(batch)[i]].kind, batch[Order(batch)[j]].kind;
            !(a.WriteInc? && b.WriteIncOw?) && !(a.ReadInc? && !b.ReadInc?)
            && (a == b ==> Order(batch)[i] < Order(batch)[j])
  {
    SelectAscends(batch, WriteIncOw);
    SelectAscends(batch, WriteInc);
    SelectAscends(batch, ReadInc);
  }

  datatype Trace = Trace(content: seq<byte>, sent: seq<Sent>)

  /** The requests at the given indices, carried out one after the other. */
  function Execute(c: seq<byte>, batch: seq<Req>, order: seq<nat>): (t: Trace)
    requires forall k :: 0 <= k < |order| ==> order[k] < |batch|
    ensures |t.sent| == |order| && forall k :: 0 <= k < |order| ==> t.sent[k].index == order[k]
  {
    if order == [] then Trace(c, [])
    else
      var n := |order| - 1;
      var t := Execute(c, batch, order[..n]);
      var d := Perform(t.content, batch[order[n]]);
      Trace(d.content, t.sent + [Sent(order[n], d.resp)])
  }

  lemma ExecuteNext(c: seq<byte>, batch: seq<Req>, order: seq<nat>, i: nat)
    requires (forall k :: 0 <= k < |order| ==> order[k] < |batch|) && i < |batch|
    ensures var t := Execute(c, batch, order);
            var d := Perform(t.content, batch[i]);
            Execute(c, batch, order + [i]) == Trace(d.content, t.sent + [Sent(i, d.resp)])
  {
    assert (order + [i])[..|order|] == order;
  }

  lemma SelectNext(batch: seq<Req>, kind: Kind, i: nat)
    requires i < |batch|
    ensures Select(batch[..i + 1], kind) == Select(batch[..i], kind) + if batch[i].kind == kind then [i] else []
  {
    assert batch[..i + 1][..i] == batch[..i];
  }

  lemma ExecuteOneMore(c: seq<byte>, batch: seq<Req>, done: seq<nat>, group: seq<nat>, k: nat)
    requires forall i :: 0 <= i < |group| ==> group[i] < |batch|
    requires (forall i :: 0 <= i < |done| ==> done[i] < |batch|) && k < |group|
    ensures var t := Execute(c, batch, done + group[..k]);
            var d := Perform(t.content, batch[group[k]]);
            Execute(c, batch, done + group[..k + 1]) == Trace(d.content, t.sent + [Sent(group[k], d.resp)])
  {
    ExecuteNext(c, batch, done + group[..k], group[k]);
    assert done + group[..k] + [group[k]] == done + group[..k + 1];
  }

  /** A write of either kind. */
  method PerformWrite(file: DataFile, req: Req) returns (resp: Resp)
    requires !req.kind.ReadInc?
    modifies file
    ensures Done(file.content, resp) == Perform(old(file.content), req)
  {
    if req.kind == WriteIncOw {
      resp := DoPositional(file, req);
    } else {
      resp := DoAppend(file, req);
    }
  }

  /** Carries out one group of requests behind those already done. */
  method ExecuteGroup(file: DataFile, batch: seq<Req>, group: seq<nat>, before: seq<Sent>,
                      ghost c: seq<byte>, ghost done: seq<nat>)
    returns (sent: seq<Sent>)
    requires (forall k :: 0 <= k < |group| ==> group[k] < |batch|)
        && (forall k :: 0 <= k < |done| ==> done[k] < |batch|)
    requires Trace(file.content, before) == Execute(c, batch, done)
    requires forall k :: 0 <= k < |group| ==> !batch[group[k]].kind.ReadInc?
    modifies file
    ensures Trace(file.content, sent) == Execute(c, batch, done + group)
  {
    sent := before;
    assert done + group[..0] == done;
    for k := 0 to |group|
      invariant Trace(file.content, sent) == Execute(c, batch, done + group[..k])
    {
      ExecuteOneMore(c, batch, done, group, k);
      var resp := PerformWrite(file, batch[group[k]]);
      sent := sent + [Sent(group[k], resp)];
    }
    assert group[..|group|] == group;
  }

  lemma ExecuteNextRead(c: seq<byte>, batch: seq<Req>, done: seq<nat>, i: nat)
    requires (forall k :: 0 <= k < |done| ==> done[k] < |batch|) && i < |batch|
    ensures var t := Execute(c, batch, done + Select(batch[..i], ReadInc));
            Execute(c, batch, done + Select(batch[..i + 1], ReadInc))
            == if batch[i].kind != ReadInc then t
               else Trace(t.content, t.sent + [Sent(i, Perform(t.content, batch[i]).resp)])
  {
    var before := Select(batch[..i], ReadInc);
    SelectNext(batch, ReadInc, i);
    ExecuteNext(c, batch, done + before, i);
    assert done + before + [i] == done + (before + [i]);
    assert before + [] == before;
  }

  /** The last pass walks over the whole batch and answers the reads. */
  method ExecuteReads(file: DataFile, batch: seq<Req>, before: seq<Sent>, ghost c: seq<byte>, ghost done: seq<nat>)
    returns (sent: seq<Sent>)
    requires forall k :: 0 <= k < |done| ==> done[k] < |batch|
    requires Trace(file.content, before) == Execute(c, batch, done)
    ensures Trace(file.content, sent) == Execute(c, batch, done + Select(batch, ReadInc))
  {
    sent := before;
    assert done + Select(batch[..0], ReadInc) == done;
    for i := 0 to |batch|
      invariant Trace(file.content, sent) == Execute(c, batch, done + Select(batch[..i], ReadInc))
    {
      ExecuteNextRead(c, batch, done, i);
      if batch[i].kind != ReadInc {
        continue;
      }
      var resp := DoRead(file, batch[i]);
      sent := sent + [Sent(i, resp)];
    }
    assert batch[..|batch|] == batch;
  }

  /** Sorts the requests by kind and carries the groups out. */
  method ExecuteBatch(file: DataFile, batch: seq<Req>) returns (sent: seq<Sent>)
    modifies file
    ensures Trace(file.content, sent) == Execute(old(file.content), batch, Order(batch))
  {
    ghost var c := file.content;
    var overWrites, appends := SortByKind(batch);
    assert Execute(c, batch, []) == Trace(c, []) && [] + overWrites == overWrites;
    sent := ExecuteGroup(file, batch, overWrites, [], c, []);
    sent := ExecuteGroup(file, batch, appends, sent, c, overWrites);
    sent := ExecuteReads(file, batch, sent, c, overWrites + appends);
  }

  method SortByKind(batch: seq<Req>) returns (overWrites: seq<nat>, appends: seq<nat>)
    ensures overWrites == Select(batch, WriteIncOw) && appends == Select(batch, WriteInc)
  {
    overWrites, appends := [], [];
    for i := 0 to |batch|
      invariant overWrites == Select(batch[..i], WriteIncOw) && appends == Select(batch[..i], WriteInc)
    {
      SelectNext(batch, WriteIncOw, i);
      SelectNext(batch, WriteInc, i);
      match batch[i].kind
      case WriteInc => appends := appends + [i];
      case WriteIncOw => overWrites := overWrites + [i];
      case ReadInc =>
    }
    assert batch[..|batch|] == batch;
  }

  /** Every request of a batch gets exactly one response. */
  lemma OneResponseEach(c: seq<byte>, batch: seq<Req>)
    ensures var sent := Execute(c, batch, Order(batch)).sent;
            |sent| == |batch|
            && multiset(seq(|sent|, k requires 0 <= k < |sent| => sent[k].index)) == multiset(Indices(|batch|))
  {
    var sent := Execute(c, batch, Order(batch)).sent;
    OrderIsPermutation(batch);
    assert seq(|sent|, k requires 0 <= k < |sent| => sent[k].index) == Order(batch);
    assert |multiset(Order(batch))| == |multiset(Indices(|batch|))|;
  }

  // ---- A batch on a list of rows ----

  datatype RowTrace = RowTrace(rows: seq<Row>, sent: seq<Sent>)

  function ExecuteOnRows(rows: seq<Row>, batch: seq<Req>, rs: nat, order: seq<nat>): RowTrace
    requires forall k :: 0 <= k < |order| ==> order[k] < |batch|
  {
    if order == [] then RowTrace(rows, [])
    else
      var n := |order| - 1;
      var t := ExecuteOnRows(rows, batch, rs, order[..n]);
      var o := OnRows(t.rows, batch[order[n]], rs);
      RowTrace(o.rows, t.sent + [Sent(order[n], o.resp)])
  }

  /** On a file of whole records, a batch of requests of its record size has the effects and
      responses of the list operations in the same order. */
  lemma {:induction false} BatchOnRows(c: seq<byte>, batch: seq<Req>, rs: nat, order: seq<nat>)
    requires rs > 0 && |c| % rs == 0 && forall i :: 0 <= i < |batch| ==> RecordSize(batch[i].entrySize) == rs
    requires forall k :: 0 <= k < |order| ==> order[k] < |batch|
    ensures var t := Execute(c, batch, order);
            |t.content| % rs == 0
            && ExecuteOnRows(RowsOf(c, rs), batch, rs, order) == RowTrace(RowsOf(t.content, rs), t.sent)
  {
    if order != [] {
      var n := |order| - 1;
      BatchOnRows(c, batch, rs, order[..n]);
      PerformOnRows(Execute(c, batch, order[..n]).content, batch[order[n]], rs);
    }
  }

  // ---- The worker loop ----

  /** What the worker finds when it looks at its channel. */
  datatype Event = Arrive(req: Req) | ArriveDelete | ArriveClose | Nothing

  /** What it does to the file. */
  datatype Action = Batch(reqs: seq<Req>) | Delete

  datatype Item = Request(req: Req) | DeleteItem

  /** What the first n events brought, in order. */
  function Received(events: seq<Event>, n: nat): seq<Item>
    requires n <= |events|
  {
    if n == 0 then [] else Received(events, n - 1) + ItemsOf(events[n - 1])
  }

  /** A request and a delete are each received once, in the order in which they arrive, and nothing else. */
  lemma ReceivedOneMore(events: seq<Event>, n: nat)
    requires n < |events|
    ensures Received(events, 0) == []
    ensures events[n].Arrive? ==> Received(events, n + 1) == Received(events, n) + [Request(events[n].req)]
    ensures events[n].ArriveDelete? ==> Received(events, n + 1) == Received(events, n) + [DeleteItem]
    ensures events[n].ArriveClose? || events[n].Nothing? ==> Received(events, n + 1) == Received(events, n)
  {
  }

  function ItemsOf(event: Event): seq<Item> {
    match event
    case Arrive(r) => [Request(r)]
    case ArriveDelete => [DeleteItem]
    case ArriveClose => []
    case Nothing => []
  }

  function Items(reqs: seq<Req>): (items: seq<Item>)
    ensures |items| == |reqs| && forall i :: 0 <= i < |items| ==> items[i] == Request(reqs[i])
  {
    seq(|reqs|, i requires 0 <= i < |reqs| => Request(reqs[i]))
  }

  /** Everything that was carried out, batch after batch, in arrival order within a batch. */
  function CarriedOut(actions: seq<Action>): seq<Item> {
    if actions == [] then []
    else
      var n := |actions| - 1;
      CarriedOut(actions[..n]) + ItemsIn(actions[n])
  }

  function ItemsIn(action: Action): seq<Item> {
    match action
    case Batch(reqs) => Items(reqs)
    case Delete => [DeleteItem]
  }

  function Act(c: seq<byte>, action: Action): seq<byte> {
    match action
    case Batch(reqs) => Execute(c, reqs, Order(reqs)).content
    case Delete => []
  }

  const DELETE_REPLY := Sent(0, Reply([], 0, 0))
  const CLOSE_REPLY := Sent(0, Reply([], 0, 0))

  function Answers(c: seq<byte>, action: Action): seq<Sent> {
    match action
    case Batch(reqs) => Execute(c, reqs, Order(reqs)).sent
    case Delete => [DELETE_REPLY]
  }

  lemma ItemsNext(reqs: seq<Req>, r: Req)
    ensures Items(reqs + [r]) == Items(reqs) + [Request(r)]
  {
  }

  /** One action with what it found in the file, what it left there and what it answered. */
  datatype Step = Step(action: Action, before: seq<byte>, after: seq<byte>, sent: seq<Sent>)

  ghost predicate Taken(s: Step) {
    s.after == Act(s.before, s.action) && s.sent == Answers(s.before, s.action)
  }

  function FileAfter(c: seq<byte>, history: seq<Step>): seq<byte> {
    if history == [] then c else history[|history| - 1].after
  }

  ghost predicate Follows(c: seq<byte>, history: seq<Step>, i: nat)
    requires i < |history|
  {
    history[i].before == FileAfter(c, history[..i]) && Taken(history[i])
  }

  /** Each action was carried out on what the one before it left. */
  ghost predicate Chain(c: seq<byte>, history: seq<Step>) {
    forall i {:trigger Follows(c, history, i)} :: 0 <= i < |history| ==> Follows(c, history, i)
  }

  function Sends(history: seq<Step>): seq<Sent> {
    if history == [] then [] else Sends(history[..|history| - 1]) + history[|history| - 1].sent
  }

  function ActionsOf(history: seq<Step>): seq<Action> {
    seq(|history|, i requires 0 <= i < |history| => history[i].action)
  }

  lemma ChainNext(c: seq<byte>, history: seq<Step>, s: Step)
    requires Chain(c, history) && Taken(s) && s.before == FileAfter(c, history)
    ensures Chain(c, history + [s]) && FileAfter(c, history + [s]) == s.after
        && Sends(history + [s]) == Sends(history) + s.sent
    ensures CarriedOut(ActionsOf(history + [s])) == CarriedOut(ActionsOf(history)) + ItemsIn(s.action)
  {
    var h := history + [s];
    assert h[..|history|] == history;
    forall i | 0 <= i < |h| ensures Follows(c, h, i) {
      assert h[..i] == history[..i];
      assert i < |history| ==> Follows(c, history, i);
    }
    assert ActionsOf(h) == ActionsOf(history) + [s.action];
    assert (ActionsOf(history) + [s.action])[..|history|] == ActionsOf(history);
  }

  /** Event j finds the worker collecting a batch: a request arrived before it and the channel has
      not been found empty since. */
  ghost predicate InBatch(events: seq<Event>, j: nat)
    requires j <= |events|
  {
    exists i :: 0 <= i < j && events[i].Arrive? && Busy(events, i, j)
  }

  ghost predicate Busy(events: seq<Event>, i: nat, j: nat)
    requires i <= j <= |events|
  {
    forall x :: i <= x < j ==> !events[x].Nothing?
  }

  /** Every close among the first n events arrived inside a batch. */
  ghost predicate ClosesInBatches(events: seq<Event>, n: nat)
    requires n <= |events|
  {
    forall j :: 0 <= j < n && events[j].ArriveClose? ==> InBatch(events, j)
  }

  /** The loop ends with event n, the first close that arrives outside a batch, or with the last
      event if there is none. */
  ghost predicate Closed(events: seq<Event>, n: nat)
    requires n <= |events|
  {
    && (n < |events| ==> events[n].ArriveClose? && !InBatch(events, n))
    && ClosesInBatches(events, n)
  }

  /** Which event ends the loop is determined. */
  lemma ClosedOnce(events: seq<Event>, m: nat, n: nat)
    requires m <= |events| && n <= |events| && Closed(events, m) && Closed(events, n)
    ensures m == n
  {
  }

  /** Unless it finds nothing, the worker is not collecting. */
  ghost predicate AtRoundStart(events: seq<Event>, n: nat)
    requires n <= |events|
  {
    n < |events| && !events[n].Nothing? ==> !InBatch(events, n)
  }

  lemma RoundDone(events: seq<Event>, start: nat, n: nat)
    requires start < n <= |events| && !events[start].ArriveClose?
    requires AtRoundStart(events, start) && ClosesInBatches(events, start)
    requires if events[start].Arrive? then Busy(events, start, n) && (n < |events| ==> events[n].Nothing?)
             else n == start + 1
    ensures AtRoundStart(events, n) && ClosesInBatches(events, n)
  {
    forall j | start < j < n && events[j].ArriveClose? ensures InBatch(events, j) {
      assert Busy(events, start, j);
    }
    if !events[start].Arrive? && InBatch(events, n) {
      var i :| 0 <= i < n && events[i].Arrive? && Busy(events, i, n);
      assert Busy(events, i, start);
    }
  }

  lemma {:induction false} OneSendEach(c: seq<byte>, history: seq<Step>)
    requires Chain(c, history)
    ensures |Sends(history)| == |CarriedOut(ActionsOf(history))|
  {
    if history != [] {
      var n := |history| - 1;
      assert Follows(c, history, n);
      forall i | 0 <= i < n ensures Follows(c, history[..n], i) {
        assert Follows(c, history, i) && history[..n][..i] == history[..i];
      }
      OneSendEach(c, history[..n]);
      assert ActionsOf(history)[..n] == ActionsOf(history[..n]);
      if history[n].action.Batch? {
        OneResponseEach(history[n].before, history[n].action.reqs);
      }
    }
  }

  /** A loop over whatever arrives until it is closed. */
  class Worker {
    const file: DataFile
    var pending: seq<Req>
    var responses: seq<Sent>
    ghost var history: seq<Step>

    constructor (file: DataFile)
      ensures this.file == file && pending == [] && history == [] && responses == []
    {
      this.file := file;
      pending, history, responses := [], [], [];
    }

    /** Done and pending together are what was received; the file is what the actions made of it,
        and everything that was carried out has its response. */
    ghost predicate InStep(c: seq<byte>, received: seq<Item>)
      reads this, file
    {
      CarriedOut(ActionsOf(history)) + Items(pending) == received
      && Chain(c, history) && file.content == FileAfter(c, history) && responses == Sends(history)
    }

    method ExecutePending() returns (ghost step: Step)
      modifies this`pending, this`responses, file
      ensures Taken(step) && step.action == Batch(old(pending))
      ensures step.before == old(file.content) && step.after == file.content
      ensures pending == [] && responses == old(responses) + step.sent
    {
      var sent := ExecuteBatch(file, pending);
      step := Step(Batch(pending), old(file.content), file.content, sent);
      responses := responses + sent;
      pending := [];
    }

    method Flush(ghost c: seq<byte>, ghost received: seq<Item>)
      requires InStep(c, received)
      modifies this, file
      ensures InStep(c, received) && pending == []
    {
      if |pending| > 0 {
        ghost var step := ExecutePending();
        ChainNext(c, history, step);
        history := history + [step];
      }
    }

    /** Everything pending is carried out first; then the file is emptied. */
    method DeleteTable(ghost c: seq<byte>, ghost received: seq<Item>)
      requires InStep(c, received)
      modifies this, file
      ensures InStep(c, received + [DeleteItem]) && pending == []
      ensures file.content == [] && responses != [] && responses[|responses| - 1] == Sent(0, Reply([], 0, 0))
    {
      Flush(c, received);
      ghost var step := Step(Delete, file.content, [], [DELETE_REPLY]);
      assert CarriedOut(ActionsOf(history)) == received;
      ChainNext(c, history, step);
      file.Truncate(0);
      responses := responses + [DELETE_REPLY];
      history := history + [step];
    }

    /** Takes what arrived: a delete is carried out at once, a request becomes pending. A close
        that arrives here becomes part of a batch, no branch of which handles or answers it. */
    method Receive(event: Event, ghost c: seq<byte>, ghost received: seq<Item>)
      requires InStep(c, received) && !event.Nothing?
      modifies this, file
      ensures InStep(c, received + ItemsOf(event)) && (event.ArriveDelete? ==> pending == [])
    {
      match event
      case ArriveDelete =>
        DeleteTable(c, received);
      case Arrive(req) =>
        ItemsNext(pending, req);
        pending := pending + [req];
      case ArriveClose =>
        assert received + ItemsOf(event) == received;
      case Nothing =>
    }

    /** Receives until the channel is empty. */
    method Collect(events: seq<Event>, start: nat, ghost c: seq<byte>, ghost before: seq<Item>)
      returns (i: nat, ghost received: seq<Item>)
      requires start <= |events| && InStep(c, before) && before == Received(events, start)
      modifies this, file
      ensures start <= i <= |events| && Busy(events, start, i) && (i < |events| ==> events[i].Nothing?)
      ensures InStep(c, received) && received == Received(events, i)
    {
      i, received := start, before;
      while i < |events| && !events[i].Nothing?
        invariant start <= i <= |events| && Busy(events, start, i) && received == Received(events, i)
        invariant InStep(c, received)
      {
        Receive(events[i], c, received);
        received := received + ItemsOf(events[i]);
        i := i + 1;
      }
    }

    /** One round of the loop: whatever arrived is carried out before the next round. */
    method Round(events: seq<Event>, start: nat, ghost c: seq<byte>, ghost before: seq<Item>)
      returns (i: nat, ghost received: seq<Item>)
      requires start < |events| && !events[start].ArriveClose? && InStep(c, before) && before == Received(events, start)
      requires AtRoundStart(events, start) && ClosesInBatches(events, start)
      modifies this, file
      ensures start < i <= |events| && pending == [] && AtRoundStart(events, i) && ClosesInBatches(events, i)
      ensures InStep(c, received) && received == Received(events, i)
    {
      i, received := Take(events, start, c, before);
      RoundDone(events, start, i);
      Flush(c, received);
    }

    /** One event, and behind a request whatever else there is. */
    method Take(events: seq<Event>, start: nat, ghost c: seq<byte>, ghost before: seq<Item>)
      returns (i: nat, ghost received: seq<Item>)
      requires start < |events| && !events[start].ArriveClose? && InStep(c, before) && before == Received(events, start)
      modifies this, file
      ensures start < i <= |events| && InStep(c, received) && received == Received(events, i)
      ensures if events[start].Arrive? then Busy(events, start, i) && (i < |events| ==> events[i].Nothing?)
              else i == start + 1
    {
      var event := events[start];
      i, received := start + 1, before + ItemsOf(event);
      if event.Nothing? {
        assert received == before;
        return;
      }
      Receive(event, c, before);
      if event.Arrive? {
        i, received := Collect(events, i, c, received);
      }
    }

    /** Round after round until a close is found between two rounds. */
    method Rounds(events: seq<Event>, ghost c: seq<byte>) returns (n: nat, ghost received: seq<Item>)
      requires InStep(c, []) && pending == []
      modifies this, file
      ensures n <= |events| && Closed(events, n)
      ensures InStep(c, received) && pending == [] && received == Received(events, n)
    {
      n, received := 0, [];
      while n < |events| && !events[n].ArriveClose?
        invariant n <= |events| && received == Received(events, n)
        invariant AtRoundStart(events, n) && ClosesInBatches(events, n)
        invariant InStep(c, received) && pending == []
      {
        n, received := Round(events, n, c, received);
      }
    }

    /** Everything up to event n was carried out on a file that held c. */
    ghost predicate Served(c: seq<byte>, events: seq<Event>, n: nat)
      requires n <= |events|
      reads this`history, file
    {
      && CarriedOut(ActionsOf(history)) == Received(events, n)
      && Chain(c, history) && file.content == FileAfter(c, history)
    }

    method Serve(events: seq<Event>) returns (n: nat)
      requires pending == [] && history == [] && responses == []
      modifies this, file
      ensures n <= |events| && Closed(events, n)
      ensures pending == [] && Served(old(file.content), events, n) && responses == Sends(history)
    {
      ghost var received;
      n, received := Rounds(events, file.content);
      assert CarriedOut(ActionsOf(history)) + [] == received;
    }

    method AnswerClose()
      modifies this`responses
      ensures responses == old(responses) + [Sent(0, Reply([], 0, 0))]
    {
      responses := responses + [CLOSE_REPLY];
    }

    /** n events were received before the close that is answered, or in all. */
    method Loop(events: seq<Event>) returns (n: nat)
      requires pending == [] && history == [] && responses == []
      modifies this, file
      ensures n <= |events| && Closed(events, n)
      ensures pending == [] && Served(old(file.content), events, n)
      ensures |responses| == |Received(events, n)| + if n < |events| then 1 else 0
      ensures n == |events| ==> responses == Sends(history)
      ensures n < |events| ==> responses == Sends(history) + [CLOSE_REPLY]
    {
      n := Serve(events);
      OneSendEach(old(file.content), history);
      if n < |events| {
        AnswerClose();
      }
    }
  }

  lemma AloneCloses(n: nat)
    requires n <= 1 && Closed([ArriveClose], n)
    ensures n == 0 && Received([ArriveClose], n) == []
  {
    ClosedOnce([ArriveClose], n, 0);
  }

  lemma BehindIsDropped(req: Req, n: nat)
    requires n <= 2 && Closed([Arrive(req), ArriveClose], n)
    ensures n == 2 && |Received([Arrive(req), ArriveClose], n)| == 1
  {
    var events := [Arrive(req), ArriveClose];
    assert Busy(events, 0, 1);
    assert Received(events, 0) == [] && Received(events, 1) == [Request(req)];
  }

  /** A close alone ends the loop and is answered; behind a request that was just received it is
      dropped: the loop goes on to the last event, and one response was sent for two events. */
  method CloseBehindRequest(first: Worker, second: Worker, req: Req) returns (n: nat)
    requires first.pending == [] && first.history == [] && first.responses == []
    requires second.pending == [] && second.history == [] && second.responses == []
    requires first != second && first.file != second.file
    modifies first, first.file, second, second.file
    ensures first.responses == [CLOSE_REPLY] && n == 2 && |second.responses| == 1
  {
    var m := first.Loop([ArriveClose]);
    AloneCloses(m);
    n := second.Loop([Arrive(req), ArriveClose]);
    BehindIsDropped(req, n);
  }

  /** What comes behind a delete is carried out on an empty table, whatever came before. */
  lemma DeleteIsBarrier(c: seq<byte>, history: seq<Step>, k: nat)
    requires Chain(c, history) && k < |history| && history[k].action.Delete?
    ensures Chain([], history[k + 1..]) && FileAfter(c, history) == FileAfter([], history[k + 1..])
  {
    var rest := history[k + 1..];
    assert Follows(c, history, k);
    forall i | 0 <= i < |rest| ensures Follows([], rest, i) {
      assert Follows(c, history, k + 1 + i);
      assert i > 0 ==> history[..k + 1 + i][k + i] == rest[..i][i - 1];
    }
  }

  // ---- The first append behind a delete ----

  /** A request that adds no row: a read, or a positional write other than an insert. */
  predicate Quiet(req: Req) {
    req.kind.ReadInc? || (req.kind.WriteIncOw? && req.readType != 0)
  }

  lemma {:induction false} QuietOnEmpty(batch: seq<Req>, order: seq<nat>)
    requires forall k :: 0 <= k < |order| ==> order[k] < |batch| && Quiet(batch[order[k]])
    ensures Execute([], batch, order).content == []
  {
    if order != [] {
      QuietOnEmpty(batch, order[..|order| - 1]);
    }
  }

  ghost predicate QuietAction(action: Action) {
    action.Batch? ==> forall i :: 0 <= i < |action.reqs| ==> Quiet(action.reqs[i])
  }

  /** The file stays empty behind a delete as long as no row is added. */
  lemma {:induction false} StaysEmpty(c: seq<byte>, history: seq<Step>, k: nat, m: nat)
    requires Chain(c, history) && k < m <= |history| && history[k].action.Delete?
    requires forall i :: k < i < m ==> QuietAction(history[i].action)
    ensures FileAfter(c, history[..m]) == []
  {
    assert Follows(c, history, m - 1);
    if k < m - 1 {
      StaysEmpty(c, history, k, m - 1);
      var action := history[m - 1].action;
      if action.Batch? {
        QuietOnEmpty(action.reqs, Order(action.reqs));
      }
    }
  }

  lemma {:induction false} SelectFirst(batch: seq<Req>, kind: Kind, j: nat)
    requires j < |batch| && batch[j].kind == kind && forall i :: 0 <= i < j ==> batch[i].kind != kind
    ensures |Select(batch, kind)| > 0 && Select(batch, kind)[0] == j
  {
    var n := |batch| - 1;
    if j < n {
      SelectFirst(batch[..n], kind, j);
    } else {
      NoneSelected(batch[..n], kind);
    }
  }

  lemma {:induction false} NoneSelected(batch: seq<Req>, kind: Kind)
    requires forall i :: 0 <= i < |batch| ==> batch[i].kind != kind
    ensures Select(batch, kind) == []
  {
    if batch != [] {
      NoneSelected(batch[..|batch| - 1], kind);
    }
  }

  /** What was sent for the first requests is not affected by the later ones. */
  lemma {:induction false} ExecutePrefix(c: seq<byte>, batch: seq<Req>, a: seq<nat>, b: seq<nat>)
    requires forall k :: 0 <= k < |a + b| ==> (a + b)[k] < |batch|
    requires forall k :: 0 <= k < |a| ==> a[k] < |batch|
    ensures Execute(c, batch, a).sent <= Execute(c, batch, a + b).sent
  {
    if b == [] {
      assert a + b == a;
    } else {
      var n := |b| - 1;
      assert (a + b)[..|a + b| - 1] == a + b[..n];
      ExecutePrefix(c, batch, a, b[..n]);
    }
  }

  /** Request j is the first append of a batch, with no insert in the batch. */
  ghost predicate FirstAppend(reqs: seq<Req>, j: nat) {
    && j < |reqs| && reqs[j].kind.WriteInc?
    && (forall i :: 0 <= i < j ==> !reqs[i].kind.WriteInc?)
    && (forall i :: 0 <= i < |reqs| && reqs[i].kind.WriteIncOw? ==> Quiet(reqs[i]))
    && 0 < RecordSize(reqs[j].entrySize) == |reqs[j].data|
  }

  lemma AppendOnEmpty(req: Req)
    requires 0 < RecordSize(req.entrySize) == |req.data|
    ensures Append([], req).resp == IdReply(0, |req.data|)
  {
    assert Padded([], |req.data|) == [];
  }

  lemma AppendGetsZero(reqs: seq<Req>, j: nat)
    requires FirstAppend(reqs, j)
    ensures var order := Select(reqs, WriteIncOw) + [j];
            Execute([], reqs, order).sent[|order| - 1] == Sent(j, IdReply(0, |reqs[j].data|))
  {
    var first := Select(reqs, WriteIncOw);
    QuietOnEmpty(reqs, first);
    ExecuteNext([], reqs, first, j);
    AppendOnEmpty(reqs[j]);
  }

  lemma OrderWithFirst(reqs: seq<Req>, j: nat)
    requires FirstAppend(reqs, j)
    ensures Select(reqs, WriteInc) != []
    ensures Order(reqs) == (Select(reqs, WriteIncOw) + [j]) + (Select(reqs, WriteInc)[1..] + Select(reqs, ReadInc))
  {
    SelectFirst(reqs, WriteInc, j);
    var appends := Select(reqs, WriteInc);
    assert appends == [j] + appends[1..];
  }

  /** The first append behind a delete gets id 0, whatever else arrived before it, as long as
      nothing was inserted by position, in its own batch also behind it. */
  lemma AppendAfterDelete(c: seq<byte>, history: seq<Step>, k: nat, m: nat, j: nat)
    requires Chain(c, history) && k < m < |history| && history[k].action.Delete?
    requires forall i :: k < i < m ==> QuietAction(history[i].action)
    requires history[m].action.Batch? && FirstAppend(history[m].action.reqs, j)
    ensures Sent(j, IdReply(0, |history[m].action.reqs[j].data|)) in history[m].sent
  {
    var reqs := history[m].action.reqs;
    StaysEmpty(c, history, k, m);
    assert Follows(c, history, m);
    OrderWithFirst(reqs, j);
    AppendGetsZero(reqs, j);
    var order := Select(reqs, WriteIncOw) + [j];
    ExecutePrefix([], reqs, order, Select(reqs, WriteInc)[1..] + Select(reqs, ReadInc));
    assert history[m].sent[|order| - 1] == Sent(j, IdReply(0, |reqs[j].data|));
  }
}
