/** The file of an incremental table as a list of rows, and what a request does to the list. */
module IncRows {
  import opened Bytes
  import opened Files
  import opened IncEntry
  import opened IncFile

  type Row = seq<byte>

  function RowAt(c: seq<byte>, rs: nat, i: nat): (r: Row)
    requires rs > 0 && i < Count(c, rs)
    ensures |r| == rs
  {
    RowBounds(i + 1, Count(c, rs), rs);
    RowNext(i, rs);
    c[i * rs..i * rs + rs]
  }

  function RowsOf(c: seq<byte>, rs: nat): (rows: seq<Row>)
    requires rs > 0
    ensures |rows| == Count(c, rs)
    ensures forall i :: 0 <= i < |rows| ==> rows[i] == RowAt(c, rs, i)
  {
    seq(Count(c, rs), i requires 0 <= i < Count(c, rs) => RowAt(c, rs, i))
  }

  /** The n newest rows, newest first. */
  function Newest(rows: seq<Row>, n: nat): (r: seq<Row>)
    requires n <= |rows|
    ensures |r| == n && forall i :: 0 <= i < n ==> r[i] == rows[|rows| - 1 - i]
  {
    seq(n, i requires 0 <= i < n => rows[|rows| - 1 - i])
  }

  datatype Outcome = Outcome(rows: seq<Row>, resp: Resp)

  /** A request on a list of rows of size rs. Rejected requests change nothing. */
  function OnRows(rows: seq<Row>, req: Req, rs: nat): Outcome {
    match req.kind
    case WriteIncOw =>
      if |req.data| != rs then Outcome(rows, Failed(LengthMismatch))
      else if req.readType == 0 then
        match InsertAt(req, |rows|)
        case None => Outcome(rows, Failed(OutOfRange))
        case Some(e) => Outcome(rows[..e] + [req.data] + rows[e..], IdReply(e, rs))
      else if req.readType == 1 then
        match OverwriteAt(req, |rows|)
        case None => Outcome(rows, Failed(OutOfRange))
        case Some(e) => Outcome(rows[e := req.data], IdReply(e, rs))
      else Outcome(rows, Failed(BadReadType))
    case WriteInc =>
      if |req.data| != rs then Outcome(rows, Failed(LengthMismatch))
      else Outcome(rows + [req.data], IdReply(|rows|, rs))
    case ReadInc => Outcome(rows, ReadRows(rows, req, rs))
  }

  function ReadRows(rows: seq<Row>, req: Req, rs: nat): Resp {
    var id := ToInt64(req.incId);
    if req.readType == 0 then
      if id < 0 || id >= |rows| then Failed(OutOfRange) else Reply(rows[id], id * rs, id * rs + rs)
    else if req.readType > 2 then Failed(BadReadType)
    else if id <= 0 || rows == [] then Reply([], 0, 0)
    else
      var n := Min(id, |rows|);
      if req.readType == 1 then Reply(Concat(Newest(rows, n)), (|rows| - n) * rs, (|rows| - n) * rs + n * rs)
      else Reply(Concat(rows[..n]), 0, n * rs)
  }

  // ---- The byte-level effects are the list-level ones ----

  lemma CountOf(n: nat, rs: nat, c: seq<byte>)
    requires rs > 0 && |c| == n * rs
    ensures Count(c, rs) == n && |c| % rs == 0
  {
    MultipleMod(n, rs);
    assert n * rs == rs * n;
  }

  lemma SplicedRow(c: seq<byte>, rs: nat, e: nat, d: Row, i: nat)
    requires rs > 0 && |c| % rs == 0 && e <= Count(c, rs) && |d| == rs
    requires Count(Spliced(c, rs, e, d), rs) == Count(c, rs) + 1 && i <= Count(c, rs)
    ensures RowAt(Spliced(c, rs, e, d), rs, i)
            == if i < e then RowAt(c, rs, i) else if i == e then d else RowAt(c, rs, i - 1)
  {
    var s := Spliced(c, rs, e, d);
    RowBounds(e, Count(c, rs), rs);
    WholeRows(c, rs);
    RowNext(i, rs);
    if i < e {
      RowBounds(i + 1, e, rs);
    } else if i > e {
      RowBounds(e, i - 1, rs);
      RowNext(i - 1, rs);
      RowBounds(i, Count(c, rs), rs);
      SliceBehind(c, e * rs, d, (i - 1) * rs, rs);
    }
  }

  lemma SliceBehind(c: seq<byte>, at: nat, d: seq<byte>, off: nat, n: nat)
    requires at <= off && off + n <= |c|
    ensures (c[..at] + d + c[at..])[off + |d|..off + |d| + n] == c[off..off + n]
  {
  }

  lemma SplicedRows(c: seq<byte>, rs: nat, e: nat, d: Row)
    requires rs > 0 && |c| % rs == 0 && e <= Count(c, rs) && |d| == rs
    ensures |Spliced(c, rs, e, d)| % rs == 0
    ensures RowsOf(Spliced(c, rs, e, d), rs) == RowsOf(c, rs)[..e] + [d] + RowsOf(c, rs)[e..]
  {
    var s, n := Spliced(c, rs, e, d), Count(c, rs);
    WholeRows(c, rs);
    RowNext(n, rs);
    CountOf(n + 1, rs, s);
    var want := RowsOf(c, rs)[..e] + [d] + RowsOf(c, rs)[e..];
    forall i | 0 <= i < n + 1 ensures RowsOf(s, rs)[i] == want[i] {
      SplicedRow(c, rs, e, d, i);
    }
  }

  lemma ReplacedRow(c: seq<byte>, rs: nat, e: nat, d: Row, i: nat)
    requires rs > 0 && |c| % rs == 0 && e < Count(c, rs) && |d| == rs
    requires |Replaced(c, rs, e, d)| == |c| && i < Count(c, rs)
    ensures RowAt(Replaced(c, rs, e, d), rs, i) == if i == e then d else RowAt(c, rs, i)
  {
    RowNext(i, rs);
    RowNext(e, rs);
    RowBounds(i + 1, Count(c, rs), rs);
    RowBounds(e + 1, Count(c, rs), rs);
    WholeRows(c, rs);
    if i < e {
      RowBounds(i + 1, e, rs);
      OverwriteKeeps(c, e * rs, d, i * rs, i * rs + rs);
    } else if i > e {
      RowBounds(e + 1, i, rs);
      OverwriteKeeps(c, e * rs, d, i * rs, i * rs + rs);
    }
  }

  lemma ReplacedRows(c: seq<byte>, rs: nat, e: nat, d: Row)
    requires rs > 0 && |c| % rs == 0 && e < Count(c, rs) && |d| == rs
    ensures |Replaced(c, rs, e, d)| == |c|
    ensures RowsOf(Replaced(c, rs, e, d), rs) == RowsOf(c, rs)[e := d]
  {
    RowNext(e, rs);
    RowBounds(e + 1, Count(c, rs), rs);
    WholeRows(c, rs);
    forall i | 0 <= i < Count(c, rs) ensures RowsOf(Replaced(c, rs, e, d), rs)[i] == RowsOf(c, rs)[e := d][i] {
      ReplacedRow(c, rs, e, d, i);
    }
  }

  lemma AppendedRows(c: seq<byte>, rs: nat, d: Row)
    requires rs > 0 && |c| % rs == 0 && |d| == rs
    ensures |c + d| % rs == 0 && RowsOf(c + d, rs) == RowsOf(c, rs) + [d]
  {
    var n := Count(c, rs);
    WholeRows(c, rs);
    assert Spliced(c, rs, n, d) == c + d;
    SplicedRows(c, rs, n, d);
    assert RowsOf(c, rs)[..n] == RowsOf(c, rs) && RowsOf(c, rs)[n..] == [];
  }

  /** The first n rows as bytes. */
  function Prefix(c: seq<byte>, rs: nat, n: nat): seq<byte>
    requires rs > 0 && n <= Count(c, rs)
  {
    RowBounds(n, Count(c, rs), rs);
    c[..n * rs]
  }

  lemma PrefixNext(c: seq<byte>, rs: nat, n: nat)
    requires rs > 0 && n < Count(c, rs)
    ensures Prefix(c, rs, n + 1) == Prefix(c, rs, n) + RowAt(c, rs, n)
  {
    RowBounds(n + 1, Count(c, rs), rs);
    RowNext(n, rs);
    var at := n * rs;
    assert c[..at + rs] == c[..at] + c[at..at + rs];
  }

  lemma {:induction false} FirstConcat(c: seq<byte>, rs: nat, n: nat)
    requires rs > 0 && n <= Count(c, rs)
    ensures Prefix(c, rs, n) == Concat(RowsOf(c, rs)[..n])
  {
    if n > 0 {
      FirstConcat(c, rs, n - 1);
      PrefixNext(c, rs, n - 1);
      var rows := RowsOf(c, rs);
      assert rows[..n][..n - 1] == rows[..n - 1] && rows[..n][n - 1] == RowAt(c, rs, n - 1);
    }
  }

  lemma {:induction false} ConcatCons(a: seq<byte>, parts: seq<seq<byte>>)
    ensures Concat([a] + parts) == a + Concat(parts)
  {
    var all := [a] + parts;
    if parts == [] {
      assert all[..0] == [];
      assert Concat([a]) == Concat([]) + a;
    } else {
      var n := |parts| - 1;
      assert all[..|all| - 1] == [a] + parts[..n];
      ConcatCons(a, parts[..n]);
    }
  }

  lemma NewestCons(rows: seq<Row>, n: nat)
    requires 0 < n <= |rows|
    ensures Concat(Newest(rows, n)) == rows[|rows| - 1] + Concat(Newest(rows[..|rows| - 1], n - 1))
  {
    assert Newest(rows, n) == [rows[|rows| - 1]] + Newest(rows[..|rows| - 1], n - 1);
    ConcatCons(rows[|rows| - 1], Newest(rows[..|rows| - 1], n - 1));
  }

  lemma {:induction false} LastConcat(c: seq<byte>, rs: nat, k: nat, n: nat)
    requires rs > 0 && n <= k <= Count(c, rs)
    ensures LastRows(c, rs, k, n) == Concat(Newest(RowsOf(c, rs)[..k], n))
    decreases n
  {
    if n > 0 {
      var rows := RowsOf(c, rs);
      RowNext(k - 1, rs);
      LastConcat(c, rs, k - 1, n - 1);
      NewestCons(rows[..k], n);
      assert rows[..k][..k - 1] == rows[..k - 1] && rows[..k][k - 1] == RowAt(c, rs, k - 1);
    }
  }

  lemma CountedOnRows(c: seq<byte>, rs: nat, n: nat)
    requires rs > 0 && n <= Count(c, rs)
    ensures LastRows(c, rs, Count(c, rs), n) == Concat(Newest(RowsOf(c, rs), n))
    ensures Prefix(c, rs, n) == Concat(RowsOf(c, rs)[..n])
  {
    FirstConcat(c, rs, n);
    LastConcat(c, rs, Count(c, rs), n);
    assert RowsOf(c, rs)[..Count(c, rs)] == RowsOf(c, rs);
  }

  lemma ReadOnRows(c: seq<byte>, req: Req, rs: nat)
    requires rs > 0 && RecordSize(req.entrySize) == rs
    ensures Read(c, req) == ReadRows(RowsOf(c, rs), req, rs)
  {
    var k, id := Count(c, rs), ToInt64(req.incId);
    if id > 0 && k > 0 {
      CountedOnRows(c, rs, Min(id, k));
    }
    if 0 <= id < k {
      assert RowsOf(c, rs)[id] == RowAt(c, rs, id);
    }
  }

  /** On a file of whole records each request acts as the list operation: inserts shift the rows
      behind them, overwrites change one row, appends add the newest, reads and rejected
      requests change nothing. */
  lemma PerformOnRows(c: seq<byte>, req: Req, rs: nat)
    requires rs > 0 && |c| % rs == 0 && RecordSize(req.entrySize) == rs
    ensures |Perform(c, req).content| % rs == 0
    ensures OnRows(RowsOf(c, rs), req, rs) == Outcome(RowsOf(Perform(c, req).content, rs), Perform(c, req).resp)
  {
    match req.kind
    case ReadInc => ReadOnRows(c, req, rs);
    case WriteInc =>
      if |req.data| == rs {
        AppendedRows(c, rs, req.data);
      }
    case WriteIncOw =>
      if |req.data| == rs {
        PositionalOnRows(c, req, rs);
      }
  }

  lemma PositionalOnRows(c: seq<byte>, req: Req, rs: nat)
    requires rs > 0 && |c| % rs == 0 && RecordSize(req.entrySize) == rs == |req.data| && req.kind == WriteIncOw
    ensures |Perform(c, req).content| % rs == 0
    ensures OnRows(RowsOf(c, rs), req, rs) == Outcome(RowsOf(Perform(c, req).content, rs), Perform(c, req).resp)
  {
    if req.readType == 0 {
      var e := InsertAt(req, Count(c, rs));
      if e.Some? {
        SplicedRows(c, rs, e.value, req.data);
      }
    } else if req.readType == 1 {
      var e := OverwriteAt(req, Count(c, rs));
      if e.Some? {
        ReplacedRows(c, rs, e.value, req.data);
      }
    }
  }
}
