/** The counted reads of an incremental table: the oldest or the newest rows, decoded, without
    those that are marked as skipped. */
module IncRead {
  import opened Bytes
  import opened Files
  import opened IncEntry
  import opened IncFile
  import opened IncRows

  datatype Entry = Entry(id: nat, data: seq<byte>)
  datatype ReadError = ReadFailed | Corrupted

  /** The entries of a list of rows: ids count all rows, skipped ones are left out. */
  ghost function Listed(entrySize: uint64, rows: seq<Row>): seq<Entry> {
    if rows == [] then []
    else
      var n := |rows| - 1;
      Listed(entrySize, rows[..n]) + ListedRow(entrySize, rows[n], n)
  }

  ghost function ListedRow(entrySize: uint64, row: Row, i: nat): seq<Entry> {
    match Parse(entrySize, row)
    case Ok(body) => if body.skip then [] else [Entry(i, body.data)]
    case Err(_) => []
  }

  /** An entry is listed exactly when its row is not skipped, with what the row decodes to. */
  lemma {:induction false} ListedExactly(entrySize: uint64, rows: seq<Row>, e: Entry)
    ensures e in Listed(entrySize, rows)
            <==> e.id < |rows| && Parse(entrySize, rows[e.id]) == Ok(Body(e.data, false, 0))
  {
    if rows != [] {
      var n := |rows| - 1;
      ListedExactly(entrySize, rows[..n], e);
    }
  }

  lemma {:induction false} ListedAscends(entrySize: uint64, rows: seq<Row>)
    ensures forall e :: e in Listed(entrySize, rows) ==> e.id < |rows|
    ensures forall i, j :: 0 <= i < j < |Listed(entrySize, rows)| ==>
              Listed(entrySize, rows)[i].id < Listed(entrySize, rows)[j].id
  {
    if rows != [] {
      var n := |rows| - 1;
      ListedAscends(entrySize, rows[..n]);
      var l, k := Listed(entrySize, rows), Listed(entrySize, rows[..n]);
      assert forall i :: 0 <= i < |k| ==> l[i] == k[i] && k[i] in k;
      assert forall i :: |k| <= i < |l| ==> l[i].id == n;
    }
  }

  lemma ListedNext(entrySize: uint64, rows: seq<Row>, i: nat)
    requires i < |rows|
    ensures Listed(entrySize, rows[..i + 1]) == Listed(entrySize, rows[..i]) + ListedRow(entrySize, rows[i], i)
  {
    assert rows[..i + 1][..i] == rows[..i];
  }

  /** Rows of one size that were joined are found again. */
  lemma {:induction false} RowsOfConcat(rows: seq<Row>, rs: nat)
    requires rs > 0 && forall i :: 0 <= i < |rows| ==> |rows[i]| == rs
    ensures |Concat(rows)| % rs == 0 && RowsOf(Concat(rows), rs) == rows
  {
    if rows == [] {
      CountOf(0, rs, []);
    } else {
      var n := |rows| - 1;
      RowsOfConcat(rows[..n], rs);
      AppendedRows(Concat(rows[..n]), rs, rows[n]);
    }
  }

  /** Cuts what was read into rows and decodes them. */
  method ListEntries(entrySize: uint64, raw: seq<byte>) returns (r: Result<seq<Entry>, ReadError>)
    ensures r == if RecordSize(entrySize) <= 0 || |raw| % RecordSize(entrySize) != 0 then Err(Corrupted)
                 else Ok(Listed(entrySize, RowsOf(raw, RecordSize(entrySize))))
  {
    var recordSize := RecordSize(entrySize);
    if recordSize <= 0 {
      return Err(Corrupted);
    }
    if |raw| % recordSize != 0 {
      return Err(Corrupted);
    }
    ghost var rows := RowsOf(raw, recordSize);
    var count := |raw| / recordSize;
    var entries: seq<Entry> := [];
    for i := 0 to count
      invariant entries == Listed(entrySize, rows[..i])
    {
      ListedNext(entrySize, rows, i);
      var next := ListRow(entrySize, recordSize, raw, i);
      entries := entries + next;
    }
    assert rows[..count] == rows;
    r := Ok(entries);
  }

  /** One row: nothing when it is skipped. A whole row always decodes. */
  method ListRow(entrySize: uint64, recordSize: nat, raw: seq<byte>, i: nat) returns (entries: seq<Entry>)
    requires 0 < recordSize == RecordSize(entrySize) && i < Count(raw, recordSize)
    ensures entries == ListedRow(entrySize, RowsOf(raw, recordSize)[i], i)
  {
    RowBounds(i + 1, Count(raw, recordSize), recordSize);
    RowNext(i, recordSize);
    var chunk := raw[i * recordSize..i * recordSize + recordSize];
    assert chunk == RowAt(raw, recordSize, i);
    var dec := DecodeIncEntry(entrySize, chunk);
    entries := if dec.value.skip then [] else [Entry(i, dec.value.data)];
  }

  /** How many of n rows a read of amount returns: none for amounts of 2^63 or more. */
  function Amount(amount: uint64, n: nat): (m: nat)
    ensures m <= n
    ensures 0 < amount < 0x8000_0000_0000_0000 ==> m <= amount && (m == amount || m == n)
    ensures amount == 0 || amount >= 0x8000_0000_0000_0000 ==> m == 0
  {
    if ToInt64(amount) <= 0 then 0 else Min(amount, n)
  }

  lemma RawRows(c: seq<byte>, rs: nat, rows: seq<Row>)
    requires rs > 0 && forall i :: 0 <= i < |rows| ==> rows[i] in RowsOf(c, rs)
    ensures |Concat(rows)| % rs == 0 && RowsOf(Concat(rows), rs) == rows
  {
    RowsOfConcat(rows, rs);
  }

  /** What a counted read returns, cut into rows. */
  lemma FirstRaw(c: seq<byte>, req: Req)
    requires RecordSize(req.entrySize) > 0 && req.readType == 2
    ensures var rs := RecordSize(req.entrySize);
            var data := Read(c, req).data;
            |data| % rs == 0 && RowsOf(data, rs) == RowsOf(c, rs)[..Amount(req.incId, Count(c, rs))]
  {
    var rs := RecordSize(req.entrySize);
    ReadOnRows(c, req, rs);
    RawRows(c, rs, RowsOf(c, rs)[..Amount(req.incId, Count(c, rs))]);
  }

  lemma LastRaw(c: seq<byte>, req: Req)
    requires RecordSize(req.entrySize) > 0 && req.readType == 1
    ensures var rs := RecordSize(req.entrySize);
            var data := Read(c, req).data;
            |data| % rs == 0 && RowsOf(data, rs) == Newest(RowsOf(c, rs), Amount(req.incId, Count(c, rs)))
  {
    var rs := RecordSize(req.entrySize);
    ReadOnRows(c, req, rs);
    RawRows(c, rs, Newest(RowsOf(c, rs), Amount(req.incId, Count(c, rs))));
  }

  /** The oldest rows, oldest first, without the skipped ones. */
  method FirstEntries(file: DataFile, entrySize: uint64, amount: uint64) returns (r: Result<seq<Entry>, ReadError>)
    ensures var rs, c := RecordSize(entrySize), file.content;
            r == if rs <= 0 then Err(ReadFailed)
                 else Ok(Listed(entrySize, RowsOf(c, rs)[..Amount(amount, Count(c, rs))]))
  {
    var req := Req(ReadInc, [], entrySize, amount, 2, "");
    var resp := DoRead(file, req);
    if resp.Failed? {
      return Err(ReadFailed);
    }
    FirstRaw(file.content, req);
    r := ListEntries(entrySize, resp.data);
  }

  /** The newest rows, newest first, without the skipped ones; id 0 is the newest. */
  method LastEntries(file: DataFile, entrySize: uint64, amount: uint64) returns (r: Result<seq<Entry>, ReadError>)
    ensures var rs, c := RecordSize(entrySize), file.content;
            r == if rs <= 0 then Err(ReadFailed)
                 else Ok(Listed(entrySize, Newest(RowsOf(c, rs), Amount(amount, Count(c, rs)))))
  {
    var req := Req(ReadInc, [], entrySize, amount, 1, "");
    var resp := DoRead(file, req);
    if resp.Failed? {
      return Err(ReadFailed);
    }
    LastRaw(file.content, req);
    r := ListEntries(entrySize, resp.data);
  }
}
