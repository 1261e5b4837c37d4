/** An incremental table behind its handlers: metadata, rows file and key index together. */
module IncTable {
  import opened Bytes
  import opened Files
  import opened IncEntry
  import opened IncFile
  import R = IncRead
  import opened IncRows
  import opened KeyedRows
  import I = IncIndex
  import M = IncMeta

  /** The file holds one record for each item. */
  ghost predicate Holds(c: seq<byte>, entrySize: nat, items: seq<Item>) {
    && |c| % (entrySize + 3) == 0 && Count(c, entrySize + 3) == |items|
    && forall i :: 0 <= i < |items| ==> HoldsAt(c, entrySize, i, items[i].data)
  }

  ghost predicate HoldsAt(c: seq<byte>, entrySize: nat, i: nat, data: seq<byte>)
    requires i < Count(c, entrySize + 3)
  {
    |data| <= entrySize && RowAt(c, entrySize + 3, i) == Record(entrySize, data)
  }

  /** The rows of the file, as records, after a row was written among them. */
  ghost function Rewritten(rows: seq<Row>, r: Request, e: nat, row: Row): seq<Row>
    requires Target(r, |rows|) == Some(e)
  {
    if Overwrites(r) then rows[e := row] else rows[..e] + [row] + rows[e..]
  }

  lemma WriteRow(c: seq<byte>, entrySize: EntrySize, r: Request, record: Row)
    requires |c| % (entrySize + 3) == 0 && |record| == entrySize + 3
    ensures var rs := entrySize + 3;
            var d := Perform(c, FileReq(r, entrySize, record));
            match Target(r, Count(c, rs))
            case None => d.resp.Failed? && d.content == c
            case Some(e) => d.resp == IdReply(e, rs) && |d.content| % rs == 0
                            && RowsOf(d.content, rs) == Rewritten(RowsOf(c, rs), r, e, record)
  {
    var rs, req := entrySize + 3, FileReq(r, entrySize, record);
    PerformOnRows(c, req, rs);
    var rows := RowsOf(c, rs);
    assert rows[..|rows|] + [record] + rows[|rows|..] == rows + [record];
  }

  lemma HoldsAfterAt(c: seq<byte>, f: seq<byte>, t: Table, r: Request, e: nat, entrySize: EntrySize, i: nat)
    requires Holds(c, entrySize, t.items) && |r.body| <= entrySize && Target(r, |t.items|) == Some(e)
    requires |f| % (entrySize + 3) == 0
    requires RowsOf(f, entrySize + 3) == Rewritten(RowsOf(c, entrySize + 3), r, e, Record(entrySize, r.body))
    requires i < |Written(t, r, e).items| == |RowsOf(f, entrySize + 3)|
    ensures HoldsAt(f, entrySize, i, Written(t, r, e).items[i].data)
  {
    var rs := entrySize + 3;
    assert RowsOf(f, rs)[i] == RowAt(f, rs, i);
    if i != e {
      var j := if Overwrites(r) || i < e then i else i - 1;
      assert HoldsAt(c, entrySize, j, t.items[j].data) && RowsOf(c, rs)[j] == RowAt(c, rs, j);
    }
  }

  lemma HoldsAfter(c: seq<byte>, f: seq<byte>, t: Table, r: Request, e: nat, entrySize: EntrySize)
    requires Holds(c, entrySize, t.items) && |r.body| <= entrySize && Target(r, |t.items|) == Some(e)
    requires |f| % (entrySize + 3) == 0
    requires RowsOf(f, entrySize + 3) == Rewritten(RowsOf(c, entrySize + 3), r, e, Record(entrySize, r.body))
    ensures Holds(f, entrySize, Written(t, r, e).items)
  {
    var items := Written(t, r, e).items;
    assert |RowsOf(f, entrySize + 3)| == |items|;
    forall i | 0 <= i < |items| ensures HoldsAt(f, entrySize, i, items[i].data) {
      HoldsAfterAt(c, f, t, r, e, entrySize, i);
    }
  }

  datatype Answer = Found(data: seq<byte>) | NotFound | BadRequest | ServerError

  class IncTable {
    const meta: M.MetaStore
    const key: string
    const file: DataFile
    var index: I.IncIndex
    ghost var items: seq<Item>

    /** The entry size in the metadata, if there is any. */
    ghost function Size(): Option<uint64>
      reads meta`sizes
    {
      if key in meta.sizes then Some(meta.sizes[key]) else None
    }

    ghost function State(): Table
      reads this, index, meta`sizes
    {
      Table(Size(), items, index.keys)
    }

    ghost predicate RowsStored()
      reads meta`sizes, this`items, file
    {
      if Size().Some? && Size().value <= MAX_ENTRY_SIZE then Holds(file.content, Size().value, items)
      else file.content == [] && items == []
    }

    ghost predicate RowsValid()
      reads this, file, index, meta`sizes
    {
      RowsStored() && index.Valid() && |index.keys| <= |items|
    }

    /** The rows are in a file of their own. */
    ghost predicate Valid()
      reads this, file, index, meta.Footprint()
    {
      meta.Valid() && meta.Reserved(key) && file != meta.kv.file && RowsValid()
    }

    /** No table yet. */
    constructor (meta: M.MetaStore, key: string)
      requires meta.Valid() && meta.Reserved(key) && key !in meta.sizes
      ensures Valid() && this.meta == meta && this.key == key && State() == Table(None, [], [])
      ensures fresh(file) && fresh(index)
    {
      this.meta, this.key := meta, key;
      file := new DataFile();
      index := new I.IncIndex();
      items := [];
    }

    /** The entry size in the metadata, which the first request creates, and whether the request
        asked for another one. */
    method OpenOrCreate(r: Request) returns (entrySize: uint64, warning: bool)
      requires meta.Valid() && meta.Reserved(key)
      modifies meta.Footprint()
      ensures meta.Valid() && meta.Reserved(key) && Size() == Some(entrySize)
      ensures entrySize == if old(Size()).Some? then old(Size()).value
                           else if r.header.Some? then r.header.value else 0
      ensures warning <==> old(Size()).Some? && r.header.Some? && r.header.value != entrySize
      ensures meta.sizes == old(meta.sizes)[key := entrySize]
      ensures meta.kv.values - {key} == old(meta.kv.values) - {key}
    {
      var found := meta.Exists(key);
      if !found {
        entrySize := if r.header.Some? then r.header.value else 0;
        meta.Create(key, entrySize);
        warning := false;
      } else {
        entrySize := meta.EntrySize(key);
        warning := r.header.Some? && r.header.value != entrySize;
      }
    }

    /** Writes the encoded body and reads the row's id from the response; None is the panic on the
        missing id of a failed response. */
    method WriteEntry(r: Request, entrySize: EntrySize) returns (id: Option<nat>)
      requires RowsValid() && Size() == Some(entrySize) && |r.body| <= entrySize && |file.content| < TWO_63
      modifies file
      ensures id == Target(r, |items|)
      ensures id.None? ==> file.content == old(file.content)
      ensures id.Some? ==> Holds(file.content, entrySize, Written(old(State()), r, id.value).items)
    {
      ghost var c := file.content;
      var buf, _ := EncodeIncEntry(entrySize, r.body);
      WriteRow(c, entrySize, r, buf[..]);
      var req := FileReq(r, entrySize, buf[..]);
      var resp;
      if r.id.None? {
        resp := DoAppend(file, req);
      } else {
        resp := DoPositional(file, req);
      }
      if resp.Failed? {
        return None;
      }
      ghost var e := Target(r, |items|).value;
      IdFits(c, entrySize + 3, e);
      HoldsAfter(c, file.content, State(), r, e, entrySize);
      id := Some(FromLE(resp.data));
    }

    /** Records the key of the row that was just written. */
    method IndexEntry(r: Request, e: nat) returns (err: Option<I.Error>)
      requires index.Valid() && |index.keys| <= |items| && Target(r, |items|) == Some(e)
      requires !Overwrites(r) && r.entryKey != "" ==> r.entryKey !in index.keys
      modifies index
      ensures index.Valid() && index.keys == Written(old(State()), r, e).keys
      ensures err.Some? <==> Overwrites(r) && HeldElsewhere(old(index.keys), r.entryKey, e)
    {
      Held(index, r.entryKey, e);
      if Overwrites(r) {
        err := index.Set(e, r.entryKey);
      } else {
        err := index.Insert(e, r.entryKey);
      }
    }

    /** A row that needs a new place in the index must not bring a key that is there already. */
    method KeyTaken(r: Request) returns (taken: bool)
      requires index.Valid()
      ensures taken <==> r.entryKey != "" && !Overwrites(r) && r.entryKey in index.keys
    {
      taken := false;
      if r.entryKey != "" && !Overwrites(r) {
        var pos := index.Lookup(r.entryKey);
        taken := pos.Some?;
      }
    }

    /** A table that was just created has no rows. */
    method Open(r: Request) returns (entrySize: uint64, warning: bool)
      requires Valid()
      modifies meta.Footprint()
      ensures Valid() && entrySize == SizeFor(old(State()), r) && State() == old(State()).(size := Some(entrySize))
      ensures warning <==> old(Size()).Some? && r.header.Some? && r.header.value != entrySize
      ensures meta.sizes == old(meta.sizes)[key := entrySize]
      ensures meta.kv.values - {key} == old(meta.kv.values) - {key}
    {
      entrySize, warning := OpenOrCreate(r);
      EmptyHolds(entrySize);
    }

    method SaveIncremental(r: Request) returns (o: Response)
      requires Valid() && |file.content| < TWO_63
      modifies meta.Footprint(), this`items, file, index
      ensures Valid() && (State(), o) == SaveTo(old(State()), r)
      ensures meta.sizes - {key} == old(meta.sizes) - {key} && meta.kv.values - {key} == old(meta.kv.values) - {key}
    {
      ghost var t := State();
      var entrySize, warning := Open(r);
      o := SaveRow(r, entrySize, warning, t);
    }

    method SaveRow(r: Request, entrySize: uint64, warning: bool, ghost t: Table) returns (o: Response)
      requires Valid() && |file.content| < TWO_63 && Size() == Some(entrySize)
      requires State() == t.(size := Some(entrySize)) && entrySize == SizeFor(t, r)
      requires warning <==> t.size.Some? && r.header.Some? && r.header.value != entrySize
      modifies this`items, file, index
      ensures Valid() && (State(), o) == SaveTo(t, r)
    {
      o := SaveOpened(r, entrySize, warning, t);
    }

    /** The part that needs no metadata any more. */
    method SaveOpened(r: Request, entrySize: uint64, warning: bool, ghost t: Table) returns (o: Response)
      requires RowsValid() && |file.content| < TWO_63 && Size() == Some(entrySize)
      requires State() == t.(size := Some(entrySize)) && entrySize == SizeFor(t, r)
      requires warning <==> t.size.Some? && r.header.Some? && r.header.value != entrySize
      modifies this`items, file, index
      ensures RowsValid() && (State(), o) == SaveTo(t, r)
    {
      var taken := KeyTaken(r);
      if taken {
        return Conflict;
      }
      if |r.body| > ToInt64(entrySize) {
        return Response.BadRequest;
      }
      if entrySize > MAX_ENTRY_SIZE {
        return Response.Panics;
      }
      var id := WriteEntry(r, entrySize);
      if id.None? {
        return Response.Panics;
      }
      ghost var s := State();
      var err := IndexEntry(r, id.value);
      items := Written(s, r, id.value).items;
      o := if err.Some? then Conflict else Saved(id.value, warning);
    }

    /** by_key: the position of the key in the index, then that row, decoded. */
    method ReadByKey(entryKey: string) returns (a: Answer)
      requires Valid() && |file.content| < TWO_63
      ensures a == if entryKey == "" || Size().None? then Answer.BadRequest
                   else if ByKey(State(), entryKey).Some? then Found(ByKey(State(), entryKey).value) else NotFound
      ensures entryKey != "" && Size().Some? ==>
                && (a == NotFound <==> entryKey !in index.keys)
                && forall i :: 0 <= i < |index.keys| && index.keys[i] == entryKey ==> a == Found(items[i].data)
    {
      if entryKey == "" {
        return Answer.BadRequest;
      }
      var found := meta.Exists(key);
      if !found {
        return Answer.BadRequest;
      }
      var entrySize := meta.EntrySize(key);
      var pos := index.Lookup(entryKey);
      if pos.None? {
        return NotFound;
      }
      ItemsFit(file.content, Size(), items);
      a := ReadById(entrySize, pos.value);
    }

    method ReadById(entrySize: uint64, id: uint64) returns (a: Answer)
      requires RowsValid() && Size() == Some(entrySize) && |file.content| < TWO_63
      ensures a == if id < |items| then Found(items[id].data) else NotFound
    {
      ItemsFit(file.content, Size(), items);
      var resp := DoRead(file, Req(ReadInc, [], entrySize, id, 0, ""));
      if resp.Failed? || resp.data == [] {
        return NotFound;
      }
      assert HoldsAt(file.content, entrySize, id, items[id].data);
      RecordRoundTrip(entrySize, items[id].data);
      var entry := DecodeIncEntry(entrySize, resp.data);
      if entry.Err? {
        return Answer.ServerError;
      }
      a := Found(entry.value.data);
    }

    /** first_entries and last_entries: the oldest items, oldest first, or the newest, newest first. */
    method ReadMany(first: bool, amount: uint64) returns (r: Result<seq<R.Entry>, Answer>)
      requires Valid()
      ensures r.Ok? ==> |r.value| <= |items|
      ensures r.Ok? && 0 < amount < 0x8000_0000_0000_0000 ==>
                |r.value| <= amount && (|r.value| == amount || |r.value| == |items|)
      ensures r.Ok? && (amount == 0 || amount >= 0x8000_0000_0000_0000) ==> r.value == []
      ensures r.Ok? ==> forall i :: 0 <= i < |r.value| ==>
                          r.value[i].id == i && r.value[i].data == items[if first then i else |items| - 1 - i].data
      ensures r == if Size().None? then Err(Answer.BadRequest)
                   else if RecordSize(Size().value) <= 0 then Err(Answer.ServerError)
                   else
                     var n := R.Amount(amount, |items|);
                     Ok(Entries(if first then items[..n] else NewestItems(items, n)))
    {
      var found := meta.Exists(key);
      if !found {
        return Err(Answer.BadRequest);
      }
      var entrySize := meta.EntrySize(key);
      r := ReadRows(first, amount, entrySize);
    }

    /** The items of a counted read of the file. */
    method ReadRows(first: bool, amount: uint64, entrySize: uint64) returns (r: Result<seq<R.Entry>, Answer>)
      requires RowsValid() && Size() == Some(entrySize)
      ensures r == if RecordSize(entrySize) <= 0 then Err(Answer.ServerError)
                   else
                     var n := R.Amount(amount, |items|);
                     Ok(Entries(if first then items[..n] else NewestItems(items, n)))
    {
      ghost var rs, n := RecordSize(entrySize), R.Amount(amount, |items|);
      var read;
      if first {
        if rs > 0 {
          ListsFirst(file.content, entrySize, items, n);
        }
        read := R.FirstEntries(file, entrySize, amount);
      } else {
        if rs > 0 {
          ListsNewest(file.content, entrySize, items, n);
        }
        read := R.LastEntries(file, entrySize, amount);
      }
      r := if read.Err? then Err(Answer.ServerError) else Ok(read.value);
    }

    /** delete_inc: the file is emptied, the index and the metadata are dropped. */
    method DeleteIncremental() returns (found: bool)
      requires Valid()
      modifies meta.Footprint(), this`items, this`index, file
      ensures Valid() && (index == old(index) || fresh(index))
      ensures found == old(Size()).Some?
      ensures State() == if found then Table(None, [], []) else old(State())
      ensures meta.sizes == old(meta.sizes) - {key} && meta.kv.values - {key} == old(meta.kv.values) - {key}
    {
      found := meta.Exists(key);
      if found {
        var _ := meta.EntrySize(key);
        DropRows();
        DropMeta();
      }
    }

    /** An emptied table without metadata is as good as new. */
    method DropMeta()
      requires meta.Valid() && meta.Reserved(key) && key in meta.sizes && file != meta.kv.file
      requires index.Valid() && file.content == [] && items == [] && index.keys == []
      modifies meta.Footprint()
      ensures Valid() && State() == Table(None, [], []) && meta.sizes == old(meta.sizes) - {key}
      ensures meta.kv.values - {key} == old(meta.kv.values) - {key}
    {
      meta.Drop(key);
    }

    method DropRows()
      requires RowsValid()
      modifies this`items, this`index, file
      ensures index.Valid() && fresh(index) && file.content == [] && items == [] && index.keys == []
    {
      file.Truncate(0);
      index := new I.IncIndex();
      items := [];
    }
  }

  ghost function Entries(items: seq<Item>): (r: seq<R.Entry>)
    ensures |r| == |items| && forall i :: 0 <= i < |r| ==> r[i].id == i && r[i].data == items[i].data
  {
    seq(|items|, i requires 0 <= i < |items| => R.Entry(i, items[i].data))
  }

  ghost function NewestItems(items: seq<Item>, n: nat): (r: seq<Item>)
    requires n <= |items|
    ensures |r| == n && forall i :: 0 <= i < n ==> r[i] == items[|items| - 1 - i]
  {
    seq(n, i requires 0 <= i < n => items[|items| - 1 - i])
  }

  /** Records of items list as these items: none is skipped. */
  lemma {:induction false} RecordsList(entrySize: EntrySize, rows: seq<Row>, items: seq<Item>)
    requires |rows| == |items|
    requires forall i :: 0 <= i < |rows| ==> |items[i].data| <= entrySize && rows[i] == Record(entrySize, items[i].data)
    ensures R.Listed(entrySize, rows) == Entries(items)
  {
    if rows != [] {
      var n := |rows| - 1;
      RecordsList(entrySize, rows[..n], items[..n]);
      RecordRoundTrip(entrySize, items[n].data);
      assert Entries(items) == Entries(items[..n]) + [R.Entry(n, items[n].data)];
    }
  }

  lemma ListsFirst(c: seq<byte>, entrySize: uint64, items: seq<Item>, n: nat)
    requires if entrySize <= MAX_ENTRY_SIZE then Holds(c, entrySize, items) else c == [] && items == []
    requires n <= |items| && RecordSize(entrySize) > 0
    ensures |RowsOf(c, RecordSize(entrySize))| == |items|
    ensures R.Listed(entrySize, RowsOf(c, RecordSize(entrySize))[..n]) == Entries(items[..n])
  {
    var rows := RowsOf(c, RecordSize(entrySize));
    assert forall i :: 0 <= i < |items| ==> HoldsAt(c, entrySize, i, items[i].data);
    if entrySize <= MAX_ENTRY_SIZE {
      RecordsList(entrySize, rows[..n], items[..n]);
    }
  }

  lemma ListsNewest(c: seq<byte>, entrySize: uint64, items: seq<Item>, n: nat)
    requires if entrySize <= MAX_ENTRY_SIZE then Holds(c, entrySize, items) else c == [] && items == []
    requires n <= |items| && RecordSize(entrySize) > 0
    ensures |RowsOf(c, RecordSize(entrySize))| == |items|
    ensures R.Listed(entrySize, Newest(RowsOf(c, RecordSize(entrySize)), n)) == Entries(NewestItems(items, n))
  {
    var rows := RowsOf(c, RecordSize(entrySize));
    assert forall i :: 0 <= i < |items| ==> HoldsAt(c, entrySize, i, items[i].data);
    if entrySize <= MAX_ENTRY_SIZE {
      RecordsList(entrySize, Newest(rows, n), NewestItems(items, n));
    }
  }

  /** What RowsStored says, and that row numbers fit a signed integer. */
  lemma ItemsFit(c: seq<byte>, size: Option<uint64>, items: seq<Item>)
    requires |c| < TWO_63
    requires if size.Some? && size.value <= MAX_ENTRY_SIZE then Holds(c, size.value, items) else c == [] && items == []
    ensures |items| < TWO_63
  {
  }

  lemma EmptyHolds(entrySize: nat)
    ensures Holds([], entrySize, [])
  {
    CountOf(0, entrySize + 3, []);
  }

  /** The id of a row of a file that exists fits the eight bytes of a response. */
  lemma IdFits(c: seq<byte>, rs: nat, e: nat)
    requires rs > 0 && |c| < TWO_63 && e <= Count(c, rs)
    ensures FromLE(LE(e, 8)) == e
  {
    Widths();
    LERoundTrip(e, 8);
  }

  lemma Held(x: I.IncIndex, key: string, e: nat)
    requires x.Valid()
    ensures key != "" ==> (key in x.keys <==> key in x.positions)
    ensures HeldElsewhere(x.keys, key, e) <==> key != "" && key in x.positions && x.positions[key] != e
  {
  }
}
