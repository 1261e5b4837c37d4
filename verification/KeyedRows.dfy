/** What saving to an incremental table does to its rows and to its key index, and which saves
    keep every key on its row. */
module KeyedRows {
  import opened Bytes
  import opened IncEntry
  import opened IncFile
  import I = IncIndex

  /** A row with the key it was given, "" for none. */
  datatype Item = Item(key: string, data: seq<byte>)

  /** size is the entry size in the table's metadata, None before the first request; keys is the
      index, which knows nothing about rows behind its end. */
  datatype Table = Table(size: Option<uint64>, items: seq<Item>, keys: seq<string>)

  /** The headers of a save request and its body; a missing or unparsable id is None. */
  datatype Request = Request(header: Option<uint64>, id: Option<uint64>, mode: string, countFrom: string,
                             entryKey: string, body: seq<byte>)

  datatype Response = Saved(id: nat, warning: bool) | BadRequest | Conflict | ServerError | Panics

  predicate Overwrites(r: Request) { r.id.Some? && r.mode == "overwrite" }
  predicate Inserts(r: Request) { r.id.Some? && r.mode != "overwrite" }

  /** Anything but "bottom" counts from the top. */
  function CountFrom(r: Request): string {
    if r.countFrom != "top" && r.countFrom != "bottom" then "top" else r.countFrom
  }

  /** The entry size that a request is measured against. */
  function SizeFor(t: Table, r: Request): uint64 {
    match t.size
    case Some(s) => s
    case None => if r.header.Some? then r.header.value else 0
  }

  function FileReq(r: Request, entrySize: uint64, record: seq<byte>): Req {
    match r.id
    case None => Req(WriteInc, record, entrySize, 0, 0, "")
    case Some(id) => Req(WriteIncOw, record, entrySize, id, if Overwrites(r) then 1 else 0, CountFrom(r))
  }

  /** The row that a request writes among n rows; None when its id is out of range. */
  function Target(r: Request, n: nat): (e: Option<nat>)
    ensures e.Some? ==> e.value <= n && (Overwrites(r) ==> e.value < n) && (r.id.None? ==> e.value == n)
  {
    var req := FileReq(r, 0, []);
    if r.id.None? then Some(n) else if Overwrites(r) then OverwriteAt(req, n) else InsertAt(req, n)
  }

  /** Requests turned away before anything is written. */
  function Refusal(t: Table, r: Request): Option<Response> {
    if r.entryKey != "" && !Overwrites(r) && r.entryKey in t.keys then Some(Conflict)
    else if |r.body| > ToInt64(SizeFor(t, r)) then Some(BadRequest)
    else if SizeFor(t, r) > MAX_ENTRY_SIZE || Target(r, |t.items|).None? then Some(Panics)
    else None
  }

  predicate HeldElsewhere(keys: seq<string>, key: string, e: nat) {
    key != "" && exists i :: 0 <= i < |keys| && i != e && keys[i] == key
  }

  /** The table after the row was written and the index was updated. */
  function Written(t: Table, r: Request, e: nat): Table
    requires Target(r, |t.items|) == Some(e)
  {
    var items, keys, key := t.items, t.keys, r.entryKey;
    if Overwrites(r) then
      if HeldElsewhere(keys, key, e) then
        t.(items := items[e := Item(items[e].key, r.body)], keys := I.Extended(keys, e + 1))
      else if key == "" then t.(items := items[e := Item(items[e].key, r.body)])
      else t.(items := items[e := Item(key, r.body)], keys := I.Renamed(keys, e, key))
    else
      t.(items := items[..e] + [Item(key, r.body)] + items[e..],
         keys := if key == "" then keys else I.Inserted(keys, e, key))
  }

  function SaveTo(t: Table, r: Request): (Table, Response) {
    var s := t.(size := Some(SizeFor(t, r)));
    match Refusal(t, r)
    case Some(o) => (s, o)
    case None =>
      var e := Target(r, |t.items|).value;
      (Written(s, r, e),
       if Overwrites(r) && HeldElsewhere(t.keys, r.entryKey, e) then Conflict
       else Saved(e, t.size.Some? && r.header.Some? && r.header.value != SizeFor(t, r)))
  }

  // ---- What the answer of a save means ----

  /** The id of a saved row says which row was written: counted from the end that the header names, the
      top if it names none, by the number of rows before it, the new one included; without an id it is
      the last row. Only an overwrite keeps the number of rows. */
  lemma SavedId(t: Table, r: Request)
    requires SaveTo(t, r).1.Saved?
    ensures var e, n := SaveTo(t, r).1.id, |SaveTo(t, r).0.items|;
            && n == |t.items| + (if r.id.Some? && r.mode == "overwrite" then 0 else 1)
            && e < n
            && (r.id.Some? ==> if r.countFrom == "bottom" then e == r.id.value else n - 1 - e == r.id.value)
            && (r.id.None? ==> e == n - 1)
  {
    TopInAnyCase(CountFrom(r));
  }

  /** The saved row has the body; a new row has the key, an overwritten one takes it if there is one; the
      other rows are as they were, those behind a new row one place later. */
  lemma SavedRows(t: Table, r: Request, i: nat)
    requires SaveTo(t, r).1.Saved? && i < |SaveTo(t, r).0.items|
    ensures var e, items, over := SaveTo(t, r).1.id, SaveTo(t, r).0.items, r.id.Some? && r.mode == "overwrite";
            && (i == e ==> items[i].data == r.body)
            && (i == e && (r.entryKey != "" || !over) ==> items[i].key == r.entryKey)
            && (i == e && over && r.entryKey == "" ==> items[i].key == t.items[i].key)
            && (i < e || (i > e && over) ==> items[i] == t.items[i])
            && (i > e && !over ==> items[i] == t.items[i - 1])
  {
  }

  /** The keys of the index after a save: the key of the row that was written is put or replaced at its
      place, and without a key nothing changes. */
  lemma SavedKeys(t: Table, r: Request, i: nat)
    requires SaveTo(t, r).1.Saved?
    ensures var e, keys, over := SaveTo(t, r).1.id, SaveTo(t, r).0.keys, r.id.Some? && r.mode == "overwrite";
            && (r.entryKey == "" ==> keys == t.keys)
            && (r.entryKey != "" ==> e < |keys| && keys[e] == r.entryKey)
            && (r.entryKey != "" && over && i != e && i < |t.keys| ==> i < |keys| && keys[i] == t.keys[i])
            && (r.entryKey != "" && !over && i < |t.keys| ==>
                  (if i < e then i else i + 1) < |keys| && keys[if i < e then i else i + 1] == t.keys[i])
  {
  }

  /** The entry size is fixed by the first request, and whoever asks for another one later is warned. */
  lemma SavedSize(t: Table, r: Request)
    ensures t.size.Some? ==> SaveTo(t, r).0.size == t.size
    ensures t.size.None? ==> SaveTo(t, r).0.size == Some(if r.header.Some? then r.header.value else 0)
    ensures SaveTo(t, r).1.Saved? ==>
              (SaveTo(t, r).1.warning <==> t.size.Some? && r.header.Some? && r.header != t.size)
  {
  }

  /** When a save answers with a conflict: a new row brings a key that is there already, or an overwritten
      one, after all other checks, the key of another row. */
  lemma ConflictExactly(t: Table, r: Request)
    requires t.size.Some? && t.size.value <= MAX_ENTRY_SIZE
    ensures var over, n := r.id.Some? && r.mode == "overwrite", |t.items|;
            SaveTo(t, r).1 == Conflict <==>
            && r.entryKey != ""
            && if !over then r.entryKey in t.keys
               else
                 && |r.body| <= t.size.value && r.id.value < n && r.id.value < 0x8000_0000_0000_0000
                 && exists i :: 0 <= i < |t.keys| && t.keys[i] == r.entryKey
                                && i != if r.countFrom == "bottom" then r.id.value else n - 1 - r.id.value
  {
    TopInAnyCase(CountFrom(r));
  }

  /** When a save answers that the body is too long. */
  lemma TooLongExactly(t: Table, r: Request)
    requires t.size.Some? && t.size.value <= MAX_ENTRY_SIZE
    ensures SaveTo(t, r).1 == BadRequest <==>
            |r.body| > t.size.value
            && !(r.entryKey != "" && !(r.id.Some? && r.mode == "overwrite") && r.entryKey in t.keys)
  {
  }

  // ---- What a save that does not succeed leaves behind ----

  /** A save panics exactly when it passes the checks of key and length and then either its id
      names no row or the record would be too long to allocate. */
  lemma PanicsExactly(t: Table, r: Request)
    ensures SaveTo(t, r).1 == Panics <==>
            && !(r.entryKey != "" && !Overwrites(r) && r.entryKey in t.keys)
            && |r.body| <= ToInt64(SizeFor(t, r))
            && (SizeFor(t, r) > MAX_ENTRY_SIZE
                || (r.id.Some? && !(0 <= ToInt64(r.id.value) < |t.items| + if Overwrites(r) then 0 else 1)))
  {
  }

  /** Overwriting a row that does not exist. */
  lemma BadIdPanics(t: Table, body: seq<byte>)
    requires t.size.Some? && |body| <= t.size.value <= MAX_ENTRY_SIZE && |t.items| < TWO_63
    ensures SaveTo(t, Request(None, Some(|t.items|), "overwrite", "bottom", "", body)).1 == Panics
  {
    PanicsExactly(t, Request(None, Some(|t.items|), "overwrite", "bottom", "", body));
  }

  /** A save that does not succeed leaves the rows as they were exactly when it was turned away
      before the write, or wrote what the row held already. */
  lemma RefusedUnchangedExactly(t: Table, r: Request)
    requires !SaveTo(t, r).1.Saved?
    ensures SaveTo(t, r).0.items == t.items <==>
            (Refusal(t, r).None? ==> t.items[Target(r, |t.items|).value].data == r.body)
  {
    if Refusal(t, r).None? {
      var e := Target(r, |t.items|).value;
      assert SaveTo(t, r).0.items[e].data == r.body;
      assert t.items[e := t.items[e]] == t.items;
    }
  }

  /** Giving row 0 the key of row 1: a conflict is reported, and the data is gone. */
  lemma ConflictAfterWrite(a: seq<byte>, b: seq<byte>, body: seq<byte>, size: EntrySize)
    requires |body| <= size
    ensures var t := Table(Some(size), [Item("a", a), Item("b", b)], ["a", "b"]);
            var r := Request(None, Some(0), "overwrite", "bottom", "b", body);
            Indexed(t) && SaveTo(t, r).1 == Conflict && SaveTo(t, r).0.items == [Item("a", body), Item("b", b)]
  {
    var t := Table(Some(size), [Item("a", a), Item("b", b)], ["a", "b"]);
    assert t.keys[1] == "b" && HeldElsewhere(t.keys, "b", 0);
  }

  // ---- Keys stay on their rows ----

  ghost predicate NoRepeat(keys: seq<string>) {
    forall i, j :: 0 <= i < j < |keys| && keys[i] == keys[j] ==> keys[i] == ""
  }

  /** No key twice, and no key behind the last row. */
  ghost predicate Indexed(t: Table) {
    |t.keys| <= |t.items| && NoRepeat(t.keys)
  }

  /** The index names exactly the rows that were given a key, each by its key. */
  ghost predicate Bound(t: Table) {
    Indexed(t) && forall i :: 0 <= i < |t.items| ==> t.items[i].key == if i < |t.keys| then t.keys[i] else ""
  }

  /** A row without key that is inserted in front of a row with key: the one save that shifts
      rows and not the index. */
  predicate Displaces(t: Table, r: Request) {
    Refusal(t, r).None? && Inserts(r) && r.entryKey == ""
    && exists i :: Target(r, |t.items|).value <= i < |t.keys| && t.keys[i] != ""
  }

  lemma InsertedNoRepeat(keys: seq<string>, e: nat, key: string)
    requires NoRepeat(keys) && key !in keys
    ensures NoRepeat(I.Inserted(keys, e, key))
  {
    var x, k := I.Extended(keys, e), I.Inserted(keys, e, key);
    forall i, j | 0 <= i < j < |k| && k[i] == k[j] ensures k[i] == "" {
      assert i != e ==> k[i] == x[if i < e then i else i - 1];
      assert j != e ==> k[j] == x[if j < e then j else j - 1];
    }
  }

  lemma SaveKeepsIndexed(t: Table, r: Request)
    requires Indexed(t)
    ensures Indexed(SaveTo(t, r).0)
  {
    if Refusal(t, r).None? && !Overwrites(r) && r.entryKey != "" {
      InsertedNoRepeat(t.keys, Target(r, |t.items|).value, r.entryKey);
    }
  }

  lemma InsertKeepsBound(t: Table, r: Request)
    requires Bound(t) && Refusal(t, r).None? && !Overwrites(r) && !Displaces(t, r)
    ensures Bound(SaveTo(t, r).0)
  {
    SaveKeepsIndexed(t, r);
    var e, u := Target(r, |t.items|).value, SaveTo(t, r).0;
    var x := I.Extended(t.keys, e);
    forall i | 0 <= i < |u.items| ensures u.items[i].key == if i < |u.keys| then u.keys[i] else "" {
      if i > e {
        assert u.items[i] == t.items[i - 1];
        assert r.entryKey != "" && i < |u.keys| ==> u.keys[i] == x[i - 1];
      }
    }
  }

  lemma OverwriteKeepsBound(t: Table, r: Request)
    requires Bound(t) && Refusal(t, r).None? && Overwrites(r)
    ensures Bound(SaveTo(t, r).0)
  {
    SaveKeepsIndexed(t, r);
  }

  /** A row without key in front of the last key breaks the binding. */
  lemma DisplacedIsUnbound(t: Table, r: Request)
    requires Bound(t) && Displaces(t, r)
    ensures !Bound(SaveTo(t, r).0)
  {
    var e, u := Target(r, |t.items|).value, SaveTo(t, r).0;
    var i :| e <= i < |t.keys| && t.keys[i] != "";
    assert u.items[i + 1] == t.items[i];
    assert u.keys == t.keys;
  }

  /** One save keeps the keys on their rows exactly when it does not displace one. */
  lemma SaveKeepsBoundExactly(t: Table, r: Request)
    requires Bound(t)
    ensures Bound(SaveTo(t, r).0) <==> !Displaces(t, r)
  {
    if Displaces(t, r) {
      DisplacedIsUnbound(t, r);
    } else if Refusal(t, r).None? {
      if Overwrites(r) {
        OverwriteKeepsBound(t, r);
      } else {
        InsertKeepsBound(t, r);
      }
    }
  }

  ghost function Run(t: Table, rs: seq<Request>): Table {
    if rs == [] then t else SaveTo(Run(t, rs[..|rs| - 1]), rs[|rs| - 1]).0
  }

  /** Over any run of appends, inserts and overwrites of which none displaces a key, refused ones
      included. */
  lemma {:induction false} RunKeepsBound(t: Table, rs: seq<Request>)
    requires Bound(t)
    requires forall k :: 0 <= k < |rs| ==> !Displaces(Run(t, rs[..k]), rs[k])
    ensures Bound(Run(t, rs))
  {
    if rs != [] {
      var n := |rs| - 1;
      forall k | 0 <= k < n ensures !Displaces(Run(t, rs[..n][..k]), rs[..n][k]) {
        assert rs[..n][..k] == rs[..k];
      }
      RunKeepsBound(t, rs[..n]);
      SaveKeepsBoundExactly(Run(t, rs[..n]), rs[n]);
    }
  }

  /** What by_key answers: the row at the index position of the key. */
  ghost function ByKey(t: Table, key: string): Option<seq<byte>>
    requires Indexed(t)
  {
    if key != "" && key in t.keys then
      var i :| 0 <= i < |t.keys| && t.keys[i] == key;
      Some(t.items[i].data)
    else None
  }

  /** by_key answers with the current data of the one row that holds the key, and with nothing
      when no row holds it. */
  lemma ByKeyFindsRow(t: Table, key: string)
    requires Bound(t) && key != ""
    ensures ByKey(t, key).None? <==> forall i :: 0 <= i < |t.items| ==> t.items[i].key != key
    ensures forall i :: 0 <= i < |t.items| && t.items[i].key == key ==> ByKey(t, key) == Some(t.items[i].data)
  {
    forall i | 0 <= i < |t.items| && t.items[i].key == key
        ensures i < |t.keys| && t.keys[i] == key && ByKey(t, key) == Some(t.items[i].data) {
    }
    if key in t.keys {
      var i :| 0 <= i < |t.keys| && t.keys[i] == key;
      assert t.items[i].key == key;
    }
  }

  /** Where a row that is not written is afterwards. */
  lemma RowMoves(t: Table, r: Request, i: nat) returns (j: nat)
    requires i < |t.items|
    requires Refusal(t, r).Some? || !Overwrites(r) || Target(r, |t.items|) != Some(i)
    ensures j < |SaveTo(t, r).0.items| && SaveTo(t, r).0.items[j] == t.items[i]
  {
    j := i;
    if Refusal(t, r).None? && !Overwrites(r) && i >= Target(r, |t.items|).value {
      j := i + 1;
    }
  }

  lemma OtherRowKept(t: Table, r: Request, i: nat)
    requires Bound(t) && !Displaces(t, r) && i < |t.items| && t.items[i].key != ""
    requires Refusal(t, r).Some? || !Overwrites(r) || Target(r, |t.items|) != Some(i)
    ensures Bound(SaveTo(t, r).0) && ByKey(SaveTo(t, r).0, t.items[i].key) == Some(t.items[i].data)
  {
    var j := RowMoves(t, r, i);
    SaveKeepsBoundExactly(t, r);
    ByKeyFindsRow(SaveTo(t, r).0, t.items[i].key);
    assert SaveTo(t, r).0.items[j] == t.items[i];
  }

  lemma OverwrittenRow(t: Table, r: Request, i: nat)
    requires Bound(t) && i < |t.items| && t.items[i].key != ""
    requires Refusal(t, r).None? && Overwrites(r) && Target(r, |t.items|) == Some(i)
    ensures var u, o := SaveTo(t, r).0, SaveTo(t, r).1;
            Bound(u)
            && ByKey(u, t.items[i].key)
               == if o.Saved? && r.entryKey !in ["", t.items[i].key] then None else Some(r.body)
  {
    var key, u := t.items[i].key, SaveTo(t, r).0;
    SaveKeepsBoundExactly(t, r);
    ByKeyFindsRow(u, key);
    assert u.items[i].data == r.body;
    if u.items[i].key != key {
      assert forall j :: 0 <= j < |t.items| && j != i ==> t.items[j].key != key;
    }
  }

  /** The data that by_key answers with changes only for the key of an overwritten row: inserts
      shift the other rows, but each key still leads to its own. */
  lemma SaveChangesOneKey(t: Table, r: Request, i: nat)
    requires Bound(t) && !Displaces(t, r) && i < |t.items| && t.items[i].key != ""
    ensures var key, u, o := t.items[i].key, SaveTo(t, r).0, SaveTo(t, r).1;
            Bound(u)
            && ByKey(u, key) == if Refusal(t, r).None? && Overwrites(r) && Target(r, |t.items|) == Some(i) then
                                  if o.Saved? && r.entryKey !in ["", key] then None else Some(r.body)
                                else Some(t.items[i].data)
  {
    if Refusal(t, r).None? && Overwrites(r) && Target(r, |t.items|) == Some(i) {
      OverwrittenRow(t, r, i);
    } else {
      OtherRowKept(t, r, i);
    }
  }

  /** A saved row is found under the key it was given. */
  lemma SavedKeyIsFound(t: Table, r: Request)
    requires Bound(t) && !Displaces(t, r) && r.entryKey != "" && SaveTo(t, r).1.Saved?
    ensures Bound(SaveTo(t, r).0) && ByKey(SaveTo(t, r).0, r.entryKey) == Some(r.body)
  {
    var u, e := SaveTo(t, r).0, Target(r, |t.items|).value;
    SaveKeepsBoundExactly(t, r);
    ByKeyFindsRow(u, r.entryKey);
    assert u.items[e] == Item(r.entryKey, r.body);
  }

  /** A restart reads the keys from disk, which may lack empty ones at the end: no key moves. */
  lemma RestartKeepsBound(t: Table, disk: seq<string>, key: string)
    requires Bound(t) && |disk| <= |t.keys| && I.Extended(disk, |t.keys|) == t.keys
    ensures Bound(t.(keys := disk)) && ByKey(t.(keys := disk), key) == ByKey(t, key)
  {
    var u := t.(keys := disk);
    assert forall i :: 0 <= i < |disk| ==> t.keys[i] == disk[i];
    assert forall i :: |disk| <= i < |t.keys| ==> t.keys[i] == "";
    if key != "" {
      ByKeyFindsRow(t, key);
      ByKeyFindsRow(u, key);
    }
  }
}
