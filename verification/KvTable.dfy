/** One table of the key-value store: Save, Free and Read over its file, index and free list. */
module KvTable {
  import opened Bytes
  import opened Codec
  import opened Wal
  import opened Files
  import opened FreeLists
  import opened KvFile
  import M = ExtentMachine
  import T = TableIndex

  type Values = map<string, seq<byte>>

  ghost predicate FramedAt(stored: map<string, M.Value>, values: Values, k: string)
    requires k in stored && k in values
  {
    |values[k]| + 2 < TWO_63 && stored[k] == Frame(values[k])
  }

  /** stored holds the frame of each value. */
  ghost predicate Framed(stored: map<string, M.Value>, values: Values) {
    && stored.Keys == values.Keys
    && forall k {:trigger FramedAt(stored, values, k)} :: k in values ==> FramedAt(stored, values, k)
  }

  lemma FramedOne(stored: map<string, M.Value>, values: Values, key: string, data: seq<byte>)
    requires Framed(stored, values) && |data| + 2 < TWO_63
    ensures Framed(stored[key := Frame(data)], values[key := data])
  {
    var s, v := stored[key := Frame(data)], values[key := data];
    forall k | k in v ensures FramedAt(s, v, k) {
      assert k != key ==> FramedAt(stored, values, k);
    }
  }

  lemma FramedLess(stored: map<string, M.Value>, values: Values, key: string)
    requires Framed(stored, values)
    ensures Framed(stored - {key}, values - {key})
  {
    forall k | k in values - {key} ensures FramedAt(stored - {key}, values - {key}, k) {
      assert FramedAt(stored, values, k);
    }
  }

  /** The free list of a state that satisfies the invariant is fit for allocation. */
  lemma InvFreeInside(s: M.State)
    requires M.Inv(s)
    ensures FreeInside(s.free, s.table, |s.file|)
  {
    forall k | k in s.free
      ensures 0 <= s.free[k].start < s.free[k].end <= |s.file|
          && s.free[k] == BlockOf(s.table, s.free[k].start, s.free[k].end)
    {
      assert M.Has(s, M.Unused(k)) && M.Good(s, M.Unused(k));
    }
    forall j, k | j in s.free && k in s.free && j != k ensures Apart(s.free[j], s.free[k]) {
      assert M.Has(s, M.Unused(j)) && M.Has(s, M.Unused(k));
    }
  }

  ghost function OneWrite(key: string, d: M.Value, taken: Option<string>): M.Step {
    M.Write([M.Req(0, key, d)], taken)
  }

  lemma OnePart(key: string, d: M.Value, c: seq<byte>)
    ensures M.Parts([M.Req(0, key, d)]) == [d]
    ensures Off([d], 1) == |d| && Off([d], 0) == 0 && Concat([d]) == d && Stacked(c, |c|, [d]) == Overwrite(c, |c|, d)
  {
    assert [d][..0] == [];
    assert Off([d], 1) == Off([d], 0) + |d|;
    assert Concat([d]) == Concat([]) + d;
  }

  ghost function Wrote(s: M.State, key: string, d: M.Value, taken: Option<string>): M.State
    requires M.Enabled(s, OneWrite(key, d, taken))
  {
    M.Next(s, OneWrite(key, d, taken))
  }

  /** The state after one undisturbed save: write, swap, and free what was replaced. */
  ghost predicate SavedAs(s: M.State, key: string, d: M.Value, taken: Option<string>, t: M.State) {
    && M.Enabled(s, OneWrite(key, d, taken))
    && M.Enabled(Wrote(s, key, d, taken), M.Swap(0))
    && var u := M.Next(Wrote(s, key, d, taken), M.Swap(0));
       if key in s.index then M.Enabled(u, M.Mark(0)) && t == M.Next(u, M.Mark(0)) else t == u
  }

  /** The block that a single write may take: a best fit, or none because none fits. */
  ghost predicate MayTake(s: M.State, d: M.Value, taken: Option<string>) {
    match taken
    case Some(k) => BestFit(s.free, |d|, s.table, k) && 0 <= s.free[k].start <= |s.file|
    case None => NoFit(s.free, |d|, s.table)
  }

  ghost function Stow(s: M.State, d: M.Value, taken: Option<string>): M.State
    requires MayTake(s, d, taken)
  {
    s.(free := if taken.Some? then s.free - {taken.value} else s.free, file := Overwrite(s.file, M.At(s, taken), d))
  }

  /** key names [start, end), and the whole extent that it named before is free, in place of the
      block that was free under this key. */
  ghost function Settle(v: M.State, key: string, d: M.Value, start: int, end: int): M.State {
    v.(index := v.index[key := Entry(v.table, start, end)], values := v.values[key := d],
       free := if key in v.index then v.free[key := BlockOf(v.table, v.index[key].start, v.index[key].end)] else v.free)
  }

  /** The state after a save. */
  ghost function SaveResult(s: M.State, key: string, d: M.Value, taken: Option<string>): M.State
    requires MayTake(s, d, taken)
  {
    Settle(Stow(s, d, taken), key, d, M.At(s, taken), M.At(s, taken) + |d|)
  }

  /** What a save changes. The key names a new extent that holds d, at the start of the block taken or
      at the end of the file; the extent that it named before is a free block under the key; everything
      else is as it was, but for the block taken. */
  lemma SaveChanges(s: M.State, key: string, d: M.Value, taken: Option<string>)
    requires MayTake(s, d, taken)
    ensures var t := SaveResult(s, key, d, taken);
            && key in t.index
            && t.index == s.index[key := t.index[key]] && t.index[key].file == s.table
            && t.index[key].start == (if taken.Some? then s.free[taken.value].start else |s.file|)
            && t.index[key].end == t.index[key].start + |d|
            && t.index[key].end <= |t.file| && t.file[t.index[key].start..t.index[key].end] == d
            && (forall i :: 0 <= i < |s.file| && !(t.index[key].start <= i < t.index[key].end) ==>
                  t.file[i] == s.file[i])
            && (key in s.index ==>
                  key in t.free && t.free[key].file == s.table
                  && t.free[key].start == s.index[key].start && t.free[key].end == s.index[key].end
                  && t.free[key].size == s.index[key].end - s.index[key].start)
            && forall k :: !(k == key && key in s.index) ==>
                 (k in t.free <==> k in s.free && taken != Some(k)) && (k in t.free ==> t.free[k] == s.free[k])
  {
  }

  lemma StowIsWrite(s: M.State, key: string, d: M.Value, taken: Option<string>)
    requires s.savers == map[] && MayTake(s, d, taken)
    ensures M.Enabled(s, OneWrite(key, d, taken))
    ensures var at := M.At(s, taken);
            Wrote(s, key, d, taken) == Stow(s, d, taken).(savers := map[0 := M.Written(key, d, at, at + |d|)])
  {
    OnePart(key, d, s.file);
    JoinOne(key, d, M.At(s, taken), taken.Some?);
  }

  /** The extent that was just written is not the one the key has, so that one gets freed. */
  lemma StowKeepsInv(s: M.State, key: string, d: M.Value, taken: Option<string>)
    requires M.Inv(s) && s.savers == map[] && MayTake(s, d, taken)
    ensures M.Enabled(s, OneWrite(key, d, taken)) && M.Inv(Wrote(s, key, d, taken))
    ensures key in s.index ==>
              s.index[key] != Entry(s.table, M.At(s, taken), M.At(s, taken) + |d|) && s.index[key].file == s.table
  {
    StowIsWrite(s, key, d, taken);
    M.StepKeepsInvExactly(s, OneWrite(key, d, taken));
    M.SameSpanUnreachable(Wrote(s, key, d, taken), 0);
    assert key in s.index ==> M.Has(s, M.Live(key)) && M.Good(s, M.Live(key));
  }

  lemma SettleIsSwapAndMark(v: M.State, key: string, d: M.Value, start: int, end: int)
    requires v.savers == map[] && (key in v.index ==> v.index[key] != Entry(v.table, start, end))
    ensures var s1 := v.(savers := map[0 := M.Written(key, d, start, end)]);
            M.Enabled(s1, M.Swap(0))
            && var u := M.Next(s1, M.Swap(0));
            if key in v.index then M.Enabled(u, M.Mark(0)) && Settle(v, key, d, start, end) == M.Next(u, M.Mark(0))
            else Settle(v, key, d, start, end) == u
  {
  }

  /** A save has the result of the three steps write, swap and mark. */
  lemma SaveIsThreeSteps(s: M.State, key: string, d: M.Value, taken: Option<string>)
    requires M.Inv(s) && s.savers == map[] && MayTake(s, d, taken)
    ensures SavedAs(s, key, d, taken, SaveResult(s, key, d, taken))
    ensures M.Inv(SaveResult(s, key, d, taken))
  {
    StowIsWrite(s, key, d, taken);
    StowKeepsInv(s, key, d, taken);
    SettleIsSwapAndMark(Stow(s, d, taken), key, d, M.At(s, taken), M.At(s, taken) + |d|);
    SavedKeepsInv(s, key, d, taken, SaveResult(s, key, d, taken));
  }

  lemma SavedKeepsInv(s: M.State, key: string, d: M.Value, taken: Option<string>, t: M.State)
    requires M.Inv(s) && SavedAs(s, key, d, taken, t)
    ensures M.Inv(t)
  {
    var s1 := Wrote(s, key, d, taken);
    M.StepKeepsInvExactly(s, OneWrite(key, d, taken));
    M.StepKeepsInvExactly(s1, M.Swap(0));
    if key in s.index {
      M.StepKeepsInvExactly(M.Next(s1, M.Swap(0)), M.Mark(0));
    }
  }

  lemma SaveKeepsInv(s: M.State, key: string, d: M.Value, taken: Option<string>)
    requires M.Inv(s) && s.savers == map[] && MayTake(s, d, taken)
    ensures M.Inv(SaveResult(s, key, d, taken))
    ensures key in s.index ==>
              s.index[key] != Entry(s.table, M.At(s, taken), M.At(s, taken) + |d|) && s.index[key].file == s.table
  {
    StowKeepsInv(s, key, d, taken);
    SaveIsThreeSteps(s, key, d, taken);
  }

  /** The extent of a key is inside the file and decodes to its value. */
  lemma ReadBack(s: M.State, values: Values, key: string)
    requires M.Inv(s) && Framed(s.values, values) && key in s.index
    ensures key in values && 0 <= s.index[key].start < s.index[key].end <= |s.file|
    ensures var raw := Fill(s.file[s.index[key].start..], s.index[key].end - s.index[key].start);
            Unframe(raw).Decoded? && Unframe(raw).data == Recovered(values[key])
  {
    assert M.Has(s, M.Live(key)) && M.Good(s, M.Live(key));
    assert FramedAt(s.values, values, key);
    FillSlice(s.file, s.index[key].start, s.index[key].end);
    UnframeFrame(values[key]);
  }

  datatype SaveError = InvalidKeyOrTable
  datatype ReadOutcome = Value(data: seq<byte>) | NotFoundLocally | DecodePanics | RangeError

  class KvTable {
    const table: string
    const file: DataFile
    const freeList: FreeList
    const index: T.TableIndex
    ghost var stored: map<string, M.Value>
    ghost var values: Values

    /** No saver is between two steps. */
    ghost function View(): M.State
      reads this, file, freeList, index
    {
      M.State(table, file.content, index.entries, freeList.blocks, map[], stored)
    }

    ghost predicate Valid()
      reads this, file, freeList, index, index.shards
    {
      index.Sharded() && M.Inv(View()) && Framed(stored, values)
    }

    constructor (table: string)
      ensures Valid() && this.table == table && values == map[]
      ensures index.Valid()
      ensures fresh(file) && fresh(freeList) && fresh(index) && fresh(index.shards)
    {
      this.table := table;
      file := new DataFile();
      freeList := new FreeList();
      index := new T.TableIndex.Load(table, None, None, T.SharedFiles([], []), map[], []);
      stored, values := map[], map[];
      new;
      T.EmptyFiles();
    }

    /** Encode, allocate and write, swap the index entry, free the extent it replaced. */
    method Save(key: string, data: seq<byte>) returns (r: Result<(), SaveError>, ghost taken: Option<string>)
      requires Valid() && |data| + 2 < TWO_63
      modifies this, file, freeList, index, index.shards
      ensures Valid() && (old(index.Valid()) ==> index.Valid())
      ensures r.Err? <==> key == "" || table == ""
      ensures r.Err? ==> View() == old(View()) && values == old(values)
      ensures r.Ok? ==> values == old(values)[key := data] && MayTake(old(View()), Frame(data), taken)
                        && View() == SaveResult(old(View()), key, Frame(data), taken)
    {
      taken := None;
      if key == "" || table == "" {
        return Err(InvalidKeyOrTable), taken;
      }
      taken := Put(key, data);
      r := Ok(());
    }

    /** The same without the check of the names: the way the metadata of an incremental table is
        stored. */
    method Put(key: string, data: seq<byte>) returns (ghost taken: Option<string>)
      requires Valid() && |data| + 2 < TWO_63
      modifies this, file, freeList, index, index.shards
      ensures Valid() && (old(index.Valid()) ==> index.Valid())
      ensures values == old(values)[key := data] && MayTake(old(View()), Frame(data), taken)
      ensures View() == SaveResult(old(View()), key, Frame(data), taken)
    {
      var encoded, _, _ := Encode(data);
      FramedOne(stored, values, key, data);
      taken := Store(key, encoded);
      values := values[key := data];
    }

    method Store(key: string, encoded: seq<byte>) returns (ghost taken: Option<string>)
      requires index.Sharded() && M.Inv(View()) && encoded != []
      modifies this`stored, file, freeList, index, index.shards
      ensures index.Sharded() && M.Inv(View()) && (old(index.Valid()) ==> index.Valid())
      ensures MayTake(old(View()), encoded, taken) && View() == SaveResult(old(View()), key, encoded, taken)
    {
      ghost var s := View();
      var start, end;
      InvFreeInside(s);
      start, end, taken := Write(encoded);
      SaveKeepsInv(s, key, encoded, taken);
      Commit(key, start, end, encoded);
    }

    /** The allocation and write of a single frame. */
    method Write(encoded: seq<byte>) returns (start: int, end: int, ghost taken: Option<string>)
      requires FreeInside(freeList.blocks, table, |file.content|) && encoded != []
      modifies file, freeList
      ensures MayTake(old(View()), encoded, taken) && View() == Stow(old(View()), encoded, taken)
      ensures start == M.At(old(View()), taken) && end == start + |encoded| && start >= 0
    {
      OnePart("", encoded, file.content);
      var spans;
      spans, taken := WriteBatch(file, freeList, table, [encoded]);
      start, end := spans[0].start, spans[0].end;
    }

    /** The index swap and the release of the replaced extent. */
    method Commit(key: string, start: int, end: int, ghost d: M.Value)
      requires index.Sharded() && ValidRange(start, end)
      requires key in index.entries ==>
                 index.entries[key] != Entry(table, start, end) && index.entries[key].file == table
      modifies this`stored, freeList, index, index.shards
      ensures index.Sharded() && (old(index.Valid()) ==> index.Valid())
      ensures View() == Settle(old(View()), key, d, start, end)
    {
      var saved := index.SaveElement(key, table, start, end);
      stored := stored[key := d];
      var prev := saved.value;
      if prev.Some? {
        var p := prev.value;
        if p.file != table || p.start != start || p.end != end {
          freeList.MarkAsFree(key, p.file, p.start, p.end);
        }
      }
    }

    /** Look up, remove, mark as free. */
    method Free(key: string) returns (found: bool)
      requires Valid()
      modifies this, freeList, index, index.shards
      ensures Valid() && (old(index.Valid()) ==> index.Valid())
      ensures found <==> key in old(values)
      ensures !found ==> View() == old(View()) && values == old(values)
      ensures found ==> values == old(values) - {key} && key in old(View()).index
      ensures found ==> View() == M.Next(old(View()), M.Free(key))
    {
      var meta := index.LoadEntry(key);
      if meta.None? {
        return false;
      }
      M.StepKeepsInvExactly(View(), M.Free(key));
      index.RemoveElement(key);
      freeList.MarkAsFree(key, table, meta.value.start, meta.value.end);
      FramedLess(stored, values, key);
      stored := stored - {key};
      values := values - {key};
      found := true;
    }

    /** Look up, read the extent, decode. A miss is passed on to the peers, which are not part of
        this model. */
    method Read(key: string) returns (r: ReadOutcome)
      requires Valid()
      ensures r == if key in values then Value(Recovered(values[key])) else NotFoundLocally
    {
      var meta := index.LoadEntry(key);
      if meta.None? {
        return NotFoundLocally;
      }
      ReadBack(View(), values, key);
      var raw := ReadRange(file, meta.value.start, meta.value.end);
      if raw.InvalidRange? {
        return RangeError;
      }
      var decoded := Decode(raw.data);
      if decoded.Panics? {
        return DecodePanics;
      }
      r := Value(decoded.data);
    }
  }

  lemma JoinOne(key: string, d: M.Value, base: int, block: bool)
    ensures M.Join(map[], [M.Req(0, key, d)], base, block, 1)
        == map[0 := M.Written(key, d, base, base + |d|)]
  {
    OnePart(key, d, []);
    assert M.Join(map[], [M.Req(0, key, d)], base, block, 0) == map[];
  }

  /** What was saved last under a key is what is read, as long as it is smaller than 4 GiB by the
      length of the two header bytes; other keys are not affected. */
  method SaveThenRead(t: KvTable, key: string, data: seq<byte>, other: string)
      returns (mine: ReadOutcome, others: ReadOutcome)
    requires t.Valid() && |data| + 2 < TWO_63 && key != "" && t.table != "" && other != key
    modifies t, t.file, t.freeList, t.index, t.index.shards
    ensures mine == Value(data) <==> |data| + 2 < 0x1_0000_0000
    ensures others == if other in old(t.values) then Value(Recovered(old(t.values)[other])) else NotFoundLocally
  {
    var r, _ := t.Save(key, data);
    mine := t.Read(key);
    others := t.Read(other);
  }
}
