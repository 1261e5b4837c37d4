/** The write and read branches of a batch on a value file: allocation from the free list or at
    the end of the file, the writes themselves, and the free-list check behind each write. */
module KvFile {
  import opened Bytes
  import opened FreeLists
  import opened Files

  /** Blocks are well-formed, belong to the table and lie inside its file. */
  ghost predicate FreeInside(blocks: Blocks, table: string, size: nat) {
    && WellFormed(blocks)
    && forall k :: k in blocks ==> blocks[k].file == table && 0 <= blocks[k].start && blocks[k].end <= size
  }

  /** The table's blocks begin inside its file. */
  ghost predicate StartsInside(blocks: Blocks, table: string, size: nat) {
    forall k :: k in blocks && blocks[k].file == table ==> 0 <= blocks[k].start <= size
  }

  datatype Span = Span(start: int, end: int)

  /** The range that write j of a batch gets: behind the ones before it inside a block, at the end
      of the file, whatever else the batch writes there, otherwise. */
  function SpanAt(writes: seq<seq<byte>>, base: int, block: bool, j: nat): Span
    requires j < |writes|
  {
    if block then Span(base + Off(writes, j), base + Off(writes, j + 1)) else Span(base, base + |writes[j]|)
  }

  ghost predicate Assigned(spans: seq<Span>, writes: seq<seq<byte>>, base: int, block: bool) {
    |spans| == |writes| && forall j :: 0 <= j < |spans| ==> spans[j] == SpanAt(writes, base, block, j)
  }

  /** A range inside a block that was taken off the list is in no other block; nor is one that
      begins at the end of the file. So the check behind a write finds nothing to carve. */
  lemma NothingToCarve(blocks: Blocks, table: string, size: nat, taken: Option<string>, start: int, end: int)
    requires FreeInside(blocks, table, size) && start < end
    requires match taken
             case Some(k) => k in blocks && blocks[k].start <= start && end <= blocks[k].end
             case None => start == size
    ensures var left := if taken.Some? then blocks - {taken.value} else blocks;
            forall k :: k in left ==> !Contains(left[k], table, start, end)
  {
    if taken.Some? {
      forall k | k in blocks && k != taken.value ensures !Contains(blocks[k], table, start, end) {
        assert Apart(blocks[k], blocks[taken.value]);
      }
    }
  }

  method TotalSize(writes: seq<seq<byte>>) returns (total: nat)
    ensures total == Off(writes, |writes|)
  {
    total := 0;
    for j := 0 to |writes|
      invariant total == Off(writes, j)
    {
      total := total + |writes[j]|;
    }
  }

  method AssignOffsets(writes: seq<seq<byte>>, block: Option<Block>, eof: int) returns (spans: seq<Span>)
    ensures Assigned(spans, writes, if block.Some? then block.value.start else eof, block.Some?)
  {
    spans := [];
    ghost var base := if block.Some? then block.value.start else eof;
    var curOffset := if block.Some? then block.value.start else 0;
    for j := 0 to |writes|
      invariant |spans| == j
      invariant block.Some? ==> curOffset == base + Off(writes, j)
      invariant forall i :: 0 <= i < j ==> spans[i] == SpanAt(writes, base, block.Some?, i)
    {
      if block.Some? {
        var end := curOffset + |writes[j]|;
        spans := spans + [Span(curOffset, end)];
        curOffset := end;
      } else {
        spans := spans + [Span(eof, eof + |writes[j]|)];
      }
    }
  }

  ghost predicate AllNonEmpty(writes: seq<seq<byte>>) {
    forall j :: 0 <= j < |writes| ==> writes[j] != []
  }

  /** What the file holds after the first n writes of a batch. */
  function AfterWrites(c: seq<byte>, writes: seq<seq<byte>>, base: nat, block: bool, n: nat): seq<byte>
    requires n <= |writes| && base <= |c|
  {
    if block then Overwrite(c, base, Concat(writes[..n])) else Stacked(c, base, writes[..n])
  }

  lemma WrittenNext(c: seq<byte>, writes: seq<seq<byte>>, base: nat, block: bool, n: nat)
    requires n < |writes| && base <= |c|
    ensures var at := if block then base + Off(writes, n) else base;
            at <= |AfterWrites(c, writes, base, block, n)|
            && AfterWrites(c, writes, base, block, n + 1)
               == Overwrite(AfterWrites(c, writes, base, block, n), at, writes[n])
  {
    assert writes[..n + 1][..n] == writes[..n];
    if block {
      ConcatLength(writes[..n]);
      OffPrefix(writes, n, n);
      OverwriteNext(c, base, Concat(writes[..n]), writes[n]);
    }
  }

  /** Where a batch begins: at the start of the block it takes or at the end of the file. */
  function Base(blocks: Blocks, taken: Option<string>, size: nat): int
    requires taken.Some? ==> taken.value in blocks
  {
    if taken.Some? then blocks[taken.value].start else size
  }

  /** The free list without the block a batch takes. */
  function Left(blocks: Blocks, taken: Option<string>): Blocks {
    if taken.Some? then blocks - {taken.value} else blocks
  }

  ghost predicate BestChoice(blocks: Blocks, total: int, table: string, taken: Option<string>) {
    if taken.Some? then BestFit(blocks, total, table, taken.value) else NoFit(blocks, total, table)
  }

  /** The check behind write j of a batch has nothing to carve. */
  lemma SpanInside(blocks: Blocks, table: string, size: nat, taken: Option<string>, writes: seq<seq<byte>>, j: nat)
    requires FreeInside(blocks, table, size) && AllNonEmpty(writes) && j < |writes|
    requires BestChoice(blocks, Off(writes, |writes|), table, taken)
    ensures var span := SpanAt(writes, Base(blocks, taken, size), taken.Some?, j);
            forall k :: k in Left(blocks, taken) ==> !Contains(Left(blocks, taken)[k], table, span.start, span.end)
  {
    OffMonotone(writes, j + 1, |writes|);
    var span := SpanAt(writes, Base(blocks, taken, size), taken.Some?, j);
    NothingToCarve(blocks, table, size, taken, span.start, span.end);
  }

  /** The writes of a batch, each followed by the check, which does not change a well-formed free
      list. */
  method WriteParts(file: DataFile, freeList: FreeList, table: string, writes: seq<seq<byte>>, spans: seq<Span>,
                    ghost blocks: Blocks, ghost taken: Option<string>)
    requires StartsInside(blocks, table, |file.content|)
    requires BestChoice(blocks, Off(writes, |writes|), table, taken) && freeList.blocks == Left(blocks, taken)
    requires Assigned(spans, writes, Base(blocks, taken, |file.content|), taken.Some?)
    modifies file, freeList
    ensures FreeInside(blocks, table, |old(file.content)|) && AllNonEmpty(writes)
            ==> freeList.blocks == Left(blocks, taken)
    ensures var base := Base(blocks, taken, |old(file.content)|);
            0 <= base <= |old(file.content)|
            && file.content == AfterWrites(old(file.content), writes, base, taken.Some?, |writes|)
  {
    ghost var c := file.content;
    ghost var base := Base(blocks, taken, |c|);
    for j := 0 to |writes|
      invariant file.content == AfterWrites(c, writes, base, taken.Some?, j)
      invariant FreeInside(blocks, table, |c|) && AllNonEmpty(writes) ==> freeList.blocks == Left(blocks, taken)
    {
      WrittenNext(c, writes, base, taken.Some?, j);
      assert spans[j] == SpanAt(writes, base, taken.Some?, j);
      file.WriteAt(writes[j], spans[j].start);
      if FreeInside(blocks, table, |c|) && AllNonEmpty(writes) {
        SpanInside(blocks, table, |c|, taken, writes, j);
      }
      ghost var hit := freeList.SaveBlockCheck(table, spans[j].start, spans[j].end);
    }
  }

  /** One batch of writes. It takes at most one block, always whole, and leaves the rest of a
      well-formed free list as it was. */
  method WriteBatch(file: DataFile, freeList: FreeList, table: string, writes: seq<seq<byte>>)
    returns (spans: seq<Span>, ghost taken: Option<string>)
    requires StartsInside(freeList.blocks, table, |file.content|)
    requires writes != []
    modifies file, freeList
    ensures BestChoice(old(freeList.blocks), Off(writes, |writes|), table, taken)
    ensures |spans| == |writes| && forall j :: 0 <= j < |spans| ==> spans[j].end - spans[j].start == |writes[j]|
    ensures taken.Some? ==> taken.value in old(freeList.blocks)
                            && spans[0].start == old(freeList.blocks)[taken.value].start
    ensures taken.Some? ==> forall j :: 0 < j < |spans| ==> spans[j].start == spans[j - 1].end
    ensures taken.None? ==> forall j :: 0 <= j < |spans| ==> spans[j].start == |old(file.content)|
    ensures FreeInside(old(freeList.blocks), table, |old(file.content)|) && AllNonEmpty(writes)
            ==> freeList.blocks == Left(old(freeList.blocks), taken)
    ensures var base := Base(old(freeList.blocks), taken, |old(file.content)|);
            Assigned(spans, writes, base, taken.Some?)
            && 0 <= base <= |old(file.content)|
            && file.content == if taken.Some? then Overwrite(old(file.content), base, Concat(writes))
                               else Stacked(old(file.content), base, writes)
  {
    ghost var blocks := freeList.blocks;
    var totalSize := TotalSize(writes);
    var block, key := freeList.GetBlock(totalSize, table);
    taken := if block.Some? then Some(key) else None;
    spans := AssignOffsets(writes, block, |file.content|);
    WriteParts(file, freeList, table, writes, spans, blocks, taken);
    assert writes[..|writes|] == writes;
  }

  /** The older single-write path over the same free list: the same choice and the same result
      as a batch of one. */
  method SaveDataToFile(file: DataFile, freeList: FreeList, table: string, data: seq<byte>)
    returns (start: int, end: int, ghost taken: Option<string>)
    requires StartsInside(freeList.blocks, table, |file.content|)
    modifies file, freeList
    ensures BestChoice(old(freeList.blocks), |data|, table, taken)
    ensures FreeInside(old(freeList.blocks), table, |old(file.content)|) && data != []
            ==> freeList.blocks == Left(old(freeList.blocks), taken)
    ensures start == Base(old(freeList.blocks), taken, |old(file.content)|) && end == start + |data|
    ensures 0 <= start <= |old(file.content)| && file.content == Overwrite(old(file.content), start, data)
  {
    ghost var blocks := freeList.blocks;
    var block, key := freeList.GetBlock(|data|, table);
    taken := if block.Some? then Some(key) else None;
    if block.Some? {
      start := block.value.start;
      end := start + |data|;
      if FreeInside(blocks, table, |file.content|) && data != [] {
        NothingToCarve(blocks, table, |file.content|, taken, start, end);
      }
      file.WriteAt(data, start);
      ghost var hit := freeList.SaveBlockCheck(table, start, end);
    } else {
      start := |file.content|;
      file.WriteAt(data, start);
      end := start + |data|;
    }
  }

  /** Ranges of a batch do not overlap exactly when a block was found or there was one write. */
  lemma BatchDisjointExactly(spans: seq<Span>, writes: seq<seq<byte>>, base: int, block: bool)
    requires AllNonEmpty(writes) && Assigned(spans, writes, base, block)
    ensures (forall i, j :: 0 <= i < j < |spans| ==> spans[i].end <= spans[j].start || spans[j].end <= spans[i].start)
            <==> block || |writes| <= 1
  {
    if block {
      forall i, j | 0 <= i < j < |spans| ensures spans[i].end <= spans[j].start {
        assert spans[i] == SpanAt(writes, base, block, i) && spans[j] == SpanAt(writes, base, block, j);
        OffMonotone(writes, i + 1, j);
      }
    } else if |writes| > 1 {
      assert spans[0] == SpanAt(writes, base, block, 0) && spans[1] == SpanAt(writes, base, block, 1);
    }
  }

  /** The last of several writes that is longer than p. */
  function LastOver(parts: seq<seq<byte>>, p: nat): (j: Option<nat>)
    ensures j.Some? ==> j.value < |parts| && p < |parts[j.value]|
    ensures j.None? ==> forall i :: 0 <= i < |parts| ==> |parts[i]| <= p
  {
    if parts == [] then None
    else if p < |parts[|parts| - 1]| then Some(|parts| - 1)
    else LastOver(parts[..|parts| - 1], p)
  }

  /** Of several writes at the end of the file, each byte is that of the last write that reaches it. */
  lemma {:induction false} StackedAt(c: seq<byte>, parts: seq<seq<byte>>, p: nat)
    ensures var f := Stacked(c, |c|, parts);
            match LastOver(parts, p)
            case Some(j) => |c| + p < |f| && f[|c| + p] == parts[j][p]
            case None => |f| <= |c| + p
  {
    if parts != [] {
      StackedAt(c, parts[..|parts| - 1], p);
    }
  }

  /** Of several writes at the end of the file, one reads back as itself if and only if wherever a
      later write reaches, the last one to reach has the same byte. */
  lemma WriteSurvivesExactly(c: seq<byte>, parts: seq<seq<byte>>, j: nat)
    requires j < |parts|
    ensures var f := Stacked(c, |c|, parts);
            |c| + |parts[j]| <= |f|
            && (f[|c|..|c| + |parts[j]|] == parts[j]
                <==> forall p: nat :: p < |parts[j]| ==>
                       LastOver(parts, p).Some? && parts[LastOver(parts, p).value][p] == parts[j][p])
  {
    var f, n := Stacked(c, |c|, parts), |parts[j]|;
    forall p: nat | p < n
      ensures LastOver(parts, p).Some? && |c| + p < |f| && f[|c| + p] == parts[LastOver(parts, p).value][p]
    {
      StackedAt(c, parts, p);
    }
    assert n > 0 ==> LastOver(parts, n - 1).Some?;
    var back := f[|c|..|c| + n];
    assert forall p: nat :: p < n ==> back[p] == f[|c| + p];
  }

  /** Two writes that share the end of the file: reading the first one's range back gives the
      second one's bytes, and its own only where it is longer. */
  lemma SecondWriteWins(c: seq<byte>, a: seq<byte>, b: seq<byte>)
    ensures |Stacked(c, |c|, [a, b])| >= |c| + |a|
    ensures Stacked(c, |c|, [a, b])[|c|..|c| + |a|] == if |a| <= |b| then b[..|a|] else b + a[|b|..]
  {
    StackedOne(c, [a]);
    assert [a, b][..1] == [a];
    var f := Overwrite(Overwrite(c, |c|, a), |c|, b);
    assert Overwrite(c, |c|, a) == c + a;
    assert f == if |a| <= |b| then c + b else c + (b + a[|b|..]);
  }

  datatype ReadResult = Data(data: seq<byte>) | InvalidRange

  method ReadRange(file: DataFile, start: int, end: int) returns (r: ReadResult)
    ensures r == if start < 0 || end <= start then InvalidRange
                 else Data(Fill(if start <= |file.content| then file.content[start..] else [], end - start))
  {
    if start < 0 || end <= start {
      return InvalidRange;
    }
    var buffer := file.ReadAt(start, end - start);
    r := Data(buffer);
  }
}
