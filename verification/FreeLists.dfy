/** The free list of one table: named blocks, best-fit allocation, and the check that carves a
    written range out of a block. */
module FreeLists {
  import opened Bytes
  import opened Text

  datatype Block = Block(file: string, start: int, end: int, size: int)

  type Blocks = map<string, Block>

  function BlockOf(file: string, start: int, end: int): Block {
    Block(file, start, end, end - start)
  }

  predicate Fits(b: Block, size: int, file: string) { b.size >= size && b.file == file }

  /** No block of the file is large enough. */
  ghost predicate NoFit(blocks: Blocks, size: int, file: string) {
    forall k :: k in blocks ==> !Fits(blocks[k], size, file)
  }

  /** k names a smallest block that is large enough. */
  ghost predicate BestFit(blocks: Blocks, size: int, file: string, k: string) {
    && k in blocks && Fits(blocks[k], size, file)
    && forall j :: j in blocks && Fits(blocks[j], size, file) ==> blocks[k].size <= blocks[j].size
  }

  predicate Contains(b: Block, file: string, start: int, end: int) {
    b.file == file && start >= b.start && end <= b.end
  }

  function SplitKey(k: string, end: int): string { k + ['_'] + Itoa(end) }

  /** The list after [start, end) was taken out of block k. */
  ghost function Carved(blocks: Blocks, k: string, start: int, end: int): Blocks
    requires k in blocks
  {
    var b := blocks[k];
    if start == b.start && end == b.end then blocks - {k}
    else if start == b.start then blocks[k := BlockOf(b.file, end, b.end)]
    else if end == b.end then blocks[k := BlockOf(b.file, b.start, start)]
    else blocks[k := BlockOf(b.file, b.start, start)][SplitKey(k, end) := BlockOf(b.file, end, b.end)]
  }

  class FreeList {
    var blocks: Blocks

    constructor ()
      ensures blocks == map[]
    {
      blocks := map[];
    }

    method MarkAsFree(key: string, file: string, start: int, end: int)
      modifies this
      ensures blocks == old(blocks)[key := BlockOf(file, start, end)]
      ensures blocks[key].file == file && blocks[key].start == start && blocks[key].end == end
    {
      var size := end - start;
      blocks := blocks[key := Block(file, start, end, size)];
    }

    /** Takes the whole best-fitting block off the list. */
    method GetBlock(size: int, file: string) returns (r: Option<Block>, ghost taken: string)
      modifies this
      ensures r.None? <==> forall k :: k in old(blocks) && old(blocks)[k].file == file ==> old(blocks)[k].size < size
      ensures r.Some? ==> r.value.file == file && r.value.size >= size
      ensures r.Some? ==> forall k :: k in old(blocks) && old(blocks)[k].file == file && old(blocks)[k].size >= size ==>
                            r.value.size <= old(blocks)[k].size
      ensures r.None? <==> NoFit(old(blocks), size, file)
      ensures r.None? ==> blocks == old(blocks)
      ensures r.Some? ==> BestFit(old(blocks), size, file, taken) && r.value == old(blocks)[taken]
                          && blocks == old(blocks) - {taken}
    {
      var bestKey, found := "", false;
      var bestBlock := Block("", 0, 0, 0);
      var todo := blocks.Keys;
      while todo != {}
        invariant todo <= blocks.Keys && blocks == old(blocks)
        invariant found ==> bestKey in blocks && bestBlock == blocks[bestKey] && Fits(bestBlock, size, file)
        invariant forall k :: k in blocks && k !in todo && Fits(blocks[k], size, file) ==>
                                found && bestBlock.size <= blocks[k].size
      {
        var key :| key in todo;
        todo := todo - {key};
        var block := blocks[key];
        if block.size < size {
          continue;
        }
        if block.file != file {
          continue;
        }
        if !found || block.size < bestBlock.size {
          bestKey := key;
          bestBlock := block;
          found := true;
        }
      }
      taken := bestKey;
      if !found {
        return None, taken;
      }
      blocks := blocks - {bestKey};
      r := Some(bestBlock);
    }

    /** Carves a written range out of some block that contains it, if there is one. */
    method SaveBlockCheck(file: string, start: int, end: int) returns (ghost hit: Option<string>)
      modifies this
      ensures hit.None? <==> forall k :: k in old(blocks) && old(blocks)[k].file == file ==>
                               start < old(blocks)[k].start || old(blocks)[k].end < end
      ensures hit.None? ==>
                blocks == old(blocks) && forall k :: k in old(blocks) ==> !Contains(old(blocks)[k], file, start, end)
      ensures hit.Some? ==> hit.value in old(blocks) && Contains(old(blocks)[hit.value], file, start, end)
                            && blocks == Carved(old(blocks), hit.value, start, end)
    {
      hit := None;
      var todo := blocks.Keys;
      while todo != {}
        invariant todo <= blocks.Keys && blocks == old(blocks) && hit == None
        invariant forall k :: k in blocks && k !in todo ==> !Contains(blocks[k], file, start, end)
      {
        var key :| key in todo;
        todo := todo - {key};
        var block := blocks[key];
        if block.file != file {
          continue;
        }
        if start >= block.start && end <= block.end {
          hit := Some(key);
          if start == block.start && end == block.end {
            blocks := blocks - {key};
          } else if start == block.start {
            blocks := blocks[key := Block(block.file, end, block.end, block.end - end)];
          } else if end == block.end {
            blocks := blocks[key := Block(block.file, block.start, start, start - block.start)];
          } else {
            blocks := blocks[key := Block(block.file, block.start, start, start - block.start)];
            var newKey := SplitKey(key, end);
            blocks := blocks[newKey := Block(block.file, end, block.end, block.end - end)];
          }
          break;
        }
      }
    }
  }

  /** What is left of a block: the piece in front of the range keeps the block's key, the piece behind
      it takes the key if it is the only one, and otherwise a key made of the old one, an underscore
      and its start. No other entry changes. */
  lemma CarvedPieces(blocks: Blocks, k: string, start: int, end: int)
    requires k in blocks
    ensures var c, b, right := Carved(blocks, k, start, end), blocks[k], k + "_" + Itoa(end);
            && (start != b.start ==> k in c && c[k] == Block(b.file, b.start, start, start - b.start))
            && (start == b.start && end != b.end ==> k in c && c[k] == Block(b.file, end, b.end, b.end - end))
            && (start == b.start && end == b.end ==> k !in c)
            && (start != b.start && end != b.end ==>
                  right in c && c[right] == Block(b.file, end, b.end, b.end - end))
            && forall j :: j != k && !(start != b.start && end != b.end && j == right) ==>
                 (j in c <==> j in blocks) && (j in c ==> c[j] == blocks[j])
  {
    var right := k + "_" + Itoa(end);
    assert SplitKey(k, end) == right;
    assert |right| > |k|;
  }

  // ---- What carving does to the free bytes ----

  /** Byte i of the file is in block k. */
  predicate InBlock(blocks: Blocks, file: string, k: string, i: int) {
    k in blocks && blocks[k].file == file && blocks[k].start <= i < blocks[k].end
  }

  ghost predicate IsFree(blocks: Blocks, file: string, i: int) {
    exists k :: InBlock(blocks, file, k, i)
  }

  predicate Apart(a: Block, b: Block) { a.file != b.file || a.end <= b.start || b.end <= a.start }

  /** Blocks are non-empty, know their size, and do not overlap. */
  ghost predicate WellFormed(blocks: Blocks) {
    && (forall k :: k in blocks ==>
          blocks[k].start < blocks[k].end && blocks[k].size == blocks[k].end - blocks[k].start)
    && (forall j, k :: j in blocks && k in blocks && j != k ==> Apart(blocks[j], blocks[k]))
  }

  /** The key of the right half of a split is already in use for another block. */
  ghost predicate KeyClash(blocks: Blocks, k: string, start: int, end: int)
    requires k in blocks
  {
    start != blocks[k].start && end != blocks[k].end && SplitKey(k, end) in blocks
  }

  /** At most one block can contain a non-empty range, so the order in which the blocks are
      visited does not matter. */
  lemma UniqueContainer(blocks: Blocks, file: string, start: int, end: int, j: string, k: string)
    requires WellFormed(blocks) && start < end
    requires j in blocks && Contains(blocks[j], file, start, end)
    requires k in blocks && Contains(blocks[k], file, start, end)
    ensures j == k
  {
    assert j != k ==> Apart(blocks[j], blocks[k]);
  }

  lemma SplitKeyDiffers(k: string, end: int)
    ensures SplitKey(k, end) != k
  {
    assert |SplitKey(k, end)| > |k|;
  }

  /** Naming a well-sized block that is clear of all others keeps the list well-formed. */
  lemma PutBlock(blocks: Blocks, k: string, b: Block)
    requires WellFormed(blocks) && b.start < b.end && b.size == b.end - b.start
    requires forall j :: j in blocks && j != k ==> Apart(blocks[j], b)
    ensures WellFormed(blocks[k := b])
  {
    var c := blocks[k := b];
    forall i, j | i in c && j in c && i != j ensures Apart(c[i], c[j]) {
      assert i != k ==> c[i] == blocks[i];
      assert j != k ==> c[j] == blocks[j];
    }
  }

  lemma CarvedWellFormed(blocks: Blocks, file: string, k: string, start: int, end: int)
    requires WellFormed(blocks) && start < end
    requires k in blocks && Contains(blocks[k], file, start, end)
    ensures WellFormed(Carved(blocks, k, start, end))
  {
    var b := blocks[k];
    forall j | j in blocks && j != k ensures Apart(blocks[j], b) {}
    if start == b.start {
      if end != b.end {
        PutBlock(blocks, k, BlockOf(b.file, end, b.end));
      }
    } else {
      PutBlock(blocks, k, BlockOf(b.file, b.start, start));
      if end != b.end {
        PutBlock(blocks[k := BlockOf(b.file, b.start, start)], SplitKey(k, end), BlockOf(b.file, end, b.end));
      }
    }
  }

  /** After carving, byte i is free exactly if it was free and is outside the range; except that
      a split whose new key is taken also loses the block that had that key. */
  lemma CarvedFree(blocks: Blocks, file: string, k: string, start: int, end: int, i: int)
    requires WellFormed(blocks) && start < end
    requires k in blocks && Contains(blocks[k], file, start, end)
    ensures IsFree(Carved(blocks, k, start, end), file, i) <==>
            IsFree(blocks, file, i) && !(start <= i < end)
            && !(KeyClash(blocks, k, start, end) && InBlock(blocks, file, SplitKey(k, end), i))
  {
    SplitKeyDiffers(k, end);
    var c, n := Carved(blocks, k, start, end), SplitKey(k, end);
    forall j | j in blocks && j != k ensures Apart(blocks[j], blocks[k]) {}
    forall j | j in blocks && j != n && n in blocks ensures Apart(blocks[j], blocks[n]) {}
    if IsFree(c, file, i) {
      var j :| InBlock(c, file, j, i);
      assert InBlock(blocks, file, j, i) || InBlock(blocks, file, k, i);
    } else if IsFree(blocks, file, i) {
      var j :| InBlock(blocks, file, j, i);
      assert !InBlock(c, file, j, i) && !InBlock(c, file, k, i) && !InBlock(c, file, n, i);
    }
  }

  /** Carving subtracts exactly the written range from the free bytes if and only if a split
      does not reuse the key of another block. */
  lemma CarveSubtractsExactly(blocks: Blocks, file: string, k: string, start: int, end: int)
    requires WellFormed(blocks) && start < end
    requires k in blocks && Contains(blocks[k], file, start, end)
    requires forall j :: j in blocks ==> blocks[j].file == file
    ensures (forall i ::
               IsFree(Carved(blocks, k, start, end), file, i) <==> IsFree(blocks, file, i) && !(start <= i < end))
            <==> !KeyClash(blocks, k, start, end)
  {
    forall i
      ensures IsFree(Carved(blocks, k, start, end), file, i) <==>
              IsFree(blocks, file, i) && !(start <= i < end)
              && !(KeyClash(blocks, k, start, end) && InBlock(blocks, file, SplitKey(k, end), i))
    {
      CarvedFree(blocks, file, k, start, end, i);
    }
    if KeyClash(blocks, k, start, end) {
      SplitKeyDiffers(k, end);
      var n := SplitKey(k, end);
      var i := blocks[n].start;
      assert Apart(blocks[n], blocks[k]);
      assert InBlock(blocks, file, n, i);
      assert IsFree(blocks, file, i);
    }
  }
}
