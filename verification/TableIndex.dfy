/** The sharded index of one table with its log and snapshot, as one thread at a time sees it.
    The interleavings are in WalMachine; here are the shards, the text files and the loops. */
module TableIndex {
  import opened Bytes
  import opened Text
  import opened Wal
  import opened WalText
  import opened Shards

  /** k is in its own shard, as in m, and in no other. */
  ghost predicate InPlace(shards: seq<Index>, m: Index, k: string) {
    forall i :: 0 <= i < |shards| ==> Get(shards[i], k) == if i == ShardOf(k) then Get(m, k) else None
  }

  /** Shard i holds exactly the entries of m that hash to i. */
  ghost predicate Represents(shards: seq<Index>, m: Index) {
    |shards| == NUM_SHARDS && forall k :: InPlace(shards, m, k)
  }

  lemma ShardContent(shards: seq<Index>, m: Index, i: nat)
    requires Represents(shards, m) && i < NUM_SHARDS
    ensures forall k :: k in shards[i] <==> k in m && ShardOf(k) == i
    ensures forall k :: k in shards[i] ==> shards[i][k] == m[k]
  {
    forall k
      ensures k in shards[i] <==> k in m && ShardOf(k) == i
      ensures k in shards[i] ==> shards[i][k] == m[k]
    {
      assert InPlace(shards, m, k);
      assert Get(shards[i], k) == if i == ShardOf(k) then Get(m, k) else None;
    }
  }

  /** Changing one key in its shard and in the union alike. */
  lemma ChangeKey(shards: seq<Index>, m: Index, k: string, changed: Index, n: Index)
    requires Represents(shards, m)
    requires Get(changed, k) == Get(n, k)
    requires forall j :: j != k ==> Get(changed, j) == Get(shards[ShardOf(k)], j) && Get(n, j) == Get(m, j)
    ensures Represents(shards[ShardOf(k) := changed], n)
    ensures Get(shards[ShardOf(k)], k) == Get(m, k)
  {
    assert InPlace(shards, m, k);
    var after := shards[ShardOf(k) := changed];
    forall j ensures InPlace(after, n, j) {
      assert InPlace(shards, m, j);
    }
  }

  /** snap is what the snapshot text was printed from. */
  ghost predicate Prints(text: string, snap: Index) {
    exists pairs :: Lists(pairs, snap) && text == PrintSnap(pairs)
  }

  /** The keys that a pattern selects. */
  function Matching(m: Index, rx: string -> bool): set<string> {
    set k | k in m && rx(k)
  }

  ghost predicate NoDuplicates(s: seq<string>) {
    forall i, j :: 0 <= i < j < |s| ==> s[i] != s[j]
  }

  function Elements(s: seq<string>): set<string> { set k | k in s }

  lemma {:induction false} DistinctSize(s: seq<string>)
    requires NoDuplicates(s)
    ensures |Elements(s)| == |s|
  {
    if s != [] {
      var n := |s| - 1;
      DistinctSize(s[..n]);
      assert Elements(s) == Elements(s[..n]) + {s[n]};
    }
  }

  lemma SubsetSize(a: set<string>, b: set<string>)
    requires a <= b
    ensures |a| <= |b|
  {
    assert b == a + (b - a);
  }

  function TextOf(file: Option<string>): string { if file.Some? then file.value else [] }

  /** Snapshot and log of the time when all tables had the same. */
  datatype SharedFiles = SharedFiles(snap: string, wal: string)

  /** The operations that concern a table: a deletion does not say which table it is for. */
  function Mine(ops: seq<Op>, name: string): seq<Op> {
    if ops == [] then []
    else
      var n := |ops| - 1;
      if ops[n].Put? && ops[n].entry.file != name then Mine(ops[..n], name) else Mine(ops[..n], name) + [ops[n]]
  }

  function Imported(shared: SharedFiles, name: string): Index {
    Replay(Replay(map[], Mine(ParseSnap(shared.snap), name)), Mine(Parse(shared.wal), name))
  }

  function FromFiles(snapText: string, walText: string): Index {
    Replay(Replay(map[], ParseSnap(snapText)), Parse(walText))
  }

  /** How many operations wait for the log writer at most. */
  const WAL_CAPACITY := 100_000

  lemma NoEntries(shards: seq<Index>)
    requires |shards| == NUM_SHARDS && forall i :: 0 <= i < NUM_SHARDS ==> shards[i] == map[]
    ensures Represents(shards, map[])
  {
  }

  class TableIndex {
    const shards: array<Index>
    var queue: seq<Op>
    var walBuf: string
    var walFile: string
    var snapFile: string

    /** The union of the shards. */
    ghost var entries: Index
    /** What the texts stand for. */
    ghost var bufOps: seq<Op>
    ghost var logOps: seq<Op>
    ghost var snap: Index

    /** The shards agree with entries. */
    ghost predicate Sharded()
      reads this`entries, shards
    {
      Represents(shards[..], entries)
    }

    /** The log texts are the printed operations. */
    ghost predicate LogTexts()
      reads this`walBuf, this`bufOps, this`walFile, this`logOps
    {
      walBuf == Print(bufOps) && walFile == Print(logOps)
    }

    /** And the snapshot text lists snap. */
    ghost predicate Texts()
      reads this`walBuf, this`bufOps, this`walFile, this`logOps, this`snapFile, this`snap
    {
      LogTexts() && Prints(snapFile, snap)
    }

    /** The operations that the snapshot does not contain, oldest first. */
    ghost function Pending(): seq<Op>
      reads this`logOps, this`bufOps, this`queue
    {
      logOps + bufOps + queue
    }

    /** Replaying log, buffer and queue over the snapshot gives the index. */
    ghost predicate Recoverable()
      reads this`entries, this`snap, this`logOps, this`bufOps, this`queue
    {
      entries == Replay(snap, Pending())
    }

    ghost predicate Valid()
      reads this, shards
    {
      Sharded() && Texts() && Recoverable()
    }

    method StoreKey(k: string, v: Entry) returns (prev: Option<Entry>)
      requires Sharded()
      modifies this`entries, shards
      ensures Sharded() && entries == old(entries)[k := v] && prev == Get(old(entries), k)
    {
      var i := ShardOf(k);
      ChangeKey(shards[..], entries, k, shards[i][k := v], entries[k := v]);
      prev := Get(shards[i], k);
      shards[i] := shards[i][k := v];
      entries := entries[k := v];
    }

    method DeleteKey(k: string) returns (prev: Option<Entry>)
      requires Sharded()
      modifies this`entries, shards
      ensures Sharded() && entries == old(entries) - {k} && prev == Get(old(entries), k)
    {
      var i := ShardOf(k);
      ChangeKey(shards[..], entries, k, shards[i] - {k}, entries - {k});
      prev := Get(shards[i], k);
      shards[i] := shards[i] - {k};
      entries := entries - {k};
    }

    method LoadEntry(k: string) returns (e: Option<Entry>)
      requires Sharded()
      ensures e == Get(entries, k)
    {
      assert InPlace(shards[..], entries, k);
      e := Get(shards[ShardOf(k)], k);
    }

    /** The operation that was just applied to the shards goes to the log writer. When the queue is
        full, the buffer is flushed, and the operation waits until the writer has taken one. */
    method EnqueueWal(op: Op)
      modifies this`queue, this`walBuf, this`walFile, this`bufOps, this`logOps
      ensures (old(LogTexts()) ==> LogTexts()) && Pending() == old(Pending()) + [op]
      ensures entries == Apply(Replay(snap, old(Pending())), op) ==> Recoverable()
      ensures if |old(queue)| < 100_000 then
                queue == old(queue) + [op] && walFile == old(walFile) && walBuf == old(walBuf)
              else
                queue == old(queue)[1..] + [op] && walFile == old(walFile + walBuf)
                && walBuf == OpLine(old(queue)[0]) + ['\n']
    {
      if |queue| >= WAL_CAPACITY {
        FlushWal();
        WriteOne();
      }
      ReplayMore(snap, Pending(), op);
      QueueMore(logOps, bufOps, queue, op);
      queue := queue + [op];
    }

    /** Changes the shard, then hands the operation to the log writer. */
    method SaveElement(key: string, file: string, start: int, end: int) returns (r: Result<Option<Entry>, string>)
      requires Sharded()
      modifies this, shards
      ensures Sharded() && snap == old(snap) && snapFile == old(snapFile)
      ensures (old(LogTexts()) ==> LogTexts()) && (old(Recoverable()) ==> Recoverable())
      ensures r.Err? <==> start < 0 || end <= start
      ensures r.Err? ==> entries == old(entries) && Pending() == old(Pending())
      ensures r.Ok? ==>
                r == Ok(Get(old(entries), key)) && entries == old(entries)[key := Entry(file, start, end)]
                && Pending() == old(Pending()) + [Put(key, Entry(file, start, end))]
    {
      if !ValidRange(start, end) {
        return Err("invalid pointer range");
      }
      var prev := StoreLogged(key, Entry(file, start, end));
      r := Ok(prev);
    }

    method StoreLogged(key: string, e: Entry) returns (prev: Option<Entry>)
      requires Sharded()
      modifies this, shards
      ensures Sharded() && snap == old(snap) && snapFile == old(snapFile)
      ensures (old(LogTexts()) ==> LogTexts()) && (old(Recoverable()) ==> Recoverable())
      ensures prev == Get(old(entries), key) && entries == old(entries)[key := e]
      ensures Pending() == old(Pending()) + [Put(key, e)]
    {
      prev := StoreKey(key, e);
      EnqueueWal(Put(key, e));
    }

    method RemoveElement(key: string)
      requires Sharded()
      modifies this, shards
      ensures Sharded() && snap == old(snap) && snapFile == old(snapFile)
      ensures (old(LogTexts()) ==> LogTexts()) && (old(Recoverable()) ==> Recoverable())
      ensures entries == old(entries) - {key} && Pending() == old(Pending()) + [Del(key)]
    {
      var prev := DeleteKey(key);
      EnqueueWal(Del(key));
    }

    /** One round of the log writer: the oldest queued operation becomes a buffered line. */
    method WriteOne()
      requires queue != []
      modifies this`queue, this`walBuf, this`bufOps
      ensures (old(LogTexts()) ==> LogTexts()) && Pending() == old(Pending())
      ensures queue == old(queue)[1..] && walBuf == old(walBuf) + (OpLine(old(queue)[0]) + ['\n'])
    {
      var op := queue[0];
      MoveAlong(logOps, bufOps, queue);
      PrintMore(bufOps, op);
      walBuf := walBuf + (OpLine(op) + ['\n']);
      bufOps := bufOps + [op];
      queue := queue[1..];
    }

    method FlushWal()
      modifies this`walBuf, this`walFile, this`bufOps, this`logOps
      ensures (old(LogTexts()) ==> LogTexts()) && Pending() == old(Pending())
      ensures walFile == old(walFile + walBuf) && walBuf == [] && bufOps == [] && logOps == old(logOps + bufOps)
    {
      FlushedTexts(logOps, bufOps, queue);
      walFile := walFile + walBuf;
      walBuf := [];
      logOps := logOps + bufOps;
      bufOps := [];
    }

    /** The snapshot lines, shard by shard. */
    method ScanShards() returns (text: string)
      requires Sharded()
      ensures Prints(text, entries)
    {
      ghost var pairs := [];
      text := [];
      for i := 0 to NUM_SHARDS
        invariant text == PrintSnap(pairs) && Current(pairs, entries)
        invariant forall k :: k in entries && ShardOf(k) < i ==> Listed(pairs, k)
      {
        text, pairs := ScanShard(i, text, pairs);
      }
      assert Lists(pairs, entries);
    }

    method ScanShard(i: nat, before: string, ghost listed: seq<(string, Entry)>)
      returns (text: string, ghost pairs: seq<(string, Entry)>)
      requires Sharded() && i < NUM_SHARDS && before == PrintSnap(listed) && Current(listed, entries)
      ensures text == PrintSnap(pairs) && Current(pairs, entries)
      ensures forall k :: k in entries && (Listed(listed, k) || ShardOf(k) == i) ==> Listed(pairs, k)
    {
      text, pairs := before, listed;
      ShardContent(shards[..], entries, i);
      var todo := shards[i].Keys;
      while todo != {}
        invariant todo <= shards[i].Keys && text == PrintSnap(pairs) && Current(pairs, entries)
        invariant forall k :: k in entries && (Listed(listed, k) || (k in shards[i] && k !in todo)) ==> Listed(pairs, k)
      {
        var key :| key in todo;
        todo := todo - {key};
        var val := shards[i][key];
        SnapMore(pairs, key, val);
        ListOneMore(pairs, entries, key);
        text := text + (SnapLine(key, val) + ['\n']);
        pairs := pairs + [(key, val)];
      }
    }

    /** Scan, put the new snapshot in place, flush, and drop the old log. Operations that are
        still queued stay queued; replaying them over the snapshot changes nothing. What was in the
        files before does not matter. */
    method WriteSnapshot()
      requires Sharded() && LogTexts() && Replay(entries, queue) == entries
      modifies this`snapFile, this`snap, this`walBuf, this`walFile, this`bufOps, this`logOps
      ensures Valid() && snap == entries && walFile == [] && walBuf == []
    {
      var text := ScanShards();
      PutSnapshot(text);
    }

    method PutSnapshot(text: string)
      requires LogTexts() && Prints(text, entries) && Replay(entries, queue) == entries
      modifies this`snapFile, this`snap, this`walBuf, this`walFile, this`bufOps, this`logOps
      ensures Texts() && Recoverable() && snap == entries && walFile == [] && walBuf == []
    {
      ReplaceSnapshot(text);
      DropOldLog();
    }

    method DropOldLog()
      requires LogTexts() && entries == snap == Replay(snap, queue)
      modifies this`walBuf, this`walFile, this`bufOps, this`logOps
      ensures LogTexts() && Recoverable() && walFile == [] && walBuf == []
    {
      FlushWal();
      RotateWal();
    }

    /** The rename. */
    method ReplaceSnapshot(text: string)
      requires Prints(text, entries)
      modifies this`snapFile, this`snap
      ensures snapFile == text && snap == entries && (old(Recoverable()) ==> Recoverable())
    {
      ReplayTwice(snap, Pending());
      snapFile := text;
      snap := entries;
    }

    method RotateWal()
      requires LogTexts() && entries == Replay(snap, queue)
      modifies this`walBuf, this`walFile, this`bufOps, this`logOps
      ensures LogTexts() && Recoverable() && walFile == [] && walBuf == []
    {
      walFile := [];
      walBuf := [];
      logOps, bufOps := [], [];
      SpillAll([], [], queue);
    }

    /** Loads what snapshot and log hold; a table that has neither takes its entries from the files
        that all tables shared once. A log file exists afterwards. snap and logOps are what the
        texts are believed to stand for. */
    constructor Load(name: string, snapText: Option<string>, walText: Option<string>, shared: SharedFiles,
                     ghost snap: Index, ghost logOps: seq<Op>)
      ensures Sharded() && fresh(shards)
      ensures entries == if snapText.None? && walText.None? then Imported(shared, name)
                         else FromFiles(TextOf(snapText), TextOf(walText))
      ensures queue == [] && walBuf == [] && walFile == TextOf(walText) && snapFile == TextOf(snapText)
      ensures bufOps == [] && this.logOps == logOps && this.snap == snap
    {
      shards := new Index[NUM_SHARDS](i => map[]);
      entries := map[];
      queue, walBuf, walFile, snapFile := [], [], TextOf(walText), TextOf(snapText);
      bufOps, this.logOps, this.snap := [], logOps, snap;
      new;
      NoEntries(shards[..]);
      if snapText.None? && walText.None? {
        Import(shared, name);
      } else {
        LoadFiles(snapText, walText);
      }
    }

    method Import(shared: SharedFiles, name: string)
      requires Sharded() && entries == map[]
      modifies this`entries, shards
      ensures Sharded() && entries == Imported(shared, name)
    {
      ApplyOps(Mine(ParseSnap(shared.snap), name));
      ApplyOps(Mine(Parse(shared.wal), name));
    }

    method LoadFiles(snapText: Option<string>, walText: Option<string>)
      requires Sharded() && entries == map[]
      modifies this`entries, shards
      ensures Sharded() && entries == FromFiles(TextOf(snapText), TextOf(walText))
    {
      EmptyFiles();
      if snapText.Some? {
        ApplyOps(ParseSnap(snapText.value));
      }
      if walText.Some? {
        ApplyOps(Parse(walText.value));
      }
    }

    /** Stores and deletes in order. */
    method ApplyOps(ops: seq<Op>)
      requires Sharded()
      modifies this`entries, shards
      ensures Sharded() && entries == Replay(old(entries), ops)
    {
      ghost var m := entries;
      for i := 0 to |ops|
        invariant Sharded() && entries == Replay(m, ops[..i])
      {
        var prev: Option<Entry>;
        assert ops[..i + 1][..i] == ops[..i];
        match ops[i]
        case Put(k, e) => prev := StoreKey(k, e);
        case Del(k) => prev := DeleteKey(k);
      }
      assert ops[..|ops|] == ops;
    }

    /** Up to max matching keys (all for 0). A negative max is a negative slice capacity, which
        panics; None stands for that. */
    method KeysByRegex(rx: string -> bool, max: int) returns (out: Option<seq<string>>)
      requires Sharded()
      ensures out.None? <==> max < 0
      ensures out.Some? ==> forall i :: 0 <= i < |out.value| ==> out.value[i] in entries && rx(out.value[i])
      ensures out.Some? ==> forall i, j :: 0 <= i < j < |out.value| ==> out.value[i] != out.value[j]
      ensures out.Some? && (max == 0 || |out.value| < max) ==> forall k :: k in entries && rx(k) ==> k in out.value
      ensures out.Some? ==>
                && NoDuplicates(out.value) && Elements(out.value) <= Matching(entries, rx)
                && |out.value| == if max == 0 || |Matching(entries, rx)| <= max then |Matching(entries, rx)| else max
    {
      if max < 0 {
        return None;
      }
      var keys, full := [], false;
      for i := 0 to NUM_SHARDS
        invariant Found(keys, rx, i) && !full && (max > 0 ==> |keys| < max)
        invariant forall k :: k in entries && rx(k) && ShardOf(k) < i ==> k in keys
      {
        keys, full := MatchShard(keys, rx, max, i);
        if full {
          DistinctSize(keys);
          SubsetSize(Elements(keys), Matching(entries, rx));
          return Some(keys);
        }
      }
      DistinctSize(keys);
      assert Elements(keys) == Matching(entries, rx);
      out := Some(keys);
    }

    /** keys are distinct matches, all from shards below i. */
    ghost predicate Found(keys: seq<string>, rx: string -> bool, i: nat)
      reads this
    {
      NoDuplicates(keys) && forall j :: 0 <= j < |keys| ==> keys[j] in entries && rx(keys[j]) && ShardOf(keys[j]) < i
    }

    method MatchShard(before: seq<string>, rx: string -> bool, max: nat, i: nat) returns (keys: seq<string>, full: bool)
      requires Sharded() && i < NUM_SHARDS && Found(before, rx, i) && (max > 0 ==> |before| < max)
      ensures Found(keys, rx, i + 1) && before <= keys
      ensures if full then max > 0 && |keys| == max
              else (max > 0 ==> |keys| < max) && forall k :: k in entries && rx(k) && ShardOf(k) == i ==> k in keys
    {
      keys, full := before, false;
      ShardContent(shards[..], entries, i);
      var todo := shards[i].Keys;
      while todo != {}
        invariant todo <= shards[i].Keys && before <= keys && !full && (max > 0 ==> |keys| < max)
        invariant Found(keys, rx, i + 1) && forall k :: k in todo ==> k !in keys
        invariant forall k :: k in shards[i] && k !in todo && rx(k) ==> k in keys
      {
        var k :| k in todo;
        todo := todo - {k};
        if rx(k) {
          keys := keys + [k];
          if max > 0 && |keys| >= max {
            full := true;
            return;
          }
        }
      }
    }
  }

  lemma ReplayMore(m: Index, ops: seq<Op>, op: Op)
    ensures Replay(m, ops + [op]) == Apply(Replay(m, ops), op)
  {
    assert (ops + [op])[..|ops|] == ops;
  }

  lemma QueueMore(log: seq<Op>, buf: seq<Op>, queue: seq<Op>, op: Op)
    ensures log + buf + (queue + [op]) == (log + buf + queue) + [op]
  {
  }

  lemma MoveAlong(log: seq<Op>, buf: seq<Op>, queue: seq<Op>)
    requires queue != []
    ensures log + (buf + [queue[0]]) + queue[1..] == log + buf + queue
  {
  }

  lemma SpillAll(log: seq<Op>, buf: seq<Op>, queue: seq<Op>)
    ensures (log + buf) + [] + queue == log + buf + queue
    ensures [] + [] + queue == queue
  {
  }

  /** The buffer's lines behind the file's lines, and the same operations in the same order. */
  lemma FlushedTexts(log: seq<Op>, buf: seq<Op>, queue: seq<Op>)
    ensures Print(log + buf) == Print(log) + Print(buf) && Print([]) == []
    ensures (log + buf) + [] + queue == log + buf + queue
  {
    PrintConcat(log, buf);
    SpillAll(log, buf, queue);
    EmptyFiles();
  }

  /** Replaying what is still queued over the whole result changes nothing. */
  lemma QueueReplays(m: Index, log: seq<Op>, buf: seq<Op>, queue: seq<Op>)
    ensures var n := Replay(m, log + buf + queue); Replay(n, queue) == n
  {
    ReplaySuffixIdempotent(m, log + buf, queue);
  }

  lemma Drained(log: seq<Op>)
    ensures log + [] + [] == log
  {
  }

  lemma ReplayTwice(m: Index, ops: seq<Op>)
    ensures Replay(Replay(m, ops), ops) == Replay(m, ops)
  {
    assert [] + ops == ops;
    ReplaySuffixIdempotent(m, [], ops);
  }

  /** The files of a new table. */
  lemma EmptyFiles()
    ensures Print([]) == [] && Parse([]) == [] && ParseSnap([]) == [] && Prints([], map[])
  {
    assert Lists([], map[]) && PrintSnap([]) == [];
  }

  lemma PrintOne(op: Op)
    ensures Print([op]) == OpLine(op) + ['\n']
  {
    assert OpLines([op]) == [OpLine(op)];
    assert Unlines([OpLine(op)]) == OpLine(op) + ['\n'] + Unlines([]);
  }

  lemma PrintMore(ops: seq<Op>, op: Op)
    ensures Print(ops + [op]) == Print(ops) + (OpLine(op) + ['\n'])
  {
    PrintOne(op);
    PrintConcat(ops, [op]);
  }

  lemma SnapMore(pairs: seq<(string, Entry)>, k: string, e: Entry)
    ensures PrintSnap(pairs + [(k, e)]) == PrintSnap(pairs) + (SnapLine(k, e) + ['\n'])
  {
    assert SnapLines(pairs + [(k, e)]) == SnapLines(pairs) + [SnapLine(k, e)];
    UnlinesConcat(SnapLines(pairs), [SnapLine(k, e)]);
    assert Unlines([SnapLine(k, e)]) == SnapLine(k, e) + ['\n'] + Unlines([]);
  }

  /** Loading the two files of a table gives what snapshot and log stand for, provided that all
      names in them are clean; and that is the whole index once queue and buffer are empty. */
  lemma FilesRebuild(snapText: string, snap: Index, logOps: seq<Op>)
    requires Prints(snapText, snap) && CleanIndex(snap) && AllClean(logOps)
    ensures FromFiles(snapText, Print(logOps)) == Replay(snap, logOps)
  {
    var pairs :| Lists(pairs, snap) && snapText == PrintSnap(pairs);
    SnapshotRoundTripExactly(pairs, snap);
    LogRoundTripExactly(logOps);
  }

  /** Restart: a new index is loaded from the files of one whose queue and buffer are empty. */
  method Restart(t: TableIndex, name: string, shared: SharedFiles) returns (u: TableIndex)
    requires t.Valid() && t.queue == [] && t.bufOps == []
    requires CleanIndex(t.snap) && AllClean(t.logOps)
    ensures fresh(u) && u.Valid() && u.entries == t.entries
  {
    FilesRebuild(t.snapFile, t.snap, t.logOps);
    Drained(t.logOps);
    u := new TableIndex.Load(name, Some(t.snapFile), Some(t.walFile), shared, t.snap, t.logOps);
  }

  /** Imported entries are in no file of the table before its first snapshot, and as the log file
      exists from then on, a restart does not import again. Whatever was done in between and has
      reached the log, the restart finds the same index if and only if every imported key was saved
      or deleted again. */
  lemma ImportLostExactly(name: string, shared: SharedFiles, ops: seq<Op>)
    requires AllClean(ops)
    ensures FromFiles([], Print(ops)) == Replay(Imported(shared, name), ops)
            <==> forall k :: k in Imported(shared, name) ==> Mentions(ops, k)
  {
    var imported := Imported(shared, name);
    EmptyFiles();
    LogRoundTripExactly(ops);
    assert FromFiles([], Print(ops)) == Replay(map[], ops);
    forall k
      ensures Get(Replay(map[], ops), k) == Get(Replay(imported, ops), k) <==> k !in imported || Mentions(ops, k)
    {
      ReplayAt(map[], ops, k);
      ReplayAt(imported, ops, k);
    }
    if forall k :: k in imported ==> Mentions(ops, k) {
      SameIndex(Replay(map[], ops), Replay(imported, ops));
    }
  }

  // ---- What is imported ----

  /** A deletion, or an entry of the table's own file. */
  predicate Own(op: Op, name: string) { op.Del? || op.entry.file == name }

  lemma {:induction false} MineConcat(a: seq<Op>, b: seq<Op>, name: string)
    ensures Mine(a + b, name) == Mine(a, name) + Mine(b, name)
  {
    if b == [] {
      assert a + b == a;
    } else {
      var n := |b| - 1;
      MineConcat(a, b[..n], name);
      assert (a + b)[..|a| + n] == a + b[..n];
    }
  }

  lemma ReplayMine(ops: seq<Op>, name: string, k: string)
    requires ops != []
    ensures var n := |ops| - 1;
            Get(Replay(map[], Mine(ops, name)), k)
            == if ops[n].key == k && Own(ops[n], name) then Effect(ops[n])
               else Get(Replay(map[], Mine(ops[..n], name)), k)
  {
    var n := |ops| - 1;
    ReplayMore(map[], Mine(ops[..n], name), ops[n]);
  }

  /** Operation i is the last one on k that concerns the table. */
  ghost predicate LastOwn(ops: seq<Op>, name: string, k: string, i: nat) {
    && i < |ops| && ops[i].key == k && (ops[i].Del? || ops[i].entry.file == name)
    && forall j :: i < j < |ops| && ops[j].key == k ==> ops[j].Put? && ops[j].entry.file != name
  }

  lemma {:induction false} OwnReplay(ops: seq<Op>, name: string, k: string, i: nat)
    requires LastOwn(ops, name, k, i)
    ensures Get(Replay(map[], Mine(ops, name)), k) == Effect(ops[i])
  {
    ReplayMine(ops, name, k);
    if i < |ops| - 1 {
      OwnReplay(ops[..|ops| - 1], name, k, i);
    }
  }

  lemma {:induction false} NoneReplay(ops: seq<Op>, name: string, k: string)
    requires forall i :: 0 <= i < |ops| && ops[i].key == k ==> !Own(ops[i], name)
    ensures Get(Replay(map[], Mine(ops, name)), k) == None
  {
    if ops != [] {
      ReplayMine(ops, name, k);
      NoneReplay(ops[..|ops| - 1], name, k);
    }
  }

  lemma {:induction false} FindLastOwn(ops: seq<Op>, name: string, k: string) returns (i: Option<nat>)
    ensures i.Some? ==> LastOwn(ops, name, k, i.value)
    ensures i.None? ==> forall j :: 0 <= j < |ops| && ops[j].key == k ==> !Own(ops[j], name)
  {
    i := None;
    if ops != [] {
      var n := |ops| - 1;
      if ops[n].key == k && Own(ops[n], name) {
        i := Some(n);
      } else {
        i := FindLastOwn(ops[..n], name, k);
      }
    }
  }

  lemma ImportedIsReplay(shared: SharedFiles, name: string)
    ensures Imported(shared, name) == Replay(map[], Mine(ParseSnap(shared.snap) + Parse(shared.wal), name))
  {
    var a, b := ParseSnap(shared.snap), Parse(shared.wal);
    ReplayConcat(map[], Mine(a, name), Mine(b, name));
    MineConcat(a, b, name);
  }

  /** An imported key has the effect of the last operation on it, the shared log behind the shared
      snapshot, that is a deletion or an entry of the table's own file. */
  lemma ImportedExactly(shared: SharedFiles, name: string, k: string, i: nat)
    ensures var ops := ParseSnap(shared.snap) + Parse(shared.wal);
            LastOwn(ops, name, k, i) ==> Get(Imported(shared, name), k) == Effect(ops[i])
  {
    var ops := ParseSnap(shared.snap) + Parse(shared.wal);
    ImportedIsReplay(shared, name);
    if LastOwn(ops, name, k, i) {
      OwnReplay(ops, name, k, i);
    }
  }

  /** There is no other imported key. */
  lemma ImportedHasOwn(shared: SharedFiles, name: string, k: string) returns (i: nat)
    requires k in Imported(shared, name)
    ensures var ops := ParseSnap(shared.snap) + Parse(shared.wal); LastOwn(ops, name, k, i) && ops[i].Put?
  {
    var ops := ParseSnap(shared.snap) + Parse(shared.wal);
    ImportedIsReplay(shared, name);
    var found := FindLastOwn(ops, name, k);
    if found.None? {
      NoneReplay(ops, name, k);
    }
    i := found.value;
    OwnReplay(ops, name, k, i);
  }

  /** A table imports no entry of another table's file. */
  lemma ImportedIsOwn(shared: SharedFiles, name: string, k: string)
    ensures k in Imported(shared, name) ==> Imported(shared, name)[k].file == name
  {
    if k in Imported(shared, name) {
      var i := ImportedHasOwn(shared, name, k);
      ImportedExactly(shared, name, k, i);
    }
  }

  /** The files of a table: the last operation on each key counts, the log behind the snapshot. */
  lemma FromFilesExactly(snapText: string, walText: string, k: string)
    ensures var ops := ParseSnap(snapText) + Parse(walText);
            Get(FromFiles(snapText, walText), k) == if Mentions(ops, k) then Effect(Last(ops, k)) else None
  {
    ReplayConcat(map[], ParseSnap(snapText), Parse(walText));
    ReplayAt(map[], ParseSnap(snapText) + Parse(walText), k);
  }

  /** A table whose entry is in the shared files. */
  lemma OneImported(name: string, k: string, e: Entry)
    requires CleanName(k) && CleanEntry(e) && e.file == name
    ensures Imported(SharedFiles(PrintSnap([(k, e)]), []), name) == map[k := e]
  {
    var pairs := [(k, e)];
    EmptyFiles();
    ParseSnapHead(pairs);
    assert PrintSnap(pairs[1..]) == [];
    var ops := [Put(k, e)];
    assert Mine(ops, name) == ops && Mine([], name) == [];
    assert ops[..0] == [] && Replay(map[], ops) == map[k := e];
  }

  method CarryOutAll(t: TableIndex, ops: seq<Op>)
    requires t.Sharded() && AllClean(ops) && t.LogTexts() && t.Pending() == []
    modifies t, t.shards
    ensures t.Sharded() && t.LogTexts() && t.entries == Replay(old(t.entries), ops) && t.Pending() == ops
  {
    if ops != [] {
      var n := |ops| - 1;
      CarryOutAll(t, ops[..n]);
      CarryOut(t, ops[n]);
      assert ops[..n] + [ops[n]] == ops;
    }
  }

  method CarryOut(t: TableIndex, op: Op)
    requires t.Sharded() && Clean(op) && t.LogTexts()
    modifies t, t.shards
    ensures t.Sharded() && t.LogTexts() && t.entries == Apply(old(t.entries), op)
    ensures t.Pending() == old(t.Pending()) + [op]
  {
    match op
    case Put(k, e) => var _ := t.SaveElement(k, e.file, e.start, e.end);
    case Del(k) => t.RemoveElement(k);
  }

  /** The writer takes what is queued, and the buffer is flushed. */
  method Drain(t: TableIndex)
    requires t.LogTexts()
    modifies t`queue, t`walBuf, t`walFile, t`bufOps, t`logOps
    ensures t.walFile == Print(old(t.Pending()))
  {
    ghost var ops := t.Pending();
    while t.queue != []
      invariant t.LogTexts() && t.Pending() == ops
      decreases |t.queue|
    {
      t.WriteOne();
    }
    t.FlushWal();
    assert t.logOps + [] + [] == t.logOps;
  }

  /** The same on the index itself: an import, further operations, and a restart. */
  method ImportIsLost(name: string, shared: SharedFiles, ops: seq<Op>) returns (t: TableIndex, u: TableIndex)
    requires AllClean(ops)
    ensures t.entries == Replay(Imported(shared, name), ops) && u.entries == Replay(map[], ops)
    ensures u.entries == t.entries <==> forall k :: k in Imported(shared, name) ==> Mentions(ops, k)
  {
    EmptyFiles();
    t := new TableIndex.Load(name, None, None, shared, map[], []);
    CarryOutAll(t, ops);
    Drain(t);
    ImportLostExactly(name, shared, ops);
    u := new TableIndex.Load(name, None, Some(t.walFile), shared, map[], []);
    LogRoundTripExactly(ops);
  }

  /** With the first snapshot they are safe. */
  method ImportThenSnapshot(name: string, shared: SharedFiles) returns (t: TableIndex)
    ensures t.Valid() && t.entries == Imported(shared, name) && t.queue == [] && t.bufOps == []
  {
    EmptyFiles();
    t := new TableIndex.Load(name, None, None, shared, map[], []);
    t.WriteSnapshot();
  }
}
