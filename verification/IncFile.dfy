/** A batch of requests on the file of an incremental table: positional writes, appends, reads. */
module IncFile {
  import opened Bytes
  import opened Files
  import opened IncEntry

  datatype Kind = WriteInc | WriteIncOw | ReadInc

  /** incId is an id or, for the two counted reads, an amount. readType is 0 insert / by id,
      1 overwrite / last N, 2 first N. */
  datatype Req = Req(kind: Kind, data: seq<byte>, entrySize: uint64, incId: uint64, readType: nat, countFrom: string)

  datatype Resp = Reply(data: seq<byte>, start: int, end: int) | Failed(reason: Reason)
  datatype Reason = BadEntrySize | LengthMismatch | OutOfRange | BadReadType

  function Lower(c: char): char {
    if 'A' <= c <= 'Z' then (c as int + 32) as char else c
  }

  /** strings.ToLower(s) == "top". */
  predicate IsTop(s: string) {
    |s| == 3 && Lower(s[0]) == 't' && Lower(s[1]) == 'o' && Lower(s[2]) == 'p'
  }

  /** The content zero-filled to a whole number of records. */
  function Padded(c: seq<byte>, rs: nat): (p: seq<byte>)
    requires rs > 0
    ensures |p| % rs == 0 && c <= p && |p| < |c| + rs
    ensures forall i :: |c| <= i < |p| ==> p[i] == 0
  {
    if |c| % rs == 0 then c
    else
      var p := c + Zeros(rs - |c| % rs);
      NextMultiple(|c|, rs);
      p
  }

  lemma NextMultiple(n: nat, rs: nat)
    requires rs > 0 && n % rs != 0
    ensures (n + (rs - n % rs)) % rs == 0
  {
    assert n + (rs - n % rs) == rs * (n / rs + 1);
    MultipleMod(n / rs + 1, rs);
  }

  lemma MultipleMod(k: nat, rs: nat)
    requires rs > 0
    ensures (rs * k) % rs == 0 && (rs * k) / rs == k
  {
    var n := rs * k;
    var q := n / rs;
    if q < k {
      RowBounds(q + 1, k, rs);
      RowNext(q, rs);
    } else {
      RowBounds(k, q, rs);
    }
    if q > k {
      RowBounds(k + 1, q, rs);
      RowNext(k, rs);
    }
  }

  function Count(c: seq<byte>, rs: nat): nat
    requires rs > 0
  {
    |c| / rs
  }

  /** The row that an insert among n rows lands on; None when the id is out of range. */
  function InsertAt(req: Req, n: nat): Option<nat> {
    var id := ToInt64(req.incId);
    if id < 0 || id > n then None else Some(if IsTop(req.countFrom) then n - id else id)
  }

  function OverwriteAt(req: Req, n: nat): Option<nat> {
    var id := ToInt64(req.incId);
    if id < 0 || id >= n then None else Some(if IsTop(req.countFrom) then n - 1 - id else id)
  }

  lemma RowBounds(i: nat, n: nat, rs: nat)
    requires i <= n
    ensures i * rs <= n * rs
  {
  }

  lemma RowNext(i: nat, rs: nat)
    ensures (i + 1) * rs == i * rs + rs
  {
  }

  lemma WholeRows(c: seq<byte>, rs: nat)
    requires rs > 0 && |c| % rs == 0
    ensures Count(c, rs) * rs == |c|
  {
  }

  // ---- What each request does to the content ----

  /** d becomes the row at e; the rows from e on move up by one. */
  function Spliced(c: seq<byte>, rs: nat, e: nat, d: seq<byte>): seq<byte>
    requires rs > 0 && |c| % rs == 0 && e <= Count(c, rs)
  {
    WholeRows(c, rs);
    RowBounds(e, Count(c, rs), rs);
    c[..e * rs] + d + c[e * rs..]
  }

  function Replaced(c: seq<byte>, rs: nat, e: nat, d: seq<byte>): seq<byte>
    requires rs > 0 && |c| % rs == 0 && e < Count(c, rs) && |d| == rs
  {
    WholeRows(c, rs);
    RowBounds(e + 1, Count(c, rs), rs);
    RowNext(e, rs);
    Overwrite(c, e * rs, d)
  }

  function IdReply(e: nat, rs: nat): Resp {
    Reply(LE(e, 8), e * rs, e * rs + rs)
  }

  /** The id in a reply: eight bytes, lowest first, and the range of the row. */
  lemma IdReplyLayout(e: nat, rs: nat)
    ensures var r := IdReply(e, rs);
            r.Reply? && |r.data| == 8 && (forall i: nat :: i < 8 ==> r.data[i] == e / Pow256(i) % 256)
            && r.start == e * rs && r.end == r.start + rs
  {
    forall i: nat | i < 8 ensures LE(e, 8)[i] == e / Pow256(i) % 256 {
      LEByte(e, 8, i);
    }
  }

  /** The header counts from the top in whatever case it says so. */
  lemma TopInAnyCase(s: string)
    ensures IsTop(s) <==> s in ["top", "toP", "tOp", "tOP", "Top", "ToP", "TOp", "TOP"]
  {
    if |s| == 3 {
      assert s == [s[0], s[1], s[2]];
      assert Lower(s[0]) == 't' <==> s[0] in ['t', 'T'];
      assert Lower(s[1]) == 'o' <==> s[1] in ['o', 'O'];
      assert Lower(s[2]) == 'p' <==> s[2] in ['p', 'P'];
    }
  }

  datatype Done = Done(content: seq<byte>, resp: Resp)

  function Positional(c: seq<byte>, req: Req): Done {
    var rs := RecordSize(req.entrySize);
    if rs <= 0 then Done(c, Failed(BadEntrySize))
    else if |req.data| != rs then Done(c, Failed(LengthMismatch))
    else
      var p := Padded(c, rs);
      if req.readType == 0 then
        match InsertAt(req, Count(p, rs))
        case None => Done(p, Failed(OutOfRange))
        case Some(e) => Done(Spliced(p, rs, e, req.data), IdReply(e, rs))
      else if req.readType == 1 then
        match OverwriteAt(req, Count(p, rs))
        case None => Done(p, Failed(OutOfRange))
        case Some(e) => Done(Replaced(p, rs, e, req.data), IdReply(e, rs))
      else Done(p, Failed(BadReadType))
  }

  function Append(c: seq<byte>, req: Req): Done {
    var rs := RecordSize(req.entrySize);
    if rs <= 0 then Done(c, Failed(BadEntrySize))
    else if |req.data| != rs then Done(c, Failed(LengthMismatch))
    else
      var p := Padded(c, rs);
      Done(p + req.data, IdReply(Count(p, rs), rs))
  }

  /** n rows from the end of the whole rows, the last one first. */
  function LastRows(c: seq<byte>, rs: nat, k: nat, n: nat): (r: seq<byte>)
    requires rs > 0 && n <= k <= Count(c, rs)
    ensures |r| == n * rs
    decreases n
  {
    if n == 0 then []
    else
      RowBounds(k, Count(c, rs), rs);
      RowNext(k - 1, rs);
      RowNext(n - 1, rs);
      c[(k - 1) * rs..k * rs] + LastRows(c, rs, k - 1, n - 1)
  }

  function Min(a: int, b: int): int { if a <= b then a else b }

  function ReadById(c: seq<byte>, rs: nat, id: int): Resp
    requires rs > 0
  {
    if id < 0 || id >= Count(c, rs) then Failed(OutOfRange)
    else
      RowBounds(id + 1, Count(c, rs), rs);
      RowNext(id, rs);
      Reply(c[id * rs..id * rs + rs], id * rs, id * rs + rs)
  }

  function ReadLast(c: seq<byte>, rs: nat, id: int): Resp
    requires rs > 0
  {
    var k := Count(c, rs);
    if id <= 0 || k == 0 then Reply([], 0, 0)
    else
      var n := Min(id, k);
      Reply(LastRows(c, rs, k, n), (k - n) * rs, (k - n) * rs + n * rs)
  }

  function ReadFirst(c: seq<byte>, rs: nat, id: int): Resp
    requires rs > 0
  {
    var k := Count(c, rs);
    if id <= 0 || k == 0 then Reply([], 0, 0)
    else
      var n := Min(id, k);
      RowBounds(n, k, rs);
      Reply(c[..n * rs], 0, n * rs)
  }

  function Read(c: seq<byte>, req: Req): Resp {
    var rs, id := RecordSize(req.entrySize), ToInt64(req.incId);
    if rs <= 0 then Failed(BadEntrySize)
    else if req.readType == 0 then ReadById(c, rs, id)
    else if req.readType == 1 then ReadLast(c, rs, id)
    else if req.readType == 2 then ReadFirst(c, rs, id)
    else Failed(BadReadType)
  }

  function Perform(c: seq<byte>, req: Req): Done {
    match req.kind
    case WriteIncOw => Positional(c, req)
    case WriteInc => Append(c, req)
    case ReadInc => Done(c, Read(c, req))
  }

  /** The row that an id means among the rows 0 to last: counted from the bottom it is the number of rows
      in front of it, from the top the number of rows behind it. */
  predicate Means(countFrom: string, id: nat, last: int, e: nat) {
    if countFrom in ["top", "toP", "tOp", "tOP", "Top", "ToP", "TOp", "TOP"] then e + id == last else e == id <= last
  }

  /** A record is inserted so that its id means its row, the new one counted; or nothing changes, if it
      can mean none. */
  lemma InsertPlaces(c: seq<byte>, req: Req, e: nat, at: nat)
    requires req.readType == 0 && 0 < RecordSize(req.entrySize) == |req.data| && |c| % |req.data| == 0
    requires at == e * |req.data|
    ensures req.incId < TWO_63 && Means(req.countFrom, req.incId, |c| / |req.data|, e) ==>
              at <= |c| && Positional(c, req) == Done(c[..at] + req.data + c[at..], IdReply(e, |req.data|))
    ensures req.incId >= TWO_63 || req.incId > |c| / |req.data| ==> Positional(c, req) == Done(c, Failed(OutOfRange))
  {
    TopInAnyCase(req.countFrom);
    if e <= Count(c, |req.data|) {
      WholeRows(c, |req.data|);
      RowBounds(e, Count(c, |req.data|), |req.data|);
    }
  }

  /** An overwrite replaces the row that its id means. */
  lemma OverwritePlaces(c: seq<byte>, req: Req, e: nat, at: nat)
    requires req.readType == 1 && 0 < RecordSize(req.entrySize) == |req.data| && |c| % |req.data| == 0
    requires at == e * |req.data|
    ensures req.incId < TWO_63 && Means(req.countFrom, req.incId, |c| / |req.data| - 1, e) ==>
              at + |req.data| <= |c|
              && Positional(c, req) == Done(c[..at] + req.data + c[at + |req.data|..], IdReply(e, |req.data|))
    ensures req.incId >= TWO_63 || req.incId >= |c| / |req.data| ==> Positional(c, req) == Done(c, Failed(OutOfRange))
  {
    TopInAnyCase(req.countFrom);
    if e < Count(c, |req.data|) {
      WholeRows(c, |req.data|);
      RowBounds(e + 1, Count(c, |req.data|), |req.data|);
      RowNext(e, |req.data|);
    }
  }

  /** An append puts the record behind the whole rows, an incomplete one filled up with zeros. */
  lemma AppendPlaces(c: seq<byte>, req: Req, fill: seq<byte>)
    requires 0 < RecordSize(req.entrySize) == |req.data|
    requires |fill| < |req.data| && (|c| + |fill|) % |req.data| == 0 && forall i :: 0 <= i < |fill| ==> fill[i] == 0
    ensures Append(c, req) == Done(c + fill + req.data, IdReply((|c| + |fill|) / |req.data|, |req.data|))
  {
    var p, rs := Padded(c, |req.data|), |req.data|;
    SameMultiple(|p|, |c| + |fill|, rs);
    assert p == c + fill;
  }

  /** Two multiples less than one apart are the same. */
  lemma SameMultiple(a: nat, b: nat, rs: nat)
    requires rs > 0 && a % rs == 0 && b % rs == 0 && a < b + rs && b < a + rs
    ensures a == b
  {
    var p, q := a / rs, b / rs;
    assert a == rs * p && b == rs * q;
    if p < q {
      RowBounds(p + 1, q, rs);
      RowNext(p, rs);
    }
    if q < p {
      RowBounds(q + 1, p, rs);
      RowNext(q, rs);
    }
  }

  /** Requests that are turned away at once. */
  lemma BadRequests(c: seq<byte>, req: Req)
    ensures RecordSize(req.entrySize) <= 0 ==> Perform(c, req) == Done(c, Failed(BadEntrySize))
    ensures RecordSize(req.entrySize) > 0 && !req.kind.ReadInc? && |req.data| != RecordSize(req.entrySize)
            ==> Perform(c, req) == Done(c, Failed(LengthMismatch))
    ensures RecordSize(req.entrySize) > 0 && req.kind.ReadInc? && req.readType > 2
            ==> Perform(c, req) == Done(c, Failed(BadReadType))
    ensures req.kind.WriteIncOw? && 0 < RecordSize(req.entrySize) == |req.data| && req.readType > 1
            ==> Perform(c, req).resp == Failed(BadReadType) && c <= Perform(c, req).content
  {
  }

  /** How many of n rows are m, if amount are asked for: as many as that or all there are, and none for
      amounts that are zero, or negative as a signed integer. */
  predicate CountsTo(amount: uint64, n: nat, m: nat) {
    if 0 < amount < 0x8000_0000_0000_0000 then m <= amount && m <= n && (m == amount || m == n) else m == 0
  }

  /** The first rows of the file, as many as the read answers with. */
  lemma FirstCounted(c: seq<byte>, req: Req, m: nat, size: nat)
    requires RecordSize(req.entrySize) > 0 && req.readType == 2
    requires CountsTo(req.incId, |c| / RecordSize(req.entrySize), m) && size == m * RecordSize(req.entrySize)
    ensures size <= |c| && Read(c, req) == Reply(c[..size], 0, size)
  {
    RowBounds(m, Count(c, RecordSize(req.entrySize)), RecordSize(req.entrySize));
  }

  /** The last rows: their number, and where they begin. Their order is that of LastRaw. */
  lemma LastCounted(c: seq<byte>, req: Req, m: nat, size: nat, start: nat)
    requires RecordSize(req.entrySize) > 0 && req.readType == 1
    requires CountsTo(req.incId, |c| / RecordSize(req.entrySize), m) && size == m * RecordSize(req.entrySize)
    requires start == if m == 0 then 0 else (|c| / RecordSize(req.entrySize) - m) * RecordSize(req.entrySize)
    ensures var r := Read(c, req); r.Reply? && |r.data| == size && r.start == start && r.end == start + size
  {
  }

  /** The read of one row. */
  lemma ReadOneRow(c: seq<byte>, req: Req)
    requires RecordSize(req.entrySize) > 0 && req.readType == 0
    ensures var rs, r, n := RecordSize(req.entrySize), Read(c, req), |c| / RecordSize(req.entrySize);
            && (r.Failed? <==> req.incId >= n || req.incId >= 0x8000_0000_0000_0000)
            && (r.Failed? ==> r == Failed(OutOfRange))
            && (r.Reply? ==> r.start == req.incId * rs && r.end == r.start + rs <= |c| && r.data == c[r.start..r.end])
  {
    if req.incId < Count(c, RecordSize(req.entrySize)) {
      RowBounds(req.incId + 1, Count(c, RecordSize(req.entrySize)), RecordSize(req.entrySize));
      RowNext(req.incId, RecordSize(req.entrySize));
    }
  }

  // ---- The requests as they are carried out on the file ----

  /** One step of the reverse copy: the tail from cut on has moved up by one record. */
  ghost predicate TailMoved(f: seq<byte>, c: seq<byte>, cut: nat, rs: nat) {
    |f| == |c| + rs && cut <= |c| && f[..cut] == c[..cut] && f[cut + rs..] == c[cut..]
  }

  lemma CopyStep(f: seq<byte>, c: seq<byte>, cut: nat, rs: nat)
    requires TailMoved(f, c, cut + rs, rs)
    ensures TailMoved(Overwrite(f, cut + rs, Fill(f[cut..], rs)), c, cut, rs)
  {
    var buf := Fill(f[cut..], rs);
    var g := Overwrite(f, cut + rs, buf);
    assert f[cut..] == f[cut..cut + rs] + f[cut + rs..];
    assert buf == f[cut..cut + rs] == f[..cut + rs][cut..] == c[cut..cut + rs];
    assert g[..cut] == f[..cut + rs][..cut];
    assert g[cut + rs..] == buf + f[cut + rs + rs..];
    assert c[cut..] == c[cut..cut + rs] + c[cut + rs..];
  }

  lemma FinishInsert(f: seq<byte>, c: seq<byte>, at: nat, d: seq<byte>)
    requires TailMoved(f, c, at, |d|)
    ensures Overwrite(f, at, d) == c[..at] + d + c[at..]
  {
  }

  /** Makes room behind the last row, moves the rows from e on up by one, last row first, so that
      each is read before it is overwritten, and writes the new row. */
  method InsertRow(file: DataFile, rs: nat, n: nat, e: nat, data: seq<byte>)
    requires rs > 0 && |file.content| == n * rs && e <= n && |data| == rs
    modifies file
    ensures e * rs <= |old(file.content)|
    ensures file.content == old(file.content)[..e * rs] + data + old(file.content)[e * rs..]
  {
    ghost var c := file.content;
    RowBounds(e, n, rs);
    file.Truncate(n * rs + rs);
    var srcIdx := n - 1;
    while srcIdx >= e
      invariant e - 1 <= srcIdx < n
      invariant TailMoved(file.content, c, (srcIdx + 1) * rs, rs)
    {
      RowNext(srcIdx, rs);
      RowBounds(srcIdx + 1, n, rs);
      CopyStep(file.content, c, srcIdx * rs, rs);
      var srcOff := srcIdx * rs;
      var dstOff := (srcIdx + 1) * rs;
      var buf := file.ReadAt(srcOff, rs);
      file.WriteAt(buf, dstOff);
      srcIdx := srcIdx - 1;
    }
    FinishInsert(file.content, c, e * rs, data);
    file.WriteAt(data, e * rs);
  }

  /** Fills the last, incomplete record with zeros, if there is one. */
  method Pad(file: DataFile, rs: nat) returns (size: nat)
    requires rs > 0
    modifies file
    ensures file.content == Padded(old(file.content), rs) && size == |file.content|
  {
    size := |file.content|;
    var rem := size % rs;
    if rem != 0 {
      file.WriteAt(Zeros(rs - rem), size);
      size := size + (rs - rem);
    }
  }

  method DoPositional(file: DataFile, req: Req) returns (resp: Resp)
    modifies file
    ensures Done(file.content, resp) == Positional(old(file.content), req)
  {
    var rs := RecordSize(req.entrySize);
    if rs <= 0 {
      return Failed(BadEntrySize);
    }
    if |req.data| != rs {
      return Failed(LengthMismatch);
    }
    var fileSize := Pad(file, rs);
    var numRecords := fileSize / rs;
    WholeRows(file.content, rs);
    if req.readType == 0 {
      resp := DoInsert(file, req, rs, numRecords);
    } else if req.readType == 1 {
      resp := DoOverwrite(file, req, rs, numRecords);
    } else {
      return Failed(BadReadType);
    }
  }

  method DoInsert(file: DataFile, req: Req, rs: nat, n: nat) returns (resp: Resp)
    requires rs > 0 && |req.data| == rs && |file.content| == n * rs
    modifies file
    ensures match InsertAt(req, n)
            case None => resp == Failed(OutOfRange) && file.content == old(file.content)
            case Some(e) => e <= n && e * rs <= |old(file.content)| && resp == IdReply(e, rs)
                            && file.content == old(file.content)[..e * rs] + req.data + old(file.content)[e * rs..]
  {
    var prefID := ToInt64(req.incId);
    var effID;
    if prefID < 0 || prefID > n {
      return Failed(OutOfRange);
    }
    if IsTop(req.countFrom) {
      effID := n - prefID;
    } else {
      effID := prefID;
    }
    InsertRow(file, rs, n, effID, req.data);
    resp := IdReply(effID, rs);
  }

  method DoOverwrite(file: DataFile, req: Req, rs: nat, n: nat) returns (resp: Resp)
    requires rs > 0 && |req.data| == rs && |file.content| == n * rs
    modifies file
    ensures match OverwriteAt(req, n)
            case None => resp == Failed(OutOfRange) && file.content == old(file.content)
            case Some(e) => e < n && e * rs <= |old(file.content)| && resp == IdReply(e, rs)
                            && file.content == Overwrite(old(file.content), e * rs, req.data)
  {
    var prefID := ToInt64(req.incId);
    var effID;
    if prefID < 0 || prefID >= n {
      return Failed(OutOfRange);
    }
    if IsTop(req.countFrom) {
      effID := (n - 1) - prefID;
    } else {
      effID := prefID;
    }
    RowBounds(effID, n, rs);
    file.WriteAt(req.data, effID * rs);
    resp := IdReply(effID, rs);
  }

  method DoAppend(file: DataFile, req: Req) returns (resp: Resp)
    modifies file
    ensures Done(file.content, resp) == Append(old(file.content), req)
  {
    var rs := RecordSize(req.entrySize);
    if rs <= 0 {
      return Failed(BadEntrySize);
    }
    if |req.data| != rs {
      return Failed(LengthMismatch);
    }
    var fileSize := Pad(file, rs);
    var id := fileSize / rs;
    WholeRows(file.content, rs);
    var offset := id * rs;
    file.WriteAt(req.data, offset);
    resp := Reply(LE(id, 8), offset, offset + rs);
  }

  /** Row n - 1 - i of a block of n rows is row k - 1 - i of the file that the block ends in. */
  lemma ReverseOffsets(rs: nat, k: nat, n: nat, i: nat, base: nat, at: nat)
    requires i < n <= k && base == (k - n) * rs && at == (n - 1 - i) * rs
    ensures base + at == (k - 1 - i) * rs && base + at + rs == (k - i) * rs
    ensures at + rs <= n * rs && base + n * rs == k * rs
  {
    RowNext(k - 1 - i, rs);
    RowNext(n - 1 - i, rs);
    RowBounds(n - i, n, rs);
    RowSum(k - n, n - 1 - i, rs);
    RowSum(k - n, n, rs);
  }

  lemma BlockSlice(c: seq<byte>, base: nat, end: nat, at: nat, rs: nat)
    requires base + at + rs <= end <= |c|
    ensures c[base..end][at..at + rs] == c[base + at..base + at + rs]
  {
    var a, b := c[base..end][at..at + rs], c[base + at..base + at + rs];
    forall i | 0 <= i < rs ensures a[i] == b[i] {
      assert a[i] == c[base..end][at + i];
    }
  }

  /** What one more row of the block adds to the output. */
  lemma ReverseStep(c: seq<byte>, rs: nat, k: nat, n: nat, i: nat, base: nat, at: nat, out: seq<byte>)
    requires rs > 0 && i < n <= k <= Count(c, rs)
    requires base == (k - n) * rs && at == (n - 1 - i) * rs && base + n * rs <= |c|
    ensures at + rs <= n * rs
    ensures out + LastRows(c, rs, k - i, n - i)
            == (out + c[base..base + n * rs][at..at + rs]) + LastRows(c, rs, k - i - 1, n - i - 1)
  {
    ReverseOffsets(rs, k, n, i, base, at);
    BlockSlice(c, base, base + n * rs, at, rs);
    var row, rest := c[base..base + n * rs][at..at + rs], LastRows(c, rs, k - i - 1, n - i - 1);
    assert LastRows(c, rs, k - i, n - i) == row + rest;
    assert (out + row) + rest == out + (row + rest);
  }

  /** tmp holds the rows from base on; out gets them in reverse. */
  method ReverseRows(tmp: seq<byte>, rs: nat, n: nat, ghost c: seq<byte>, ghost k: nat, ghost base: nat)
    returns (out: seq<byte>)
    requires rs > 0 && n <= k <= Count(c, rs)
    requires base == (k - n) * rs && base + n * rs <= |c| && tmp == c[base..base + n * rs]
    ensures out == LastRows(c, rs, k, n)
  {
    out := [];
    var i := 0;
    while i < n
      invariant 0 <= i <= n
      invariant out + LastRows(c, rs, k - i, n - i) == LastRows(c, rs, k, n)
    {
      RowBounds(0, n - 1 - i, rs);
      var srcStart := (n - 1 - i) * rs;
      ReverseStep(c, rs, k, n, i, base, srcStart, out);
      out := out + tmp[srcStart..srcStart + rs];
      i := i + 1;
    }
  }

  lemma RowSum(a: nat, b: nat, rs: nat)
    ensures (a + b) * rs == a * rs + b * rs
  {
  }

  method DoRead(file: DataFile, req: Req) returns (resp: Resp)
    ensures resp == Read(file.content, req)
  {
    var rs, id := RecordSize(req.entrySize), ToInt64(req.incId);
    if rs <= 0 {
      return Failed(BadEntrySize);
    }
    if req.readType == 0 {
      resp := DoReadById(file, rs, id);
    } else if req.readType == 1 {
      resp := DoReadLast(file, rs, id);
    } else if req.readType == 2 {
      resp := DoReadFirst(file, rs, id);
    } else {
      resp := Failed(BadReadType);
    }
  }

  method DoReadById(file: DataFile, rs: nat, id: int) returns (resp: Resp)
    requires rs > 0
    ensures resp == ReadById(file.content, rs, id)
  {
    var numRecords := |file.content| / rs;
    if id < 0 || id >= numRecords {
      return Failed(OutOfRange);
    }
    RowBounds(id + 1, numRecords, rs);
    RowNext(id, rs);
    var offset := id * rs;
    FillSlice(file.content, offset, offset + rs);
    var buf := file.ReadAt(offset, rs);
    resp := Reply(buf, offset, offset + rs);
  }

  method DoReadFirst(file: DataFile, rs: nat, id: int) returns (resp: Resp)
    requires rs > 0
    ensures resp == ReadFirst(file.content, rs, id)
  {
    var numRecords := |file.content| / rs;
    if id <= 0 || numRecords == 0 {
      return Reply([], 0, 0);
    }
    var n := if id > numRecords then numRecords else id;
    RowBounds(n, numRecords, rs);
    var total := n * rs;
    FillSlice(file.content, 0, total);
    var buf := file.ReadAt(0, total);
    resp := Reply(buf, 0, total);
  }

  method DoReadLast(file: DataFile, rs: nat, id: int) returns (resp: Resp)
    requires rs > 0
    ensures resp == ReadLast(file.content, rs, id)
  {
    var numRecords := |file.content| / rs;
    if id <= 0 || numRecords == 0 {
      return Reply([], 0, 0);
    }
    var n := if id > numRecords then numRecords else id;
    RowBounds(0, numRecords - n, rs);
    var startOffset, total := (numRecords - n) * rs, n * rs;
    var out := ReadReversed(file, rs, numRecords, n, startOffset, total);
    resp := Reply(out, startOffset, startOffset + total);
  }

  /** The n rows before row k in one read, then reversed. */
  method ReadReversed(file: DataFile, rs: nat, k: nat, n: nat, start: nat, total: nat) returns (out: seq<byte>)
    requires rs > 0 && n <= k <= Count(file.content, rs) && start == (k - n) * rs && total == n * rs
    ensures out == LastRows(file.content, rs, k, n)
  {
    BlockInside(file.content, rs, k, n, start, total);
    FillSlice(file.content, start, start + total);
    var tmp := file.ReadAt(start, total);
    out := ReverseRows(tmp, rs, n, file.content, k, start);
  }

  lemma BlockInside(c: seq<byte>, rs: nat, k: nat, n: nat, start: nat, total: nat)
    requires rs > 0 && n <= k <= Count(c, rs) && start == (k - n) * rs && total == n * rs
    ensures start + total <= |c|
  {
    RowSum(k - n, n, rs);
    RowBounds(k, Count(c, rs), rs);
  }
}
