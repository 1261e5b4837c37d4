/** The text form of the log and of the snapshot. */
module WalText {
  import opened Bytes
  import opened Text
  import opened Wal

  /** The fields with a bar between each two. */
  function Join(fields: seq<string>): string
    requires fields != []
  {
    if |fields| == 1 then fields[0] else fields[0] + ['|'] + Join(fields[1..])
  }

  /** A log line without its newline. */
  function OpLine(op: Op): string {
    match op
    case Put(k, e) => Join(["S", k, e.file, Itoa(e.start), Itoa(e.end)])
    case Del(k) => Join(["D", k])
  }

  function SnapLine(k: string, e: Entry): string {
    Join([k, e.file, Itoa(e.start), Itoa(e.end)])
  }

  function OpLines(ops: seq<Op>): (lines: seq<string>)
    ensures |lines| == |ops| && forall i :: 0 <= i < |ops| ==> lines[i] == OpLine(ops[i])
  {
    seq(|ops|, i requires 0 <= i < |ops| => OpLine(ops[i]))
  }

  function SnapLines(pairs: seq<(string, Entry)>): (lines: seq<string>)
    ensures |lines| == |pairs| && forall i :: 0 <= i < |pairs| ==> lines[i] == SnapLine(pairs[i].0, pairs[i].1)
  {
    seq(|pairs|, i requires 0 <= i < |pairs| => SnapLine(pairs[i].0, pairs[i].1))
  }

  function Print(ops: seq<Op>): string { Unlines(OpLines(ops)) }

  function PrintSnap(pairs: seq<(string, Entry)>): string { Unlines(SnapLines(pairs)) }

  /** Key, file and two numbers, if they are numbers and form a valid range. */
  function ReadEntry(k: string, file: string, start: string, end: string): Option<Op> {
    match (Atoi(start), Atoi(end))
    case (Some(a), Some(b)) => if ValidRange(a, b) then Some(Put(k, Entry(file, a, b))) else None
    case _ => None
  }

  function ReadLine(line: string): Option<Op> {
    var parts := Split(line, '|');
    if |parts| < 2 then None
    else if parts[0] == "S" then
      if |parts| == 5 then ReadEntry(parts[1], parts[2], parts[3], parts[4]) else None
    else if parts[0] == "D" then Some(Del(parts[1]))
    else None
  }

  function ReadSnapLine(line: string): Option<Op> {
    var parts := Split(line, '|');
    if |parts| == 4 then ReadEntry(parts[0], parts[1], parts[2], parts[3]) else None
  }

  /** The operations that the readable lines stand for, in order. */
  function Collect(lines: seq<string>, snap: bool): seq<Op> {
    if lines == [] then []
    else
      var op := if snap then ReadSnapLine(lines[0]) else ReadLine(lines[0]);
      (if op.Some? then [op.value] else []) + Collect(lines[1..], snap)
  }

  function Parse(text: string): seq<Op> { Collect(Lines(text), false) }

  function ParseSnap(text: string): seq<Op> { Collect(Lines(text), true) }

  // ---- Which operations survive the round trip ----

  predicate CleanName(s: string) { Lacks(s, '|') && Lacks(s, '\n') }

  predicate CleanEntry(e: Entry) {
    CleanName(e.file) && ValidRange(e.start, e.end) && InInt64(e.end)
  }

  /** Every operation that parsing can deliver. */
  predicate Proper(op: Op) {
    CleanName(op.key) && (op.Put? ==> CleanEntry(op.entry))
  }

  /** Proper, and not a deletion whose key the line scanner would shorten. */
  predicate Clean(op: Op) {
    Proper(op) && (op.Del? ==> DropCR(op.key) == op.key)
  }

  predicate AllClean(ops: seq<Op>) { forall i :: 0 <= i < |ops| ==> Clean(ops[i]) }

  /** The operation that comes back for a proper one. */
  function Scanned(op: Op): Op {
    if op.Del? then Del(DropCR(op.key)) else op
  }

  lemma {:induction false} SplitJoin(fields: seq<string>)
    requires fields != [] && forall i :: 0 <= i < |fields| ==> Lacks(fields[i], '|')
    ensures Split(Join(fields), '|') == fields
  {
    if |fields| == 1 {
      SplitLacks(fields[0], '|');
    } else {
      SplitJoin(fields[1..]);
      SplitAt(fields[0], '|', Join(fields[1..]));
    }
  }

  lemma {:induction false} JoinLacks(fields: seq<string>, c: char)
    requires fields != [] && c != '|' && forall i :: 0 <= i < |fields| ==> Lacks(fields[i], c)
    ensures Lacks(Join(fields), c)
  {
    if |fields| > 1 {
      JoinLacks(fields[1..], c);
    }
  }

  lemma {:induction false} JoinTail(fields: seq<string>)
    requires |fields| > 1
    ensures DropCR(Join(fields)) == Join(fields[..|fields| - 1] + [DropCR(fields[|fields| - 1])])
  {
    var n, rest := |fields| - 1, fields[1..];
    var out := fields[..n] + [DropCR(fields[n])];
    if n == 1 {
      assert rest == [fields[1]] && out[1..] == [DropCR(fields[1])];
    } else {
      JoinTail(rest);
      assert out[1..] == rest[..n - 1] + [DropCR(rest[n - 1])];
      JoinNonEmpty(rest);
    }
    DropBehind(fields[0] + ['|'], Join(rest));
  }

  /** Only the end of a line matters. */
  lemma DropBehind(a: string, b: string)
    requires a != [] && a[|a| - 1] != '\r'
    ensures DropCR(a + b) == a + DropCR(b)
  {
  }

  lemma JoinNonEmpty(fields: seq<string>)
    requires |fields| > 1
    ensures Join(fields) != []
  {
  }

  lemma NumberFields(e: Entry)
    requires CleanEntry(e)
    ensures Atoi(Itoa(e.start)) == Some(e.start) && Atoi(Itoa(e.end)) == Some(e.end)
    ensures CleanName(Itoa(e.start)) && CleanName(Itoa(e.end)) && DropCR(Itoa(e.end)) == Itoa(e.end)
  {
    AtoiItoa(e.start);
    AtoiItoa(e.end);
    NumberClean(e.start);
    NumberClean(e.end);
    ItoaLast(e.end);
  }

  lemma NumberClean(n: int)
    ensures CleanName(Itoa(n))
  {
    ItoaLacks(n, '|');
    ItoaLacks(n, '\n');
  }

  lemma PutLine(k: string, e: Entry)
    requires CleanName(k) && CleanEntry(e)
    ensures Lacks(OpLine(Put(k, e)), '\n')
    ensures ReadLine(DropCR(OpLine(Put(k, e)))) == Some(Put(k, e))
  {
    NumberFields(e);
    var fields := ["S", k, e.file, Itoa(e.start), Itoa(e.end)];
    JoinLacks(fields, '\n');
    JoinTail(fields);
    assert fields[..4] + [DropCR(fields[4])] == fields;
    SplitJoin(fields);
  }

  lemma DelLine(k: string)
    requires CleanName(k)
    ensures Lacks(OpLine(Del(k)), '\n')
    ensures ReadLine(DropCR(OpLine(Del(k)))) == Some(Del(DropCR(k)))
  {
    var fields := ["D", k];
    JoinLacks(fields, '\n');
    JoinTail(fields);
    assert fields[..1] + [DropCR(k)] == ["D", DropCR(k)];
    SplitJoin(["D", DropCR(k)]);
  }

  // ---- The lines as they stand in the files ----

  lemma {:induction false} JoinCons(first: string, rest: seq<string>)
    requires rest != []
    ensures Join([first] + rest) == first + "|" + Join(rest)
  {
    assert ([first] + rest)[1..] == rest;
  }

  lemma JoinFour(a: string, b: string, c: string, d: string)
    ensures Join([a, b, c, d]) == a + "|" + b + "|" + c + "|" + d
  {
    JoinCons(c, [d]);
    JoinCons(b, [c, d]);
    JoinCons(a, [b, c, d]);
    assert [c] + [d] == [c, d] && [b] + [c, d] == [b, c, d] && [a] + [b, c, d] == [a, b, c, d];
  }

  lemma OpFormat(op: Op)
    ensures op.Put? ==>
              var e := op.entry;
              OpLine(op) == "S|" + (op.key + "|" + e.file + "|" + Itoa(e.start) + "|" + Itoa(e.end))
    ensures op.Del? ==> OpLine(op) == "D|" + op.key
  {
    match op
    case Put(k, e) =>
      var fields := [k, e.file, Itoa(e.start), Itoa(e.end)];
      JoinFour(k, e.file, Itoa(e.start), Itoa(e.end));
      JoinCons("S", fields);
      assert ["S"] + fields == ["S", k, e.file, Itoa(e.start), Itoa(e.end)];
      assert "S" + "|" + Join(fields) == "S|" + Join(fields);
    case Del(k) =>
      JoinCons("D", [k]);
      assert ["D"] + [k] == ["D", k];
  }

  lemma PrintOneMore(ops: seq<Op>, op: Op)
    ensures Print([]) == "" && Print(ops + [op]) == Print(ops) + (OpLine(op) + "\n")
  {
    assert OpLines(ops + [op]) == OpLines(ops) + [OpLine(op)];
    UnlinesConcat(OpLines(ops), [OpLine(op)]);
    assert Unlines([OpLine(op)]) == OpLine(op) + "\n" + Unlines([]);
  }

  /** The log: one line for each operation, S with key, file and range, D with the key. */
  lemma LogFormat(ops: seq<Op>, op: Op)
    ensures Print([]) == ""
    ensures op.Put? ==>
              var e := op.entry;
              Print(ops + [op])
              == Print(ops) + ("S|" + (op.key + "|" + e.file + "|" + Itoa(e.start) + "|" + Itoa(e.end)) + "\n")
    ensures op.Del? ==> Print(ops + [op]) == Print(ops) + ("D|" + op.key + "\n")
  {
    OpFormat(op);
    PrintOneMore(ops, op);
  }

  /** The snapshot: one line for each entry, key, file and range. */
  lemma SnapFormat(pairs: seq<(string, Entry)>, k: string, e: Entry)
    ensures PrintSnap([]) == ""
    ensures PrintSnap(pairs + [(k, e)])
            == PrintSnap(pairs) + (k + "|" + e.file + "|" + Itoa(e.start) + "|" + Itoa(e.end) + "\n")
  {
    assert SnapLines(pairs + [(k, e)]) == SnapLines(pairs) + [SnapLine(k, e)];
    UnlinesConcat(SnapLines(pairs), [SnapLine(k, e)]);
    assert Unlines([SnapLine(k, e)]) == SnapLine(k, e) + ['\n'] + Unlines([]);
    JoinFour(k, e.file, Itoa(e.start), Itoa(e.end));
  }

  /** A line ends with a newline, before which a carriage return does not count. */
  lemma LinesEnd(line: string, rest: string)
    requires Lacks(line, '\n') && (line == [] || line[|line| - 1] != '\r')
    ensures Lines(line + "\n" + rest) == [line] + Lines(rest)
    ensures Lines(line + "\r\n" + rest) == [line] + Lines(rest)
  {
    LinesCons(line, rest);
    LinesCons(line + "\r", rest);
    assert line + "\r" + ['\n'] + rest == line + "\r\n" + rest;
    assert (line + "\r")[..|line|] == line;
  }

  /** Text behind the last newline is a line, too, unless it is empty. */
  lemma LastLine(line: string)
    requires Lacks(line, '\n') && (line == [] || line[|line| - 1] != '\r')
    ensures Parse(line) == if line != [] && ReadLine(line).Some? then [ReadLine(line).value] else []
    ensures ParseSnap(line) == if line != [] && ReadSnapLine(line).Some? then [ReadSnapLine(line).value] else []
  {
    SplitLacks(line, '\n');
    if line != [] {
      assert DropCR(line) == line && Lines(line) == [line];
      assert [line][1..] == [] && Collect([], false) == [] && Collect([], true) == [];
    }
  }

  /** A line of a file is read by itself; one that is not understood adds nothing. */
  lemma ParseCons(line: string, end: string, rest: string)
    requires Lacks(line, '\n') && (line == [] || line[|line| - 1] != '\r') && end in ["\n", "\r\n"]
    ensures Parse(line + end + rest) == (if ReadLine(line).Some? then [ReadLine(line).value] else []) + Parse(rest)
    ensures ParseSnap(line + end + rest)
            == (if ReadSnapLine(line).Some? then [ReadSnapLine(line).value] else []) + ParseSnap(rest)
  {
    LinesEnd(line, rest);
    assert ([line] + Lines(rest))[1..] == Lines(rest);
  }

  lemma ReadNumbers(k: string, file: string, start: int, end: int)
    requires InInt64(start) && InInt64(end)
    ensures ReadEntry(k, file, Itoa(start), Itoa(end))
            == if start >= 0 && end > start then Some(Put(k, Entry(file, start, end))) else None
  {
    AtoiItoa(start);
    AtoiItoa(end);
  }

  /** A line with key, file and two numbers counts if the numbers make a range. */
  lemma ReadSnapEntry(k: string, file: string, start: int, end: int)
    requires Lacks(k, '|') && Lacks(file, '|') && InInt64(start) && InInt64(end)
    ensures ReadSnapLine(k + "|" + file + "|" + Itoa(start) + "|" + Itoa(end))
            == if start >= 0 && end > start then Some(Put(k, Entry(file, start, end))) else None
  {
    ReadNumbers(k, file, start, end);
    NumberClean(start);
    NumberClean(end);
    SplitJoin([k, file, Itoa(start), Itoa(end)]);
    JoinFour(k, file, Itoa(start), Itoa(end));
  }

  lemma ReadPutLine(k: string, file: string, start: int, end: int)
    requires Lacks(k, '|') && Lacks(file, '|') && InInt64(start) && InInt64(end)
    ensures ReadLine("S|" + (k + "|" + file + "|" + Itoa(start) + "|" + Itoa(end)))
            == if start >= 0 && end > start then Some(Put(k, Entry(file, start, end))) else None
  {
    ReadNumbers(k, file, start, end);
    NumberClean(start);
    NumberClean(end);
    OpFormat(Put(k, Entry(file, start, end)));
    SplitJoin(["S", k, file, Itoa(start), Itoa(end)]);
  }

  /** A deletion takes the first field as its key and ignores what follows. */
  lemma ReadDelLine(k: string, rest: string)
    requires Lacks(k, '|')
    ensures ReadLine("D|" + k) == Some(Del(k)) && ReadLine("D|" + k + "|" + rest) == Some(Del(k))
  {
    SplitJoin(["D", k]);
    JoinCons("D", [k]);
    assert ["D"] + [k] == ["D", k];
    SplitAt("D", '|', k + "|" + rest);
    SplitAt(k, '|', rest);
    assert "D" + ['|'] + (k + "|" + rest) == "D|" + k + "|" + rest;
    assert k + ['|'] + rest == k + "|" + rest;
    assert (["D"] + ([k] + Split(rest, '|')))[1] == k;
    assert "D" + "|" + k == "D|" + k;
  }

  /** All other lines are skipped. */
  lemma OtherLines(fields: seq<string>)
    requires fields != [] && forall i :: 0 <= i < |fields| ==> Lacks(fields[i], '|')
    ensures |fields| < 2 || fields[0] !in ["S", "D"] || (fields[0] == "S" && |fields| != 5)
            ==> ReadLine(Join(fields)) == None
    ensures |fields| == 5 && fields[0] == "S" && (Atoi(fields[3]) == None || Atoi(fields[4]) == None)
            ==> ReadLine(Join(fields)) == None
    ensures |fields| != 4 || Atoi(fields[2]) == None || Atoi(fields[3]) == None ==> ReadSnapLine(Join(fields)) == None
  {
    SplitJoin(fields);
  }

  lemma ProperLine(op: Op)
    requires Proper(op)
    ensures Lacks(OpLine(op), '\n')
    ensures ReadLine(DropCR(OpLine(op))) == Some(Scanned(op))
  {
    match op
    case Put(k, e) => PutLine(k, e);
    case Del(k) => DelLine(k);
  }

  lemma ProperSnapLine(k: string, e: Entry)
    requires CleanName(k) && CleanEntry(e)
    ensures Lacks(SnapLine(k, e), '\n')
    ensures ReadSnapLine(DropCR(SnapLine(k, e))) == Some(Put(k, e))
  {
    NumberFields(e);
    var fields := [k, e.file, Itoa(e.start), Itoa(e.end)];
    JoinLacks(fields, '\n');
    JoinTail(fields);
    assert fields[..3] + [DropCR(fields[3])] == fields;
    SplitJoin(fields);
  }

  lemma ParseHead(ops: seq<Op>)
    requires ops != [] && Proper(ops[0])
    ensures Parse(Print(ops)) == [Scanned(ops[0])] + Parse(Print(ops[1..]))
  {
    ProperLine(ops[0]);
    assert OpLines(ops)[1..] == OpLines(ops[1..]);
    LinesCons(OpLine(ops[0]), Print(ops[1..]));
    var rest := Lines(Print(ops[1..]));
    assert ([DropCR(OpLine(ops[0]))] + rest)[1..] == rest;
  }

  function ScannedAll(ops: seq<Op>): (r: seq<Op>)
    ensures |r| == |ops| && forall i :: 0 <= i < |ops| ==> r[i] == Scanned(ops[i])
  {
    seq(|ops|, i requires 0 <= i < |ops| => Scanned(ops[i]))
  }

  lemma {:induction false} ParseProper(ops: seq<Op>)
    requires forall i :: 0 <= i < |ops| ==> Proper(ops[i])
    ensures Parse(Print(ops)) == ScannedAll(ops)
  {
    if ops != [] {
      ParseHead(ops);
      ParseProper(ops[1..]);
      assert ScannedAll(ops) == [Scanned(ops[0])] + ScannedAll(ops[1..]);
    }
  }

  lemma ReadIsProper(line: string)
    requires Lacks(line, '\n')
    ensures ReadLine(line).Some? ==> Proper(ReadLine(line).value)
    ensures ReadSnapLine(line).Some? ==> Proper(ReadSnapLine(line).value) && ReadSnapLine(line).value.Put?
  {
    PiecesLacks(line, '|', '|');
    PiecesLacks(line, '|', '\n');
  }

  lemma {:induction false} CollectIsProper(lines: seq<string>, snap: bool)
    requires forall i :: 0 <= i < |lines| ==> Lacks(lines[i], '\n')
    ensures forall i :: 0 <= i < |Collect(lines, snap)| ==> Proper(Collect(lines, snap)[i])
  {
    if lines != [] {
      ReadIsProper(lines[0]);
      CollectIsProper(lines[1..], snap);
    }
  }

  /** A printed log reads back as itself exactly when every operation in it is clean. */
  lemma LogRoundTripExactly(ops: seq<Op>)
    ensures Parse(Print(ops)) == ops <==> AllClean(ops)
  {
    LinesLacks(Print(ops));
    CollectIsProper(Lines(Print(ops)), false);
    if forall i :: 0 <= i < |ops| ==> Proper(ops[i]) {
      ParseProper(ops);
    }
  }

  lemma PrintConcat(a: seq<Op>, b: seq<Op>)
    ensures Print(a + b) == Print(a) + Print(b)
  {
    assert OpLines(a + b) == OpLines(a) + OpLines(b);
    UnlinesConcat(OpLines(a), OpLines(b));
  }

  // ---- Snapshots ----

  ghost predicate Listed(pairs: seq<(string, Entry)>, k: string) {
    exists i :: 0 <= i < |pairs| && pairs[i].0 == k
  }

  /** All pairs are entries of m. */
  ghost predicate Current(pairs: seq<(string, Entry)>, m: Index) {
    forall i :: 0 <= i < |pairs| ==> pairs[i].0 in m && m[pairs[i].0] == pairs[i].1
  }

  /** pairs lists every entry of m. */
  ghost predicate Lists(pairs: seq<(string, Entry)>, m: Index) {
    Current(pairs, m) && forall k :: k in m ==> Listed(pairs, k)
  }

  lemma ListOneMore(pairs: seq<(string, Entry)>, m: Index, k: string)
    requires Current(pairs, m) && k in m
    ensures Current(pairs + [(k, m[k])], m)
    ensures forall j :: Listed(pairs + [(k, m[k])], j) <==> Listed(pairs, j) || j == k
  {
    var longer := pairs + [(k, m[k])];
    assert longer[|pairs|].0 == k;
    forall j | Listed(pairs, j) ensures Listed(longer, j) {
      var i :| 0 <= i < |pairs| && pairs[i].0 == j;
      assert longer[i] == pairs[i];
    }
  }

  predicate CleanIndex(m: Index) {
    forall k :: k in m ==> CleanName(k) && CleanEntry(m[k])
  }

  lemma ParseSnapHead(pairs: seq<(string, Entry)>)
    requires pairs != [] && CleanName(pairs[0].0) && CleanEntry(pairs[0].1)
    ensures ParseSnap(PrintSnap(pairs)) == [Put(pairs[0].0, pairs[0].1)] + ParseSnap(PrintSnap(pairs[1..]))
  {
    var (k, e) := pairs[0];
    ProperSnapLine(k, e);
    assert SnapLines(pairs)[1..] == SnapLines(pairs[1..]);
    LinesCons(SnapLine(k, e), PrintSnap(pairs[1..]));
    var rest := Lines(PrintSnap(pairs[1..]));
    assert ([DropCR(SnapLine(k, e))] + rest)[1..] == rest;
  }

  lemma {:induction false} ParseCleanSnap(pairs: seq<(string, Entry)>)
    requires forall i :: 0 <= i < |pairs| ==> CleanName(pairs[i].0) && CleanEntry(pairs[i].1)
    ensures |ParseSnap(PrintSnap(pairs))| == |pairs|
    ensures forall i :: 0 <= i < |pairs| ==> ParseSnap(PrintSnap(pairs))[i] == Put(pairs[i].0, pairs[i].1)
  {
    if pairs != [] {
      ParseSnapHead(pairs);
      ParseCleanSnap(pairs[1..]);
    }
  }

  /** Storing the entries of m, each any number of times and in any order, gives m. */
  lemma {:induction false} PutsRebuild(ops: seq<Op>, m: Index)
    requires forall i :: 0 <= i < |ops| ==> ops[i].Put? && ops[i].key in m && m[ops[i].key] == ops[i].entry
    requires forall k :: k in m ==> Mentions(ops, k)
    ensures Replay(map[], ops) == m
  {
    forall k ensures Get(Replay(map[], ops), k) == Get(m, k) {
      ReplayAt(map[], ops, k);
      if Mentions(ops, k) {
        LastIn(ops, k);
      }
    }
    SameIndex(Replay(map[], ops), m);
  }

  lemma {:induction false} LastIn(ops: seq<Op>, k: string)
    requires Mentions(ops, k)
    ensures Last(ops, k) in ops && Last(ops, k).key == k
  {
    var n := |ops| - 1;
    if ops[n].key != k {
      var i :| 0 <= i < |ops| && ops[i].key == k;
      assert ops[..n][i].key == k;
      LastIn(ops[..n], k);
    }
  }

  lemma {:induction false} ReplayIsClean(m: Index, ops: seq<Op>)
    requires CleanIndex(m) && forall i :: 0 <= i < |ops| ==> Proper(ops[i])
    ensures CleanIndex(Replay(m, ops))
  {
    if ops != [] {
      ReplayIsClean(m, ops[..|ops| - 1]);
      assert Proper(ops[|ops| - 1]);
    }
  }

  /** A printed snapshot loads as the index it was taken from exactly when every key and entry
      is clean, whatever order the entries were printed in. */
  lemma SnapshotRoundTripExactly(pairs: seq<(string, Entry)>, m: Index)
    requires Lists(pairs, m)
    ensures Replay(map[], ParseSnap(PrintSnap(pairs))) == m <==> CleanIndex(m)
  {
    var ops := ParseSnap(PrintSnap(pairs));
    LinesLacks(PrintSnap(pairs));
    CollectIsProper(Lines(PrintSnap(pairs)), true);
    ReplayIsClean(map[], ops);
    if CleanIndex(m) {
      ParseCleanSnap(pairs);
      forall k | k in m ensures Mentions(ops, k) {
        assert Listed(pairs, k);
        var i :| 0 <= i < |pairs| && pairs[i].0 == k;
        assert ops[i].key == k;
      }
      PutsRebuild(ops, m);
    }
  }
}
