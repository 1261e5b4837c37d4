/** Index entries, logged operations, and what replaying a log does to an index. */
module Wal {
  import opened Bytes

  datatype Entry = Entry(file: string, start: int, end: int)
  datatype Op = Put(key: string, entry: Entry) | Del(key: string)

  type Index = map<string, Entry>

  /** isPointerRangeValid. */
  predicate ValidRange(start: int, end: int) { start >= 0 && end > start }

  function Get(m: Index, k: string): Option<Entry> {
    if k in m then Some(m[k]) else None
  }

  function Apply(m: Index, op: Op): Index {
    match op
    case Put(k, e) => m[k := e]
    case Del(k) => m - {k}
  }

  function Replay(m: Index, ops: seq<Op>): Index {
    if ops == [] then m else Apply(Replay(m, ops[..|ops| - 1]), ops[|ops| - 1])
  }

  function Effect(op: Op): Option<Entry> {
    if op.Put? then Some(op.entry) else None
  }

  ghost predicate Mentions(ops: seq<Op>, k: string) {
    exists i :: 0 <= i < |ops| && ops[i].key == k
  }

  /** The last operation on k in ops. */
  ghost function Last(ops: seq<Op>, k: string): Op
    requires Mentions(ops, k)
  {
    var n := |ops| - 1;
    if ops[n].key == k then ops[n]
    else
      assert exists i :: 0 <= i < n && ops[i].key == k;
      assert forall i :: 0 <= i < n ==> ops[..n][i] == ops[i];
      Last(ops[..n], k)
  }

  lemma {:induction false} ReplayAt(m: Index, ops: seq<Op>, k: string)
    ensures Get(Replay(m, ops), k) == if Mentions(ops, k) then Effect(Last(ops, k)) else Get(m, k)
  {
    if ops != [] {
      var n := |ops| - 1;
      ReplayAt(m, ops[..n], k);
      if ops[n].key != k && Mentions(ops, k) {
        var i :| 0 <= i < |ops| && ops[i].key == k;
        assert ops[..n][i] == ops[i];
      }
      if Mentions(ops[..n], k) {
        var i :| 0 <= i < n && ops[..n][i].key == k;
        assert ops[i].key == k;
      }
    }
  }

  lemma {:induction false} ReplayConcat(m: Index, a: seq<Op>, b: seq<Op>)
    ensures Replay(m, a + b) == Replay(Replay(m, a), b)
  {
    if b == [] {
      assert a + b == a;
    } else {
      var n := |b| - 1;
      assert (a + b)[..|a + b| - 1] == a + b[..n];
      ReplayConcat(m, a, b[..n]);
    }
  }

  lemma MentionsConcat(a: seq<Op>, b: seq<Op>, k: string)
    ensures Mentions(a + b, k) <==> Mentions(a, k) || Mentions(b, k)
  {
    if Mentions(a, k) {
      var i :| 0 <= i < |a| && a[i].key == k;
      assert (a + b)[i].key == k;
    }
    if Mentions(b, k) {
      var i :| 0 <= i < |b| && b[i].key == k;
      assert (a + b)[|a| + i].key == k;
    }
  }

  lemma SameIndex(m: Index, n: Index)
    requires forall k :: Get(m, k) == Get(n, k)
    ensures m == n
  {
    forall k
      ensures k in m <==> k in n
      ensures k in m && k in n ==> m[k] == n[k]
    {
      assert Get(m, k) == Get(n, k);
    }
  }

  /** Replaying a log suffix over its own result changes nothing. */
  lemma ReplaySuffixIdempotent(m: Index, a: seq<Op>, b: seq<Op>)
    ensures Replay(Replay(m, a + b), b) == Replay(m, a + b)
  {
    var done := Replay(m, a + b);
    ReplayConcat(m, a, b);
    forall k ensures Get(Replay(done, b), k) == Get(done, k) {
      ReplayAt(done, b, k);
      ReplayAt(Replay(m, a), b, k);
    }
    SameIndex(Replay(done, b), done);
  }
}
