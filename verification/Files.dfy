/** A file as a growable byte array, and where a batch of writes puts its parts. */
module Files {
  import opened Bytes

  /** The content after d was written at off, which lies inside or at the end. */
  function Overwrite(c: seq<byte>, off: nat, d: seq<byte>): (r: seq<byte>)
    requires off <= |c|
    ensures |r| == if off + |d| <= |c| then |c| else off + |d|
    ensures r[off..off + |d|] == d
    ensures forall i :: 0 <= i < |c| && !(off <= i < off + |d|) ==> r[i] == c[i]
  {
    c[..off] + d + if off + |d| <= |c| then c[off + |d|..] else []
  }

  /** An open file. */
  class DataFile {
    var content: seq<byte>

    constructor ()
      ensures content == []
    {
      content := [];
    }

    method WriteAt(d: seq<byte>, off: nat)
      requires off <= |content|
      modifies this
      ensures content == Overwrite(old(content), off, d)
    {
      content := Overwrite(content, off, d);
    }

    /** n bytes from off on; bytes behind the end read as zero. */
    method ReadAt(off: nat, n: nat) returns (d: seq<byte>)
      ensures d == Fill(if off <= |content| then content[off..] else [], n)
    {
      d := Fill(if off <= |content| then content[off..] else [], n);
    }

    method Truncate(size: nat)
      modifies this
      ensures content == Fill(old(content), size)
    {
      content := Fill(content, size);
    }
  }

  lemma OverwriteKeeps(c: seq<byte>, off: nat, d: seq<byte>, a: nat, b: nat)
    requires off <= |c| && a <= b <= |c| && (b <= off || off + |d| <= a)
    ensures Overwrite(c, off, d)[a..b] == c[a..b]
  {
  }

  /** Reading a range inside the file. */
  lemma FillSlice(c: seq<byte>, a: nat, b: nat)
    requires a <= b <= |c|
    ensures Fill(c[a..], b - a) == c[a..b]
  {
  }

  // ---- Parts laid out one after the other ----

  function Concat(parts: seq<seq<byte>>): seq<byte> {
    if parts == [] then [] else Concat(parts[..|parts| - 1]) + parts[|parts| - 1]
  }

  /** Where part j begins, relative to the first. */
  function Off(parts: seq<seq<byte>>, j: nat): nat
    requires j <= |parts|
  {
    if j == 0 then 0 else Off(parts, j - 1) + |parts[j - 1]|
  }

  lemma {:induction false} OffPrefix(parts: seq<seq<byte>>, n: nat, j: nat)
    requires j <= n <= |parts|
    ensures Off(parts[..n], j) == Off(parts, j)
  {
    if j > 0 {
      OffPrefix(parts, n, j - 1);
    }
  }

  lemma {:induction false} OffMonotone(parts: seq<seq<byte>>, i: nat, j: nat)
    requires i <= j <= |parts|
    ensures Off(parts, i) <= Off(parts, j)
  {
    if i < j {
      OffMonotone(parts, i, j - 1);
    }
  }

  lemma {:induction false} ConcatLength(parts: seq<seq<byte>>)
    ensures |Concat(parts)| == Off(parts, |parts|)
  {
    if parts != [] {
      ConcatLength(parts[..|parts| - 1]);
      OffPrefix(parts, |parts| - 1, |parts| - 1);
    }
  }

  /** Each part is found at its offset. */
  lemma {:induction false} ConcatSlice(parts: seq<seq<byte>>, j: nat)
    requires j < |parts|
    ensures Off(parts, j + 1) <= |Concat(parts)|
    ensures Concat(parts)[Off(parts, j)..Off(parts, j + 1)] == parts[j]
  {
    var n := |parts| - 1;
    ConcatLength(parts);
    OffMonotone(parts, j + 1, |parts|);
    ConcatLength(parts[..n]);
    OffPrefix(parts, n, n);
    if j < n {
      OffMonotone(parts, j + 1, n);
      OffPrefix(parts, n, j);
      OffPrefix(parts, n, j + 1);
      ConcatSlice(parts[..n], j);
    }
  }

  /** Each part is found in the file after the parts were written as one. */
  lemma WrittenPart(c: seq<byte>, base: nat, parts: seq<seq<byte>>, j: nat)
    requires base <= |c| && j < |parts|
    ensures var f, a, b := Overwrite(c, base, Concat(parts)), base + Off(parts, j), base + Off(parts, j + 1);
            a <= b <= |f| && f[a..b] == parts[j]
  {
    ConcatLength(parts);
    ConcatSlice(parts, j);
    OffMonotone(parts, j + 1, |parts|);
    var f, all := Overwrite(c, base, Concat(parts)), Concat(parts);
    assert f[base..base + |all|] == all;
    assert f[base + Off(parts, j)..base + Off(parts, j + 1)] == all[Off(parts, j)..Off(parts, j + 1)];
  }

  /** Writing the next part behind the ones before it. */
  lemma OverwriteNext(c: seq<byte>, off: nat, a: seq<byte>, b: seq<byte>)
    requires off <= |c|
    ensures Overwrite(Overwrite(c, off, a), off + |a|, b) == Overwrite(c, off, a + b)
  {
  }

  /** All parts written at the same place, in order. */
  function Stacked(c: seq<byte>, off: nat, parts: seq<seq<byte>>): (r: seq<byte>)
    requires off <= |c|
    ensures |r| >= |c|
  {
    if parts == [] then c else Overwrite(Stacked(c, off, parts[..|parts| - 1]), off, parts[|parts| - 1])
  }

  /** Parts stacked at the end of a file leave what was there. */
  lemma {:induction false} StackedKeeps(c: seq<byte>, parts: seq<seq<byte>>)
    ensures Stacked(c, |c|, parts)[..|c|] == c
  {
    if parts != [] {
      var n := |parts| - 1;
      StackedKeeps(c, parts[..n]);
      var f := Stacked(c, |c|, parts[..n]);
      assert Overwrite(f, |c|, parts[n])[..|c|] == f[..|c|];
    }
  }

  /** A longest part reaches the end of the file. */
  lemma {:induction false} StackedTop(c: seq<byte>, parts: seq<seq<byte>>) returns (j: nat)
    requires parts != []
    ensures j < |parts| && |Stacked(c, |c|, parts)| == |c| + |parts[j]|
  {
    var n := |parts| - 1;
    j := n;
    if n > 0 {
      var k := StackedTop(c, parts[..n]);
      j := if |parts[n]| >= |parts[k]| then n else k;
    } else {
      assert parts[..0] == [];
    }
  }

  lemma StackedOne(c: seq<byte>, parts: seq<seq<byte>>)
    requires |parts| == 1
    ensures Stacked(c, |c|, parts) == Overwrite(c, |c|, parts[0])
  {
    assert parts[..0] == [];
  }
}
