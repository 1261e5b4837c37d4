/** The key index of an incremental table: which row a key names, kept while rows shift. */
module IncIndex {
  import opened Bytes

  datatype Error = DuplicateKey

  /** positions inverts keys; the empty string marks a row without key. */
  ghost predicate Inverse(keys: seq<string>, positions: map<string, nat>) {
    && (forall k :: k in positions ==> k != "" && positions[k] < |keys| && keys[positions[k]] == k)
    && (forall i :: 0 <= i < |keys| && keys[i] != "" ==> keys[i] in positions && positions[keys[i]] == i)
  }

  /** keys extended with empty keys to at least n. */
  function Extended(keys: seq<string>, n: nat): (r: seq<string>)
    ensures |r| == if |keys| >= n then |keys| else n
    ensures forall i :: 0 <= i < |r| ==> r[i] == if i < |keys| then keys[i] else ""
  {
    if |keys| >= n then keys else keys + seq(n - |keys|, i => "")
  }

  function Inserted(keys: seq<string>, pos: nat, key: string): (r: seq<string>)
    ensures |r| == (if |keys| >= pos then |keys| else pos) + 1
    ensures forall i :: 0 <= i < |r| ==>
              r[i] == if i == pos then key else if i > pos then keys[i - 1] else if i < |keys| then keys[i] else ""
  {
    var e := Extended(keys, pos);
    e[..pos] + [key] + e[pos..]
  }

  function Renamed(keys: seq<string>, pos: nat, key: string): (r: seq<string>)
    ensures |r| == if |keys| > pos then |keys| else pos + 1
    ensures forall i :: 0 <= i < |r| ==> r[i] == if i == pos then key else if i < |keys| then keys[i] else ""
  {
    Extended(keys, pos + 1)[pos := key]
  }

  /** Positions are determined by the keys. */
  lemma InverseUnique(keys: seq<string>, p: map<string, nat>, q: map<string, nat>)
    requires Inverse(keys, p) && Inverse(keys, q)
    ensures p == q
  {
    forall k ensures k in p <==> k in q {
      if k in p {
        assert keys[p[k]] in q;
      }
      if k in q {
        assert keys[q[k]] in p;
      }
    }
  }

  /** Each key at its last place. */
  ghost predicate Latest(keys: seq<string>, p: map<string, nat>) {
    && (forall k :: k in p ==> k != "" && p[k] < |keys| && keys[p[k]] == k)
    && (forall i :: 0 <= i < |keys| && keys[i] != "" ==> keys[i] in p && i <= p[keys[i]])
  }

  lemma LatestNext(keys: seq<string>, i: nat, p: map<string, nat>)
    requires i < |keys| && Latest(keys[..i], p)
    ensures Latest(keys[..i + 1], if keys[i] == "" then p else p[keys[i] := i])
  {
    var a, b := keys[..i], keys[..i + 1];
    assert forall j :: 0 <= j < i ==> a[j] == b[j];
  }

  /** Keys on disk determine an inverse exactly when no key repeats. */
  lemma LatestIsInverse(keys: seq<string>, p: map<string, nat>)
    requires Latest(keys, p)
    ensures Inverse(keys, p) <==> (forall i, j :: 0 <= i < j < |keys| && keys[i] == keys[j] ==> keys[i] == "")
  {
  }

  lemma LatestUnique(keys: seq<string>, p: map<string, nat>, q: map<string, nat>)
    requires Latest(keys, p) && Inverse(keys, q)
    ensures p == q
  {
    forall i | 0 <= i < |keys| && keys[i] != "" ensures p[keys[i]] == i {
      assert keys[p[keys[i]]] == keys[i];
    }
    assert Inverse(keys, p);
    InverseUnique(keys, p, q);
  }

  /** An insert moves every key at or behind pos by exactly one, and no other. */
  lemma InsertShifts(keys: seq<string>, p: map<string, nat>, pos: nat, key: string, q: map<string, nat>, k: string)
    requires Inverse(keys, p) && key != "" && key !in p && Inverse(Inserted(keys, pos, key), q)
    ensures key in q && q[key] == pos
    ensures k in q <==> k in p || k == key
    ensures k in p ==> q[k] == if p[k] >= pos then p[k] + 1 else p[k]
  {
    var r := Inserted(keys, pos, key);
    assert r[pos] == key;
    if k in p {
      assert r[if p[k] >= pos then p[k] + 1 else p[k]] == k;
    }
    if k in q && k != key {
      assert r[q[k]] == k;
      assert Extended(keys, pos)[if q[k] < pos then q[k] else q[k] - 1] == k;
    }
  }

  class IncIndex {
    var keys: seq<string>
    var positions: map<string, nat>
    /** The keys as last written to disk. */
    var disk: seq<string>

    /** What is on disk may lack empty keys at the end: a rejected Set extends only the memory. */
    ghost predicate Valid()
      reads this
    {
      Inverse(keys, positions) && |disk| <= |keys| && Extended(disk, |keys|) == keys
    }

    /** A table without an index file. */
    constructor ()
      ensures Valid() && keys == []
    {
      keys, positions, disk := [], map[], [];
    }

    /** Rebuilds the positions from whatever keys are on disk; of a repeated key the last counts. */
    constructor Load(disk: seq<string>)
      ensures keys == this.disk == disk && Latest(disk, positions)
    {
      keys, positions, this.disk := disk, map[], disk;
      new;
      for i := 0 to |disk|
        invariant keys == disk && this.disk == disk
        invariant Latest(disk[..i], positions)
      {
        LatestNext(disk, i, positions);
        if disk[i] != "" {
          positions := positions[disk[i] := i];
        }
      }
      assert disk[..|disk|] == disk;
    }

    method EnsureLength(length: nat)
      modifies this`keys
      ensures keys == Extended(old(keys), length)
    {
      ghost var was := keys;
      while |keys| < length
        invariant keys == Extended(was, |keys|) && |keys| <= if |was| >= length then |was| else length
      {
        keys := keys + [""];
      }
    }

    /** Records the positions of all keys from pos on. */
    method ReindexFrom(pos: nat)
      modifies this`positions
      ensures var from := if pos <= |keys| then pos else |keys|;
              && (forall k :: k in positions <==> k in old(positions) || (k != "" && k in keys[from..]))
              && (forall k :: k in positions && k !in keys[from..] ==> positions[k] == old(positions)[k])
              && (forall k :: k != "" && k in keys[from..] ==> from <= positions[k] < |keys| && keys[positions[k]] == k)
    {
      ghost var was := positions;
      var from := if pos <= |keys| then pos else |keys|;
      for i := from to |keys|
        invariant forall k :: k in positions <==> k in was || (k != "" && k in keys[from..i])
        invariant forall k :: k in positions && k !in keys[from..i] ==> positions[k] == was[k]
        invariant forall k :: k != "" && k in keys[from..i] ==> from <= positions[k] < i && keys[positions[k]] == k
      {
        var key := keys[i];
        assert keys[from..i + 1] == keys[from..i] + [key];
        if key != "" {
          positions := positions[key := i];
        }
      }
    }

    method Insert(pos: nat, key: string) returns (err: Option<Error>)
      requires Valid()
      modifies this
      ensures Valid()
      ensures err.Some? <==> key != "" && key in old(positions)
      ensures keys == if err.Some? || key == "" then old(keys) else Inserted(old(keys), pos, key)
    {
      if key == "" {
        return None;
      }
      if key in positions {
        return Some(DuplicateKey);
      }
      ghost var before, p := keys, positions;
      EnsureLength(pos);
      ghost var ext := keys;
      keys := keys + [""];
      keys := keys[..pos] + [keys[pos]] + keys[pos..|keys| - 1];
      keys := keys[pos := key];
      assert keys == Inserted(before, pos, key);
      ReindexFrom(pos);
      ShiftedInverse(before, p, pos, key, positions);
      disk := keys;
      err := None;
    }

    method Set(pos: nat, key: string) returns (err: Option<Error>)
      requires Valid()
      modifies this
      ensures keys == if key == "" then old(keys)
                      else if err.Some? then Extended(old(keys), pos + 1) else Renamed(old(keys), pos, key)
      ensures err.Some? <==> key != "" && key in old(positions) && old(positions)[key] != pos
      ensures Valid()
    {
      if key == "" {
        return None;
      }
      ghost var before, p := keys, positions;
      EnsureLength(pos + 1);
      ExtendedInverse(before, p, pos + 1);
      DiskBehind(disk, before, pos + 1);
      var current := keys[pos];
      if current == key {
        positions := positions[key := pos];
        disk := keys;
        return None;
      }
      if key in positions {
        return Some(DuplicateKey);
      }
      RenamedInverse(before, p, pos, key);
      if current != "" {
        positions := positions - {current};
      }
      keys := keys[pos := key];
      positions := positions[key := pos];
      disk := keys;
      err := None;
    }

    method Lookup(key: string) returns (pos: Option<nat>)
      requires Valid()
      ensures pos.None? <==> key !in positions
      ensures pos.Some? ==> pos.value < |keys| && keys[pos.value] == key && key != ""
      ensures pos.None? && key != "" ==> key !in keys
    {
      if key in positions {
        return Some(positions[key]);
      }
      pos := None;
    }

    method Remove(key: string)
      requires Valid()
      modifies this
      ensures Valid()
      ensures keys == if key in old(positions) then old(keys)[old(positions)[key] := ""] else old(keys)
      ensures positions == old(positions) - {key}
    {
      if key == "" {
        return;
      }
      if key !in positions {
        return;
      }
      var pos := positions[key];
      positions := positions - {key};
      if pos < |keys| {
        keys := keys[pos := ""];
      }
      disk := keys;
    }
  }

  /** Empty keys at the end do not matter. */
  lemma ExtendedInverse(keys: seq<string>, p: map<string, nat>, n: nat)
    requires Inverse(keys, p)
    ensures Inverse(Extended(keys, n), p)
  {
  }

  lemma DiskBehind(disk: seq<string>, keys: seq<string>, n: nat)
    requires |disk| <= |keys| && Extended(disk, |keys|) == keys
    ensures Extended(disk, |Extended(keys, n)|) == Extended(keys, n)
  {
  }

  /** Dropping the old key of a row and recording the new one keeps the inverse. */
  lemma RenamedInverse(keys: seq<string>, p: map<string, nat>, pos: nat, key: string)
    requires Inverse(keys, p) && key != "" && key !in p
    ensures var cur := Extended(keys, pos + 1)[pos];
            Inverse(Renamed(keys, pos, key), (if cur == "" then p else p - {cur})[key := pos])
  {
    ExtendedInverse(keys, p, pos + 1);
    var e := Extended(keys, pos + 1);
    var r, q := Renamed(keys, pos, key), (if e[pos] == "" then p else p - {e[pos]})[key := pos];
    forall i | 0 <= i < |r| && r[i] != "" ensures r[i] in q && q[r[i]] == i {
      assert i != pos ==> e[i] in p && p[e[i]] == i;
    }
  }

  /** What is on disk has the same positions as what is in memory. */
  lemma DiskInverse(t: IncIndex)
    requires t.Valid()
    ensures Inverse(t.disk, t.positions)
  {
    forall i | 0 <= i < |t.keys| ensures i >= |t.disk| ==> t.keys[i] == "" {
      assert t.keys[i] == Extended(t.disk, |t.keys|)[i];
    }
    forall i | 0 <= i < |t.disk| ensures t.disk[i] == t.keys[i] {
      assert t.keys[i] == Extended(t.disk, |t.keys|)[i];
    }
  }

  /** Saving and loading rebuilds the positions. */
  method Reload(t: IncIndex) returns (u: IncIndex)
    requires t.Valid()
    ensures fresh(u) && u.Valid() && u.positions == t.positions && Extended(u.keys, |t.keys|) == t.keys
  {
    DiskInverse(t);
    u := new IncIndex.Load(t.disk);
    LatestUnique(t.disk, u.positions, t.positions);
    assert Extended(u.disk, |u.keys|) == u.keys;
  }

  /** A key in front of pos stays at its position. */
  lemma FrontKept(keys: seq<string>, p: map<string, nat>, pos: nat, key: string, k: string)
    requires Inverse(keys, p) && k in p && k !in Inserted(keys, pos, key)[pos..]
    ensures p[k] < |Inserted(keys, pos, key)| && Inserted(keys, pos, key)[p[k]] == k
  {
    var e, r := Extended(keys, pos), Inserted(keys, pos, key);
    forall i | pos <= i < |e| ensures e[i] in r[pos..] {
      assert r[pos..][i + 1 - pos] == e[i];
    }
    assert e[p[k]] == k;
  }

  /** A row's key is recorded anew or had a position before. */
  lemma NameKept(keys: seq<string>, p: map<string, nat>, pos: nat, key: string, i: nat)
    requires Inverse(keys, p) && i < |Inserted(keys, pos, key)| && Inserted(keys, pos, key)[i] != ""
    ensures var r := Inserted(keys, pos, key); r[i] in r[pos..] || r[i] in p
  {
    var r := Inserted(keys, pos, key);
    if i >= pos {
      assert r[pos..][i - pos] == r[i];
    } else {
      assert Extended(keys, pos)[i] == r[i];
    }
  }

  /** Re-recording the positions from pos on, after the shift, restores the inverse. */
  lemma ShiftedInverse(keys: seq<string>, p: map<string, nat>, pos: nat, key: string, q: map<string, nat>)
    requires Inverse(keys, p) && key != "" && key !in p
    requires var r := Inserted(keys, pos, key);
             && (forall k :: k in q <==> k in p || (k != "" && k in r[pos..]))
             && (forall k :: k in q && k !in r[pos..] ==> q[k] == p[k])
             && (forall k :: k != "" && k in r[pos..] ==> pos <= q[k] < |r| && r[q[k]] == k)
    ensures Inverse(Inserted(keys, pos, key), q)
  {
    var r := Inserted(keys, pos, key);
    forall k | k in q ensures k != "" && q[k] < |r| && r[q[k]] == k {
      if k !in r[pos..] {
        FrontKept(keys, p, pos, key, k);
      }
    }
    forall i | 0 <= i < |r| && r[i] != "" ensures r[i] in q && q[r[i]] == i {
      NameKept(keys, p, pos, key, i);
      NoRepeat(keys, p, pos, key, i, q[r[i]]);
    }
  }

  lemma NoRepeat(keys: seq<string>, p: map<string, nat>, pos: nat, key: string, i: nat, j: nat)
    requires Inverse(keys, p) && key != "" && key !in p
    requires var r := Inserted(keys, pos, key); i < |r| && j < |r| && r[i] == r[j] != ""
    ensures i == j
  {
    var e, r := Extended(keys, pos), Inserted(keys, pos, key);
    var a, b := if i < pos then i else i - 1, if j < pos then j else j - 1;
    assert i != pos ==> e[a] == r[i] && p[keys[a]] == a;
    assert j != pos ==> e[b] == r[j] && p[keys[b]] == b;
  }
}
