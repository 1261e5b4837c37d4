/** The subscription registry: two maps of sets that must stay inverse to each other. */
module Subscriptions {
  type Key = string
  /** A WebSocket connection, by identity. */
  type Conn = nat

  predicate In<K, V>(m: map<K, set<V>>, k: K, v: V) {
    k in m && v in m[k]
  }

  ghost predicate NoEmpty<K, V>(m: map<K, set<V>>) {
    forall k :: k in m ==> m[k] != {}
  }

  /** One map has c under k exactly when the other has k under c. */
  ghost predicate Inverse<K(!new), V(!new)>(m: map<K, set<V>>, w: map<V, set<K>>) {
    forall k, v :: In(m, k, v) <==> In(w, v, k)
  }

  function Subscribers(m: map<Key, set<Conn>>, key: Key): set<Conn> {
    if key in m then m[key] else {}
  }

  function With<K, V>(m: map<K, set<V>>, k: K, v: V): map<K, set<V>> {
    m[k := (if k in m then m[k] else {}) + {v}]
  }

  /** Takes v out of the set under k, and k out of the map when its set becomes empty. */
  function Without<K, V>(m: map<K, set<V>>, k: K, v: V): map<K, set<V>> {
    if k !in m then m else if m[k] - {v} == {} then m - {k} else m[k := m[k] - {v}]
  }

  lemma WithoutIn<K(!new), V(!new)>(m: map<K, set<V>>, k: K, v: V)
    requires NoEmpty(m)
    ensures NoEmpty(Without(m, k, v))
    ensures forall a, b :: In(Without(m, k, v), a, b) <==> In(m, a, b) && !(a == k && b == v)
  {
    forall a, b ensures In(Without(m, k, v), a, b) <==> In(m, a, b) && !(a == k && b == v) {
      assert a == k && In(m, a, b) && b != v ==> b in m[k] - {v};
    }
  }

  lemma WithIn<K(!new), V(!new)>(m: map<K, set<V>>, k: K, v: V)
    ensures forall a, b :: In(With(m, k, v), a, b) <==> In(m, a, b) || (a == k && b == v)
    ensures forall a :: a in With(m, k, v) && (a in m ==> m[a] != {}) ==> With(m, k, v)[a] != {}
  {
  }

  /** Where connections occur. */
  datatype Presence = Presence(subs: map<Key, set<Conn>>, locks: set<Conn>, done: set<Conn>)

  /** From a to b exactly the connections in gone were removed, everywhere. */
  ghost predicate Removed(a: Presence, b: Presence, gone: set<Conn>) {
    && (forall k, c :: In(b.subs, k, c) <==> In(a.subs, k, c) && c !in gone)
    && b.locks == a.locks - gone && b.done == a.done - gone
  }

  lemma RemovedMore(a: Presence, b: Presence, gone: set<Conn>, c: Conn)
    requires Removed(a, b, gone)
    ensures forall d :: Removed(b, d, {c}) ==> Removed(a, d, gone + {c})
  {
  }

  class Registry {
    var activeSubs: map<Key, set<Conn>>
    var connToKeys: map<Conn, set<Key>>
    var pending: map<string, seq<Key>>
    /** The connections that have a write lock, and those whose ping loop is to be stopped. */
    var connLocks: set<Conn>
    var connDone: set<Conn>

    ghost function Connected(): Presence
      reads this`activeSubs, this`connLocks, this`connDone
    {
      Presence(activeSubs, connLocks, connDone)
    }

    ghost predicate Valid()
      reads this
    {
      && Inverse(activeSubs, connToKeys) && NoEmpty(activeSubs) && NoEmpty(connToKeys)
      && forall a :: a in pending ==> pending[a] != []
    }

    constructor ()
      ensures Valid() && activeSubs == map[] && pending == map[] && connLocks == {} && connDone == {}
    {
      activeSubs, connToKeys, pending := map[], map[], map[];
      connLocks, connDone := {}, {};
    }

    /** A new connection, not subscribed to anything yet. */
    method Connect(conn: Conn)
      requires Valid()
      modifies this`connLocks, this`connDone
      ensures Valid() && connLocks == old(connLocks) + {conn} && connDone == old(connDone) + {conn}
    {
      connLocks, connDone := connLocks + {conn}, connDone + {conn};
    }

    /** The keys wait under an auth key until a connection brings it or it expires. */
    method Enable(authKey: string, keys: seq<Key>) returns (ok: bool)
      requires Valid()
      modifies this`pending
      ensures Valid() && ok == (keys != [])
      ensures pending == if ok then old(pending)[authKey := keys] else old(pending)
    {
      ok := keys != [];
      if ok {
        pending := pending[authKey := keys];
      }
    }

    method Expire(authKey: string)
      requires Valid()
      modifies this`pending
      ensures Valid() && pending == old(pending) - {authKey}
    {
      pending := pending - {authKey};
    }

    /** A connection brings an auth key: it is subscribed to the waiting keys, once. */
    method Join(conn: Conn, authKey: string) returns (joined: bool)
      requires Valid()
      modifies this
      ensures Valid() && joined == (authKey != "" && authKey in old(pending))
      ensures pending == if joined then old(pending) - {authKey} else old(pending)
      ensures forall k, c :: In(activeSubs, k, c) <==>
                In(old(activeSubs), k, c) || (joined && c == conn && k in old(pending)[authKey])
    {
      joined := authKey != "" && authKey in pending;
      if joined {
        var keys := pending[authKey];
        Subscribe(conn, keys);
        pending := pending - {authKey};
      }
    }

    method Subscribe(conn: Conn, keys: seq<Key>)
      requires Valid() && keys != []
      modifies this`activeSubs, this`connToKeys
      ensures Valid()
      ensures forall k, c :: In(activeSubs, k, c) <==> In(old(activeSubs), k, c) || (c == conn && k in keys)
    {
      if conn !in connToKeys {
        connToKeys := connToKeys[conn := {}];
      }
      for i := 0 to |keys|
        invariant conn in connToKeys && Inverse(activeSubs, connToKeys) && NoEmpty(activeSubs)
        invariant forall c :: c in connToKeys && c != conn ==> connToKeys[c] != {}
        invariant i > 0 ==> connToKeys[conn] != {}
        invariant forall k, c :: In(activeSubs, k, c) <==> In(old(activeSubs), k, c) || (c == conn && k in keys[..i])
      {
        var key := keys[i];
        if key !in connToKeys[conn] {
          WithIn(activeSubs, key, conn);
          WithIn(connToKeys, conn, key);
          activeSubs := With(activeSubs, key, conn);
          connToKeys := With(connToKeys, conn, key);
        } else {
          assert In(connToKeys, conn, key);
        }
        assert keys[..i + 1] == keys[..i] + [key];
      }
    }

    /** Removes every trace of a connection. */
    method CleanupConn(conn: Conn)
      requires Valid()
      modifies this`activeSubs, this`connToKeys, this`connLocks, this`connDone
      ensures Valid() && conn !in connToKeys && Removed(old(Connected()), Connected(), {conn})
    {
      connDone := connDone - {conn};
      if conn in connToKeys {
        var todo := connToKeys[conn];
        while todo != {}
          invariant connLocks == old(connLocks) && connDone == old(connDone) - {conn}
          invariant connToKeys == old(connToKeys) && todo <= connToKeys[conn] && NoEmpty(activeSubs)
          invariant forall k, c :: In(activeSubs, k, c) <==>
                      In(old(activeSubs), k, c) && !(c == conn && k in connToKeys[conn] - todo)
          decreases todo
        {
          var k :| k in todo;
          WithoutIn(activeSubs, k, conn);
          activeSubs := Without(activeSubs, k, conn);
          todo := todo - {k};
        }
        connToKeys := connToKeys - {conn};
      }
      connLocks := connLocks - {conn};
    }

    /** Takes a key out of both maps and returns who was subscribed to it. */
    method TakeKey(key: Key) returns (conns: seq<Conn>)
      requires Valid()
      modifies this`activeSubs, this`connToKeys
      ensures Valid() && key !in activeSubs
      ensures Enumerates(conns, Subscribers(old(activeSubs), key))
      ensures forall k, c :: In(activeSubs, k, c) <==> In(old(activeSubs), k, c) && k != key
    {
      conns := [];
      var all := Subscribers(activeSubs, key);
      assert forall c :: c in all ==> In(activeSubs, key, c);
      var todo := all;
      while todo != {}
        invariant activeSubs == old(activeSubs) && todo <= all && NoEmpty(connToKeys)
        invariant Enumerates(conns, all - todo)
        invariant forall c, k :: In(connToKeys, c, k) <==> In(old(connToKeys), c, k) && !(k == key && c in all - todo)
        decreases todo
      {
        var c :| c in todo;
        conns := conns + [c];
        WithoutIn(connToKeys, c, key);
        connToKeys := Without(connToKeys, c, key);
        todo := todo - {c};
      }
      activeSubs := activeSubs - {key};
    }

    /** A connection to which the message cannot be written is cleaned up. */
    method SendOne(c: Conn, broken: set<Conn>, ghost before: Presence, ghost gone: set<Conn>)
      requires Valid() && Removed(before, Connected(), gone)
      modifies this`activeSubs, this`connToKeys, this`connLocks, this`connDone
      ensures Valid() && Removed(before, Connected(), gone + ({c} * broken))
    {
      if c in broken {
        RemovedMore(before, Connected(), gone, c);
        CleanupConn(c);
        assert {c} * broken == {c};
      } else {
        assert gone + ({c} * broken) == gone;
      }
    }

    method Send(conns: seq<Conn>, broken: set<Conn>, ghost all: set<Conn>) returns (sent: nat)
      requires Valid() && Enumerates(conns, all)
      modifies this`activeSubs, this`connToKeys, this`connLocks, this`connDone
      ensures Valid() && sent == |all - broken|
      ensures Removed(old(Connected()), Connected(), all * broken)
    {
      sent := 0;
      ghost var before := Connected();
      for i := 0 to |conns|
        invariant Valid() && Removed(before, Connected(), GoneBy(conns, broken, i))
        invariant sent == Told(conns, broken, i)
      {
        SendOne(conns[i], broken, before, GoneBy(conns, broken, i));
        if conns[i] !in broken {
          sent := sent + 1;
        }
      }
      AllSent(conns, broken, all);
    }

    /** Ends all subscriptions to a key; the number of those that could be told is returned. */
    method Disable(key: Key, broken: set<Conn>) returns (notified: nat)
      requires Valid()
      modifies this`activeSubs, this`connToKeys, this`connLocks, this`connDone
      ensures Valid()
      ensures forall k, c :: In(activeSubs, k, c) <==>
                In(old(activeSubs), k, c) && !(key != "" && (k == key || (c in broken && In(old(activeSubs), key, c))))
      ensures forall c :: c in connLocks <==>
                c in old(connLocks) && !(key != "" && c in broken && In(old(activeSubs), key, c))
      ensures notified == if key == "" then 0 else |Subscribers(old(activeSubs), key) - broken|
    {
      if key == "" {
        return 0;
      }
      var conns := TakeKey(key);
      notified := Send(conns, broken, Subscribers(old(activeSubs), key));
    }

    /** The deletion of a stored key; here an empty key is one like any other. */
    method NotifyDeleteAndRemove(key: Key, broken: set<Conn>)
      requires Valid()
      modifies this`activeSubs, this`connToKeys, this`connLocks, this`connDone
      ensures Valid()
      ensures forall k, c :: In(activeSubs, k, c) <==>
                In(old(activeSubs), k, c) && k != key && !(c in broken && In(old(activeSubs), key, c))
      ensures forall c :: c in connLocks <==> c in old(connLocks) && !(c in broken && In(old(activeSubs), key, c))
    {
      var conns := TakeKey(key);
      var _ := Send(conns, broken, Subscribers(old(activeSubs), key));
    }

    method StatsSnapshot() returns (clients: nat, keys: nat, subscriptions: nat, waiting: nat)
      requires Valid()
      ensures clients == |connToKeys| && keys == |activeSubs| && waiting == |pending|
      ensures subscriptions == |Pairs(activeSubs)|
    {
      clients, keys, subscriptions, waiting := |connToKeys|, |activeSubs|, 0, |pending|;
      var todo, done := connToKeys.Keys, [];
      while todo != {}
        invariant todo <= connToKeys.Keys && Enumerates(done, connToKeys.Keys - todo)
        invariant subscriptions == SumOver(connToKeys, done)
        decreases todo
      {
        var c :| c in todo;
        EnumerateNext(connToKeys, done, connToKeys.Keys - todo, c);
        assert connToKeys.Keys - (todo - {c}) == connToKeys.Keys - todo + {c};
        subscriptions := subscriptions + |connToKeys[c]|;
        done := done + [c];
        todo := todo - {c};
      }
      assert connToKeys.Keys - {} == connToKeys.Keys;
      SumIsPairs(connToKeys, done);
      SwappedPairs(activeSubs, connToKeys);
    }
  }

  /** The connections among the first n that were cleaned up. */
  ghost function GoneBy(conns: seq<Conn>, broken: set<Conn>, n: nat): set<Conn>
    requires n <= |conns|
  {
    if n == 0 then {} else GoneBy(conns, broken, n - 1) + ({conns[n - 1]} * broken)
  }

  /** Those that could be told. */
  ghost function ToldBy(conns: seq<Conn>, broken: set<Conn>, n: nat): set<Conn>
    requires n <= |conns|
  {
    if n == 0 then {}
    else ToldBy(conns, broken, n - 1) + if conns[n - 1] in broken then {} else {conns[n - 1]}
  }

  ghost function Told(conns: seq<Conn>, broken: set<Conn>, n: nat): nat
    requires n <= |conns|
  {
    if n == 0 then 0 else Told(conns, broken, n - 1) + if conns[n - 1] in broken then 0 else 1
  }

  lemma {:induction false} SplitBy(conns: seq<Conn>, broken: set<Conn>, n: nat, c: Conn)
    requires n <= |conns|
    ensures c in GoneBy(conns, broken, n) <==> c in conns[..n] && c in broken
    ensures c in ToldBy(conns, broken, n) <==> c in conns[..n] && c !in broken
  {
    if n > 0 {
      SplitBy(conns, broken, n - 1, c);
      assert conns[..n] == conns[..n - 1] + [conns[n - 1]];
    }
  }

  lemma {:induction false} ToldCount(conns: seq<Conn>, broken: set<Conn>, n: nat)
    requires n <= |conns| && forall i, j :: 0 <= i < j < |conns| ==> conns[i] != conns[j]
    ensures Told(conns, broken, n) == |ToldBy(conns, broken, n)|
  {
    if n > 0 {
      ToldCount(conns, broken, n - 1);
      SplitBy(conns, broken, n - 1, conns[n - 1]);
    }
  }

  lemma AllSent(conns: seq<Conn>, broken: set<Conn>, all: set<Conn>)
    requires Enumerates(conns, all)
    ensures GoneBy(conns, broken, |conns|) == all * broken
    ensures Told(conns, broken, |conns|) == |all - broken|
  {
    assert conns[..|conns|] == conns;
    forall c ensures c in GoneBy(conns, broken, |conns|) <==> c in all * broken {
      SplitBy(conns, broken, |conns|, c);
    }
    forall c ensures c in ToldBy(conns, broken, |conns|) <==> c in all - broken {
      SplitBy(conns, broken, |conns|, c);
    }
    assert ToldBy(conns, broken, |conns|) == all - broken;
    ToldCount(conns, broken, |conns|);
  }

  // ---- Counting ----

  ghost function Pairs<K, V>(m: map<K, set<V>>): set<(K, V)> {
    set k, v | k in m.Keys && v in m[k] :: (k, v)
  }

  ghost function PairsUnder<K, V>(m: map<K, set<V>>, ks: seq<K>): set<(K, V)> {
    set k, v | k in m.Keys && k in ks && v in m[k] :: (k, v)
  }

  /** ks lists the elements of s, each once. */
  ghost predicate Enumerates<K(!new)>(ks: seq<K>, s: set<K>) {
    (forall k :: k in ks <==> k in s) && forall i, j :: 0 <= i < j < |ks| ==> ks[i] != ks[j]
  }

  ghost function SumOver<K, V>(m: map<K, set<V>>, ks: seq<K>): nat
    requires forall k :: k in ks ==> k in m
  {
    if ks == [] then 0 else SumOver(m, ks[..|ks| - 1]) + |m[ks[|ks| - 1]]|
  }

  lemma EnumerateNext<K(!new), V(!new)>(m: map<K, set<V>>, ks: seq<K>, s: set<K>, k: K)
    requires Enumerates(ks, s) && k !in s && s <= m.Keys && k in m
    ensures Enumerates(ks + [k], s + {k})
    ensures SumOver(m, ks + [k]) == SumOver(m, ks) + |m[k]|
  {
    assert (ks + [k])[..|ks|] == ks;
  }

  lemma {:induction false} PairsOfOne<K, V>(k: K, vs: set<V>)
    ensures |set v | v in vs :: (k, v)| == |vs|
  {
    if vs == {} {
      assert (set v | v in vs :: (k, v)) == {};
    } else {
      var x :| x in vs;
      PairsOfOne(k, vs - {x});
      assert (set v | v in vs :: (k, v)) == (set v | v in vs - {x} :: (k, v)) + {(k, x)};
    }
  }

  lemma {:induction false} SumOfSome<K, V>(m: map<K, set<V>>, ks: seq<K>)
    requires (forall k :: k in ks ==> k in m) && forall i, j :: 0 <= i < j < |ks| ==> ks[i] != ks[j]
    ensures SumOver(m, ks) == |PairsUnder(m, ks)|
  {
    if ks == [] {
      assert PairsUnder(m, ks) == {};
    } else {
      var n := |ks| - 1;
      var x, rest := ks[n], ks[..n];
      SumOfSome(m, rest);
      PairsOfOne(x, m[x]);
      assert x !in rest;
      assert PairsUnder(m, ks) == PairsUnder(m, rest) + (set v | v in m[x] :: (x, v));
    }
  }

  /** In whatever order a map is ranged over, the sizes of its sets add up to the number of pairs. */
  lemma SumIsPairs<K(!new), V(!new)>(m: map<K, set<V>>, ks: seq<K>)
    requires Enumerates(ks, m.Keys)
    ensures SumOver(m, ks) == |Pairs(m)|
  {
    SumOfSome(m, ks);
    assert Pairs(m) == PairsUnder(m, ks);
  }

  lemma {:induction false} SwappedSize<K, V>(s: set<(K, V)>)
    ensures |set p | p in s :: (p.1, p.0)| == |s|
  {
    if s == {} {
      assert (set p | p in s :: (p.1, p.0)) == {};
    } else {
      var x :| x in s;
      SwappedSize(s - {x});
      assert (set p | p in s :: (p.1, p.0)) == (set p | p in s - {x} :: (p.1, p.0)) + {(x.1, x.0)};
    }
  }

  lemma SwappedPairs<K(!new), V(!new)>(m: map<K, set<V>>, w: map<V, set<K>>)
    requires Inverse(m, w)
    ensures |Pairs(m)| == |Pairs(w)|
  {
    SwappedSize(Pairs(m));
    forall v, k ensures (v, k) in Pairs(w) <==> (v, k) in set p | p in Pairs(m) :: (p.1, p.0) {
      assert In(m, k, v) <==> In(w, v, k);
      if In(m, k, v) {
        assert (k, v) in Pairs(m);
      }
    }
    assert Pairs(w) == set p | p in Pairs(m) :: (p.1, p.0);
  }

  /** Counting subscriptions by connection or by key gives the same number, in any order. */
  lemma SameTotal<K(!new), V(!new)>(m: map<K, set<V>>, w: map<V, set<K>>, ks: seq<K>, vs: seq<V>)
    requires Inverse(m, w) && Enumerates(ks, m.Keys) && Enumerates(vs, w.Keys)
    ensures SumOver(m, ks) == SumOver(w, vs)
  {
    SumIsPairs(m, ks);
    SumIsPairs(w, vs);
    SwappedPairs(m, w);
  }
}
