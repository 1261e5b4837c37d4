/** The recursive resolver with its set of visited ids and its cache, and the two reads that use it. */
module Resolver {
  import opened Bytes
  import opened Pointers

  /** What one traversal has visited; the set is never shrunk. */
  class Seen {
    var ids: set<string>

    constructor ()
      ensures ids == {}
    {
      ids := {};
    }
  }

  // ---- Ids and targets ----

  predicate SlashFree(t: Target) { '/' !in t.table }

  /** Without slashes in its name a table's name ends at the first slash of the id. */
  lemma NotShorter(s: Target, t: Target)
    requires SlashFree(t) && Id(s) == Id(t)
    ensures |s.table| >= |t.table|
  {
    assert forall i :: 0 <= i < |t.table| ==> Id(t)[i] == t.table[i] && t.table[i] in t.table;
    assert Id(s)[|s.table|] == '/';
  }

  lemma IdInjective(s: Target, t: Target)
    requires SlashFree(s) && SlashFree(t) && Id(s) == Id(t)
    ensures s == t
  {
    NotShorter(s, t);
    NotShorter(t, s);
    var n := |s.table|;
    assert Id(s)[..n] == s.table && Id(t)[..n] == t.table;
    assert Id(s)[n + 1..] == s.key && Id(t)[n + 1..] == t.key;
  }

  /** With slashes in table names two targets can share an id. */
  lemma IdsClash()
    ensures Id(Target("c", "a/b")) == Id(Target("b/c", "a"))
  {
    assert Id(Target("c", "a/b")) == "a/b/c" == Id(Target("b/c", "a"));
  }

  /** No other stored target has the id of t. */
  ghost predicate OwnId(db: Database, t: Target) {
    forall u :: u in db && Id(u) == Id(t) ==> u == t
  }

  lemma SlashFreeIsOwn(db: Database, t: Target)
    requires SlashFree(t) && forall u :: u in db ==> SlashFree(u)
    ensures OwnId(db, t)
  {
    forall u | u in db && Id(u) == Id(t) ensures u == t {
      IdInjective(u, t);
    }
  }

  /** No pointer in a value can be mistaken for one to another stored target. */
  ghost predicate OwnIds(db: Database, j: Json)
    decreases j, 0
  {
    match j
    case Obj(fields) => forall k :: k in fields ==> OwnIdsAt(db, fields[k])
    case Arr(elems) => forall i :: 0 <= i < |elems| ==> OwnIds(db, elems[i])
    case _ => true
  }

  ghost predicate OwnIdsAt(db: Database, v: Json)
    decreases v, 1
  {
    match PointerOf(v)
    case Some(t) => OwnId(db, t)
    case None => OwnIds(db, v)
  }

  ghost predicate OwnIdsDb(db: Database) {
    forall t :: t in db ==> OwnIds(db, db[t])
  }

  /** out is node with every pointer replaced by the answer to its id, or by null if its target is
      missing. */
  ghost predicate Answered(db: Database, answers: map<string, Json>, node: Json, out: Json)
    decreases node, 0
  {
    match node
    case Obj(fields) =>
      out.Obj? && (forall k :: k in fields ==> NameOf(k, fields[k]) in out.fields)
      && forall x :: x in out.fields ==>
           exists k :: k in fields && NameOf(k, fields[k]) == x && AnsweredAt(db, answers, fields[k], out.fields[x])
    case Arr(elems) =>
      && out.Arr? && |out.elems| == |elems|
      && forall i :: 0 <= i < |elems| ==> Answered(db, answers, elems[i], out.elems[i])
    case _ => out == node
  }

  ghost predicate AnsweredAt(db: Database, answers: map<string, Json>, v: Json, out: Json)
    decreases v, 1
  {
    match PointerOf(v)
    case None => Answered(db, answers, v, out)
    case Some(t) => (Id(t) in answers && out == answers[Id(t)]) || (t !in db && out == Null)
  }

  /** Every answer is for some stored target of that id. */
  ghost predicate AnswersSound(db: Database, answers: map<string, Json>) {
    forall id :: id in answers ==> exists t :: t in db && Id(t) == id && Answered(db, answers, db[t], answers[id])
  }

  ghost predicate Extends(a: map<string, Json>, b: map<string, Json>) {
    forall id :: id in a ==> id in b && b[id] == a[id]
  }

  /** Answers stay, and none is added for an id that was visited before. */
  ghost predicate Grown(a: map<string, Json>, b: map<string, Json>, ids: set<string>) {
    Extends(a, b) && forall id :: id in b && id !in a ==> id !in ids
  }

  lemma {:induction false} AnsweredMore(db: Database, a: map<string, Json>, b: map<string, Json>, node: Json, out: Json)
    requires Extends(a, b) && Answered(db, a, node, out)
    ensures Answered(db, b, node, out)
    decreases node, 0
  {
    match node
    case Obj(fields) =>
      forall x | x in out.fields
        ensures exists k :: k in fields && NameOf(k, fields[k]) == x && AnsweredAt(db, b, fields[k], out.fields[x])
      {
        var k :| k in fields && NameOf(k, fields[k]) == x && AnsweredAt(db, a, fields[k], out.fields[x]);
        AnsweredAtMore(db, a, b, fields[k], out.fields[x]);
      }
    case Arr(elems) =>
      forall i | 0 <= i < |elems| ensures Answered(db, b, elems[i], out.elems[i]) {
        AnsweredMore(db, a, b, elems[i], out.elems[i]);
      }
    case _ =>
  }

  lemma {:induction false} AnsweredAtMore(db: Database, a: map<string, Json>, b: map<string, Json>, v: Json, out: Json)
    requires Extends(a, b) && AnsweredAt(db, a, v, out)
    ensures AnsweredAt(db, b, v, out)
    decreases v, 1
  {
    if PointerOf(v).None? {
      AnsweredMore(db, a, b, v, out);
    }
  }

  /** Where no pointer can be mistaken, the answers are the expansions. */
  lemma {:induction false} AnswersExpand(db: Database, answers: map<string, Json>, node: Json, out: Json)
    requires OwnIdsDb(db) && OwnIds(db, node) && AnswersSound(db, answers) && Answered(db, answers, node, out)
    ensures Expands(db, node, out)
    decreases out, 0
  {
    match node
    case Obj(fields) =>
      forall x | x in out.fields
        ensures exists k :: k in fields && NameOf(k, fields[k]) == x && ExpandsAt(db, fields[k], out.fields[x])
      {
        var k :| k in fields && NameOf(k, fields[k]) == x && AnsweredAt(db, answers, fields[k], out.fields[x]);
        assert OwnIdsAt(db, fields[k]);
        AnswersExpandAt(db, answers, fields[k], out.fields[x]);
      }
    case Arr(elems) =>
      forall i | 0 <= i < |elems| ensures Expands(db, elems[i], out.elems[i]) {
        AnswersExpand(db, answers, elems[i], out.elems[i]);
      }
    case _ =>
  }

  lemma {:induction false} AnswersExpandAt(db: Database, answers: map<string, Json>, v: Json, out: Json)
    requires OwnIdsDb(db) && OwnIdsAt(db, v) && AnswersSound(db, answers) && AnsweredAt(db, answers, v, out)
    ensures ExpandsAt(db, v, out)
    decreases out, 1
  {
    match PointerOf(v)
    case None => AnswersExpand(db, answers, v, out);
    case Some(t) =>
      if Id(t) in answers && out == answers[Id(t)] {
        var u :| u in db && Id(u) == Id(t) && Answered(db, answers, db[u], out);
        assert u == t;
        AnswersExpand(db, answers, db[t], out);
      }
  }

  ghost predicate NoRepeat(ids: seq<string>) {
    forall i, j :: 0 <= i < j < |ids| ==> ids[i] != ids[j]
  }

  /** Exactly the visited ids were fetched, each once. */
  ghost predicate Once(fetched: seq<string>, ids: set<string>) {
    NoRepeat(fetched) && forall id :: id in fetched <==> id in ids
  }

  /** A traversal that has its cache to itself: the cache holds only what was visited and never has
      an answer. */
  ghost predicate Trusted(alone: bool, db: Database, cache: map<string, Json>, fetched: seq<string>, ids: set<string>) {
    && (alone ==> cache.Keys <= ids && Once(fetched, ids))
    && AnswersSound(db, cache)
  }

  /** How the traversal of some of a node's steps went: it fails only when an id is met twice, and
      without help from the cache it succeeds only when none is. */
  ghost predicate Went(ok: bool, alone: bool, db: Database, node: Json, steps: set<Step>, avoid: set<string>,
                       ids: set<string>)
  {
    && Accounted(db, node, steps, avoid, ids)
    && (ok && alone ==> Complete(db, node, steps, avoid, ids))
    && (!ok ==> !LinearIn(db, node, steps, avoid))
  }

  ghost function Ids(db: Database): set<string> {
    set t | t in db :: Id(t)
  }

  lemma Remaining(all: set<string>, a: set<string>, b: set<string>)
    requires a <= b
    ensures |all - b| <= |all - a|
    ensures forall id :: id in all && id !in a && id in b ==> |all - b| < |all - a|
  {
    Larger(all - b, all - a);
    forall id | id in all && id !in a && id in b ensures |all - b| < |all - a| {
      Larger(all - b, all - a - {id});
    }
  }

  lemma {:induction false} Larger(a: set<string>, b: set<string>)
    requires a <= b
    ensures |a| <= |b|
  {
    if a != {} {
      var x :| x in a;
      Larger(a - {x}, b - {x});
    }
  }

  /** The fields that are no longer to do are in the result. */
  ghost predicate Partly(db: Database, fields: map<string, Json>, todo: set<string>, out: map<string, Json>) {
    && (forall k :: k in fields && k !in todo ==> NameOf(k, fields[k]) in out)
    && forall x :: x in out ==>
         exists k :: k in fields && k !in todo && NameOf(k, fields[k]) == x && ExpandsAt(db, fields[k], out[x])
  }

  /** One more step behind those already done; the steps that are never taken do not matter once
      one failed. */
  lemma WentOn(ok: bool, alone: bool, db: Database, node: Json, done: set<Step>, s: Step, avoid: set<string>,
               ids: set<string>, after: set<string>)
    requires s !in done && done + {s} <= Steps(node)
    requires Went(true, alone, db, node, done, avoid, ids) && Went(ok, alone, db, node, {s}, ids, after)
    ensures Went(ok, alone, db, node, if ok then done + {s} else Steps(node), avoid, after)
  {
    NextStep(db, node, done, s, avoid, ids, after);
    if !ok {
      if LinearIn(db, node, Steps(node), avoid) {
        SubsetLinear(db, node, done + {s}, Steps(node), avoid);
      }
      assert forall id :: MetIn(db, node, done + {s}, id) ==> MetIn(db, node, Steps(node), id);
    }
  }

  lemma WentBelow(ok: bool, alone: bool, db: Database, node: Json, s: Step, c: Json, avoid: set<string>,
                  ids: set<string>)
    requires forall p :: Beneath(db, node, s, p) == Met(db, c, p)
    requires Went(ok, alone, db, c, Steps(c), avoid, ids)
    ensures Went(ok, alone, db, node, {s}, avoid, ids)
  {
    ChildPart(db, node, s, c, avoid, ids);
    AllSteps(db, c, avoid);
  }

  /** A pointer whose id was visited before. */
  lemma WentLoop(alone: bool, db: Database, node: Json, k: string, t: Target, avoid: set<string>)
    requires node.Obj? && k in node.fields && PointerOf(node.fields[k]) == Some(t) && Id(t) in avoid
    ensures Went(false, alone, db, node, {Field(k)}, avoid, avoid)
  {
    PointerLinear(db, node, k, t, avoid);
  }

  /** A pointer that is not followed: its target is missing or comes from the cache. */
  lemma WentLeaf(alone: bool, db: Database, node: Json, k: string, t: Target, avoid: set<string>)
    requires node.Obj? && k in node.fields && PointerOf(node.fields[k]) == Some(t) && Id(t) !in avoid
    requires alone ==> t !in db
    ensures Went(true, alone, db, node, {Field(k)}, avoid, avoid + {Id(t)})
  {
    PointerLinear(db, node, k, t, avoid);
    forall id
      ensures MetIn(db, node, {Field(k)}, id) <==> id == Id(t) || (t in db && MetIn(db, db[t], Steps(db[t]), id))
    {
      PointerMeets(db, node, k, t, id);
    }
  }

  /** A pointer that is followed. */
  lemma WentTarget(ok: bool, alone: bool, db: Database, node: Json, k: string, t: Target, avoid: set<string>,
                   after: set<string>)
    requires node.Obj? && k in node.fields && PointerOf(node.fields[k]) == Some(t) && Id(t) !in avoid && t in db
    requires Went(ok, alone, db, db[t], Steps(db[t]), avoid + {Id(t)}, after)
    ensures Went(ok, alone, db, node, {Field(k)}, avoid, after)
  {
    PointerLinear(db, node, k, t, avoid);
    AllSteps(db, db[t], avoid + {Id(t)});
    forall id ensures MetIn(db, node, {Field(k)}, id) <==> id == Id(t) || MetIn(db, db[t], Steps(db[t]), id) {
      PointerMeets(db, node, k, t, id);
    }
  }

  lemma FetchedOne(fetched: seq<string>, ids: set<string>, id: string)
    requires id in ids
    ensures Once(fetched, ids - {id}) ==> Once(fetched + [id], ids)
  {
  }

  lemma CachedOne(db: Database, cache: map<string, Json>, t: Target, v: Json)
    requires t in db && Id(t) !in cache && AnswersSound(db, cache) && Answered(db, cache, db[t], v)
    ensures AnswersSound(db, cache[Id(t) := v]) && Extends(cache, cache[Id(t) := v])
  {
    var after := cache[Id(t) := v];
    forall id | id in after ensures exists u :: u in db && Id(u) == id && Answered(db, after, db[u], after[id]) {
      if id == Id(t) {
        AnsweredMore(db, cache, after, db[t], v);
      } else {
        var u :| u in db && Id(u) == id && Answered(db, cache, db[u], cache[id]);
        AnsweredMore(db, cache, after, db[u], cache[id]);
      }
    }
  }

  /** The same as Partly for answers. */
  ghost predicate PartlyAnswered(db: Database, answers: map<string, Json>, fields: map<string, Json>, todo: set<string>,
                                 out: map<string, Json>)
  {
    && (forall k :: k in fields && k !in todo ==> NameOf(k, fields[k]) in out)
    && forall x :: x in out ==> exists k ::
         k in fields && k !in todo && NameOf(k, fields[k]) == x && AnsweredAt(db, answers, fields[k], out[x])
  }

  lemma PartlyAnsweredNext(db: Database, a: map<string, Json>, b: map<string, Json>, fields: map<string, Json>,
                           todo: set<string>, out: map<string, Json>, k: string, o: Json)
    requires PartlyAnswered(db, a, fields, todo, out) && Extends(a, b)
    requires k in fields && k in todo && AnsweredAt(db, b, fields[k], o)
    ensures PartlyAnswered(db, b, fields, todo - {k}, out[NameOf(k, fields[k]) := o])
  {
    var after := out[NameOf(k, fields[k]) := o];
    forall x | x in after
      ensures exists l :: l in fields && l !in todo - {k} && NameOf(l, fields[l]) == x
                          && AnsweredAt(db, b, fields[l], after[x])
    {
      if x != NameOf(k, fields[k]) {
        var l :| l in fields && l !in todo && NameOf(l, fields[l]) == x && AnsweredAt(db, a, fields[l], out[x]);
        AnsweredAtMore(db, a, b, fields[l], out[x]);
      }
    }
  }

  ghost predicate FirstAnswered(db: Database, answers: map<string, Json>, elems: seq<Json>, arr: seq<Json>) {
    |arr| <= |elems| && forall i :: 0 <= i < |arr| ==> Answered(db, answers, elems[i], arr[i])
  }

  lemma FirstAnsweredNext(db: Database, a: map<string, Json>, b: map<string, Json>, elems: seq<Json>, arr: seq<Json>,
                          o: Json)
    requires FirstAnswered(db, a, elems, arr) && Extends(a, b) && |arr| < |elems| && Answered(db, b, elems[|arr|], o)
    ensures FirstAnswered(db, b, elems, arr + [o])
  {
    forall i | 0 <= i < |arr| ensures Answered(db, b, elems[i], arr[i]) {
      AnsweredMore(db, a, b, elems[i], arr[i]);
    }
  }

  ghost function FieldsBut(node: Json, todo: set<string>): set<Step>
    requires node.Obj?
  {
    set k | k in node.fields.Keys && k !in todo :: Field(k)
  }

  ghost function ElemsTo(n: nat): set<Step> {
    set i | 0 <= i < n :: Elem(i)
  }

  lemma NothingYet(alone: bool, db: Database, node: Json, ids: set<string>)
    ensures Went(true, alone, db, node, {}, ids, ids)
    ensures node.Obj? ==> FieldsBut(node, node.fields.Keys) == {}
    ensures ElemsTo(0) == {}
  {
  }

  lemma FieldDone(node: Json, todo: set<string>, k: string)
    requires node.Obj? && k in node.fields && k in todo
    ensures Field(k) !in FieldsBut(node, todo) && FieldsBut(node, todo) <= Steps(node)
    ensures FieldsBut(node, todo - {k}) == FieldsBut(node, todo) + {Field(k)}
  {
  }

  lemma ElemDone(node: Json, i: nat)
    requires node.Arr? && i < |node.elems|
    ensures Elem(i) !in ElemsTo(i) && ElemsTo(i) <= Steps(node) && ElemsTo(i + 1) == ElemsTo(i) + {Elem(i)}
  {
  }

  lemma AllDone(node: Json)
    ensures node.Obj? ==> FieldsBut(node, {}) == Steps(node)
    ensures node.Arr? ==> ElemsTo(|node.elems|) == Steps(node)
  {
  }

  lemma PartlyNext(db: Database, fields: map<string, Json>, todo: set<string>, out: map<string, Json>, k: string,
                   o: Json)
    requires Partly(db, fields, todo, out) && k in fields && k in todo && ExpandsAt(db, fields[k], o)
    ensures Partly(db, fields, todo - {k}, out[NameOf(k, fields[k]) := o])
  {
    var after := out[NameOf(k, fields[k]) := o];
    forall x | x in after
      ensures exists l ::
                l in fields && l !in todo - {k} && NameOf(l, fields[l]) == x && ExpandsAt(db, fields[l], after[x])
    {
      if x != NameOf(k, fields[k]) {
        var l :| l in fields && l !in todo && NameOf(l, fields[l]) == x && ExpandsAt(db, fields[l], out[x]);
      }
    }
  }

  ghost predicate FirstExpanded(db: Database, elems: seq<Json>, arr: seq<Json>) {
    |arr| <= |elems| && forall i :: 0 <= i < |arr| ==> Expands(db, elems[i], arr[i])
  }

  lemma FirstNext(db: Database, elems: seq<Json>, arr: seq<Json>, o: Json)
    requires FirstExpanded(db, elems, arr) && |arr| < |elems| && Expands(db, elems[|arr|], o)
    ensures FirstExpanded(db, elems, arr + [o])
  {
  }

  class Manager {
    const db: Database
    var cache: map<string, Json>
    /** The ids of all reads from the database. */
    ghost var fetched: seq<string>

    constructor (db: Database)
      ensures this.db == db && cache == map[] && fetched == []
    {
      this.db := db;
      cache, fetched := map[], [];
    }

    method ResolveAll(node: Json, seen: Seen, ghost alone: bool) returns (r: Result<Json, string>)
      requires Trusted(alone, db, cache, fetched, seen.ids)
      modifies this, seen
      ensures Trusted(alone, db, cache, fetched, seen.ids) && Grown(old(cache), cache, old(seen.ids))
      ensures Went(r.Ok?, alone, db, node, Steps(node), old(seen.ids), seen.ids)
      ensures r.Ok? ==> Answered(db, cache, node, r.value) && (alone ==> Expands(db, node, r.value))
      decreases |Ids(db) - seen.ids|, node, 5
    {
      match node
      case Obj(_) => r := ResolveFields(node, seen, alone);
      case Arr(_) => r := ResolveElems(node, seen, alone);
      case _ => r := Ok(node);
    }

    /** Go ranges over a map in any order. */
    method ResolveFields(node: Json, seen: Seen, ghost alone: bool) returns (r: Result<Json, string>)
      requires node.Obj? && Trusted(alone, db, cache, fetched, seen.ids)
      modifies this, seen
      ensures Trusted(alone, db, cache, fetched, seen.ids) && Grown(old(cache), cache, old(seen.ids))
      ensures Went(r.Ok?, alone, db, node, Steps(node), old(seen.ids), seen.ids)
      ensures r.Ok? ==> Answered(db, cache, node, r.value) && (alone ==> Expands(db, node, r.value))
      decreases |Ids(db) - seen.ids|, node, 4
    {
      ghost var avoid := seen.ids;
      var fields, out := node.fields, map[];
      var todo := fields.Keys;
      NothingYet(alone, db, node, avoid);
      while todo != {}
        invariant todo <= fields.Keys
        invariant Trusted(alone, db, cache, fetched, seen.ids) && Grown(old(cache), cache, avoid)
        invariant Went(true, alone, db, node, FieldsBut(node, todo), avoid, seen.ids)
        invariant PartlyAnswered(db, cache, fields, todo, out) && (alone ==> Partly(db, fields, todo, out))
        decreases todo
      {
        var k :| k in todo;
        ghost var known := cache;
        Remaining(Ids(db), avoid, seen.ids);
        FieldDone(node, todo, k);
        r := NextField(node, k, seen, FieldsBut(node, todo), avoid, alone);
        if r.Err? {
          return r;
        }
        PartlyAnsweredNext(db, known, cache, fields, todo, out, k, r.value);
        if alone {
          PartlyNext(db, fields, todo, out, k, r.value);
        }
        out := out[NameOf(k, fields[k]) := r.value];
        todo := todo - {k};
      }
      AllDone(node);
      r := Ok(Obj(out));
    }

    /** One more field behind those already done. */
    method NextField(node: Json, k: string, seen: Seen, ghost done: set<Step>, ghost avoid: set<string>,
                     ghost alone: bool)
      returns (r: Result<Json, string>)
      requires node.Obj? && k in node.fields && Field(k) !in done && done <= Steps(node)
      requires Trusted(alone, db, cache, fetched, seen.ids)
      requires Went(true, alone, db, node, done, avoid, seen.ids)
      modifies this, seen
      ensures Trusted(alone, db, cache, fetched, seen.ids) && Grown(old(cache), cache, avoid)
      ensures Went(r.Ok?, alone, db, node, if r.Ok? then done + {Field(k)} else Steps(node), avoid, seen.ids)
      ensures r.Ok? ==> AnsweredAt(db, cache, node.fields[k], r.value)
      ensures r.Ok? && alone ==> ExpandsAt(db, node.fields[k], r.value)
      decreases |Ids(db) - seen.ids|, node, 3
    {
      ghost var before := seen.ids;
      r := ResolveField(node, k, seen, alone);
      WentOn(r.Ok?, alone, db, node, done, Field(k), avoid, before, seen.ids);
    }

    method NextElem(node: Json, i: nat, seen: Seen, ghost done: set<Step>, ghost avoid: set<string>, ghost alone: bool)
      returns (r: Result<Json, string>)
      requires node.Arr? && i < |node.elems| && Elem(i) !in done && done <= Steps(node)
      requires Trusted(alone, db, cache, fetched, seen.ids)
      requires Went(true, alone, db, node, done, avoid, seen.ids)
      modifies this, seen
      ensures Trusted(alone, db, cache, fetched, seen.ids) && Grown(old(cache), cache, avoid)
      ensures Went(r.Ok?, alone, db, node, if r.Ok? then done + {Elem(i)} else Steps(node), avoid, seen.ids)
      ensures r.Ok? ==> Answered(db, cache, node.elems[i], r.value) && (alone ==> Expands(db, node.elems[i], r.value))
      decreases |Ids(db) - seen.ids|, node, 3
    {
      ghost var before := seen.ids;
      r := ResolveAll(node.elems[i], seen, alone);
      WentBelow(r.Ok?, alone, db, node, Elem(i), node.elems[i], before, seen.ids);
      WentOn(r.Ok?, alone, db, node, done, Elem(i), avoid, before, seen.ids);
    }

    method ResolveField(node: Json, k: string, seen: Seen, ghost alone: bool) returns (r: Result<Json, string>)
      requires node.Obj? && k in node.fields
      requires Trusted(alone, db, cache, fetched, seen.ids)
      modifies this, seen
      ensures Trusted(alone, db, cache, fetched, seen.ids) && Grown(old(cache), cache, old(seen.ids))
      ensures Went(r.Ok?, alone, db, node, {Field(k)}, old(seen.ids), seen.ids)
      ensures r.Ok? ==> AnsweredAt(db, cache, node.fields[k], r.value)
      ensures r.Ok? && alone ==> ExpandsAt(db, node.fields[k], r.value)
      decreases |Ids(db) - seen.ids|, node, 2
    {
      var v := node.fields[k];
      match PointerOf(v)
      case None =>
        r := ResolveAll(v, seen, alone);
        WentBelow(r.Ok?, alone, db, node, Field(k), v, old(seen.ids), seen.ids);
      case Some(t) =>
        r := ResolvePointer(node, k, t, seen, alone);
    }

    method ResolvePointer(node: Json, k: string, t: Target, seen: Seen, ghost alone: bool)
      returns (r: Result<Json, string>)
      requires node.Obj? && k in node.fields && PointerOf(node.fields[k]) == Some(t)
      requires Trusted(alone, db, cache, fetched, seen.ids)
      modifies this, seen
      ensures Trusted(alone, db, cache, fetched, seen.ids) && Grown(old(cache), cache, old(seen.ids))
      ensures Went(r.Ok?, alone, db, node, {Field(k)}, old(seen.ids), seen.ids)
      ensures r.Ok? ==> AnsweredAt(db, cache, node.fields[k], r.value)
      ensures r.Ok? && alone ==> ExpandsAt(db, node.fields[k], r.value)
      ensures Id(t) !in old(seen.ids) && Id(t) in old(cache) ==> r == Ok(old(cache)[Id(t)])
      ensures r.Ok? && t in db ==> Id(t) in cache && cache[Id(t)] == r.value
      decreases |Ids(db) - seen.ids|, node, 1
    {
      ghost var avoid := seen.ids;
      var loopID := Id(t);
      if loopID in seen.ids {
        WentLoop(alone, db, node, k, t, avoid);
        return Err(loopID);
      }
      seen.ids := seen.ids + {loopID};
      if loopID in cache {
        WentLeaf(false, db, node, k, t, avoid);
        return Ok(cache[loopID]);
      }
      assert seen.ids - {loopID} == avoid;
      r := Follow(t, seen, node, alone);
      if t in db {
        WentTarget(r.Ok?, alone, db, node, k, t, avoid, seen.ids);
      } else {
        WentLeaf(alone, db, node, k, t, avoid);
      }
    }

    /** Fetches the target of a pointer, whose id was just visited, and resolves it; a missing
        target gives null. */
    method Follow(t: Target, seen: Seen, ghost node: Json, ghost alone: bool) returns (r: Result<Json, string>)
      requires Id(t) in seen.ids && Id(t) !in cache && Trusted(alone, db, cache, fetched, seen.ids - {Id(t)})
      modifies this, seen
      ensures Trusted(alone, db, cache, fetched, seen.ids) && Grown(old(cache), cache, old(seen.ids) - {Id(t)})
      ensures t in db ==> Went(r.Ok?, alone, db, db[t], Steps(db[t]), old(seen.ids), seen.ids)
      ensures t in db && r.Ok? && alone ==> Expands(db, db[t], r.value)
      ensures t in db && r.Ok? ==> Id(t) in cache && cache[Id(t)] == r.value
      ensures t !in db ==> r == Ok(Null) && seen.ids == old(seen.ids)
      decreases |Ids(db) - (seen.ids - {Id(t)})|, node, 0
    {
      FetchedOne(fetched, seen.ids, Id(t));
      fetched := fetched + [Id(t)];
      if t !in db {
        return Ok(Null);
      }
      Remaining(Ids(db), seen.ids - {Id(t)}, seen.ids);
      r := ResolveAll(db[t], seen, alone);
      if r.Ok? {
        CachedOne(db, cache, t, r.value);
        cache := cache[Id(t) := r.value];
      }
    }

    method ResolveElems(node: Json, seen: Seen, ghost alone: bool) returns (r: Result<Json, string>)
      requires node.Arr? && Trusted(alone, db, cache, fetched, seen.ids)
      modifies this, seen
      ensures Trusted(alone, db, cache, fetched, seen.ids) && Grown(old(cache), cache, old(seen.ids))
      ensures Went(r.Ok?, alone, db, node, Steps(node), old(seen.ids), seen.ids)
      ensures r.Ok? ==> Answered(db, cache, node, r.value) && (alone ==> Expands(db, node, r.value))
      decreases |Ids(db) - seen.ids|, node, 4
    {
      ghost var avoid := seen.ids;
      var arr: seq<Json> := [];
      NothingYet(alone, db, node, avoid);
      for i := 0 to |node.elems|
        invariant Trusted(alone, db, cache, fetched, seen.ids) && Grown(old(cache), cache, avoid)
        invariant Went(true, alone, db, node, ElemsTo(i), avoid, seen.ids)
        invariant |arr| == i && FirstAnswered(db, cache, node.elems, arr)
        invariant alone ==> FirstExpanded(db, node.elems, arr)
      {
        ghost var known := cache;
        Remaining(Ids(db), avoid, seen.ids);
        ElemDone(node, i);
        r := NextElem(node, i, seen, ElemsTo(i), avoid, alone);
        if r.Err? {
          return r;
        }
        FirstAnsweredNext(db, known, cache, node.elems, arr, r.value);
        if alone {
          FirstNext(db, node.elems, arr, r.value);
        }
        arr := arr + [r.value];
      }
      AllDone(node);
      r := Ok(Arr(arr));
    }
  }

  // ---- The two reads ----

  datatype ReadError = NotFound | NotAnObject | Loop(id: string)

  /** Pointer fields that are expanded have lost the prefix $ptr_, all others have their names. */
  ghost predicate FieldNames(fields: map<string, Json>, expanded: set<string>, out: map<string, Json>) {
    && (forall k :: k in fields && k in expanded && "$ptr_" <= k && PointerOf(fields[k]).Some? ==> k[5..] in out)
    && (forall k :: k in fields && !(k in expanded && "$ptr_" <= k && PointerOf(fields[k]).Some?) ==> k in out)
  }

  /** One field of an expansion: the value under its name is its expansion, if no other field gets that
      name; null for a pointer to nothing. */
  lemma FieldExpands(db: Database, fields: map<string, Json>, out: Json, k: string, name: string)
    requires Expands(db, Obj(fields), out) && k in fields && name in out.fields
    requires name == if PointerOf(fields[k]).Some? && "$ptr_" <= k then k[5..] else k
    requires forall l :: l in fields && l != k ==> l != name && !("$ptr_" <= l && l[5..] == name)
    ensures match PointerOf(fields[k])
            case None => Expands(db, fields[k], out.fields[name])
            case Some(t) => if t in db then Expands(db, db[t], out.fields[name]) else out.fields[name] == Null
  {
    var l :| l in fields && NameOf(l, fields[l]) == name && ExpandsAt(db, fields[l], out.fields[name]);
  }

  lemma ExpandedNames(db: Database, fields: map<string, Json>, out: Json)
    requires Expands(db, Obj(fields), out)
    ensures FieldNames(fields, fields.Keys, out.fields)
  {
    forall k | k in fields && "$ptr_" <= k && PointerOf(fields[k]).Some? ensures k[5..] in out.fields {
      assert NameOf(k, fields[k]) in out.fields;
    }
    forall k | k in fields && !("$ptr_" <= k && PointerOf(fields[k]).Some?) ensures k in out.fields {
      OtherNamesStay(k, fields[k]);
      assert NameOf(k, fields[k]) in out.fields;
    }
  }

  /** Expands everything under an object. It fails exactly when two different paths meet the same
      id, a cycle being one way. Every target of a pointer is fetched once at most; the root is
      fetched again if it is met. */
  method ReadPtrAll(db: Database, t: Target) returns (r: Result<Json, ReadError>, ghost fetched: seq<string>)
    ensures t !in db ==> r == Err(NotFound)
    ensures t in db && !db[t].Obj? ==> r == Err(NotAnObject)
    ensures t in db && db[t].Obj? ==> (r.Ok? <==> Linear(db, db[t], {})) && (r.Err? ==> r.error.Loop?)
    ensures r.Ok? ==> t in db && Expands(db, db[t], r.value)
    ensures r.Ok? ==> db[t].Obj? && r.value.Obj? && FieldNames(db[t].fields, db[t].fields.Keys, r.value.fields)
    ensures fetched != [] && fetched[0] == Id(t) && NoRepeat(fetched[1..])
    ensures r.Ok? ==> forall id :: id in fetched[1..] <==> Meets(db, db[t], id)
    ensures r.Ok? ==> (NoRepeat(fetched) <==> !Meets(db, db[t], Id(t)))
  {
    fetched := [Id(t)];
    if t !in db {
      return Err(NotFound), fetched;
    }
    if !db[t].Obj? {
      return Err(NotAnObject), fetched;
    }
    var mgr := new Manager(db);
    var seen := new Seen();
    AllSteps(db, db[t], {});
    var resolved := mgr.ResolveAll(db[t], seen, true);
    fetched := fetched + mgr.fetched;
    assert fetched[1..] == mgr.fetched;
    forall id ensures MetIn(db, db[t], Steps(db[t]), id) <==> Meets(db, db[t], id) {
      AllMet(db, db[t], id);
    }
    RepeatsFirst(Id(t), mgr.fetched);
    if resolved.Ok? {
      ExpandedNames(db, db[t].fields, resolved.value);
    }
    r := if resolved.Ok? then Ok(resolved.value) else Err(Loop(resolved.error));
  }

  lemma RepeatsFirst(x: string, ids: seq<string>)
    requires NoRepeat(ids)
    ensures NoRepeat([x] + ids) <==> x !in ids
  {
    var all := [x] + ids;
    if x in ids {
      var i :| 0 <= i < |ids| && ids[i] == x;
      assert all[0] == all[i + 1];
    }
  }

  /** A field that ReadPtrSome expands; all others are copied as they are. */
  predicate Chosen(v: Json, k: string, wanted: set<string>) {
    k in wanted && PointerOf(v).Some?
  }

  function SomeName(k: string, v: Json, wanted: set<string>): string {
    if Chosen(v, k, wanted) then NameOf(k, v) else k
  }

  ghost predicate SomeAt(db: Database, k: string, v: Json, wanted: set<string>, o: Json) {
    if Chosen(v, k, wanted) then ExpandsAt(db, v, o) else o == v
  }

  /** The fields are in the result, the chosen ones expanded. */
  ghost predicate SomeDone(db: Database, fields: map<string, Json>, wanted: set<string>, out: map<string, Json>) {
    && (forall k :: k in fields ==> SomeName(k, fields[k], wanted) in out)
    && forall x :: x in out ==>
         exists k :: k in fields && SomeName(k, fields[k], wanted) == x && SomeAt(db, k, fields[k], wanted, out[x])
  }

  /** The target of a chosen field, its pointers replaced by the answers. */
  ghost predicate TargetAnswered(db: Database, answers: map<string, Json>, v: Json, o: Json)
    requires PointerOf(v).Some?
  {
    var t := PointerOf(v).value;
    if t in db then Answered(db, answers, db[t], o) else o == Null
  }

  ghost predicate SomeAnsweredAt(db: Database, answers: map<string, Json>, k: string, v: Json, wanted: set<string>,
                                 o: Json)
  {
    if Chosen(v, k, wanted) then TargetAnswered(db, answers, v, o) else o == v
  }

  /** The same for answers, and the fields that are no longer to do. */
  ghost predicate SomeAnswered(db: Database, answers: map<string, Json>, fields: map<string, Json>, wanted: set<string>,
                               todo: set<string>, out: map<string, Json>)
  {
    && (forall k :: k in fields && k !in todo ==> SomeName(k, fields[k], wanted) in out)
    && forall x :: x in out ==>
         exists k :: k in fields && k !in todo && SomeName(k, fields[k], wanted) == x
                     && SomeAnsweredAt(db, answers, k, fields[k], wanted, out[x])
  }

  lemma SomeAnsweredMore(db: Database, a: map<string, Json>, b: map<string, Json>, k: string, v: Json,
                         wanted: set<string>, o: Json)
    requires Extends(a, b) && SomeAnsweredAt(db, a, k, v, wanted, o)
    ensures SomeAnsweredAt(db, b, k, v, wanted, o)
  {
    if Chosen(v, k, wanted) && PointerOf(v).value in db {
      AnsweredMore(db, a, b, db[PointerOf(v).value], o);
    }
  }

  lemma SomeAnsweredNext(db: Database, a: map<string, Json>, b: map<string, Json>, fields: map<string, Json>,
                         wanted: set<string>, todo: set<string>, out: map<string, Json>, k: string, o: Json)
    requires SomeAnswered(db, a, fields, wanted, todo, out) && Extends(a, b)
    requires k in fields && k in todo && SomeAnsweredAt(db, b, k, fields[k], wanted, o)
    ensures SomeAnswered(db, b, fields, wanted, todo - {k}, out[SomeName(k, fields[k], wanted) := o])
  {
    var name := SomeName(k, fields[k], wanted);
    var after := out[name := o];
    forall y | y in after
      ensures exists l :: l in fields && l !in todo - {k} && SomeName(l, fields[l], wanted) == y
                          && SomeAnsweredAt(db, b, l, fields[l], wanted, after[y])
    {
      if y != name {
        var l :| l in fields && l !in todo && SomeName(l, fields[l], wanted) == y
            && SomeAnsweredAt(db, a, l, fields[l], wanted, out[y]);
        SomeAnsweredMore(db, a, b, l, fields[l], wanted, out[y]);
      }
    }
  }

  lemma SomeExpandAt(db: Database, answers: map<string, Json>, k: string, v: Json, wanted: set<string>, o: Json)
    requires OwnIdsDb(db) && AnswersSound(db, answers) && SomeAnsweredAt(db, answers, k, v, wanted, o)
    ensures SomeAt(db, k, v, wanted, o)
  {
    if Chosen(v, k, wanted) && PointerOf(v).value in db {
      AnswersExpand(db, answers, db[PointerOf(v).value], o);
    }
  }

  /** Where no pointer can be mistaken, the chosen fields are expanded. */
  lemma SomeExpand(db: Database, answers: map<string, Json>, fields: map<string, Json>, wanted: set<string>,
                   out: map<string, Json>)
    requires OwnIdsDb(db) && AnswersSound(db, answers) && SomeAnswered(db, answers, fields, wanted, {}, out)
    ensures SomeDone(db, fields, wanted, out)
  {
    forall x | x in out
      ensures exists k ::
                k in fields && SomeName(k, fields[k], wanted) == x && SomeAt(db, k, fields[k], wanted, out[x])
    {
      var k :| k in fields && SomeName(k, fields[k], wanted) == x
          && SomeAnsweredAt(db, answers, k, fields[k], wanted, out[x]);
      SomeExpandAt(db, answers, k, fields[k], wanted, out[x]);
    }
  }

  lemma SomeNames(db: Database, answers: map<string, Json>, fields: map<string, Json>, wanted: set<string>,
                  out: map<string, Json>)
    requires SomeAnswered(db, answers, fields, wanted, {}, out)
    ensures FieldNames(fields, wanted, out)
  {
    forall k | k in fields && k in wanted && "$ptr_" <= k && PointerOf(fields[k]).Some? ensures k[5..] in out {
      assert SomeName(k, fields[k], wanted) in out;
    }
    forall k | k in fields && !(k in wanted && "$ptr_" <= k && PointerOf(fields[k]).Some?) ensures k in out {
      if Chosen(fields[k], k, wanted) {
        OtherNamesStay(k, fields[k]);
      }
      assert SomeName(k, fields[k], wanted) in out;
    }
  }

  /** One field of ReadPtrSome that is expanded, if no other field gets its name: null for a pointer to
      nothing, otherwise its target with the answers. */
  lemma FieldFollowed(db: Database, answers: map<string, Json>, fields: map<string, Json>, wanted: set<string>,
                      out: map<string, Json>, k: string, name: string, t: Target)
    requires SomeAnswered(db, answers, fields, wanted, {}, out) && k in fields && name in out
    requires k in wanted && PointerOf(fields[k]) == Some(t) && name == if "$ptr_" <= k then k[5..] else k
    requires forall l :: l in fields && l != k ==> l != name && !("$ptr_" <= l && l[5..] == name)
    ensures if t in db then Answered(db, answers, db[t], out[name]) else out[name] == Null
  {
    var l :| l in fields && SomeName(l, fields[l], wanted) == name
        && SomeAnsweredAt(db, answers, l, fields[l], wanted, out[name]);
  }

  /** One field of ReadPtrSome that is not expanded, if no other field gets its name. */
  lemma FieldCopied(db: Database, answers: map<string, Json>, fields: map<string, Json>, wanted: set<string>,
                    out: map<string, Json>, k: string)
    requires SomeAnswered(db, answers, fields, wanted, {}, out) && k in fields && k in out
    requires k !in wanted || PointerOf(fields[k]).None?
    requires forall l :: l in fields && l != k ==> !("$ptr_" <= l && l[5..] == k)
    ensures out[k] == fields[k]
  {
    var l :| l in fields && SomeName(l, fields[l], wanted) == k
        && SomeAnsweredAt(db, answers, l, fields[l], wanted, out[k]);
  }

  /** The target of a field meets an id twice. */
  ghost predicate Tangled(db: Database, v: Json) {
    PointerOf(v).Some? && PointerOf(v).value in db && !Linear(db, db[PointerOf(v).value], {})
  }

  /** Expands the wanted fields only, one traversal for each and one cache for all. Every pointer
      below them is replaced by the one answer to its id, which belongs to some stored target of that
      id. It fails only if a wanted field is tangled, and always if all of them are; in between it
      depends on the order of the fields, because what the cache knows is not traversed again. */
  method ReadPtrSome(db: Database, t: Target, wanted: set<string>)
    returns (r: Result<Json, ReadError>, ghost answers: map<string, Json>)
    ensures t !in db ==> r == Err(NotFound)
    ensures t in db && !db[t].Obj? ==> r == Err(NotAnObject)
    ensures t in db && db[t].Obj? && r.Err? ==>
              r.error.Loop? && exists k :: k in db[t].fields && k in wanted && Tangled(db, db[t].fields[k])
    ensures r.Ok? ==> t in db && db[t].Obj? && r.value.Obj? && AnswersSound(db, answers)
    ensures r.Ok? ==> SomeAnswered(db, answers, db[t].fields, wanted, {}, r.value.fields)
    ensures r.Ok? ==> FieldNames(db[t].fields, wanted, r.value.fields)
    ensures r.Ok? && OwnIdsDb(db) ==> SomeDone(db, db[t].fields, wanted, r.value.fields)
    ensures r.Ok? ==> AllPlain(db, db[t].fields, wanted, db[t].fields.Keys) || SomePlain(db, db[t].fields, wanted)
  {
    answers := map[];
    if t !in db {
      return Err(NotFound), answers;
    }
    if !db[t].Obj? {
      return Err(NotAnObject), answers;
    }
    var fields, out := db[t].fields, map[];
    var mgr := new Manager(db);
    var todo := fields.Keys;
    while todo != {}
      invariant todo <= fields.Keys && mgr.db == db && AnswersSound(db, mgr.cache)
      invariant SomeAnswered(db, mgr.cache, fields, wanted, todo, out)
      invariant (Fresh(mgr) && AllPlain(db, fields, wanted, fields.Keys - todo)) || SomePlain(db, fields, wanted)
      decreases todo
    {
      var k :| k in todo;
      var o := fields[k];
      ghost var known := mgr.cache;
      if Chosen(fields[k], k, wanted) {
        var child := ExpandChosen(mgr, fields[k], Fresh(mgr));
        if child.Err? {
          return Err(Loop(child.error)), answers;
        }
        o := child.value;
      }
      SomeAnsweredNext(db, known, mgr.cache, fields, wanted, todo, out, k, o);
      out := out[SomeName(k, fields[k], wanted) := o];
      todo := todo - {k};
    }
    answers := mgr.cache;
    SomeNames(db, answers, fields, wanted, out);
    if OwnIdsDb(db) {
      SomeExpand(db, answers, fields, wanted, out);
    }
    r := Ok(Obj(out));
  }

  /** Nothing resolved yet. */
  ghost predicate Fresh(mgr: Manager)
    reads mgr
  {
    mgr.cache == map[] && mgr.fetched == []
  }

  /** None of these fields is both wanted and tangled. */
  ghost predicate AllPlain(db: Database, fields: map<string, Json>, wanted: set<string>, keys: set<string>) {
    forall k :: k in keys && k in fields && k in wanted ==> !Tangled(db, fields[k])
  }

  /** Some wanted pointer field is not tangled. */
  ghost predicate SomePlain(db: Database, fields: map<string, Json>, wanted: set<string>) {
    exists k :: k in fields && Chosen(fields[k], k, wanted) && !Tangled(db, fields[k])
  }

  /** A missing target and a stored null both give null. */
  method ExpandChosen(mgr: Manager, v: Json, ghost alone: bool) returns (r: Result<Json, string>)
    requires PointerOf(v).Some? && Trusted(alone, mgr.db, mgr.cache, mgr.fetched, {})
    modifies mgr
    ensures AnswersSound(mgr.db, mgr.cache) && Extends(old(mgr.cache), mgr.cache)
    ensures r.Ok? ==> TargetAnswered(mgr.db, mgr.cache, v, r.value)
    ensures r.Err? ==> Tangled(mgr.db, v)
    ensures r.Ok? && alone ==> !Tangled(mgr.db, v)
  {
    var t := PointerOf(v).value;
    if t !in mgr.db || mgr.db[t] == Null {
      AllSteps(mgr.db, Null, {});
      return Ok(Null);
    }
    var seen := new Seen();
    AllSteps(mgr.db, mgr.db[t], {});
    r := mgr.ResolveAll(mgr.db[t], seen, alone);
  }

  // ---- A mistaken target ----

  const TO_S := Arr([Str("c"), Str("a/b")])
  const TO_T := Arr([Str("b/c"), Str("a")])
  const TO_X := Arr([Str("x"), Str("t")])
  const TO_Y := Arr([Str("y"), Str("t")])

  /** Two stored numbers share an id; one is met below field x, the other below field y. */
  const MISTAKABLE := map[Target("c", "a/b") := Other(1), Target("b/c", "a") := Other(2),
                          Target("x", "t") := Obj(map["p" := TO_S]), Target("y", "t") := Obj(map["p" := TO_T]),
                          Target("root", "t") := Obj(map["x" := TO_X, "y" := TO_Y])]

  /** An object with one pointer to a number. */
  lemma OnePointerLinear(db: Database, v: Json, t: Target, n: int)
    requires PointerOf(v) == Some(t) && t in db && db[t] == Other(n)
    ensures Linear(db, Obj(map["p" := v]), {})
  {
    var node := Obj(map["p" := v]);
    PointerLinear(db, node, "p", t, {});
    AllSteps(db, Other(n), {} + {Id(t)});
    AllSteps(db, node, {});
    assert Steps(node) == {Field("p")};
  }

  lemma MistakableFields()
    ensures PointerOf(TO_S) == Some(Target("c", "a/b")) && PointerOf(TO_T) == Some(Target("b/c", "a"))
    ensures PointerOf(TO_X) == Some(Target("x", "t")) && PointerOf(TO_Y) == Some(Target("y", "t"))
    ensures !Tangled(MISTAKABLE, TO_X) && !Tangled(MISTAKABLE, TO_Y)
    ensures NameOf("x", TO_X) == "x" && NameOf("y", TO_Y) == "y" && NameOf("p", TO_S) == "p" && NameOf("p", TO_T) == "p"
  {
    OnePointerLinear(MISTAKABLE, TO_S, Target("c", "a/b"), 1);
    OnePointerLinear(MISTAKABLE, TO_T, Target("b/c", "a"), 2);
  }

  /** The answer for one field of the root. */
  lemma OneAnswer(answers: map<string, Json>, v: Json, t: Target, o: Json)
    requires PointerOf(v) == Some(t) && t in MISTAKABLE && NameOf("p", v) == "p"
    requires Answered(MISTAKABLE, answers, Obj(map["p" := v]), o)
    ensures Id(t) in answers && o == Obj(map["p" := answers[Id(t)]])
  {
    var fields := map["p" := v];
    assert fields["p"] == v && NameOf("p", fields["p"]) in o.fields;
    assert o.fields.Keys == {"p"};
  }

  lemma OneExpansion(db: Database, v: Json, t: Target, n: int, o: Json)
    requires PointerOf(v) == Some(t) && t in db && db[t] == Other(n) && NameOf("p", v) == "p"
    requires Expands(db, Obj(map["p" := v]), o)
    ensures o.Obj? && "p" in o.fields && o.fields["p"] == Other(n)
  {
    var fields := map["p" := v];
    assert fields["p"] == v && NameOf("p", fields["p"]) in o.fields;
    var k :| k in fields && NameOf(k, fields[k]) == "p" && ExpandsAt(db, fields[k], o.fields["p"]);
    assert Expands(db, Other(n), o.fields["p"]);
  }

  lemma RootAnswer(answers: map<string, Json>, out: map<string, Json>, k: string)
    requires SomeAnswered(MISTAKABLE, answers, map["x" := TO_X, "y" := TO_Y], {"x", "y"}, {}, out) && k in ["x", "y"]
    ensures k in out && TargetAnswered(MISTAKABLE, answers, if k == "x" then TO_X else TO_Y, out[k])
  {
    MistakableFields();
    var fields := map["x" := TO_X, "y" := TO_Y];
    assert SomeName(k, fields[k], {"x", "y"}) in out;
  }

  lemma RootExpansion(out: map<string, Json>, k: string)
    requires SomeDone(MISTAKABLE, map["x" := TO_X, "y" := TO_Y], {"x", "y"}, out) && k in ["x", "y"]
    ensures k in out && ExpandsAt(MISTAKABLE, if k == "x" then TO_X else TO_Y, out[k])
  {
    MistakableFields();
    var fields := map["x" := TO_X, "y" := TO_Y];
    assert SomeName(k, fields[k], {"x", "y"}) in out;
  }

  lemma SameAnswer(answers: map<string, Json>, out: map<string, Json>)
    requires SomeAnswered(MISTAKABLE, answers, map["x" := TO_X, "y" := TO_Y], {"x", "y"}, {}, out)
    ensures "x" in out && "y" in out && out["x"] == out["y"]
  {
    IdsClash();
    MistakableFields();
    RootAnswer(answers, out, "x");
    RootAnswer(answers, out, "y");
    OneAnswer(answers, TO_S, Target("c", "a/b"), out["x"]);
    OneAnswer(answers, TO_T, Target("b/c", "a"), out["y"]);
  }

  lemma RootExpansionAt(out: map<string, Json>, k: string)
    requires SomeDone(MISTAKABLE, map["x" := TO_X, "y" := TO_Y], {"x", "y"}, out) && k in ["x", "y"]
    ensures k in out && out[k].Obj? && "p" in out[k].fields
    ensures out[k].fields["p"] == Other(if k == "x" then 1 else 2)
  {
    MistakableFields();
    RootExpansion(out, k);
    if k == "x" {
      OneExpansion(MISTAKABLE, TO_S, Target("c", "a/b"), 1, out[k]);
    } else {
      OneExpansion(MISTAKABLE, TO_T, Target("b/c", "a"), 2, out[k]);
    }
  }

  lemma NotTheExpansion(out: map<string, Json>)
    requires "x" in out && "y" in out && out["x"] == out["y"]
    ensures !SomeDone(MISTAKABLE, map["x" := TO_X, "y" := TO_Y], {"x", "y"}, out)
  {
    if SomeDone(MISTAKABLE, map["x" := TO_X, "y" := TO_Y], {"x", "y"}, out) {
      RootExpansionAt(out, "x");
      RootExpansionAt(out, "y");
    }
  }

  /** Both fields come back with the same number, so one of them with the wrong one. */
  method MistakenTarget() returns (r: Result<Json, ReadError>)
    ensures r.Ok? && r.value.Obj? && "x" in r.value.fields && "y" in r.value.fields
    ensures r.value.fields["x"] == r.value.fields["y"]
    ensures !SomeDone(MISTAKABLE, MISTAKABLE[Target("root", "t")].fields, {"x", "y"}, r.value.fields)
  {
    IdsClash();
    MistakableFields();
    ghost var answers;
    r, answers := ReadPtrSome(MISTAKABLE, Target("root", "t"), {"x", "y"});
    SameAnswer(answers, r.value.fields);
    NotTheExpansion(r.value.fields);
  }

  /** Not only cycles: an object that two fields point to counts as a loop, although its expansion
      exists. */
  lemma SharedTargetIsLoop()
    ensures var p, t := Arr([Str("k"), Str("t")]), Target("k", "t");
            var db, node := map[t := Other(1)], Obj(map["a" := p, "b" := p]);
            !Linear(db, node, {}) && Expands(db, node, Obj(map["a" := Other(1), "b" := Other(1)]))
  {
    var p, t := Arr([Str("k"), Str("t")]), Target("k", "t");
    var db, node := map[t := Other(1)], Obj(map["a" := p, "b" := p]);
    assert PointerOf(p) == Some(t);
    assert Beneath(db, node, Field("a"), []) == MetAt(db, p, []) == Some(Id(t));
    assert Beneath(db, node, Field("b"), []) == MetAt(db, p, []);
    Prepend(db, node, Field("a"), []);
    Prepend(db, node, Field("b"), []);
    assert [Field("a")] + [] != [Field("b")] + [] by {
      assert ([Field("a")] + [])[0] != ([Field("b")] + [])[0];
    }
    var out := Obj(map["a" := Other(1), "b" := Other(1)]);
    assert NameOf("a", p) == "a" && NameOf("b", p) == "b";
    assert ExpandsAt(db, p, Other(1));
  }
}
