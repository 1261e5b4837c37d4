/** The pointer resolver: JSON objects whose fields may point to other stored objects. */
module Pointers {
  import opened Bytes

  /** A decoded JSON value; Other stands for numbers and booleans. */
  datatype Json = Obj(fields: map<string, Json>) | Arr(elems: seq<Json>) | Str(s: string) | Null | Other(n: int)

  datatype Target = Target(key: string, table: string)

  type Database = map<Target, Json>

  /** An array of exactly two strings, [key, table]. */
  function PointerOf(v: Json): Option<Target> {
    if v.Arr? && |v.elems| == 2 && v.elems[0].Str? && v.elems[1].Str?
    then Some(Target(v.elems[0].s, v.elems[1].s)) else None
  }

  /** The name under which a target is remembered. */
  function Id(t: Target): string { t.table + "/" + t.key }

  const PREFIX := "$ptr_"

  function StripPrefix(k: string): string {
    if PREFIX <= k then k[|PREFIX|..] else k
  }

  /** The name of a field in the result: only pointer fields lose the prefix. */
  function NameOf(k: string, v: Json): string {
    if PointerOf(v).Some? then StripPrefix(k) else k
  }

  /** A pointer is an array of exactly two strings, the key and the table. */
  lemma PointerShape(v: Json, key: string, table: string)
    ensures PointerOf(v) == Some(Target(key, table)) <==> v == Arr([Str(key), Str(table)])
  {
    if PointerOf(v).Some? {
      assert v.elems == [Str(v.elems[0].s), Str(v.elems[1].s)];
    }
  }

  /** A pointer field loses the prefix $ptr_ in the result. */
  lemma PrefixIsStripped(x: string, v: Json)
    requires PointerOf(v).Some?
    ensures NameOf("$ptr_" + x, v) == x
  {
    assert ("$ptr_" + x)[5..] == x;
  }

  /** All other fields keep their names. */
  lemma OtherNamesStay(k: string, v: Json)
    requires PointerOf(v).None? || !("$ptr_" <= k)
    ensures NameOf(k, v) == k
  {
  }

  // ---- What a traversal meets ----

  datatype Step = Field(name: string) | Elem(i: nat)

  /** The id of the pointer at the end of a path, if there is one. A path goes on behind a pointer
      in the object that it points to, so paths may be as long as one likes on a cyclic database. */
  ghost function Met(db: Database, node: Json, path: seq<Step>): Option<string>
    decreases |path|, 0
  {
    if path == [] then None else Beneath(db, node, path[0], path[1..])
  }

  ghost function Beneath(db: Database, node: Json, s: Step, path: seq<Step>): Option<string>
    decreases |path|, 2
  {
    match s
    case Field(k) => if node.Obj? && k in node.fields then MetAt(db, node.fields[k], path) else None
    case Elem(i) => if node.Arr? && i < |node.elems| then Met(db, node.elems[i], path) else None
  }

  /** The same from a field on: here an array of two strings is a pointer. */
  ghost function MetAt(db: Database, v: Json, path: seq<Step>): Option<string>
    decreases |path|, 1
  {
    match PointerOf(v)
    case None => Met(db, v, path)
    case Some(t) => if path == [] then Some(Id(t)) else if t in db then Met(db, db[t], path) else None
  }

  /** No id is met twice, by two different paths, and none of those to be avoided. */
  ghost predicate Linear(db: Database, node: Json, avoid: set<string>) {
    && (forall p :: Met(db, node, p).Some? ==> Met(db, node, p).value !in avoid)
    && (forall p, q :: p != q && Met(db, node, p).Some? ==> Met(db, node, p) != Met(db, node, q))
  }

  ghost predicate Meets(db: Database, node: Json, id: string) {
    exists p :: Met(db, node, p) == Some(id)
  }

  /** The same for the paths that begin with some of the steps. */
  ghost predicate LinearIn(db: Database, node: Json, steps: set<Step>, avoid: set<string>) {
    && (forall s, p :: s in steps && Beneath(db, node, s, p).Some? ==> Beneath(db, node, s, p).value !in avoid)
    && (forall s, p, t, q :: s in steps && t in steps && (s != t || p != q) && Beneath(db, node, s, p).Some?
          ==> Beneath(db, node, s, p) != Beneath(db, node, t, q))
  }

  ghost predicate MetIn(db: Database, node: Json, steps: set<Step>, id: string) {
    exists s, p :: s in steps && Beneath(db, node, s, p) == Some(id)
  }

  ghost function Steps(node: Json): set<Step> {
    match node
    case Obj(fields) => set k | k in fields.Keys :: Field(k)
    case Arr(elems) => set i | 0 <= i < |elems| :: Elem(i)
    case _ => {}
  }

  // ---- The pure expansion ----

  /** out is node with every pointer replaced by the expansion of what it points to, null for a
      missing target, and pointer fields renamed. */
  ghost predicate Expands(db: Database, node: Json, out: Json)
    decreases out, 0
  {
    match node
    case Obj(fields) =>
      out.Obj? && (forall k :: k in fields ==> NameOf(k, fields[k]) in out.fields)
      && forall x :: x in out.fields ==>
           exists k :: k in fields && NameOf(k, fields[k]) == x && ExpandsAt(db, fields[k], out.fields[x])
    case Arr(elems) =>
      out.Arr? && |out.elems| == |elems| && forall i :: 0 <= i < |elems| ==> Expands(db, elems[i], out.elems[i])
    case _ => out == node
  }

  ghost predicate ExpandsAt(db: Database, v: Json, out: Json)
    decreases out, 1
  {
    match PointerOf(v)
    case None => Expands(db, v, out)
    case Some(t) => if t in db then Expands(db, db[t], out) else out == Null
  }

  lemma StringMeetsNothing(db: Database, s: string, path: seq<Step>)
    ensures Met(db, Str(s), path) == None
  {
    if path != [] {
      assert Beneath(db, Str(s), path[0], path[1..]) == None;
    }
  }

  lemma TwoStringsMeetNothing(db: Database, v: Json, path: seq<Step>)
    requires PointerOf(v).Some?
    ensures Met(db, v, path) == None
  {
    if path != [] {
      assert Met(db, v, path) == Beneath(db, v, path[0], path[1..]);
      if path[0].Elem? && path[0].i < 2 {
        StringMeetsNothing(db, v.elems[path[0].i].s, path[1..]);
      }
    }
  }

  /** Only fields of objects are pointers: two strings that are an element of an array stay two strings,
      and no path meets their id. */
  lemma PointersInArraysStay(db: Database, elems: seq<Json>, i: nat, out: Json, path: seq<Step>)
    requires i < |elems| && PointerOf(elems[i]).Some?
    ensures Expands(db, Arr(elems), out) ==> out.elems[i] == elems[i]
    ensures Met(db, Arr(elems), [Elem(i)] + path) == None
  {
    var v := elems[i];
    TwoStringsMeetNothing(db, v, path);
    assert ([Elem(i)] + path)[1..] == path;
    assert Beneath(db, Arr(elems), Elem(i), path) == Met(db, v, path);
    if Expands(db, Arr(elems), out) {
      assert Expands(db, v, out.elems[i]);
      assert Expands(db, v.elems[0], out.elems[i].elems[0]) && Expands(db, v.elems[1], out.elems[i].elems[1]);
      assert out.elems[i].elems == v.elems;
    }
  }

  /** No two fields of one object get the same name. */
  ghost predicate Clear(j: Json) {
    match j
    case Obj(fields) =>
      (forall k, l :: k in fields && l in fields && k != l ==> NameOf(k, fields[k]) != NameOf(l, fields[l]))
      && forall k :: k in fields ==> Clear(fields[k])
    case Arr(elems) => forall i :: 0 <= i < |elems| ==> Clear(elems[i])
    case _ => true
  }

  ghost predicate ClearDb(db: Database) {
    forall t :: t in db ==> Clear(db[t])
  }

  lemma ResultNames(db: Database, node: Json, out: Json, x: string)
    requires Expands(db, node, out) && node.Obj?
    ensures x in out.fields <==> exists k :: k in node.fields && NameOf(k, node.fields[k]) == x
  {
  }

  /** Without clashing names there is at most one expansion. */
  lemma {:induction false} ExpansionUnique(db: Database, node: Json, a: Json, b: Json)
    requires Clear(node) && ClearDb(db) && Expands(db, node, a) && Expands(db, node, b)
    ensures a == b
    decreases a, 1
  {
    match node
    case Obj(fields) =>
      forall x ensures x in a.fields <==> x in b.fields {
        ResultNames(db, node, a, x);
        ResultNames(db, node, b, x);
      }
      forall x | x in a.fields ensures a.fields[x] == b.fields[x] {
        FieldUnique(db, fields, a, b, x);
      }
      assert a.fields == b.fields;
    case Arr(elems) => ElemsUnique(db, elems, a, b);
    case _ =>
  }

  lemma {:induction false} ElemsUnique(db: Database, elems: seq<Json>, a: Json, b: Json)
    requires Clear(Arr(elems)) && ClearDb(db) && Expands(db, Arr(elems), a) && Expands(db, Arr(elems), b)
    ensures a == b
    decreases a, 0
  {
    forall i | 0 <= i < |elems| ensures a.elems[i] == b.elems[i] {
      ExpansionUnique(db, elems[i], a.elems[i], b.elems[i]);
    }
    assert a.elems == b.elems;
  }

  lemma {:induction false} FieldUnique(db: Database, fields: map<string, Json>, a: Json, b: Json, x: string)
    requires Clear(Obj(fields)) && ClearDb(db) && Expands(db, Obj(fields), a) && Expands(db, Obj(fields), b)
    requires x in a.fields && x in b.fields
    ensures a.fields[x] == b.fields[x]
    decreases a, 0
  {
    var k :| k in fields && NameOf(k, fields[k]) == x && ExpandsAt(db, fields[k], a.fields[x]);
    var l :| l in fields && NameOf(l, fields[l]) == x && ExpandsAt(db, fields[l], b.fields[x]);
    assert k == l;
    match PointerOf(fields[k])
    case None => ExpansionUnique(db, fields[k], a.fields[x], b.fields[x]);
    case Some(t) => if t in db { ExpansionUnique(db, db[t], a.fields[x], b.fields[x]); }
  }

  // ---- Putting the parts of a traversal together ----

  lemma Prepend(db: Database, node: Json, s: Step, p: seq<Step>)
    ensures Met(db, node, [s] + p) == Beneath(db, node, s, p)
    ensures Beneath(db, node, s, p).Some? ==> s in Steps(node)
  {
    assert ([s] + p)[1..] == p;
  }

  /** All paths begin with one of the node's steps. */
  lemma AllSteps(db: Database, node: Json, avoid: set<string>)
    ensures LinearIn(db, node, Steps(node), avoid) <==> Linear(db, node, avoid)
  {
    forall s, p ensures Met(db, node, [s] + p) == Beneath(db, node, s, p)
        && (Beneath(db, node, s, p).Some? ==> s in Steps(node)) {
      Prepend(db, node, s, p);
    }
    if Linear(db, node, avoid) {
      forall s: Step, p: seq<Step>, t: Step, q: seq<Step> | (s != t || p != q) && Beneath(db, node, s, p).Some?
        ensures Beneath(db, node, s, p) != Beneath(db, node, t, q)
      {
        assert ([s] + p)[1..] == p && ([t] + q)[1..] == q && ([s] + p)[0] == s && ([t] + q)[0] == t;
        assert Met(db, node, [s] + p) == Beneath(db, node, s, p) && Met(db, node, [t] + q) == Beneath(db, node, t, q);
      }
    }
    if LinearIn(db, node, Steps(node), avoid) {
      forall p | Met(db, node, p).Some? ensures Met(db, node, p).value !in avoid {
        Prepend(db, node, p[0], p[1..]);
      }
      forall p, q | p != q && Met(db, node, p).Some? ensures Met(db, node, p) != Met(db, node, q) {
        if q != [] {
          assert p == [p[0]] + p[1..] && q == [q[0]] + q[1..];
        }
      }
    }
  }

  lemma AllMet(db: Database, node: Json, id: string)
    ensures MetIn(db, node, Steps(node), id) <==> Meets(db, node, id)
  {
    if s, p :| s in Steps(node) && Beneath(db, node, s, p) == Some(id) {
      Prepend(db, node, s, p);
    }
    if p :| Met(db, node, p) == Some(id) {
      Prepend(db, node, p[0], p[1..]);
    }
  }

  /** The ids that were added since avoid were met on the way. */
  ghost predicate Accounted(db: Database, node: Json, steps: set<Step>, avoid: set<string>, ids: set<string>) {
    avoid <= ids && forall id :: id in ids ==> id in avoid || MetIn(db, node, steps, id)
  }

  /** The traversal met no id twice, and every id that it met was recorded. */
  ghost predicate Complete(db: Database, node: Json, steps: set<Step>, avoid: set<string>, ids: set<string>) {
    LinearIn(db, node, steps, avoid) && forall id :: MetIn(db, node, steps, id) ==> id in ids
  }

  lemma SubsetLinear(db: Database, node: Json, some: set<Step>, all: set<Step>, avoid: set<string>)
    requires some <= all && LinearIn(db, node, all, avoid)
    ensures LinearIn(db, node, some, avoid)
  {
  }

  /** One more step behind those already done. */
  lemma NextStep(db: Database, node: Json, done: set<Step>, s: Step, avoid: set<string>, ids: set<string>,
                 after: set<string>)
    requires Accounted(db, node, done, avoid, ids) && s !in done
    ensures !LinearIn(db, node, {s}, ids) ==> !LinearIn(db, node, done + {s}, avoid)
    ensures Accounted(db, node, {s}, ids, after) ==> Accounted(db, node, done + {s}, avoid, after)
    ensures Complete(db, node, done, avoid, ids) && ids <= after && Complete(db, node, {s}, ids, after)
            ==> Complete(db, node, done + {s}, avoid, after)
  {
    if p :| Beneath(db, node, s, p).Some? && Beneath(db, node, s, p).value in ids {
      assert s in done + {s};
    }
  }

  // ---- From a child to the node ----

  /** An element or a field that is no pointer: its traversal is the node's from that step on. */
  lemma ChildPart(db: Database, node: Json, s: Step, c: Json, avoid: set<string>, ids: set<string>)
    requires forall p :: Beneath(db, node, s, p) == Met(db, c, p)
    ensures LinearIn(db, node, {s}, avoid) <==> Linear(db, c, avoid)
    ensures Accounted(db, c, Steps(c), avoid, ids) ==> Accounted(db, node, {s}, avoid, ids)
    ensures Complete(db, c, Steps(c), avoid, ids) ==> Complete(db, node, {s}, avoid, ids)
  {
    AllSteps(db, c, avoid);
    forall id ensures MetIn(db, node, {s}, id) <==> MetIn(db, c, Steps(c), id) {
      AllMet(db, c, id);
      if p :| Met(db, c, p) == Some(id) {
        assert Beneath(db, node, s, p) == Some(id) && s in {s};
      }
    }
  }

  /** A pointer: its own id, and then the traversal of what it points to. */
  lemma PointerLinear(db: Database, node: Json, k: string, t: Target, avoid: set<string>)
    requires node.Obj? && k in node.fields && PointerOf(node.fields[k]) == Some(t)
    ensures LinearIn(db, node, {Field(k)}, avoid)
            <==> Id(t) !in avoid && (t in db ==> Linear(db, db[t], avoid + {Id(t)}))
  {
    var s := Field(k);
    assert forall p :: Beneath(db, node, s, p)
                       == if p == [] then Some(Id(t)) else if t in db then Met(db, db[t], p) else None;
    assert Beneath(db, node, s, []) == Some(Id(t)) && s in {s};
  }

  lemma PointerMeets(db: Database, node: Json, k: string, t: Target, id: string)
    requires node.Obj? && k in node.fields && PointerOf(node.fields[k]) == Some(t)
    ensures MetIn(db, node, {Field(k)}, id) <==> id == Id(t) || (t in db && MetIn(db, db[t], Steps(db[t]), id))
  {
    var s := Field(k);
    assert Beneath(db, node, s, []) == Some(Id(t)) && s in {s};
    if p :| Beneath(db, node, s, p) == Some(id) {
      assert MetAt(db, node.fields[k], p) == Some(id);
      if p != [] {
        assert Met(db, db[t], p) == Some(id);
        AllMet(db, db[t], id);
      }
    }
    if t in db && Meets(db, db[t], id) {
      var p :| Met(db, db[t], p) == Some(id);
      assert Beneath(db, node, s, p) == Some(id);
    }
    if t in db {
      AllMet(db, db[t], id);
    }
  }
}
