// flattenJSON of backend/internal/mqtt/handler.go. Go iterates a map in an arbitrary order and writes
// into one shared output map, so flattening is a relation: every order of every object counts.

module Flatten {
  import opened Text

  /** A parsed JSON value; an object is a Go map. */
  datatype Json =
    | Null
    | Bool(b: bool)
    | Num(v: real)
    | Str(s: string)
    | Arr(items: seq<Json>)
    | Obj(fields: map<string, Json>)

  const SKIP_KEYS: set<string> := {"src", "dst", "method", "id", "ts", "time"}

  type Flat = map<string, real>

  function Extend(prefix: string, k: string): string {
    if prefix != "" then prefix + "." + k else k
  }

  predicate IsValue(v: Json) {
    v.Num? || v.Bool?
  }

  function ToReal(v: Json): real
    requires IsValue(v)
  {
    match v
    case Num(x) => x
    case Bool(b) => if b then 1.0 else 0.0
  }

  // Flattening in some order ---------------------------------------------------------------------

  /** `ks` lists every key of the object once. */
  ghost predicate Ordering(fields: map<string, Json>, ks: seq<string>) {
    && (forall k :: k in ks <==> k in fields)
    && (forall i, j :: 0 <= i < j < |ks| ==> ks[i] != ks[j])
  }

  /** Flattening `v` can turn the output `out` into `out'`. */
  ghost predicate Flattens(prefix: string, parent: string, v: Json, out: Flat, out': Flat)
    decreases v, 1, 0
  {
    match v
    case Obj(fields) => exists ks :: Ordering(fields, ks) && InOrder(prefix, v, ks, out, out')
    case _ => out' == if IsValue(v) && parent !in SKIP_KEYS then out[prefix := ToReal(v)] else out
  }

  /** Visiting the keys `ks` one after the other can turn `out` into `out'`. */
  ghost predicate InOrder(prefix: string, v: Json, ks: seq<string>, out: Flat, out': Flat)
    requires v.Obj? && forall k :: k in ks ==> k in v.fields
    decreases v, 0, |ks|
  {
    if ks == [] then out' == out
    else
      var k := ks[|ks| - 1];
      exists mid :: InOrder(prefix, v, ks[..|ks| - 1], out, mid) &&
                    Flattens(Extend(prefix, k), k, v.fields[k], mid, out')
  }

  /** Visiting one more key. */
  lemma VisitOneMore(prefix: string, v: Json, ks: seq<string>, k: string, out: Flat, mid: Flat, out': Flat)
    requires v.Obj? && k in v.fields && forall j :: j in ks ==> j in v.fields
    requires InOrder(prefix, v, ks, out, mid) && Flattens(Extend(prefix, k), k, v.fields[k], mid, out')
    ensures InOrder(prefix, v, ks + [k], out, out')
  {
    var all := ks + [k];
    assert all[..|all| - 1] == ks;
    assert InOrder(prefix, v, all[..|all| - 1], out, mid);
    assert all[|all| - 1] == k;
    assert Flattens(Extend(prefix, all[|all| - 1]), all[|all| - 1], v.fields[all[|all| - 1]], mid, out');
  }

  /** A possible result of the top-level call on an empty output. */
  ghost predicate Yields(v: Json, flat: Flat) {
    Flattens("", "", v, map[], flat)
  }

  /** The map the recursion writes into. */
  class FlatMap {
    var values: Flat

    constructor ()
      ensures values == map[]
    {
      values := map[];
    }
  }

  /** `ks` lists the keys that are no longer pending, each once. */
  ghost predicate Visited(fields: map<string, Json>, pending: set<string>, ks: seq<string>) {
    && pending <= fields.Keys
    && (forall k :: k in ks <==> k in fields && k !in pending)
    && (forall i, j :: 0 <= i < j < |ks| ==> ks[i] != ks[j])
  }

  lemma VisitedMore(fields: map<string, Json>, pending: set<string>, ks: seq<string>, k: string)
    requires Visited(fields, pending, ks) && k in pending
    ensures Visited(fields, pending - {k}, ks + [k])
  {
  }

  lemma AllVisited(prefix: string, parent: string, v: Json, ks: seq<string>, out: Flat, out': Flat)
    requires v.Obj? && Visited(v.fields, {}, ks) && InOrder(prefix, v, ks, out, out')
    ensures Flattens(prefix, parent, v, out, out')
  {
    assert Ordering(v.fields, ks);
  }

  method FlattenJSON(prefix: string, v: Json, out: FlatMap)
    modifies out
    ensures Flattens(prefix, "", v, old(out.values), out.values)
  {
    FlattenJSONWithParent(prefix, "", v, out);
  }

  method FlattenJSONWithParent(prefix: string, parentKey: string, v: Json, out: FlatMap)
    modifies out
    ensures Flattens(prefix, parentKey, v, old(out.values), out.values)
    decreases v
  {
    match v
    case Obj(fields) =>
      var pending := fields.Keys;
      ghost var ks: seq<string> := [];
      while pending != {}
        invariant Visited(fields, pending, ks)
        invariant InOrder(prefix, v, ks, old(out.values), out.values)
        decreases |pending|
      {
        var k :| k in pending;
        var newPrefix := if prefix != "" then prefix + "." + k else k;
        ghost var mid := out.values;
        FlattenJSONWithParent(newPrefix, k, fields[k], out);
        VisitOneMore(prefix, v, ks, k, old(out.values), mid, out.values);
        VisitedMore(fields, pending, ks, k);
        ks := ks + [k];
        pending := pending - {k};
      }
      AllVisited(prefix, parentKey, v, ks, old(out.values), out.values);
    case Num(x) =>
      if parentKey !in SKIP_KEYS {
        out.values := out.values[prefix := x];
      }
    case Bool(b) =>
      if parentKey !in SKIP_KEYS {
        out.values := out.values[prefix := if b then 1.0 else 0.0];
      }
    case Null =>
    case Str(_) =>
    case Arr(_) =>
  }

  // Leaves ---------------------------------------------------------------------------------------

  /** Following the keys `kp` from `v` ends at a number or boolean whose own key is not skipped. */
  predicate LeafAt(v: Json, parent: string, kp: seq<string>)
    decreases |kp|
  {
    if kp == [] then IsValue(v) && parent !in SKIP_KEYS
    else v.Obj? && kp[0] in v.fields && LeafAt(v.fields[kp[0]], kp[0], kp[1..])
  }

  function ValueAt(v: Json, parent: string, kp: seq<string>): real
    requires LeafAt(v, parent, kp)
    decreases |kp|
  {
    if kp == [] then ToReal(v) else ValueAt(v.fields[kp[0]], kp[0], kp[1..])
  }

  /** The dotted path the recursion builds for a key path. */
  function Dotted(prefix: string, kp: seq<string>): string
    decreases |kp|
  {
    if kp == [] then prefix else Dotted(Extend(prefix, kp[0]), kp[1..])
  }

  /** Some qualifying leaf has the dotted path `p` and the value `x`. */
  ghost predicate Leaf(prefix: string, parent: string, v: Json, p: string, x: real) {
    exists kp :: LeafAt(v, parent, kp) && Dotted(prefix, kp) == p && ValueAt(v, parent, kp) == x
  }

  /** Some qualifying leaf below one of the keys `ks` has that path and value. */
  ghost predicate LeafBelow(prefix: string, v: Json, ks: seq<string>, p: string, x: real)
    requires v.Obj? && forall k :: k in ks ==> k in v.fields
  {
    exists k :: k in ks && Leaf(Extend(prefix, k), k, v.fields[k], p, x)
  }

  /** Leaves of an object are the leaves below its keys. */
  lemma LeafOfObject(prefix: string, parent: string, v: Json, ks: seq<string>, p: string, x: real)
    requires v.Obj? && forall k :: k in ks <==> k in v.fields
    ensures Leaf(prefix, parent, v, p, x) <==> LeafBelow(prefix, v, ks, p, x)
  {
    if Leaf(prefix, parent, v, p, x) {
      var kp :| LeafAt(v, parent, kp) && Dotted(prefix, kp) == p && ValueAt(v, parent, kp) == x;
      var k := kp[0];
      assert LeafAt(v.fields[k], k, kp[1..]) && Dotted(Extend(prefix, k), kp[1..]) == p;
      assert Leaf(Extend(prefix, k), k, v.fields[k], p, x);
    }
    if LeafBelow(prefix, v, ks, p, x) {
      var k :| k in ks && Leaf(Extend(prefix, k), k, v.fields[k], p, x);
      var rest :| LeafAt(v.fields[k], k, rest) && Dotted(Extend(prefix, k), rest) == p && ValueAt(v.fields[k], k, rest) == x;
      var kp := [k] + rest;
      assert kp[1..] == rest;
      assert LeafAt(v, parent, kp) && Dotted(prefix, kp) == p && ValueAt(v, parent, kp) == x;
    }
  }

  /** What flattening does to the output path `p`: a path with leaves gets the value of one of them,
      any other path stays as it was. */
  ghost predicate Outcome(prefix: string, parent: string, v: Json, p: string, out: Flat, out': Flat) {
    if exists x :: Leaf(prefix, parent, v, p, x)
    then p in out' && Leaf(prefix, parent, v, p, out'[p])
    else Unchanged(p, out, out')
  }

  ghost predicate OutcomeBelow(prefix: string, v: Json, ks: seq<string>, p: string, out: Flat, out': Flat)
    requires v.Obj? && forall k :: k in ks ==> k in v.fields
  {
    if exists x :: LeafBelow(prefix, v, ks, p, x)
    then p in out' && LeafBelow(prefix, v, ks, p, out'[p])
    else Unchanged(p, out, out')
  }

  ghost predicate Unchanged(p: string, out: Flat, out': Flat) {
    (p in out <==> p in out') && (p in out ==> out'[p] == out[p])
  }

  lemma {:induction false} FlattensOutcome(prefix: string, parent: string, v: Json, p: string, out: Flat, out': Flat)
    requires Flattens(prefix, parent, v, out, out')
    ensures Outcome(prefix, parent, v, p, out, out')
    decreases v, 1, 0
  {
    if v.Obj? {
      var ks :| Ordering(v.fields, ks) && InOrder(prefix, v, ks, out, out');
      InOrderOutcome(prefix, v, ks, p, out, out');
      forall x ensures Leaf(prefix, parent, v, p, x) <==> LeafBelow(prefix, v, ks, p, x) {
        LeafOfObject(prefix, parent, v, ks, p, x);
      }
    } else {
      ScalarLeaf(prefix, parent, v, p);
    }
  }

  /** A value that is not an object is its own only leaf, if it is one at all. */
  lemma ScalarLeaf(prefix: string, parent: string, v: Json, p: string)
    requires !v.Obj?
    ensures forall x :: Leaf(prefix, parent, v, p, x) <==>
                        IsValue(v) && parent !in SKIP_KEYS && p == prefix && x == ToReal(v)
  {
    if IsValue(v) && parent !in SKIP_KEYS {
      assert LeafAt(v, parent, []) && Dotted(prefix, []) == prefix && ValueAt(v, parent, []) == ToReal(v);
    }
  }

  lemma {:induction false} InOrderOutcome(prefix: string, v: Json, ks: seq<string>, p: string, out: Flat, out': Flat)
    requires v.Obj? && forall k :: k in ks ==> k in v.fields
    requires InOrder(prefix, v, ks, out, out')
    ensures OutcomeBelow(prefix, v, ks, p, out, out')
    decreases v, 0, |ks|
  {
    if ks == [] {
      assert forall x :: !LeafBelow(prefix, v, ks, p, x);
    } else {
      var n := |ks| - 1;
      var mid := LastVisit(prefix, v, ks, out, out');
      InOrderOutcome(prefix, v, ks[..n], p, out, mid);
      FlattensOutcome(Extend(prefix, ks[n]), ks[n], v.fields[ks[n]], p, mid, out');
      OutcomeSnoc(prefix, v, ks, p, out, mid, out');
    }
  }

  /** The output before the last key was visited. */
  lemma LastVisit(prefix: string, v: Json, ks: seq<string>, out: Flat, out': Flat) returns (mid: Flat)
    requires v.Obj? && (forall k :: k in ks ==> k in v.fields) && ks != []
    requires InOrder(prefix, v, ks, out, out')
    ensures var n := |ks| - 1;
            InOrder(prefix, v, ks[..n], out, mid) && Flattens(Extend(prefix, ks[n]), ks[n], v.fields[ks[n]], mid, out')
  {
    var n := |ks| - 1;
    mid :| InOrder(prefix, v, ks[..n], out, mid) && Flattens(Extend(prefix, ks[n]), ks[n], v.fields[ks[n]], mid, out');
  }

  /** The outcome of all keys but the last, and then of the last. */
  lemma OutcomeSnoc(prefix: string, v: Json, ks: seq<string>, p: string, out: Flat, mid: Flat, out': Flat)
    requires v.Obj? && (forall k :: k in ks ==> k in v.fields) && ks != []
    requires OutcomeBelow(prefix, v, ks[..|ks| - 1], p, out, mid)
    requires Outcome(Extend(prefix, ks[|ks| - 1]), ks[|ks| - 1], v.fields[ks[|ks| - 1]], p, mid, out')
    ensures OutcomeBelow(prefix, v, ks, p, out, out')
  {
    var front, k := ks[..|ks| - 1], ks[|ks| - 1];
    assert ks == front + [k];
    forall x
      ensures LeafBelow(prefix, v, ks, p, x) <==>
              LeafBelow(prefix, v, front, p, x) || Leaf(Extend(prefix, k), k, v.fields[k], p, x)
    {
      LeafBelowSnoc(prefix, v, front, k, p, x);
    }
  }

  /** A leaf below one more key is below the others or below that one. */
  lemma LeafBelowSnoc(prefix: string, v: Json, ks: seq<string>, k: string, p: string, x: real)
    requires v.Obj? && k in v.fields && forall j :: j in ks ==> j in v.fields
    ensures LeafBelow(prefix, v, ks + [k], p, x) <==>
            LeafBelow(prefix, v, ks, p, x) || Leaf(Extend(prefix, k), k, v.fields[k], p, x)
  {
  }

  /** The main result for the top-level call: exactly the dotted paths of the qualifying leaves come
      out, each with the value of some leaf at that path. */
  lemma FlattenYieldsLeaves(v: Json, flat: Flat)
    requires Yields(v, flat)
    ensures forall p :: p in flat <==> exists x :: Leaf("", "", v, p, x)
    ensures forall p :: p in flat ==> Leaf("", "", v, p, flat[p])
  {
    forall p
      ensures p in flat <==> exists x :: Leaf("", "", v, p, x)
      ensures p in flat ==> Leaf("", "", v, p, flat[p])
    {
      FlattensOutcome("", "", v, p, map[], flat);
    }
  }

  // Order independence ---------------------------------------------------------------------------

  lemma {:induction false} SomeOrdering(keys: set<string>) returns (ks: seq<string>)
    ensures forall k :: k in ks <==> k in keys
    ensures forall i, j :: 0 <= i < j < |ks| ==> ks[i] != ks[j]
    decreases keys
  {
    if keys == {} {
      ks := [];
    } else {
      var k :| k in keys;
      var rest := SomeOrdering(keys - {k});
      ks := rest + [k];
    }
  }

  /** Every value can be flattened, in any order of its top-level keys. */
  lemma {:induction false} CanFlatten(prefix: string, parent: string, v: Json, out: Flat) returns (out': Flat)
    ensures Flattens(prefix, parent, v, out, out')
    decreases v, 1, 0
  {
    if v.Obj? {
      var ks := SomeOrdering(v.fields.Keys);
      out' := CanVisit(prefix, v, ks, out);
      assert Ordering(v.fields, ks);
    } else {
      out' := if IsValue(v) && parent !in SKIP_KEYS then out[prefix := ToReal(v)] else out;
    }
  }

  lemma {:induction false} CanVisit(prefix: string, v: Json, ks: seq<string>, out: Flat) returns (out': Flat)
    requires v.Obj? && forall k :: k in ks ==> k in v.fields
    ensures InOrder(prefix, v, ks, out, out')
    decreases v, 0, |ks|
  {
    if ks == [] {
      out' := out;
    } else {
      var n := |ks| - 1;
      var mid := CanVisit(prefix, v, ks[..n], out);
      out' := CanFlatten(Extend(prefix, ks[n]), ks[n], v.fields[ks[n]], mid);
    }
  }

  lemma LastKeyOrdering(fields: map<string, Json>, others: seq<string>, k: string)
    requires k in fields
    requires (forall j :: j in others <==> j in fields && j != k) && forall a, b :: 0 <= a < b < |others| ==> others[a] != others[b]
    ensures Ordering(fields, others + [k])
  {
  }

  /** An object is flattened when one key is visited after all the others. */
  lemma VisitedLast(prefix: string, parent: string, v: Json, others: seq<string>, k: string, out: Flat, mid: Flat, out': Flat)
    requires v.Obj? && k in v.fields
    requires (forall j :: j in others <==> j in v.fields && j != k) && forall a, b :: 0 <= a < b < |others| ==> others[a] != others[b]
    requires InOrder(prefix, v, others, out, mid) && Flattens(Extend(prefix, k), k, v.fields[k], mid, out')
    ensures Flattens(prefix, parent, v, out, out')
  {
    LastKeyOrdering(v.fields, others, k);
    VisitOneMore(prefix, v, others, k, out, mid, out');
  }

  /** Any leaf can be written last, so that its value is the one that stays. */
  lemma {:induction false} AnyLeafCanWin(prefix: string, parent: string, v: Json, kp: seq<string>, out: Flat) returns (out': Flat)
    requires LeafAt(v, parent, kp)
    ensures Flattens(prefix, parent, v, out, out')
    ensures Dotted(prefix, kp) in out' && out'[Dotted(prefix, kp)] == ValueAt(v, parent, kp)
    decreases |kp|
  {
    if kp == [] {
      out' := out[prefix := ToReal(v)];
    } else {
      var k := kp[0];
      var others := SomeOrdering(v.fields.Keys - {k});
      var mid := CanVisit(prefix, v, others, out);
      out' := AnyLeafCanWin(Extend(prefix, k), k, v.fields[k], kp[1..], mid);
      VisitedLast(prefix, parent, v, others, k, out, mid, out');
    }
  }

  /** No two leaves with the same dotted path differ in value. */
  ghost predicate PathsAgree(v: Json) {
    forall a, b :: LeafAt(v, "", a) && LeafAt(v, "", b) && Dotted("", a) == Dotted("", b) ==>
      ValueAt(v, "", a) == ValueAt(v, "", b)
  }

  /** The result is the same for every iteration order if and only if leaves that share a path agree. */
  lemma OrderIndependentExactlyWhenPathsAgree(v: Json)
    ensures (forall f, g :: Yields(v, f) && Yields(v, g) ==> f == g) <==> PathsAgree(v)
  {
    if PathsAgree(v) {
      forall f, g | Yields(v, f) && Yields(v, g)
        ensures f == g
      {
        SameFlat(v, f, g);
      }
    } else {
      var a, b :| LeafAt(v, "", a) && LeafAt(v, "", b) && Dotted("", a) == Dotted("", b) && ValueAt(v, "", a) != ValueAt(v, "", b);
      var f := AnyLeafCanWin("", "", v, a, map[]);
      var g := AnyLeafCanWin("", "", v, b, map[]);
      assert Yields(v, f) && Yields(v, g) && f[Dotted("", a)] != g[Dotted("", a)];
    }
  }

  lemma SameFlat(v: Json, f: Flat, g: Flat)
    requires PathsAgree(v) && Yields(v, f) && Yields(v, g)
    ensures f == g
  {
    FlattenYieldsLeaves(v, f);
    FlattenYieldsLeaves(v, g);
    forall p | p in f
      ensures p in g && f[p] == g[p]
    {
      assert Leaf("", "", v, p, f[p]) && Leaf("", "", v, p, g[p]);
    }
  }

  // When dotted paths are injective --------------------------------------------------------------

  /** Different leaves have different dotted paths. */
  ghost predicate Injective(v: Json) {
    forall a, b :: LeafAt(v, "", a) && LeafAt(v, "", b) && Dotted("", a) == Dotted("", b) ==> a == b
  }

  predicate PlainKey(k: string) {
    k != "" && '.' !in k
  }

  /** Every key, at every depth, is non-empty and dot-free. */
  predicate PlainKeys(v: Json) {
    v.Obj? ==> forall k :: k in v.fields ==> PlainKey(k) && PlainKeys(v.fields[k])
  }

  /** No object inside the object. */
  predicate DepthOne(v: Json) {
    v.Obj? ==> forall k :: k in v.fields ==> !v.fields[k].Obj?
  }

  lemma {:induction false} PlainPath(v: Json, parent: string, kp: seq<string>)
    requires PlainKeys(v) && LeafAt(v, parent, kp)
    ensures forall i :: 0 <= i < |kp| ==> PlainKey(kp[i])
    decreases |kp|
  {
    if kp == [] {
    } else {
      PlainPath(v.fields[kp[0]], kp[0], kp[1..]);
    }
  }

  /** Below a non-empty prefix the recursion joins with dots. */
  lemma {:induction false} DottedIsJoin(prefix: string, kp: seq<string>)
    requires prefix != "" && kp != []
    ensures Dotted(prefix, kp) == prefix + "." + Join(kp, '.')
    decreases |kp|
  {
    var next := Extend(prefix, kp[0]);
    if |kp| == 1 {
      assert Dotted(next, kp[1..]) == next;
    } else {
      DottedIsJoin(next, kp[1..]);
      assert prefix + "." + kp[0] + "." + Join(kp[1..], '.') == prefix + "." + (kp[0] + "." + Join(kp[1..], '.'));
    }
  }

  /** Splitting the dotted path of plain keys at its dots recovers the key path. */
  lemma SplitRecoversKeys(kp: seq<string>)
    requires kp != [] && forall i :: 0 <= i < |kp| ==> PlainKey(kp[i])
    ensures Split(Dotted("", kp), '.') == kp
  {
    assert Dotted("", kp) == Join(kp, '.') by {
      assert Dotted("", kp) == Dotted(kp[0], kp[1..]);
      if |kp| > 1 {
        DottedIsJoin(kp[0], kp[1..]);
      }
    }
    SplitJoin(kp, '.');
  }

  lemma PlainKeysInjective(v: Json)
    requires v.Obj? && PlainKeys(v)
    ensures Injective(v)
  {
    forall a, b | LeafAt(v, "", a) && LeafAt(v, "", b) && Dotted("", a) == Dotted("", b)
      ensures a == b
    {
      PlainPath(v, "", a);
      PlainPath(v, "", b);
      SplitRecoversKeys(a);
      SplitRecoversKeys(b);
    }
  }

  /** One level deep, any keys will do: the path is the key. */
  lemma DepthOneInjective(v: Json)
    requires v.Obj? && DepthOne(v)
    ensures Injective(v)
  {
  }

  /** Two levels are enough for a collision when a key holds a dot. */
  lemma DotsCollide()
    ensures var v := Obj(map["a.b" := Num(1.0), "a" := Obj(map["b" := Num(2.0)])]);
            !Injective(v) && !PathsAgree(v)
  {
    var v := Obj(map["a.b" := Num(1.0), "a" := Obj(map["b" := Num(2.0)])]);
    var a, b := ["a.b"], ["a", "b"];
    assert LeafAt(v, "", a) by { assert a[1..] == []; }
    assert b[1..] == ["b"] && b[1..][1..] == [];
    assert LeafAt(v.fields["a"], "a", ["b"]) by { assert ["b"][1..] == []; }
    assert LeafAt(v, "", b);
    assert Dotted("", a) == Dotted("a.b", []) == "a.b";
    assert Dotted("", b) == Dotted("a", ["b"]) == Dotted("a.b", []) == "a.b";
    assert ValueAt(v, "", a) == 1.0;
    assert ValueAt(v, "", b) == ValueAt(v.fields["a"], "a", ["b"]) == 2.0;
  }

  // Counting -------------------------------------------------------------------------------------

  /** The key paths of all qualifying leaves. */
  function LeafPaths(v: Json, parent: string): (paths: set<seq<string>>)
    ensures forall kp :: kp in paths <==> LeafAt(v, parent, kp)
  {
    match v
    case Obj(fields) =>
      var paths := set k, kp | k in fields && kp in LeafPaths(fields[k], k) :: [k] + kp;
      assert forall kp :: kp in paths <==> LeafAt(v, parent, kp) by {
        forall kp
          ensures kp in paths <==> LeafAt(v, parent, kp)
        {
          if LeafAt(v, parent, kp) {
            assert kp == [kp[0]] + kp[1..];
          }
          if kp in paths {
            var k, rest :| k in fields && rest in LeafPaths(fields[k], k) && kp == [k] + rest;
            assert kp[1..] == rest;
          }
        }
      }
      paths
    case _ => if IsValue(v) && parent !in SKIP_KEYS then {[]} else {}
  }

  ghost predicate IsImage(image: set<string>, s: set<seq<string>>) {
    forall p :: p in image <==> exists a :: a in s && Dotted("", a) == p
  }

  ghost predicate InjectiveOn(s: set<seq<string>>) {
    forall a, b :: a in s && b in s && Dotted("", a) == Dotted("", b) ==> a == b
  }

  /** Without a member whose path another one shares, the image is the same. */
  lemma TwinImage(image: set<string>, s: set<seq<string>>, a: seq<string>, b: seq<string>)
    requires IsImage(image, s) && a in s && b in s && a != b && Dotted("", a) == Dotted("", b)
    ensures IsImage(image, s - {a})
  {
    forall p
      ensures p in image <==> exists c :: c in s - {a} && Dotted("", c) == p
    {
      if p in image {
        var c :| c in s && Dotted("", c) == p;
        if c == a {
          assert b in s - {a} && Dotted("", b) == p;
        } else {
          assert c in s - {a};
        }
      }
    }
  }

  /** Without a member whose path no other one shares, the image loses that path. */
  lemma LoneImage(image: set<string>, s: set<seq<string>>, a: seq<string>)
    requires IsImage(image, s) && a in s
    requires forall b :: b in s && Dotted("", b) == Dotted("", a) ==> b == a
    ensures Dotted("", a) in image && IsImage(image - {Dotted("", a)}, s - {a})
  {
    forall p
      ensures p in image - {Dotted("", a)} <==> exists c :: c in s - {a} && Dotted("", c) == p
    {
      if p in image - {Dotted("", a)} {
        var c :| c in s && Dotted("", c) == p;
        assert c in s - {a};
      }
    }
  }

  /** The image under dotting is as large as the set exactly when dotting is injective on it. */
  lemma {:induction false} ImageSize(s: set<seq<string>>, image: set<string>)
    requires IsImage(image, s)
    ensures |image| <= |s|
    ensures |image| == |s| <==> InjectiveOn(s)
    decreases s
  {
    if s == {} {
      assert image == {};
    } else {
      var a :| a in s;
      if b :| b in s && b != a && Dotted("", b) == Dotted("", a) {
        TwinImage(image, s, a, b);
        ImageSize(s - {a}, image);
      } else {
        LoneImage(image, s, a);
        ImageSize(s - {a}, image - {Dotted("", a)});
      }
    }
  }

  /** The paths that come out are the image of the leaves under dotting. */
  lemma PathsAreImage(v: Json, flat: Flat)
    requires Yields(v, flat)
    ensures IsImage(flat.Keys, LeafPaths(v, ""))
  {
    FlattenYieldsLeaves(v, flat);
    forall p
      ensures p in flat.Keys <==> exists kp :: kp in LeafPaths(v, "") && Dotted("", kp) == p
    {
      if p in flat {
        assert Leaf("", "", v, p, flat[p]);
        var kp :| LeafAt(v, "", kp) && Dotted("", kp) == p;
        assert kp in LeafPaths(v, "");
      }
      if kp :| kp in LeafPaths(v, "") && Dotted("", kp) == p {
        assert Leaf("", "", v, p, ValueAt(v, "", kp));
      }
    }
  }

  lemma InjectiveOnLeaves(v: Json)
    ensures Injective(v) <==> InjectiveOn(LeafPaths(v, ""))
  {
  }

  lemma InjectiveKeepsValues(v: Json, flat: Flat, kp: seq<string>)
    requires Injective(v) && Yields(v, flat) && LeafAt(v, "", kp)
    ensures Dotted("", kp) in flat && flat[Dotted("", kp)] == ValueAt(v, "", kp)
  {
    FlattenYieldsLeaves(v, flat);
    assert Leaf("", "", v, Dotted("", kp), ValueAt(v, "", kp));
    assert Leaf("", "", v, Dotted("", kp), flat[Dotted("", kp)]);
  }

  /** As many paths come out as there are leaves exactly when dotted paths are injective, and then no
      leaf is lost: each leaf's path carries that leaf's value. */
  lemma NoLeafLost(v: Json, flat: Flat)
    requires Yields(v, flat)
    ensures |flat| <= |LeafPaths(v, "")|
    ensures |flat| == |LeafPaths(v, "")| <==> Injective(v)
    ensures Injective(v) ==>
              forall kp :: LeafAt(v, "", kp) ==> Dotted("", kp) in flat && flat[Dotted("", kp)] == ValueAt(v, "", kp)
  {
    PathsAreImage(v, flat);
    ImageSize(LeafPaths(v, ""), flat.Keys);
    InjectiveOnLeaves(v);
    assert |flat| == |flat.Keys|;
    if Injective(v) {
      forall kp | LeafAt(v, "", kp)
        ensures Dotted("", kp) in flat && flat[Dotted("", kp)] == ValueAt(v, "", kp)
      {
        InjectiveKeepsValues(v, flat, kp);
      }
    }
  }
}
