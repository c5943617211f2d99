// What flattenJSON of backend/internal/mqtt/handler.go stores, read off the payload alone: which JSON
// values count, under which names, and as which numbers.

module FlattenResults {
  import opened Flatten
  import opened Options
  import opened Text

  /** The JSON value a key path leads to. */
  function ValueAlong(v: Json, kp: seq<string>): Option<Json>
    decreases |kp|
  {
    if kp == [] then Some(v)
    else if v.Obj? && kp[0] in v.fields then ValueAlong(v.fields[kp[0]], kp[1..])
    else None
  }

  /** A non-empty key path to the number `x`, or to true or false for 1 or 0, whose last key is none of
      the six that are skipped. */
  predicate Stores(v: Json, kp: seq<string>, x: real) {
    && kp != [] && kp[|kp| - 1] !in {"src", "dst", "method", "id", "ts", "time"}
    && (ValueAlong(v, kp) == Some(Num(x)) || (ValueAlong(v, kp) == Some(Bool(true)) && x == 1.0)
        || (ValueAlong(v, kp) == Some(Bool(false)) && x == 0.0))
  }

  /** The keys with a dot between them; empty keys in front leave no trace. */
  function Name(kp: seq<string>): string {
    if kp != [] && kp[0] == "" then Name(kp[1..]) else Join(kp, '.')
  }

  lemma {:induction false} LeafStores(v: Json, parent: string, kp: seq<string>)
    requires kp != []
    ensures LeafAt(v, parent, kp) <==> exists x :: Stores(v, kp, x)
    ensures LeafAt(v, parent, kp) ==> Stores(v, kp, ValueAt(v, parent, kp))
    decreases |kp|
  {
    if v.Obj? && kp[0] in v.fields {
      var next := v.fields[kp[0]];
      assert ValueAlong(v, kp) == ValueAlong(next, kp[1..]);
      if |kp| == 1 {
        assert kp[1..] == [];
        assert ValueAlong(v, kp) == Some(next);
        assert LeafAt(v, parent, kp) <==> LeafAt(next, kp[0], []);
        if LeafAt(v, parent, kp) {
          assert ValueAt(v, parent, kp) == ToReal(next);
          assert Stores(v, kp, ToReal(next));
        }
      } else {
        LeafStores(next, kp[0], kp[1..]);
        assert kp[1..][|kp| - 2] == kp[|kp| - 1];
        forall x
          ensures Stores(v, kp, x) <==> Stores(next, kp[1..], x)
        {
        }
      }
    }
  }

  /** A path stores one number only. */
  lemma StoresUnique(v: Json, kp: seq<string>, x: real, y: real)
    requires Stores(v, kp, x) && Stores(v, kp, y)
    ensures x == y
  {
  }

  lemma {:induction false} DottedIsName(kp: seq<string>)
    ensures Dotted("", kp) == Name(kp)
  {
    if kp == [] {
    } else if kp[0] == "" {
      DottedIsName(kp[1..]);
    } else if |kp| == 1 {
      assert kp[1..] == [];
    } else {
      DottedIsJoin(kp[0], kp[1..]);
    }
  }

  /** For every order of every map: a name comes out exactly when some key path of that name stores a
      number, and it comes with the number of such a path. */
  lemma FlattenStoresLeaves(fields: map<string, Json>, flat: Flat)
    requires Yields(Obj(fields), flat)
    ensures forall p :: p in flat ==> exists kp :: Name(kp) == p && Stores(Obj(fields), kp, flat[p])
    ensures forall kp, x :: Stores(Obj(fields), kp, x) ==> Name(kp) in flat
  {
    var v := Obj(fields);
    FlattenYieldsLeaves(v, flat);
    forall p | p in flat
      ensures exists kp :: Name(kp) == p && Stores(v, kp, flat[p])
    {
      var kp :| LeafAt(v, "", kp) && Dotted("", kp) == p && ValueAt(v, "", kp) == flat[p];
      LeafStores(v, "", kp);
      DottedIsName(kp);
    }
    forall kp, x | Stores(v, kp, x)
      ensures Name(kp) in flat
    {
      LeafStores(v, "", kp);
      DottedIsName(kp);
      assert Leaf("", "", v, Name(kp), ValueAt(v, "", kp));
    }
  }

  /** Key paths that store numbers have names of their own. */
  ghost predicate NamedApart(v: Json) {
    forall a, b, x, y :: Stores(v, a, x) && Stores(v, b, y) && Name(a) == Name(b) ==> a == b
  }

  lemma NamedApartIsInjective(fields: map<string, Json>)
    ensures NamedApart(Obj(fields)) <==> Injective(Obj(fields))
  {
    var v := Obj(fields);
    forall kp
      ensures LeafAt(v, "", kp) <==> exists x :: Stores(v, kp, x)
      ensures Dotted("", kp) == Name(kp)
    {
      if kp != [] {
        LeafStores(v, "", kp);
      }
      DottedIsName(kp);
    }
  }

  /** When names are apart, every number is stored under its own name. */
  lemma EveryNumberIsStored(fields: map<string, Json>, flat: Flat, kp: seq<string>, x: real)
    requires Yields(Obj(fields), flat) && NamedApart(Obj(fields)) && Stores(Obj(fields), kp, x)
    ensures Name(kp) in flat && flat[Name(kp)] == x
  {
    FlattenStoresLeaves(fields, flat);
    var other :| Name(other) == Name(kp) && Stores(Obj(fields), other, flat[Name(kp)]);
    assert other == kp;
    StoresUnique(Obj(fields), kp, x, flat[Name(kp)]);
  }
}
