// The message handler of backend/internal/mqtt/handler.go: from a parsed payload to stored rows.

module Handler {
  import opened Options
  import opened Sequences
  import opened Flatten
  import opened Tables
  import opened Database

  /** What json.Unmarshal into a map leaves: nothing when it fails, an empty map for a JSON null. */
  type Payload = Option<map<string, Json>>

  predicate MetadataOnly(fields: map<string, Json>) {
    forall k :: k in fields ==> k == "ID" || k == "time"
  }

  method IsMetadataOnly(fields: map<string, Json>) returns (only: bool)
    ensures only <==> MetadataOnly(fields)
    ensures only <==> forall k :: k in fields ==> k == "ID" || k == "time"
  {
    if |fields| == 0 {
      return true;
    }
    var pending := fields.Keys;
    while pending != {}
      invariant pending <= fields.Keys
      invariant forall k :: k in fields && k !in pending ==> k == "ID" || k == "time"
      decreases |pending|
    {
      var k :| k in pending;
      if k != "ID" && k != "time" {
        return false;
      }
      pending := pending - {k};
    }
    return true;
  }

  function FieldOf(r: Reading): string { r.field }

  /** One row per flattened path, all of one device and one instant. */
  ghost predicate RowsFor(flat: Flat, device: string, now: int, rows: seq<Reading>) {
    && |rows| == |flat| && Distinct(FieldOf, rows)
    && (forall i :: 0 <= i < |rows| ==> rows[i].field in flat && rows[i] == Reading(now, device, rows[i].field, flat[rows[i].field], 0))
    && (forall p :: p in flat ==> exists i :: 0 <= i < |rows| && rows[i].field == p)
  }

  method ExtractReadings(device: string, fields: map<string, Json>, now: int) returns (rows: seq<Reading>, ghost flat: Flat)
    ensures Yields(Obj(fields), flat)
    ensures RowsFor(flat, device, now, rows) && RowsOf(device, rows)
  {
    var out := new FlatMap();
    FlattenJSON("", Obj(fields), out);
    flat := out.values;
    rows := [];
    var pending := out.values.Keys;
    while pending != {}
      invariant out.values == flat && pending <= flat.Keys
      invariant |rows| + |pending| == |flat.Keys|
      invariant Distinct(FieldOf, rows)
      invariant forall i :: 0 <= i < |rows| ==>
                  rows[i].field in flat && rows[i].field !in pending &&
                  rows[i] == Reading(now, device, rows[i].field, flat[rows[i].field], 0)
      invariant forall p :: p in flat && p !in pending ==> exists i :: 0 <= i < |rows| && rows[i].field == p
      decreases |pending|
    {
      var field :| field in pending;
      var row := Reading(now, device, field, out.values[field], 0);
      ghost var before := rows;
      rows := rows + [row];
      pending := pending - {field};
      forall p | p in flat && p !in pending
        ensures exists i :: 0 <= i < |rows| && rows[i].field == p
      {
        if p == field {
          assert rows[|before|].field == p;
        } else {
          var i :| 0 <= i < |before| && before[i].field == p;
          assert rows[i].field == p;
        }
      }
    }
  }

  /** When dotted paths are injective, extraction yields exactly one row per qualifying leaf. */
  lemma OneRowPerLeaf(fields: map<string, Json>, flat: Flat, device: string, now: int, rows: seq<Reading>)
    requires Injective(Obj(fields)) && Yields(Obj(fields), flat) && RowsFor(flat, device, now, rows)
    ensures |rows| == |LeafPaths(Obj(fields), "")|
    ensures forall kp :: LeafAt(Obj(fields), "", kp) ==>
              exists i :: 0 <= i < |rows| &&
                rows[i] == Reading(now, device, Dotted("", kp), ValueAt(Obj(fields), "", kp), 0) &&
                forall j :: 0 <= j < |rows| && rows[j].field == Dotted("", kp) ==> j == i
  {
    var v := Obj(fields);
    NoLeafLost(v, flat);
    forall kp | LeafAt(v, "", kp)
      ensures exists i :: 0 <= i < |rows| &&
                rows[i] == Reading(now, device, Dotted("", kp), ValueAt(v, "", kp), 0) &&
                forall j :: 0 <= j < |rows| && rows[j].field == Dotted("", kp) ==> j == i
    {
      var i :| 0 <= i < |rows| && rows[i].field == Dotted("", kp);
      assert forall j :: 0 <= j < |rows| && rows[j].field == Dotted("", kp) ==> j == i by {
        forall j | 0 <= j < |rows| && rows[j].field == Dotted("", kp)
          ensures j == i
        {
          assert FieldOf(rows[j]) == FieldOf(rows[i]);
        }
      }
    }
  }

  /** No path comes out exactly when no leaf qualifies. */
  lemma NoRowsWithoutLeaves(fields: map<string, Json>, flat: Flat)
    requires Yields(Obj(fields), flat)
    ensures |flat| == 0 <==> LeafPaths(Obj(fields), "") == {}
  {
    PathsAreImage(Obj(fields), flat);
    if kp :| kp in LeafPaths(Obj(fields), "") {
      assert Dotted("", kp) in flat.Keys;
    }
    if p :| p in flat.Keys {
      assert exists kp :: kp in LeafPaths(Obj(fields), "") && Dotted("", kp) == p;
    }
  }

  /** The rows a stored message adds: those of some flattening of its payload. */
  ghost predicate Stored(before: Tables, device: string, broker: string, raw: string, fields: map<string, Json>,
                         readAt: int, storedAt: int, after: Tables)
  {
    exists flat, rows :: Yields(Obj(fields), flat) && RowsFor(flat, device, readAt, rows) && RowsOf(device, rows) &&
                         after == InsertMessageTx(before, device, broker, raw, rows, storedAt)
  }

  /** Handling ends in an error: there is something to store, and a statement of the transaction fails.
      Statement 3 copies the rows and is skipped when no leaf qualifies. */
  predicate Fails(payload: Payload, failAt: nat) {
    && payload.Some? && !MetadataOnly(payload.value)
    && (failAt < 3 || failAt == 4 || (failAt == 3 && LeafPaths(Obj(payload.value), "") != {}))
  }

  /** The extracted rows tell whether statement 3 runs. */
  lemma RowsDecideFailure(fields: map<string, Json>, flat: Flat, rows: int, failAt: nat)
    requires Yields(Obj(fields), flat) && rows == |flat| && !MetadataOnly(fields)
    ensures Fails(Some(fields), failAt) <==> !(failAt > 4 || (failAt == 3 && rows == 0))
  {
    NoRowsWithoutLeaves(fields, flat);
  }

  class MessageHandler {
    const brokerName: string
    const store: Database

    constructor (brokerName: string, store: Database)
      ensures this.brokerName == brokerName && this.store == store
    {
      this.brokerName, this.store := brokerName, store;
    }

    /** Unparseable and metadata-only payloads are dropped without an error. `failAt` and
        `idDrawn` decide the fate of the transaction. */
    method HandleMessage(device: string, raw: string, payload: Payload, readAt: int, storedAt: int, failAt: nat, idDrawn: bool) returns (ok: bool)
      modifies store
      ensures payload.None? || MetadataOnly(payload.value) ==> ok && store.tables == old(store.tables)
      ensures payload.Some? && !MetadataOnly(payload.value) && ok ==>
                Stored(old(store.tables), device, brokerName, raw, payload.value, readAt, storedAt, store.tables)
      ensures !ok ==> store.tables == RolledBackTx(old(store.tables), IdsLost(failAt, idDrawn), 0)
      ensures ok <==> !Fails(payload, failAt)
      ensures Consistent(old(store.tables)) ==> Consistent(store.tables)
    {
      if payload.None? {
        return true;
      }
      var only := IsMetadataOnly(payload.value);
      if only {
        return true;
      }
      var rows, flat := ExtractReadings(device, payload.value, readAt);
      var batch := new Reading[|rows|](i requires 0 <= i < |rows| => rows[i]);
      assert batch[..] == rows;
      RowsDecideFailure(payload.value, flat, |rows|, failAt);
      var r := store.InsertMessage(device, brokerName, raw, batch, storedAt, failAt, idDrawn);
      return r.Ok?;
    }
  }
}
