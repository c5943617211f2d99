// What a stored message leaves in the tables, row by row (backend/internal/store/store.go and
// backend/internal/mqtt/handler.go), read off the message alone.

module StoredMessages {
  import opened Flatten
  import opened FlattenResults
  import opened Handler
  import opened Options
  import opened Sequences
  import opened Tables

  /** A committed InsertMessage keeps all readings and payloads and appends its own: the rows as they
      were given, under the id of the new payload. */
  lemma InsertMessageAppends(t: Tables, device: string, broker: string, payload: string, rows: seq<Reading>, now: int)
    ensures var t' := InsertMessageTx(t, device, broker, payload, rows, now);
            && |t'.readings| == |t.readings| + |rows| && t'.readings[..|t.readings|] == t.readings
            && (forall i :: 0 <= i < |rows| ==>
                  t'.readings[|t.readings| + i] ==
                  Reading(rows[i].ts, rows[i].device, rows[i].field, rows[i].value, t.nextPayloadId))
            && t'.payloads == t.payloads + [Payload(t.nextPayloadId, device, payload, now)]
            && t'.nextPayloadId == t.nextPayloadId + 1
            && t'.renames == t.renames && t'.groups == t.groups && t'.nextGroupId == t.nextGroupId
  {
  }

  /** A new device is added with the broker it came from; of a known one only the time it was last seen
      changes, and nothing of any other. */
  lemma InsertMessageSeesDevice(t: Tables, device: string, broker: string, payload: string, rows: seq<Reading>, now: int)
    ensures var t' := InsertMessageTx(t, device, broker, payload, rows, now);
            if forall d :: d in t.devices ==> d.id != device
            then t'.devices ==
                 t.devices + [Device(device, "", "unknown", if broker == "" then "default" else broker, now, now, None)]
            else |t'.devices| == |t.devices| &&
                 forall i :: 0 <= i < |t.devices| ==>
                   t'.devices[i] == if t.devices[i].id == device then t.devices[i].(lastSeen := now) else t.devices[i]
  {
  }

  /** The readings are exactly the numbers in the payload: one for every name that some number has,
      with such a number, all of one device, time and payload. */
  ghost predicate Reports(v: Json, device: string, at: int, payloadId: int, readings: seq<Reading>) {
    && (forall i :: 0 <= i < |readings| ==> readings[i].ts == at && readings[i].device == device && readings[i].payloadId == payloadId)
    && (forall i :: 0 <= i < |readings| ==> IsNumberOf(v, readings[i].field, readings[i].value))
    && (forall i, j :: 0 <= i < j < |readings| ==> readings[i].field != readings[j].field)
    && (forall kp, x :: Stores(v, kp, x) ==> HasField(readings, Name(kp)))
  }

  ghost predicate IsNumberOf(v: Json, name: string, x: real) {
    exists kp :: Name(kp) == name && Stores(v, kp, x)
  }

  predicate HasField(readings: seq<Reading>, name: string) {
    exists i :: 0 <= i < |readings| && readings[i].field == name
  }

  lemma ExtractedReports(fields: map<string, Json>, flat: Flat, device: string, at: int, rows: seq<Reading>)
    requires Yields(Obj(fields), flat) && RowsFor(flat, device, at, rows)
    ensures Reports(Obj(fields), device, at, 0, rows)
  {
    FlattenStoresLeaves(fields, flat);
    forall i | 0 <= i < |rows|
      ensures IsNumberOf(Obj(fields), rows[i].field, rows[i].value)
    {
      assert rows[i].field in flat;
    }
    forall i, j | 0 <= i < j < |rows|
      ensures rows[i].field != rows[j].field
    {
      assert FieldOf(rows[i]) != FieldOf(rows[j]);
    }
    forall kp, x | Stores(Obj(fields), kp, x)
      ensures HasField(rows, Name(kp))
    {
      assert Name(kp) in flat;
    }
  }

  lemma StampedReports(v: Json, device: string, at: int, id: int, rows: seq<Reading>, added: seq<Reading>)
    requires Reports(v, device, at, 0, rows) && |added| == |rows|
    requires forall i :: 0 <= i < |rows| ==> added[i] == Reading(rows[i].ts, rows[i].device, rows[i].field, rows[i].value, id)
    ensures Reports(v, device, at, id, added)
  {
    forall kp, x | Stores(v, kp, x)
      ensures HasField(added, Name(kp))
    {
      var i :| 0 <= i < |rows| && rows[i].field == Name(kp);
      assert added[i].field == Name(kp);
    }
  }

  /** The readings a stored message adds are exactly the numbers in its payload. */
  lemma StoredReadings(before: Tables, device: string, broker: string, raw: string, fields: map<string, Json>,
                       readAt: int, storedAt: int, after: Tables)
    requires Stored(before, device, broker, raw, fields, readAt, storedAt, after)
    ensures |after.readings| >= |before.readings| && after.readings[..|before.readings|] == before.readings
    ensures Reports(Obj(fields), device, readAt, before.nextPayloadId, after.readings[|before.readings|..])
    ensures after.payloads == before.payloads + [Payload(before.nextPayloadId, device, raw, storedAt)]
  {
    var flat: Flat, rows: seq<Reading> :|
      Yields(Obj(fields), flat) && RowsFor(flat, device, readAt, rows) && RowsOf(device, rows) &&
      after == InsertMessageTx(before, device, broker, raw, rows, storedAt);
    ExtractedReports(fields, flat, device, readAt, rows);
    InsertMessageAppends(before, device, broker, raw, rows, storedAt);
    var added := AddedReadings(before, device, broker, raw, rows, storedAt);
    StampedReports(Obj(fields), device, readAt, before.nextPayloadId, rows, added);
  }

  /** The readings behind the old ones. */
  lemma AddedReadings(before: Tables, device: string, broker: string, raw: string, rows: seq<Reading>, storedAt: int)
    returns (added: seq<Reading>)
    ensures var after := InsertMessageTx(before, device, broker, raw, rows, storedAt);
            |after.readings| >= |before.readings| && after.readings[..|before.readings|] == before.readings &&
            added == after.readings[|before.readings|..]
    ensures |added| == |rows|
    ensures forall i :: 0 <= i < |rows| ==>
              added[i] == Reading(rows[i].ts, rows[i].device, rows[i].field, rows[i].value, before.nextPayloadId)
  {
    var n, after := |before.readings|, InsertMessageTx(before, device, broker, raw, rows, storedAt);
    InsertMessageAppends(before, device, broker, raw, rows, storedAt);
    added := after.readings[n..];
    assert forall i :: 0 <= i < |rows| ==> added[i] == after.readings[n + i];
  }

  /** The device a stored message came from is there, with the client's broker if it is new. */
  lemma StoredDevice(before: Tables, device: string, broker: string, raw: string, fields: map<string, Json>,
                     readAt: int, storedAt: int, after: Tables)
    requires Stored(before, device, broker, raw, fields, readAt, storedAt, after)
    ensures if forall d :: d in before.devices ==> d.id != device
            then after.devices ==
                 before.devices + [Device(device, "", "unknown", if broker == "" then "default" else broker, storedAt, storedAt, None)]
            else |after.devices| == |before.devices| &&
                 forall i :: 0 <= i < |before.devices| ==>
                   after.devices[i] ==
                   if before.devices[i].id == device then before.devices[i].(lastSeen := storedAt) else before.devices[i]
  {
    var flat: Flat, rows: seq<Reading> :|
      Yields(Obj(fields), flat) && RowsFor(flat, device, readAt, rows) && RowsOf(device, rows) &&
      after == InsertMessageTx(before, device, broker, raw, rows, storedAt);
    InsertMessageSeesDevice(before, device, broker, raw, rows, storedAt);
  }

  /** When names are apart, every number of the payload is stored under its own name. */
  lemma EveryNumberHasReading(v: Json, device: string, at: int, id: int, readings: seq<Reading>, kp: seq<string>, x: real)
    requires Reports(v, device, at, id, readings) && NamedApart(v) && Stores(v, kp, x)
    ensures Reading(at, device, Name(kp), x, id) in readings
  {
    var i :| 0 <= i < |readings| && readings[i].field == Name(kp);
    assert IsNumberOf(v, readings[i].field, readings[i].value);
    var other :| Name(other) == Name(kp) && Stores(v, other, readings[i].value);
    assert other == kp;
    StoresUnique(v, kp, x, readings[i].value);
    assert readings[i] in readings;
  }

  /** Handling a message fails exactly when there is something besides ID and time in it and a statement
      of the transaction fails; the third one runs only when the payload holds a number to store. */
  lemma FailsExactlyWhen(payload: Handler.Payload, failAt: nat)
    ensures Fails(payload, failAt) <==>
            && payload.Some? && (exists k :: k in payload.value && k != "ID" && k != "time")
            && (failAt < 3 || failAt == 4 || (failAt == 3 && exists kp, x :: Stores(Obj(payload.value), kp, x)))
  {
    if payload.Some? {
      var v := Obj(payload.value);
      forall kp
        ensures kp in LeafPaths(v, "") <==> exists x :: Stores(v, kp, x)
      {
        if kp != [] {
          LeafStores(v, "", kp);
        }
      }
      if kp, x :| Stores(v, kp, x) {
        assert kp in LeafPaths(v, "");
      }
      if LeafPaths(v, "") != {} {
        var kp :| kp in LeafPaths(v, "");
        assert exists x :: Stores(v, kp, x);
      }
    }
  }
}
