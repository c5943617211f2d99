// The transactions of store.go and store_adapter.go as the code runs them: statement by statement,
// each of which may fail, with a deferred rollback. `failAt` is the input that says which statement
// fails, counting Begin as 0; a number past the last statement means that none does.

module Database {
  import opened Options
  import opened Sequences
  import opened Tables
  import opened Consistency

  /** How many payload ids a failing InsertMessage uses up. */
  function IdsLost(failAt: nat, idDrawn: bool): nat {
    if failAt > 2 || (failAt == 2 && idDrawn) then 1 else 0
  }

  class Database {
    var tables: Tables

    constructor ()
      ensures tables == EMPTY
    {
      tables := EMPTY;
    }

    /** Undoes every row change. Ids drawn from a sequence stay drawn. */
    method Rollback(saved: Tables)
      modifies this
      ensures tables == saved.(nextPayloadId := old(tables).nextPayloadId, nextGroupId := old(tables).nextGroupId)
    {
      tables := saved.(nextPayloadId := tables.nextPayloadId, nextGroupId := tables.nextGroupId);
    }

    /** Writes the payload's id into every row, in place. */
    method StampRows(rows: array<Reading>, rawId: int)
      modifies rows
      ensures rows[..] == Map(Stamp(rawId), old(rows[..]))
    {
      for i := 0 to rows.Length
        invariant forall k :: 0 <= k < i ==> rows[k] == Stamp(rawId)(old(rows[k]))
        invariant forall k :: i <= k < rows.Length ==> rows[k] == old(rows[k])
      {
        rows[i] := rows[i].(payloadId := rawId);
      }
    }

    /** store.go's InsertMessage. Statements: 1 device, 2 payload, 3 readings (if any), 4 commit.
        `idDrawn` says whether a failing payload insert had drawn its id before it failed. */
    method InsertMessage(device: string, brokerName: string, payload: string, rows: array<Reading>, now: int, failAt: nat, idDrawn: bool)
      returns (r: Result<int>)
      modifies this, rows
      ensures r.Ok? <==> failAt > 4 || (failAt == 3 && rows.Length == 0)
      ensures r.Ok? ==> r.value == old(tables).nextPayloadId
      ensures r.Ok? ==> tables == InsertMessageTx(old(tables), device, brokerName, payload, old(rows[..]), now)
      ensures r.Err? ==> tables == RolledBackTx(old(tables), IdsLost(failAt, idDrawn), 0)
      ensures r.Err? ==>
                tables == old(tables).(nextPayloadId := old(tables).nextPayloadId + if failAt > 2 || (failAt == 2 && idDrawn) then 1 else 0)
      ensures rows[..] == if failAt > 2 then Map(Stamp(old(tables).nextPayloadId), old(rows[..])) else old(rows[..])
      ensures old(Consistent(tables)) && old(RowsOf(device, rows[..])) ==> Consistent(tables)
    {
      var broker := if brokerName == "" then "default" else brokerName;
      var saved := tables;
      if failAt == 0 {
        return Err;
      }
      if failAt == 1 {
        Rollback(saved);
        return Err;
      }
      tables := EnsureDevice(tables, device, broker, now);
      if failAt == 2 {
        if idDrawn {
          tables := tables.(nextPayloadId := tables.nextPayloadId + 1);
        }
        Rollback(saved);
        return Err;
      }
      var rawId := tables.nextPayloadId;
      tables := InsertPayload(tables, device, payload, now);
      if rows.Length > 0 {
        StampRows(rows, rawId);
        if failAt == 3 {
          Rollback(saved);
          return Err;
        }
        tables := CopyReadings(tables, rows[..]);
      }
      assert rows.Length == 0 ==> rows[..] == Map(Stamp(rawId), old(rows[..]));
      if failAt == 4 {
        Rollback(saved);
        return Err;
      }
      assert tables.readings == saved.readings + rows[..];
      if Consistent(saved) && RowsOf(device, old(rows[..])) {
        InsertMessageConsistent(saved, device, brokerName, payload, old(rows[..]), now);
      }
      return Ok(rawId);
    }

    /** store_adapter.go's DeleteDevice. Statements 1 to 4 delete rows, 5 commits. */
    method DeleteDevice(device: string, failAt: nat) returns (r: Result<()>)
      modifies this
      ensures r.Ok? <==> failAt > 5
      ensures tables == if r.Ok? then DeleteDeviceTx(old(tables), device) else old(tables)
      ensures Consistent(old(tables)) ==> Consistent(tables)
    {
      var saved := tables;
      if failAt == 0 {
        return Err;
      }
      if failAt == 1 {
        Rollback(saved);
        return Err;
      }
      tables := tables.(payloads := Filter(PayloadNotOf(device), tables.payloads));
      if failAt == 2 {
        Rollback(saved);
        return Err;
      }
      tables := tables.(readings := Filter(ReadingNotOf(device), tables.readings));
      if failAt == 3 {
        Rollback(saved);
        return Err;
      }
      tables := tables.(renames := Filter(RenameNotOf(device), tables.renames));
      if failAt == 4 {
        Rollback(saved);
        return Err;
      }
      tables := tables.(devices := Filter(OtherDevice(device), tables.devices));
      if failAt == 5 {
        Rollback(saved);
        return Err;
      }
      if Consistent(saved) {
        DeleteDeviceConsistent(saved, device);
      }
      return Ok(());
    }

    /** store_adapter.go's DeleteDeviceField. Statements 1 and 2 delete rows, 3 commits. */
    method DeleteDeviceField(device: string, field: string, failAt: nat) returns (r: Result<()>)
      modifies this
      ensures r.Ok? <==> failAt > 3
      ensures tables == if r.Ok? then DeleteDeviceFieldTx(old(tables), device, field) else old(tables)
      ensures Consistent(old(tables)) ==> Consistent(tables)
    {
      var saved := tables;
      if failAt == 0 {
        return Err;
      }
      if failAt == 1 {
        Rollback(saved);
        return Err;
      }
      tables := tables.(readings := Filter(ReadingNotIn(device, field), tables.readings));
      if failAt == 2 {
        Rollback(saved);
        return Err;
      }
      tables := tables.(renames := Filter(RenameNotFor(device, field), tables.renames));
      if failAt == 3 {
        Rollback(saved);
        return Err;
      }
      if Consistent(saved) {
        ApplyConsistent(saved, Op.DeleteDeviceField(device, field));
      }
      return Ok(());
    }

    /** store_adapter.go's ReorderDeviceGroups: one UPDATE per id, then the commit. */
    method ReorderDeviceGroups(order: seq<int>, failAt: nat) returns (r: Result<()>)
      modifies this
      ensures r.Ok? <==> failAt > |order| + 1
      ensures tables == if r.Ok? then Reordered(old(tables), order) else old(tables)
      ensures Consistent(old(tables)) ==> Consistent(tables)
    {
      var saved := tables;
      if failAt == 0 {
        return Err;
      }
      for i := 0 to |order|
        invariant failAt > i
        invariant tables == saved.(groups := tables.groups)
        invariant PlaceAll(tables.groups, order[i..], i) == PlaceAll(saved.groups, order, 0)
      {
        if failAt == i + 1 {
          Rollback(saved);
          return Err;
        }
        tables := tables.(groups := Map(Place(order[i], i), tables.groups));
        assert order[i..][1..] == order[i + 1..];
      }
      if failAt == |order| + 1 {
        Rollback(saved);
        return Err;
      }
      if Consistent(saved) {
        PlaceAllConsistent(saved, order, 0);
      }
      return Ok(());
    }
  }
}
