// Every transaction keeps the tables consistent, so every reachable database state is consistent.

module Consistency {
  import opened Options
  import opened Sequences
  import opened Tables

  // One step -------------------------------------------------------------------------------------

  lemma EnsureDeviceConsistent(t: Tables, device: string, broker: string, now: int)
    requires Consistent(t)
    ensures Consistent(EnsureDevice(t, device, broker, now))
    ensures HasDevice(EnsureDevice(t, device, broker, now), device)
    ensures forall id :: HasDevice(t, id) ==> HasDevice(EnsureDevice(t, device, broker, now), id)
  {
  }

  /** Updating device rows in place removes no device. */
  lemma MappedDevices(t: Tables, f: Device -> Device)
    requires forall d :: f(d).id == d.id
    ensures var t' := t.(devices := Map(f, t.devices));
            && (forall id :: HasDevice(t, id) <==> HasDevice(t', id))
            && (forall d' :: d' in t'.devices ==> exists d :: d in t.devices && d' == f(d))
  {
  }

  lemma MappedDevicesConsistent(t: Tables, f: Device -> Device)
    requires Consistent(t)
    requires forall d :: f(d).id == d.id
    requires forall d :: f(d).groupId.Some? ==> f(d).groupId == d.groupId || HasGroup(t, f(d).groupId.value)
    ensures Consistent(t.(devices := Map(f, t.devices)))
  {
  }

  lemma InsertPayloadConsistent(t: Tables, device: string, payload: string, now: int)
    requires Consistent(t) && HasDevice(t, device)
    ensures Consistent(InsertPayload(t, device, payload, now))
  {
  }

  /** Readings of one device may be added under the id of one of its payloads. */
  lemma CopyReadingsConsistent(t: Tables, device: string, rows: seq<Reading>, id: int)
    requires Consistent(t) && HasDevice(t, device) && 1 <= id < t.nextPayloadId
    requires forall r :: r in rows ==> r.device == device && r.payloadId == id
    requires forall p :: p in t.payloads && p.id == id ==> p.device == device
    ensures Consistent(CopyReadings(t, rows))
  {
  }

  lemma InsertMessageConsistent(t: Tables, device: string, broker: string, payload: string, rows: seq<Reading>, now: int)
    requires Consistent(t) && RowsOf(device, rows)
    ensures Consistent(InsertMessageTx(t, device, broker, payload, rows, now))
  {
    var named := if broker == "" then "default" else broker;
    var t1 := EnsureDevice(t, device, named, now);
    EnsureDeviceConsistent(t, device, named, now);
    InsertPayloadConsistent(t1, device, payload, now);
    var stamped := Map(Stamp(t.nextPayloadId), rows);
    forall r | r in stamped
      ensures r.device == device && r.payloadId == t.nextPayloadId
    {
      var i :| 0 <= i < |stamped| && stamped[i] == r;
      assert rows[i] in rows;
    }
    CopyReadingsConsistent(InsertPayload(t1, device, payload, now), device, stamped, t.nextPayloadId);
  }

  lemma DeleteDeviceConsistent(t: Tables, device: string)
    requires Consistent(t)
    ensures Consistent(DeleteDeviceTx(t, device))
  {
    var t' := DeleteDeviceTx(t, device);
    FilterMembers(PayloadNotOf(device), t.payloads);
    FilterMembers(ReadingNotOf(device), t.readings);
    FilterMembers(OtherDevice(device), t.devices);
    FilterDistinct(DeviceKey, OtherDevice(device), t.devices);
    FilterDistinct(PayloadKey, PayloadNotOf(device), t.payloads);
    FilterDistinct(RenameKey, RenameNotOf(device), t.renames);
    forall id | HasDevice(t, id) && id != device
      ensures HasDevice(t', id)
    {
      var d :| d in t.devices && d.id == id;
      assert d in t'.devices;
    }
  }

  lemma MappedRenamesConsistent(t: Tables, f: Rename -> Rename)
    requires Consistent(t)
    requires forall r :: RenameKey(f(r)) == RenameKey(r)
    ensures Consistent(t.(renames := Map(f, t.renames)))
  {
  }

  lemma UpsertRenameConsistent(t: Tables, device: string, rawField: string, displayName: Option<string>,
                               unit: Option<string>, chartGroup: Option<string>, subGroup: string)
    requires Consistent(t)
    ensures Consistent(UpsertRename(t, device, rawField, displayName, unit, chartGroup, subGroup))
  {
  }

  /** A new rename is stored exactly when a sub-group is given: without one the row violates NOT NULL.
      For a stored rename, creating and updating relabel its row alone and keep its configuration. */
  lemma RenameNeedsSubGroup(t: Tables, op: Op)
    requires (op.CreateRename? || op.UpdateRename?) && Distinct(RenameKey, t.renames)
    ensures op.CreateRename? && !HasRename(t, op.device, op.rawField) ==>
              (HasRename(Apply(t, op), op.device, op.rawField) <==> op.newSubGroup.Some?)
    ensures op.newSubGroup.None? ==> Apply(t, op) == t
    ensures op.newSubGroup.Some? && HasRename(t, op.device, op.rawField) ==>
              exists i :: 0 <= i < |t.renames| && t.renames[i].device == op.device && t.renames[i].rawField == op.rawField &&
                          Apply(t, op) == t.(renames := t.renames[i := t.renames[i].(
                            displayName := op.displayName, unit := op.unit, chartGroup := op.chartGroup, subGroup := op.newSubGroup.value)])
    ensures op.CreateRename? && op.newSubGroup.Some? && !HasRename(t, op.device, op.rawField) ==>
              Apply(t, op) == t.(renames := t.renames + [Rename(
                op.device, op.rawField, op.displayName, op.unit, op.chartGroup, op.newSubGroup.value, None, None, None, None)])
  {
    if op.newSubGroup.Some? {
      var renames := Apply(t, op).renames;
      if HasRename(t, op.device, op.rawField) {
        var i :| 0 <= i < |t.renames| && t.renames[i].device == op.device && t.renames[i].rawField == op.rawField;
        assert forall j :: 0 <= j < |t.renames| && j != i ==> RenameKey(t.renames[j]) != RenameKey(t.renames[i]);
        assert renames == t.renames[i := t.renames[i].(
          displayName := op.displayName, unit := op.unit, chartGroup := op.chartGroup, subGroup := op.newSubGroup.value)];
      } else if op.CreateRename? {
        assert renames[|t.renames|] in renames;
      }
    }
  }

  lemma CreateDeviceGroupConsistent(t: Tables, name: string, now: int)
    requires Consistent(t)
    ensures Consistent(CreateDeviceGroupTx(t, name, now))
  {
  }

  lemma MappedGroups(t: Tables, f: Group -> Group)
    requires forall g :: f(g).id == g.id
    ensures var t' := t.(groups := Map(f, t.groups));
            && (forall id :: HasGroup(t, id) ==> HasGroup(t', id))
            && (forall g' :: g' in t'.groups ==> exists g :: g in t.groups && g' == f(g))
  {
  }

  lemma RetitleConsistent(t: Tables, id: int, name: string)
    requires Consistent(t) && !NameTaken(t, name, id)
    ensures Consistent(t.(groups := Map(Retitle(id, name), t.groups)))
  {
  }

  lemma DeleteDeviceGroupConsistent(t: Tables, id: int)
    requires Consistent(t)
    ensures Consistent(DeleteDeviceGroupTx(t, id))
  {
    var t' := DeleteDeviceGroupTx(t, id);
    MappedDevices(t, Ungroup(id));
    MapDistinct(DeviceKey, Ungroup(id), t.devices);
    FilterMembers(OtherGroup(id), t.groups);
    FilterDistinct(GroupKey, OtherGroup(id), t.groups);
    FilterDistinct(GroupName, OtherGroup(id), t.groups);
    forall g | HasGroup(t, g) && g != id
      ensures HasGroup(t', g)
    {
      var row :| row in t.groups && row.id == g;
      assert row in t'.groups;
    }
  }

  lemma {:induction false} PlaceAllConsistent(t: Tables, order: seq<int>, from: int)
    requires Consistent(t)
    ensures Consistent(t.(groups := PlaceAll(t.groups, order, from)))
    decreases |order|
  {
    if order == [] {
      assert t.(groups := t.groups) == t;
    } else {
      var f := Place(order[0], from);
      MappedGroups(t, f);
      MapDistinct(GroupKey, f, t.groups);
      MapDistinct(GroupName, f, t.groups);
      var t1 := t.(groups := Map(f, t.groups));
      PlaceAllConsistent(t1, order[1..], from + 1);
    }
  }

  lemma FewerReadingsConsistent(t: Tables, keep: Reading -> bool)
    requires Consistent(t)
    ensures Consistent(t.(readings := Filter(keep, t.readings)))
  {
    FilterMembers(keep, t.readings);
  }

  lemma FewerPayloadsConsistent(t: Tables, keep: Payload -> bool)
    requires Consistent(t)
    ensures Consistent(t.(payloads := Filter(keep, t.payloads)))
  {
    FilterMembers(keep, t.payloads);
    FilterDistinct(PayloadKey, keep, t.payloads);
  }

  lemma FewerRenamesConsistent(t: Tables, keep: Rename -> bool)
    requires Consistent(t)
    ensures Consistent(t.(renames := Filter(keep, t.renames)))
  {
    FilterDistinct(RenameKey, keep, t.renames);
  }

  lemma RenameOpConsistent(t: Tables, op: Op)
    requires Consistent(t)
    requires op.CreateRename? || op.UpdateRename? || op.DeleteRename? || op.UpdateGroupConfig? || op.UpdateSubGroupConfig?
    ensures Consistent(Apply(t, op))
  {
    match op
    case CreateRename(device, rawField, displayName, unit, chartGroup, newSubGroup) =>
      if newSubGroup.Some? {
        UpsertRenameConsistent(t, device, rawField, displayName, unit, chartGroup, newSubGroup.value);
      }
    case UpdateRename(device, rawField, displayName, unit, chartGroup, newSubGroup) =>
      if newSubGroup.Some? {
        MappedRenamesConsistent(t, Relabel(device, rawField, displayName, unit, chartGroup, newSubGroup.value));
      }
    case DeleteRename(device, rawField) => FewerRenamesConsistent(t, RenameNotFor(device, rawField));
    case UpdateGroupConfig(device, group, description, order) =>
      MappedRenamesConsistent(t, ConfigureGroup(device, group, description, order));
    case UpdateSubGroupConfig(device, group, subGroup, description, order) =>
      MappedRenamesConsistent(t, ConfigureSubGroup(device, group, subGroup, description, order));
  }

  lemma SetDeviceGroupConsistent(t: Tables, device: string, groupId: Option<int>)
    requires Consistent(t)
    ensures Consistent(Apply(t, SetDeviceGroup(device, groupId)))
  {
    if groupId.None? || HasGroup(t, groupId.value) {
      MappedDevicesConsistent(t, Assign(device, groupId));
    }
  }

  lemma GroupOpConsistent(t: Tables, op: Op)
    requires Consistent(t)
    requires op.CreateDeviceGroup? || op.UpdateDeviceGroup? || op.DeleteDeviceGroup? || op.ReorderDeviceGroups? || op.SetDeviceGroup?
    ensures Consistent(Apply(t, op))
  {
    match op
    case CreateDeviceGroup(name, now) => CreateDeviceGroupConsistent(t, name, now);
    case UpdateDeviceGroup(id, name) =>
      if !NameTaken(t, name, id) {
        RetitleConsistent(t, id, name);
      }
    case DeleteDeviceGroup(id) => DeleteDeviceGroupConsistent(t, id);
    case ReorderDeviceGroups(ids) => PlaceAllConsistent(t, ids, 0);
    case SetDeviceGroup(device, groupId) =>
      SetDeviceGroupConsistent(t, device, groupId);
  }

  lemma DeviceOpConsistent(t: Tables, op: Op)
    requires Consistent(t) && WellFormed(op)
    requires op.Ingest? || op.UpdateDevice? || op.DeleteDevice? || op.DeleteDeviceField?
    ensures Consistent(Apply(t, op))
  {
    match op
    case Ingest(device, broker, payload, rows, now) => InsertMessageConsistent(t, device, broker, payload, rows, now);
    case UpdateDevice(device, name, deviceType) => MappedDevicesConsistent(t, Describe(device, name, deviceType));
    case DeleteDevice(device) => DeleteDeviceConsistent(t, device);
    case DeleteDeviceField(device, field) =>
      FewerReadingsConsistent(t, ReadingNotIn(device, field));
      FewerRenamesConsistent(t.(readings := Filter(ReadingNotIn(device, field), t.readings)), RenameNotFor(device, field));
  }

  /** Every transaction keeps the tables consistent, retention and rollback included. */
  lemma ApplyConsistent(t: Tables, op: Op)
    requires Consistent(t) && WellFormed(op)
    ensures Consistent(Apply(t, op))
  {
    if op.DropOldPayloads? {
      FewerPayloadsConsistent(t, ReceivedSince(op.cutoff));
    } else if op.DropOldReadings? {
      FewerReadingsConsistent(t, MeasuredSince(op.cutoff));
    } else if op.RolledBack? {
    } else if op.Ingest? || op.UpdateDevice? || op.DeleteDevice? || op.DeleteDeviceField? {
      DeviceOpConsistent(t, op);
    } else if op.CreateDeviceGroup? || op.UpdateDeviceGroup? || op.DeleteDeviceGroup? || op.ReorderDeviceGroups? || op.SetDeviceGroup? {
      GroupOpConsistent(t, op);
    } else {
      RenameOpConsistent(t, op);
    }
  }

  // Whole runs -----------------------------------------------------------------------------------

  function After(ops: seq<Op>): Tables {
    if ops == [] then EMPTY else Apply(After(ops[..|ops| - 1]), ops[|ops| - 1])
  }

  /** Every reachable database state is consistent. */
  lemma {:induction false} ReachableConsistent(ops: seq<Op>)
    requires forall i :: 0 <= i < |ops| ==> WellFormed(ops[i])
    ensures Consistent(After(ops))
  {
    if ops == [] {
    } else {
      ReachableConsistent(ops[..|ops| - 1]);
      ApplyConsistent(After(ops[..|ops| - 1]), ops[|ops| - 1]);
    }
  }

  /** InsertMessage on its own does not check its rows: it keeps the tables consistent exactly when
      every row carries the device it is called for. */
  lemma InsertMessageNeedsOwnRows(t: Tables, device: string, broker: string, payload: string, rows: seq<Reading>, now: int)
    requires Consistent(t)
    ensures Consistent(InsertMessageTx(t, device, broker, payload, rows, now)) <==> RowsOf(device, rows)
  {
    var t' := InsertMessageTx(t, device, broker, payload, rows, now);
    if RowsOf(device, rows) {
      InsertMessageConsistent(t, device, broker, payload, rows, now);
    } else {
      var r :| r in rows && r.device != device;
      var i :| 0 <= i < |rows| && rows[i] == r;
      var stamped := Map(Stamp(t.nextPayloadId), rows);
      assert stamped[i] in stamped;
      assert stamped[i] in t'.readings;
      assert Payload(t.nextPayloadId, device, payload, now) in t'.payloads;
    }
  }

  // Deleting a device ----------------------------------------------------------------------------

  function DeviceIs(id: string): Device -> bool { (d: Device) => d.id == id }
  function PayloadOf(id: string): Payload -> bool { (p: Payload) => p.device == id }
  function ReadingOf(id: string): Reading -> bool { (r: Reading) => r.device == id }
  function RenameOf(id: string): Rename -> bool { (r: Rename) => r.device == id }

  /** Dropping rows leaves nothing of what is dropped and everything of what is kept. */
  lemma {:induction false} DropRows<T(!new)>(keep: T -> bool, gone: T -> bool, other: T -> bool, xs: seq<T>)
    requires forall x :: gone(x) ==> !keep(x)
    requires forall x :: other(x) ==> keep(x)
    ensures Filter(gone, Filter(keep, xs)) == []
    ensures Filter(other, Filter(keep, xs)) == Filter(other, xs)
  {
    if xs == [] {
    } else {
      DropRows(keep, gone, other, xs[1..]);
      var rest := Filter(keep, xs[1..]);
      assert ([xs[0]] + rest)[1..] == rest;
    }
  }

  /** A committed DeleteDevice leaves no row of the device in any of the four tables. */
  lemma DeleteDeviceLeavesNothing(t: Tables, device: string)
    ensures var t' := DeleteDeviceTx(t, device);
            && Filter(DeviceIs(device), t'.devices) == [] && Filter(PayloadOf(device), t'.payloads) == []
            && Filter(ReadingOf(device), t'.readings) == [] && Filter(RenameOf(device), t'.renames) == []
  {
    DropRows(OtherDevice(device), DeviceIs(device), OtherDevice(device), t.devices);
    DropRows(PayloadNotOf(device), PayloadOf(device), PayloadNotOf(device), t.payloads);
    DropRows(ReadingNotOf(device), ReadingOf(device), ReadingNotOf(device), t.readings);
    DropRows(RenameNotOf(device), RenameOf(device), RenameNotOf(device), t.renames);
  }

  /** It changes no row of another device, no group, and neither id sequence. */
  lemma DeleteDeviceSparesOthers(t: Tables, device: string, other: string)
    requires other != device
    ensures var t' := DeleteDeviceTx(t, device);
            && Filter(DeviceIs(other), t'.devices) == Filter(DeviceIs(other), t.devices)
            && Filter(PayloadOf(other), t'.payloads) == Filter(PayloadOf(other), t.payloads)
            && Filter(ReadingOf(other), t'.readings) == Filter(ReadingOf(other), t.readings)
            && Filter(RenameOf(other), t'.renames) == Filter(RenameOf(other), t.renames)
            && t'.groups == t.groups && t'.nextPayloadId == t.nextPayloadId && t'.nextGroupId == t.nextGroupId
  {
    DropRows(OtherDevice(device), DeviceIs(device), DeviceIs(other), t.devices);
    DropRows(PayloadNotOf(device), PayloadOf(device), PayloadOf(other), t.payloads);
    DropRows(ReadingNotOf(device), ReadingOf(device), ReadingOf(other), t.readings);
    DropRows(RenameNotOf(device), RenameOf(device), RenameOf(other), t.renames);
  }
}
