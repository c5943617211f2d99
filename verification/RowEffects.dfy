// What the other transactions of backend/internal/server/store_adapter.go and the retention policies do
// to each row, told by the row's own columns.

module RowEffects {
  import opened Options
  import opened Sequences
  import opened Tables

  /** Deleting a device takes away its rows of the four tables, each of them, and no others. */
  lemma DeleteDeviceRows(t: Tables, device: string)
    ensures var t' := Apply(t, DeleteDevice(device));
            && (forall d :: multiset(t'.devices)[d] == if d.id == device then 0 else multiset(t.devices)[d])
            && (forall p :: multiset(t'.payloads)[p] == if p.device == device then 0 else multiset(t.payloads)[p])
            && (forall r :: multiset(t'.readings)[r] == if r.device == device then 0 else multiset(t.readings)[r])
            && (forall r :: multiset(t'.renames)[r] == if r.device == device then 0 else multiset(t.renames)[r])
            && t'.groups == t.groups && t'.nextPayloadId == t.nextPayloadId && t'.nextGroupId == t.nextGroupId
  {
    forall d { FilterCounts(OtherDevice(device), t.devices, d); }
    forall p { FilterCounts(PayloadNotOf(device), t.payloads, p); }
    forall r { FilterCounts(ReadingNotOf(device), t.readings, r); }
    forall r { FilterCounts(RenameNotOf(device), t.renames, r); }
  }

  /** Deleting a field takes away its readings and renames on that device; the device's other fields,
      other devices, and the payloads stay. */
  lemma DeleteDeviceFieldRows(t: Tables, device: string, field: string)
    ensures var t' := Apply(t, DeleteDeviceField(device, field));
            && (forall r :: multiset(t'.readings)[r] == if r.device == device && r.field == field then 0 else multiset(t.readings)[r])
            && (forall r :: multiset(t'.renames)[r] == if r.device == device && r.rawField == field then 0 else multiset(t.renames)[r])
            && t' == t.(readings := t'.readings, renames := t'.renames)
  {
    forall r { FilterCounts(ReadingNotIn(device, field), t.readings, r); }
    forall r { FilterCounts(RenameNotFor(device, field), t.renames, r); }
  }

  lemma DeleteRenameRows(t: Tables, device: string, field: string)
    ensures var t' := Apply(t, DeleteRename(device, field));
            && (forall r :: multiset(t'.renames)[r] == if r.device == device && r.rawField == field then 0 else multiset(t.renames)[r])
            && t' == t.(renames := t'.renames)
  {
    forall r { FilterCounts(RenameNotFor(device, field), t.renames, r); }
  }

  /** Retention takes away the readings measured before the cutoff. */
  lemma ReadingRetentionRows(t: Tables, cutoff: int)
    ensures var t' := Apply(t, DropOldReadings(cutoff));
            && (forall r :: multiset(t'.readings)[r] == if r.ts < cutoff then 0 else multiset(t.readings)[r])
            && t' == t.(readings := t'.readings)
  {
    forall r { FilterCounts(MeasuredSince(cutoff), t.readings, r); }
  }

  /** And the payloads received before it. */
  lemma PayloadRetentionRows(t: Tables, cutoff: int)
    ensures var t' := Apply(t, DropOldPayloads(cutoff));
            && (forall p :: multiset(t'.payloads)[p] == if p.receivedAt < cutoff then 0 else multiset(t.payloads)[p])
            && t' == t.(payloads := t'.payloads)
  {
    forall p { FilterCounts(ReceivedSince(cutoff), t.payloads, p); }
  }

  /** Deleting a device group takes away the group and leaves its devices without one. */
  lemma DeleteDeviceGroupRows(t: Tables, id: int)
    ensures var t' := Apply(t, DeleteDeviceGroup(id));
            && (forall g :: multiset(t'.groups)[g] == if g.id == id then 0 else multiset(t.groups)[g])
            && |t'.devices| == |t.devices|
            && (forall i :: 0 <= i < |t.devices| ==>
                  t'.devices[i] == if t.devices[i].groupId == Some(id) then t.devices[i].(groupId := None) else t.devices[i])
            && t' == t.(groups := t'.groups, devices := t'.devices)
  {
    forall g { FilterCounts(OtherGroup(id), t.groups, g); }
  }

  /** A device is described by name and type, and put into a group that exists or into none. */
  lemma DeviceUpdates(t: Tables, device: string, name: string, deviceType: string, groupId: Option<int>)
    ensures var t' := Apply(t, UpdateDevice(device, name, deviceType));
            && |t'.devices| == |t.devices| && t' == t.(devices := t'.devices)
            && (forall i :: 0 <= i < |t.devices| ==>
                  t'.devices[i] ==
                  if t.devices[i].id == device then t.devices[i].(name := name, deviceType := deviceType) else t.devices[i])
    ensures var t' := Apply(t, SetDeviceGroup(device, groupId));
            if groupId.Some? && forall g :: g in t.groups ==> g.id != groupId.value then t' == t
            else |t'.devices| == |t.devices| && t' == t.(devices := t'.devices) &&
                 forall i :: 0 <= i < |t.devices| ==>
                   t'.devices[i] == if t.devices[i].id == device then t.devices[i].(groupId := groupId) else t.devices[i]
  {
  }

  /** A group is configured on all renames of the device in it, a sub-group on those of its group. */
  lemma ConfigurationUpdates(t: Tables, device: string, group: string, subGroup: string, description: Option<string>, order: Option<int>)
    ensures var t' := Apply(t, UpdateGroupConfig(device, group, description, order));
            && |t'.renames| == |t.renames| && t' == t.(renames := t'.renames)
            && (forall i :: 0 <= i < |t.renames| ==>
                  t'.renames[i] ==
                  if t.renames[i].device == device && t.renames[i].chartGroup == Some(group)
                  then t.renames[i].(groupDescription := description, groupSortOrder := order) else t.renames[i])
    ensures var t' := Apply(t, UpdateSubGroupConfig(device, group, subGroup, description, order));
            && |t'.renames| == |t.renames| && t' == t.(renames := t'.renames)
            && (forall i :: 0 <= i < |t.renames| ==>
                  t'.renames[i] ==
                  if t.renames[i].device == device && t.renames[i].chartGroup == Some(group) && t.renames[i].subGroup == subGroup
                  then t.renames[i].(subGroupDescription := description, subGroupSortOrder := order) else t.renames[i])
  {
  }

  /** A group is renamed unless another group has the name. */
  lemma RenameGroupRows(t: Tables, id: int, name: string)
    ensures var t' := Apply(t, UpdateDeviceGroup(id, name));
            if exists g :: g in t.groups && g.name == name && g.id != id then t' == t
            else |t'.groups| == |t.groups| && t' == t.(groups := t'.groups) &&
                 forall i :: 0 <= i < |t.groups| ==>
                   t'.groups[i] == if t.groups[i].id == id then t.groups[i].(name := name) else t.groups[i]
  {
  }
}
