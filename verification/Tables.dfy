// The tables of backend/migrations and the statements that backend/internal/store/store.go and
// backend/internal/server/store_adapter.go run on them. A table is a sequence of rows; a transaction
// is one step. Uniqueness is never assumed: it is proved to hold in every reachable state.

module Tables {
  import opened Options
  import opened Sequences

  datatype Device = Device(
    id: string, name: string, deviceType: string, brokerName: string,
    firstSeen: int, lastSeen: int, groupId: Option<int>)

  datatype Payload = Payload(id: int, device: string, payload: string, receivedAt: int)

  datatype Reading = Reading(ts: int, device: string, field: string, value: real, payloadId: int)

  /** sub_group is NOT NULL; the other texts are nullable. */
  datatype Rename = Rename(
    device: string, rawField: string, displayName: Option<string>, unit: Option<string>,
    chartGroup: Option<string>, subGroup: string,
    groupDescription: Option<string>, subGroupDescription: Option<string>,
    groupSortOrder: Option<int>, subGroupSortOrder: Option<int>)

  datatype Group = Group(id: int, name: string, sortOrder: int, createdAt: int)

  /** The rows and the two id sequences, which hand out each id once. */
  datatype Tables = Tables(
    devices: seq<Device>, payloads: seq<Payload>, readings: seq<Reading>,
    renames: seq<Rename>, groups: seq<Group>, nextPayloadId: int, nextGroupId: int)

  const EMPTY := Tables([], [], [], [], [], 1, 1)

  // Keys -----------------------------------------------------------------------------------------

  function DeviceKey(d: Device): string { d.id }
  function PayloadKey(p: Payload): int { p.id }
  function RenameKey(r: Rename): (string, string) { (r.device, r.rawField) }
  function GroupKey(g: Group): int { g.id }
  function GroupName(g: Group): string { g.name }

  predicate HasDevice(t: Tables, id: string) {
    exists d :: d in t.devices && d.id == id
  }

  predicate HasGroup(t: Tables, id: int) {
    exists g :: g in t.groups && g.id == id
  }

  predicate HasRename(t: Tables, device: string, rawField: string) {
    exists r :: r in t.renames && RenameKey(r) == (device, rawField)
  }

  predicate NameTaken(t: Tables, name: string, except: int) {
    exists g :: g in t.groups && g.name == name && g.id != except
  }

  // The invariant --------------------------------------------------------------------------------

  ghost predicate KeysHold(t: Tables) {
    && Distinct(DeviceKey, t.devices)
    && Distinct(PayloadKey, t.payloads)
    && Distinct(RenameKey, t.renames)
    && Distinct(GroupKey, t.groups)
    && Distinct(GroupName, t.groups)
  }

  ghost predicate SequencesAhead(t: Tables) {
    && t.nextPayloadId >= 1 && t.nextGroupId >= 1
    && (forall p :: p in t.payloads ==> 1 <= p.id < t.nextPayloadId)
    && (forall r :: r in t.readings ==> 1 <= r.payloadId < t.nextPayloadId)
    && (forall g :: g in t.groups ==> 1 <= g.id < t.nextGroupId)
  }

  ghost predicate ReferencesHold(t: Tables) {
    && (forall p :: p in t.payloads ==> HasDevice(t, p.device))
    && (forall r :: r in t.readings ==> HasDevice(t, r.device))
    && (forall d :: d in t.devices && d.groupId.Some? ==> HasGroup(t, d.groupId.value))
  }

  /** A stored payload belongs to the device of every reading that names it. */
  ghost predicate PayloadsAgree(t: Tables) {
    forall r, p :: r in t.readings && p in t.payloads && r.payloadId == p.id ==> r.device == p.device
  }

  ghost predicate Consistent(t: Tables) {
    KeysHold(t) && SequencesAhead(t) && ReferencesHold(t) && PayloadsAgree(t)
  }

  // Row conditions and row updates ---------------------------------------------------------------

  function OtherDevice(id: string): Device -> bool { (d: Device) => d.id != id }
  function PayloadNotOf(device: string): Payload -> bool { (p: Payload) => p.device != device }
  function ReadingNotOf(device: string): Reading -> bool { (r: Reading) => r.device != device }
  function RenameNotOf(device: string): Rename -> bool { (r: Rename) => r.device != device }

  function ReadingNotIn(device: string, field: string): Reading -> bool {
    (r: Reading) => !(r.device == device && r.field == field)
  }

  function RenameNotFor(device: string, rawField: string): Rename -> bool {
    (r: Rename) => !(r.device == device && r.rawField == rawField)
  }

  function OtherGroup(id: int): Group -> bool { (g: Group) => g.id != id }
  function ReceivedSince(cutoff: int): Payload -> bool { (p: Payload) => p.receivedAt >= cutoff }
  function MeasuredSince(cutoff: int): Reading -> bool { (r: Reading) => r.ts >= cutoff }

  function Touch(id: string, now: int): Device -> Device {
    (d: Device) => if d.id == id then d.(lastSeen := now) else d
  }

  function Describe(id: string, name: string, deviceType: string): Device -> Device {
    (d: Device) => if d.id == id then d.(name := name, deviceType := deviceType) else d
  }

  function Assign(id: string, group: Option<int>): Device -> Device {
    (d: Device) => if d.id == id then d.(groupId := group) else d
  }

  function Ungroup(group: int): Device -> Device {
    (d: Device) => if d.groupId == Some(group) then d.(groupId := None) else d
  }

  function Relabel(device: string, rawField: string, displayName: Option<string>, unit: Option<string>,
                   chartGroup: Option<string>, subGroup: string): Rename -> Rename
  {
    (r: Rename) => if r.device == device && r.rawField == rawField
      then r.(displayName := displayName, unit := unit, chartGroup := chartGroup, subGroup := subGroup) else r
  }

  function ConfigureGroup(device: string, chartGroup: string, description: Option<string>, order: Option<int>): Rename -> Rename {
    (r: Rename) => if r.device == device && r.chartGroup == Some(chartGroup)
      then r.(groupDescription := description, groupSortOrder := order) else r
  }

  function ConfigureSubGroup(device: string, chartGroup: string, subGroup: string, description: Option<string>, order: Option<int>): Rename -> Rename {
    (r: Rename) => if r.device == device && r.chartGroup == Some(chartGroup) && r.subGroup == subGroup
      then r.(subGroupDescription := description, subGroupSortOrder := order) else r
  }

  function Retitle(id: int, name: string): Group -> Group {
    (g: Group) => if g.id == id then g.(name := name) else g
  }

  function Place(id: int, sortOrder: int): Group -> Group {
    (g: Group) => if g.id == id then g.(sortOrder := sortOrder) else g
  }

  function Stamp(payloadId: int): Reading -> Reading {
    (r: Reading) => r.(payloadId := payloadId)
  }

  // Statements -----------------------------------------------------------------------------------

  /** INSERT INTO devices ... ON CONFLICT (id) DO UPDATE SET last_seen. */
  function EnsureDevice(t: Tables, device: string, broker: string, now: int): Tables {
    if HasDevice(t, device) then t.(devices := Map(Touch(device, now), t.devices))
    else t.(devices := t.devices + [Device(device, "", "unknown", broker, now, now, None)])
  }

  /** INSERT INTO raw_payloads ... RETURNING id: the row takes the next id of the sequence. */
  function InsertPayload(t: Tables, device: string, payload: string, now: int): Tables {
    t.(payloads := t.payloads + [Payload(t.nextPayloadId, device, payload, now)],
       nextPayloadId := t.nextPayloadId + 1)
  }

  function CopyReadings(t: Tables, rows: seq<Reading>): Tables {
    t.(readings := t.readings + rows)
  }

  /** INSERT INTO field_renames ... ON CONFLICT (device_id, raw_field) DO UPDATE. */
  function UpsertRename(t: Tables, device: string, rawField: string, displayName: Option<string>,
                        unit: Option<string>, chartGroup: Option<string>, subGroup: string): Tables
  {
    if HasRename(t, device, rawField) then
      t.(renames := Map(Relabel(device, rawField, displayName, unit, chartGroup, subGroup), t.renames))
    else
      t.(renames := t.renames + [Rename(device, rawField, displayName, unit, chartGroup, subGroup, None, None, None, None)])
  }

  /** The order number a new group gets. MAX over an empty table is NULL, hence the -1. */
  function NextSortOrder(groups: seq<Group>): int {
    if groups == [] then 0 else MaxOf(groups) + 1
  }

  function MaxOf(groups: seq<Group>): (top: int)
    requires groups != []
    ensures forall g :: g in groups ==> g.sortOrder <= top
    ensures exists g :: g in groups && g.sortOrder == top
  {
    if |groups| == 1 then groups[0].sortOrder
    else
      var rest := MaxOf(groups[1..]);
      if groups[0].sortOrder > rest then groups[0].sortOrder else rest
  }

  /** The largest value of PostgreSQL's INTEGER. */
  const MAX_INT4: int := 2147483647

  /** One UPDATE per listed id, in order: id `order[i]` gets sort order `from + i`. */
  function PlaceAll(groups: seq<Group>, order: seq<int>, from: int): seq<Group>
    decreases |order|
  {
    if order == [] then groups
    else PlaceAll(Map(Place(order[0], from), groups), order[1..], from + 1)
  }

  // Transactions ---------------------------------------------------------------------------------

  datatype Op =
    | Ingest(device: string, broker: string, payload: string, rows: seq<Reading>, now: int)
    | UpdateDevice(device: string, name: string, deviceType: string)
    | DeleteDevice(device: string)
    | DeleteDeviceField(device: string, field: string)
    | CreateRename(device: string, rawField: string, displayName: Option<string>, unit: Option<string>,
                   chartGroup: Option<string>, newSubGroup: Option<string>)
    | UpdateRename(device: string, rawField: string, displayName: Option<string>, unit: Option<string>,
                   chartGroup: Option<string>, newSubGroup: Option<string>)
    | DeleteRename(device: string, rawField: string)
    | UpdateGroupConfig(device: string, group: string, description: Option<string>, order: Option<int>)
    | UpdateSubGroupConfig(device: string, group: string, subGroup: string, description: Option<string>, order: Option<int>)
    | CreateDeviceGroup(name: string, now: int)
    | UpdateDeviceGroup(id: int, name: string)
    | DeleteDeviceGroup(id: int)
    | ReorderDeviceGroups(ids: seq<int>)
    | SetDeviceGroup(device: string, groupId: Option<int>)
    | DropOldPayloads(cutoff: int)
    | DropOldReadings(cutoff: int)
    | RolledBack(payloadIds: nat, groupIds: nat)

  /** A committed InsertMessage: device, payload and readings stamped with the payload's id. */
  function InsertMessageTx(t: Tables, device: string, broker: string, payload: string, rows: seq<Reading>, now: int): Tables {
    var named := if broker == "" then "default" else broker;
    CopyReadings(InsertPayload(EnsureDevice(t, device, named, now), device, payload, now), Map(Stamp(t.nextPayloadId), rows))
  }

  function DeleteDeviceTx(t: Tables, device: string): Tables {
    t.(payloads := Filter(PayloadNotOf(device), t.payloads),
       readings := Filter(ReadingNotOf(device), t.readings),
       renames := Filter(RenameNotOf(device), t.renames),
       devices := Filter(OtherDevice(device), t.devices))
  }

  function DeleteDeviceFieldTx(t: Tables, device: string, field: string): Tables {
    t.(readings := Filter(ReadingNotIn(device, field), t.readings),
       renames := Filter(RenameNotFor(device, field), t.renames))
  }

  /** A NULL sub_group violates NOT NULL, on conflict too. */
  function CreateRenameTx(t: Tables, op: Op): Tables
    requires op.CreateRename?
  {
    if op.newSubGroup.None? then t
    else UpsertRename(t, op.device, op.rawField, op.displayName, op.unit, op.chartGroup, op.newSubGroup.value)
  }

  function UpdateRenameTx(t: Tables, op: Op): Tables
    requires op.UpdateRename?
  {
    if op.newSubGroup.None? then t
    else t.(renames := Map(Relabel(op.device, op.rawField, op.displayName, op.unit, op.chartGroup, op.newSubGroup.value), t.renames))
  }

  /** The id is drawn before the name is found taken or the order number too large. */
  function CreateDeviceGroupTx(t: Tables, name: string, now: int): Tables {
    var drawn := t.(nextGroupId := t.nextGroupId + 1);
    var order := NextSortOrder(t.groups);
    if NameTaken(t, name, t.nextGroupId) || order > MAX_INT4 then drawn
    else drawn.(groups := t.groups + [Group(t.nextGroupId, name, order, now)])
  }

  /** Deleting a group sets the group of its devices to NULL. */
  function DeleteDeviceGroupTx(t: Tables, id: int): Tables {
    t.(groups := Filter(OtherGroup(id), t.groups), devices := Map(Ungroup(id), t.devices))
  }

  /** A committed ReorderDeviceGroups. */
  function Reordered(t: Tables, order: seq<int>): Tables {
    t.(groups := PlaceAll(t.groups, order, 0))
  }

  /** A transaction that fails changes no row, but ids it drew from a sequence are gone. */
  function RolledBackTx(t: Tables, payloadIds: nat, groupIds: nat): Tables {
    t.(nextPayloadId := t.nextPayloadId + payloadIds, nextGroupId := t.nextGroupId + groupIds)
  }

  function Apply(t: Tables, op: Op): Tables {
    match op
    case Ingest(device, broker, payload, rows, now) => InsertMessageTx(t, device, broker, payload, rows, now)
    case UpdateDevice(device, name, deviceType) => t.(devices := Map(Describe(device, name, deviceType), t.devices))
    case DeleteDevice(device) => DeleteDeviceTx(t, device)
    case DeleteDeviceField(device, field) => DeleteDeviceFieldTx(t, device, field)
    case CreateRename(_, _, _, _, _, _) => CreateRenameTx(t, op)
    case UpdateRename(_, _, _, _, _, _) => UpdateRenameTx(t, op)
    case DeleteRename(device, rawField) => t.(renames := Filter(RenameNotFor(device, rawField), t.renames))
    case UpdateGroupConfig(device, group, description, order) =>
      t.(renames := Map(ConfigureGroup(device, group, description, order), t.renames))
    case UpdateSubGroupConfig(device, group, subGroup, description, order) =>
      t.(renames := Map(ConfigureSubGroup(device, group, subGroup, description, order), t.renames))
    case CreateDeviceGroup(name, now) => CreateDeviceGroupTx(t, name, now)
    case UpdateDeviceGroup(id, name) =>
      if NameTaken(t, name, id) then t else t.(groups := Map(Retitle(id, name), t.groups))
    case DeleteDeviceGroup(id) => DeleteDeviceGroupTx(t, id)
    case ReorderDeviceGroups(ids) => Reordered(t, ids)
    case SetDeviceGroup(device, groupId) =>
      if groupId.Some? && !HasGroup(t, groupId.value) then t
      else t.(devices := Map(Assign(device, groupId), t.devices))
    case DropOldPayloads(cutoff) => t.(payloads := Filter(ReceivedSince(cutoff), t.payloads))
    case DropOldReadings(cutoff) => t.(readings := Filter(MeasuredSince(cutoff), t.readings))
    case RolledBack(payloadIds, groupIds) => RolledBackTx(t, payloadIds, groupIds)
  }

  /** The rows of an ingested message all carry its device id, as extractReadings makes them. */
  predicate WellFormed(op: Op) {
    op.Ingest? ==> RowsOf(op.device, op.rows)
  }

  predicate RowsOf(device: string, rows: seq<Reading>) {
    forall r :: r in rows ==> r.device == device
  }
}
