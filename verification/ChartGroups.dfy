// The chartGroups computation of the device page (frontend/src/app/dashboard/[deviceId]/page.tsx):
// the selected fields split into groups, sub-groups, solo fields and ungrouped fields.

module ChartGroups {
  import opened Options
  import opened Sequences
  import opened Sorting
  import opened Text

  /** A rename as the API delivers it. */
  datatype FieldRename = FieldRename(
    rawField: string, chartGroup: Option<string>, subGroup: Option<string>,
    groupDescription: Option<string>, subGroupDescription: Option<string>,
    groupSortOrder: Option<int>, subGroupSortOrder: Option<int>)

  datatype SubGroup = SubGroup(name: string, fields: seq<string>, description: Option<string>, sortOrder: int)

  datatype ChartGroup = ChartGroup(
    name: string, subGroups: seq<SubGroup>, soloFields: seq<string>, description: Option<string>, sortOrder: int)

  // Trimmed texts --------------------------------------------------------------------------------

  /** What JavaScript's trim strips: white space and line ends. */
  predicate Blank(c: char) {
    || c == ' ' || '\t' <= c <= '\r' || c == '\U{A0}' || c == '\U{1680}' || '\U{2000}' <= c <= '\U{200A}'
    || c == '\U{2028}' || c == '\U{2029}' || c == '\U{202F}' || c == '\U{205F}' || c == '\U{3000}' || c == '\U{FEFF}'
  }

  function TrimStart(s: string): string {
    if s != "" && Blank(s[0]) then TrimStart(s[1..]) else s
  }

  function TrimEnd(s: string): string {
    if s != "" && Blank(s[|s| - 1]) then TrimEnd(s[..|s| - 1]) else s
  }

  /** s?.trim(), with the empty text for null. */
  function Trimmed(s: Option<string>): string {
    match s
    case Some(text) => TrimEnd(TrimStart(text))
    case None => ""
  }

  // The lookup maps ------------------------------------------------------------------------------

  /** What one rename sets in a map, if anything. */
  type Entry<V> = FieldRename -> Option<(string, V)>

  /** The map after all renames; a later rename overwrites an earlier one. */
  function Collect<V>(entry: Entry<V>, renames: seq<FieldRename>): map<string, V> {
    if renames == [] then map[]
    else
      var before := Collect(entry, renames[..|renames| - 1]);
      match entry(renames[|renames| - 1])
      case Some(kv) => before[kv.0 := kv.1]
      case None => before
  }

  lemma CollectSnoc<V>(entry: Entry<V>, renames: seq<FieldRename>, i: nat)
    requires i < |renames|
    ensures Collect(entry, renames[..i + 1]) ==
            match entry(renames[i])
            case Some(kv) => Collect(entry, renames[..i])[kv.0 := kv.1]
            case None => Collect(entry, renames[..i])
  {
    assert renames[..i + 1][..i] == renames[..i];
  }

  /** This rename sets something for `k`. */
  predicate Sets<V>(entry: Entry<V>, r: FieldRename, k: string) {
    entry(r).Some? && entry(r).value.0 == k
  }

  ghost predicate NoneSets<V>(entry: Entry<V>, renames: seq<FieldRename>, k: string) {
    forall r :: r in renames ==> !Sets(entry, r, k)
  }

  /** The last rename that sets anything for `k` sets it to `v`. */
  ghost predicate LastSets<V>(entry: Entry<V>, renames: seq<FieldRename>, k: string, v: V) {
    exists i :: 0 <= i < |renames| && LastSetsAt(entry, renames, i, k, v)
  }

  ghost predicate LastSetsAt<V>(entry: Entry<V>, renames: seq<FieldRename>, i: nat, k: string, v: V)
    requires i < |renames|
  {
    Sets(entry, renames[i], k) && entry(renames[i]).value.1 == v && NoneSets(entry, renames[i + 1..], k)
  }

  /** The map holds what the last setting rename of each key says, and nothing else. */
  ghost predicate HoldsLast<V(!new)>(m: map<string, V>, entry: Entry<V>, renames: seq<FieldRename>) {
    && (forall k, v :: k in m && m[k] == v <==> LastSets(entry, renames, k, v))
    && (forall k :: k !in m <==> NoneSets(entry, renames, k))
  }

  lemma NoneSetsSnoc<V>(entry: Entry<V>, renames: seq<FieldRename>, r: FieldRename, k: string)
    ensures NoneSets(entry, renames + [r], k) <==> NoneSets(entry, renames, k) && !Sets(entry, r, k)
  {
    assert r in renames + [r];
  }

  lemma LastSetsAtSnoc<V>(entry: Entry<V>, renames: seq<FieldRename>, r: FieldRename, i: nat, k: string, v: V)
    requires i < |renames|
    ensures LastSetsAt(entry, renames + [r], i, k, v) <==> LastSetsAt(entry, renames, i, k, v) && !Sets(entry, r, k)
  {
    assert (renames + [r])[i] == renames[i];
    assert (renames + [r])[i + 1..] == renames[i + 1..] + [r];
    NoneSetsSnoc(entry, renames[i + 1..], r, k);
  }

  lemma LastSetsAtEnd<V>(entry: Entry<V>, renames: seq<FieldRename>, r: FieldRename, k: string, v: V)
    ensures LastSetsAt(entry, renames + [r], |renames|, k, v) <==> Sets(entry, r, k) && entry(r).value.1 == v
  {
    assert (renames + [r])[|renames| + 1..] == [];
  }

  /** One more rename at the end overrides or changes nothing. */
  lemma LastSetsSnoc<V>(entry: Entry<V>, renames: seq<FieldRename>, r: FieldRename, k: string, v: V)
    ensures LastSets(entry, renames + [r], k, v) <==>
              if Sets(entry, r, k) then entry(r).value.1 == v else LastSets(entry, renames, k, v)
  {
    LastSetsAtEnd(entry, renames, r, k, v);
    if i :| 0 <= i < |renames| + 1 && LastSetsAt(entry, renames + [r], i, k, v) {
      if i < |renames| {
        LastSetsAtSnoc(entry, renames, r, i, k, v);
      }
    }
    if i :| 0 <= i < |renames| && LastSetsAt(entry, renames, i, k, v) {
      LastSetsAtSnoc(entry, renames, r, i, k, v);
    }
  }

  lemma {:induction false} CollectHoldsLast<V(!new)>(entry: Entry<V>, renames: seq<FieldRename>)
    ensures HoldsLast(Collect(entry, renames), entry, renames)
    decreases |renames|
  {
    if renames == [] {
    } else {
      var n := |renames| - 1;
      CollectHoldsLast(entry, renames[..n]);
      assert renames == renames[..n] + [renames[n]];
      forall k, v
        ensures k in Collect(entry, renames) && Collect(entry, renames)[k] == v <==> LastSets(entry, renames, k, v)
      {
        LastSetsSnoc(entry, renames[..n], renames[n], k, v);
      }
      forall k
        ensures k !in Collect(entry, renames) <==> NoneSets(entry, renames, k)
      {
        NoneSetsSnoc(entry, renames[..n], renames[n], k);
      }
    }
  }

  function GroupEntry(r: FieldRename): Option<(string, string)> {
    if Trimmed(r.chartGroup) != "" then Some((r.rawField, Trimmed(r.chartGroup))) else None
  }

  function SubGroupEntry(r: FieldRename): Option<(string, string)> {
    if Trimmed(r.subGroup) != "" then Some((r.rawField, Trimmed(r.subGroup))) else None
  }

  function GroupDescEntry(r: FieldRename): Option<(string, string)> {
    if Trimmed(r.chartGroup) != "" && Trimmed(r.groupDescription) != ""
    then Some((Trimmed(r.chartGroup), Trimmed(r.groupDescription))) else None
  }

  function SubGroupDescEntry(r: FieldRename): Option<(string, string)> {
    if Trimmed(r.subGroup) != "" && Trimmed(r.subGroupDescription) != ""
    then Some((Trimmed(r.subGroup), Trimmed(r.subGroupDescription))) else None
  }

  function GroupSortEntry(r: FieldRename): Option<(string, int)> {
    if Trimmed(r.chartGroup) != "" && r.groupSortOrder.Some?
    then Some((Trimmed(r.chartGroup), r.groupSortOrder.value)) else None
  }

  function SubGroupSortEntry(r: FieldRename): Option<(string, int)> {
    if Trimmed(r.subGroup) != "" && r.subGroupSortOrder.Some?
    then Some((Trimmed(r.subGroup), r.subGroupSortOrder.value)) else None
  }

  datatype Maps = Maps(
    group: map<string, string>, subGroup: map<string, string>,
    groupDesc: map<string, string>, subGroupDesc: map<string, string>,
    groupSort: map<string, int>, subGroupSort: map<string, int>)

  function MapsOf(renames: seq<FieldRename>): Maps {
    Maps(Collect(GroupEntry, renames), Collect(SubGroupEntry, renames),
         Collect(GroupDescEntry, renames), Collect(SubGroupDescEntry, renames),
         Collect(GroupSortEntry, renames), Collect(SubGroupSortEntry, renames))
  }

  /** In each of the six maps the last rename that gives a non-blank value decides. */
  ghost predicate HoldLast(maps: Maps, renames: seq<FieldRename>) {
    && HoldsLast(maps.group, GroupEntry, renames) && HoldsLast(maps.subGroup, SubGroupEntry, renames)
    && HoldsLast(maps.groupDesc, GroupDescEntry, renames) && HoldsLast(maps.subGroupDesc, SubGroupDescEntry, renames)
    && HoldsLast(maps.groupSort, GroupSortEntry, renames) && HoldsLast(maps.subGroupSort, SubGroupSortEntry, renames)
  }

  lemma MapsHoldLast(renames: seq<FieldRename>)
    ensures HoldLast(MapsOf(renames), renames)
  {
    CollectHoldsLast(GroupEntry, renames);
    CollectHoldsLast(SubGroupEntry, renames);
    CollectHoldsLast(GroupDescEntry, renames);
    CollectHoldsLast(SubGroupDescEntry, renames);
    CollectHoldsLast(GroupSortEntry, renames);
    CollectHoldsLast(SubGroupSortEntry, renames);
  }

  method BuildMaps(renames: seq<FieldRename>) returns (maps: Maps)
    ensures maps == MapsOf(renames) && HoldLast(maps, renames)
  {
    maps := Maps(map[], map[], map[], map[], map[], map[]);
    for i := 0 to |renames|
      invariant maps == MapsOf(renames[..i])
    {
      CollectSnoc(GroupEntry, renames, i);
      CollectSnoc(SubGroupEntry, renames, i);
      CollectSnoc(GroupDescEntry, renames, i);
      CollectSnoc(SubGroupDescEntry, renames, i);
      CollectSnoc(GroupSortEntry, renames, i);
      CollectSnoc(SubGroupSortEntry, renames, i);
      var r := renames[i];
      var group, subGroup := Trimmed(r.chartGroup), Trimmed(r.subGroup);
      if group != "" {
        maps := maps.(group := maps.group[r.rawField := group]);
      }
      if subGroup != "" {
        maps := maps.(subGroup := maps.subGroup[r.rawField := subGroup]);
      }
      if group != "" && Trimmed(r.groupDescription) != "" {
        maps := maps.(groupDesc := maps.groupDesc[group := Trimmed(r.groupDescription)]);
      }
      if subGroup != "" && Trimmed(r.subGroupDescription) != "" {
        maps := maps.(subGroupDesc := maps.subGroupDesc[subGroup := Trimmed(r.subGroupDescription)]);
      }
      if group != "" && r.groupSortOrder.Some? {
        maps := maps.(groupSort := maps.groupSort[group := r.groupSortOrder.value]);
      }
      if subGroup != "" && r.subGroupSortOrder.Some? {
        maps := maps.(subGroupSort := maps.subGroupSort[subGroup := r.subGroupSortOrder.value]);
      }
    }
    assert renames[..|renames|] == renames;
    MapsHoldLast(renames);
  }

  // Partitioning fields by a key -----------------------------------------------------------------

  function KeyIs(keys: map<string, string>, name: string): string -> bool {
    (f: string) => f in keys && keys[f] == name
  }

  function Unkeyed(keys: map<string, string>): string -> bool {
    (f: string) => f !in keys
  }

  /** An entry of the insertion-ordered Map that collects fields per key. */
  datatype Bucket = Bucket(name: string, fields: seq<string>)

  function BucketName(b: Bucket): string { b.name }

  /** The buckets hold the keyed fields, one bucket per key in use; the rest have no key. */
  ghost predicate IsPartition(keys: map<string, string>, fields: seq<string>, buckets: seq<Bucket>, rest: seq<string>) {
    && rest == Filter(Unkeyed(keys), fields)
    && Distinct(BucketName, buckets)
    && (forall i :: 0 <= i < |buckets| ==> buckets[i].fields == Filter(KeyIs(keys, buckets[i].name), fields) != [])
    && (forall f :: f in fields && f in keys ==> exists i :: 0 <= i < |buckets| && buckets[i].name == keys[f])
  }

  method Partition(keys: map<string, string>, fields: seq<string>) returns (buckets: seq<Bucket>, rest: seq<string>)
    ensures IsPartition(keys, fields, buckets, rest)
  {
    buckets, rest := [], [];
    for n := 0 to |fields|
      invariant IsPartition(keys, fields[..n], buckets, rest)
    {
      var field := fields[n];
      assert fields[..n + 1] == fields[..n] + [field];
      if field in keys {
        buckets := Push(keys, fields[..n], buckets, rest, field);
      } else {
        UnkeyedField(keys, fields[..n], buckets, rest, field);
        rest := rest + [field];
      }
    }
    assert fields[..|fields|] == fields;
  }

  /** Appends a keyed field to its bucket, or opens the bucket at the end. */
  method Push(keys: map<string, string>, ghost fields: seq<string>, buckets: seq<Bucket>, ghost rest: seq<string>, field: string)
    returns (pushed: seq<Bucket>)
    requires IsPartition(keys, fields, buckets, rest) && field in keys
    ensures IsPartition(keys, fields + [field], pushed, rest)
  {
    var i := 0;
    while i < |buckets| && buckets[i].name != keys[field]
      invariant 0 <= i <= |buckets|
      invariant forall j :: 0 <= j < i ==> buckets[j].name != keys[field]
    {
      i := i + 1;
    }
    if i < |buckets| {
      pushed := buckets[i := buckets[i].(fields := buckets[i].fields + [field])];
      GrownBucket(keys, fields, buckets, rest, field, i);
    } else {
      pushed := buckets + [Bucket(keys[field], [field])];
      NewBucket(keys, fields, buckets, rest, field);
    }
  }

  /** The bucket of the field's key grows, the others do not. */
  lemma GrownBucket(keys: map<string, string>, fields: seq<string>, buckets: seq<Bucket>, rest: seq<string>, field: string, i: nat)
    requires IsPartition(keys, fields, buckets, rest) && field in keys
    requires i < |buckets| && buckets[i].name == keys[field]
    ensures IsPartition(keys, fields + [field], buckets[i := buckets[i].(fields := buckets[i].fields + [field])], rest)
  {
    var pushed := buckets[i := buckets[i].(fields := buckets[i].fields + [field])];
    FilterSnoc(Unkeyed(keys), fields, field);
    forall j | 0 <= j < |pushed|
      ensures pushed[j].name == buckets[j].name
      ensures pushed[j].fields == Filter(KeyIs(keys, pushed[j].name), fields + [field]) != []
    {
      FilterSnoc(KeyIs(keys, buckets[j].name), fields, field);
      if j != i {
        assert BucketName(buckets[j]) != BucketName(buckets[i]);
      }
    }
    forall f | f in fields + [field] && f in keys
      ensures exists j :: 0 <= j < |pushed| && pushed[j].name == keys[f]
    {
      var j :| 0 <= j < |buckets| && buckets[j].name == keys[f];
      assert pushed[j].name == keys[f];
    }
  }

  /** Without a bucket for its key, no earlier field had that key, and a new bucket starts. */
  lemma NewBucket(keys: map<string, string>, fields: seq<string>, buckets: seq<Bucket>, rest: seq<string>, field: string)
    requires IsPartition(keys, fields, buckets, rest) && field in keys
    requires forall j :: 0 <= j < |buckets| ==> buckets[j].name != keys[field]
    ensures IsPartition(keys, fields + [field], buckets + [Bucket(keys[field], [field])], rest)
  {
    var pushed := buckets + [Bucket(keys[field], [field])];
    FilterSnoc(Unkeyed(keys), fields, field);
    NoneKeyed(keys, fields, buckets, rest, keys[field]);
    forall j | 0 <= j < |pushed|
      ensures pushed[j].fields == Filter(KeyIs(keys, pushed[j].name), fields + [field]) != []
    {
      FilterSnoc(KeyIs(keys, pushed[j].name), fields, field);
    }
    forall f | f in fields + [field] && f in keys
      ensures exists j :: 0 <= j < |pushed| && pushed[j].name == keys[f]
    {
      if f in fields {
        var j :| 0 <= j < |buckets| && buckets[j].name == keys[f];
        assert pushed[j].name == keys[f];
      } else {
        assert pushed[|buckets|].name == keys[f];
      }
    }
  }

  lemma NoneKeyed(keys: map<string, string>, fields: seq<string>, buckets: seq<Bucket>, rest: seq<string>, name: string)
    requires IsPartition(keys, fields, buckets, rest)
    requires forall j :: 0 <= j < |buckets| ==> buckets[j].name != name
    ensures Filter(KeyIs(keys, name), fields) == []
  {
    var same := Filter(KeyIs(keys, name), fields);
    if same != [] {
      FilterMember(KeyIs(keys, name), fields, same[0]);
    }
  }

  lemma UnkeyedField(keys: map<string, string>, fields: seq<string>, buckets: seq<Bucket>, rest: seq<string>, field: string)
    requires IsPartition(keys, fields, buckets, rest) && field !in keys
    ensures IsPartition(keys, fields + [field], buckets, rest + [field])
  {
    FilterSnoc(Unkeyed(keys), fields, field);
    forall i | 0 <= i < |buckets|
      ensures Filter(KeyIs(keys, buckets[i].name), fields + [field]) == buckets[i].fields
    {
      FilterSnoc(KeyIs(keys, buckets[i].name), fields, field);
    }
  }

  // Groups ---------------------------------------------------------------------------------------

  predicate SubGroupLe(a: SubGroup, b: SubGroup) {
    a.sortOrder < b.sortOrder || (a.sortOrder == b.sortOrder && TextLe(a.name, b.name))
  }

  predicate ChartGroupLe(a: ChartGroup, b: ChartGroup) {
    a.sortOrder < b.sortOrder || (a.sortOrder == b.sortOrder && TextLe(a.name, b.name))
  }

  function SubGroupName(s: SubGroup): string { s.name }
  function ChartGroupName(g: ChartGroup): string { g.name }

  function Get<V>(m: map<string, V>, k: string): Option<V> {
    if k in m then Some(m[k]) else None
  }

  function ToSubGroup(maps: Maps): Bucket -> SubGroup {
    (b: Bucket) => SubGroup(b.name, b.fields, Get(maps.subGroupDesc, b.name), Get(maps.subGroupSort, b.name).GetOr(0))
  }

  /** Sub-groups of these fields: sorted, named apart, each with exactly the fields of its name. */
  ghost predicate AreSubGroups(maps: Maps, fields: seq<string>, subs: seq<SubGroup>) {
    && Sorted(SubGroupLe, subs) && Distinct(SubGroupName, subs)
    && (forall s :: s in subs ==>
          s == ToSubGroup(maps)(Bucket(s.name, Filter(KeyIs(maps.subGroup, s.name), fields))) && s.fields != [])
    && (forall f :: f in fields && f in maps.subGroup ==> exists s :: s in subs && s.name == maps.subGroup[f])
  }

  ghost predicate IsGroup(maps: Maps, fields: seq<string>, g: ChartGroup) {
    && AreSubGroups(maps, fields, g.subGroups)
    && g.soloFields == Filter(Unkeyed(maps.subGroup), fields)
    && g.description == Get(maps.groupDesc, g.name)
    && g.sortOrder == Get(maps.groupSort, g.name).GetOr(0)
  }

  /** The selected fields of one group, in the order of the selection. */
  function Selected(maps: Maps, selected: seq<string>, name: string): seq<string> {
    Filter(KeyIs(maps.group, name), selected)
  }

  /** The whole chart: sorted groups named apart, each made of exactly the fields of its name. */
  ghost predicate IsChart(maps: Maps, selected: seq<string>, groups: seq<ChartGroup>, ungrouped: seq<string>) {
    && ungrouped == Filter(Unkeyed(maps.group), selected)
    && Sorted(ChartGroupLe, groups) && Distinct(ChartGroupName, groups)
    && (forall g :: g in groups ==>
          Selected(maps, selected, g.name) != [] && IsGroup(maps, Selected(maps, selected, g.name), g))
    && (forall f :: f in selected && f in maps.group ==> exists g :: g in groups && g.name == maps.group[f])
  }

  method BuildSubGroups(maps: Maps, fields: seq<string>) returns (subs: seq<SubGroup>, solo: seq<string>)
    ensures AreSubGroups(maps, fields, subs) && solo == Filter(Unkeyed(maps.subGroup), fields)
  {
    var buckets: seq<Bucket>;
    buckets, solo := Partition(maps.subGroup, fields);
    var unsorted := Map(ToSubGroup(maps), buckets);
    subs := Sort(SubGroupLe, unsorted);
    SortedSubGroups(unsorted);
    SameMembers(subs, unsorted);
    forall s | s in subs
      ensures s == ToSubGroup(maps)(Bucket(s.name, Filter(KeyIs(maps.subGroup, s.name), fields))) && s.fields != []
    {
      var i :| 0 <= i < |unsorted| && unsorted[i] == s;
      assert buckets[i] == Bucket(s.name, Filter(KeyIs(maps.subGroup, s.name), fields));
    }
    forall f | f in fields && f in maps.subGroup
      ensures exists s :: s in subs && s.name == maps.subGroup[f]
    {
      var i :| 0 <= i < |buckets| && buckets[i].name == maps.subGroup[f];
      assert unsorted[i] in unsorted && unsorted[i].name == buckets[i].name;
    }
  }

  lemma SortedSubGroups(unsorted: seq<SubGroup>)
    requires Distinct(SubGroupName, unsorted)
    ensures var subs := Sort(SubGroupLe, unsorted);
            multiset(subs) == multiset(unsorted) && Sorted(SubGroupLe, subs) && Distinct(SubGroupName, subs)
  {
    TextLeOrder();
    SortPermutes(SubGroupLe, unsorted);
    SortSorts(SubGroupLe, unsorted);
    DistinctPermuted(SubGroupName, unsorted, Sort(SubGroupLe, unsorted));
  }

  lemma SortedChartGroups(unsorted: seq<ChartGroup>)
    requires Distinct(ChartGroupName, unsorted)
    ensures var groups := Sort(ChartGroupLe, unsorted);
            multiset(groups) == multiset(unsorted) && Sorted(ChartGroupLe, groups) && Distinct(ChartGroupName, groups)
  {
    TextLeOrder();
    SortPermutes(ChartGroupLe, unsorted);
    SortSorts(ChartGroupLe, unsorted);
    DistinctPermuted(ChartGroupName, unsorted, Sort(ChartGroupLe, unsorted));
  }

  /** The computation of the page. Before the stored selection is loaded there is nothing to show. */
  method BuildChart(hydrated: bool, renames: seq<FieldRename>, selected: seq<string>)
    returns (groups: seq<ChartGroup>, ungrouped: seq<string>)
    ensures !hydrated ==> groups == [] && ungrouped == []
    ensures hydrated ==> IsChart(MapsOf(renames), selected, groups, ungrouped)
    ensures hydrated ==> PlacedByRenames(renames, selected, groups, ungrouped)
  {
    if !hydrated {
      return [], [];
    }
    var maps := BuildMaps(renames);
    var buckets: seq<Bucket>;
    buckets, ungrouped := Partition(maps.group, selected);
    var unsorted: seq<ChartGroup> := [];
    for i := 0 to |buckets|
      invariant |unsorted| == i
      invariant forall j :: 0 <= j < i ==> unsorted[j].name == buckets[j].name && IsGroup(maps, buckets[j].fields, unsorted[j])
    {
      var b := buckets[i];
      var subs, solo := BuildSubGroups(maps, b.fields);
      unsorted := unsorted + [ChartGroup(b.name, subs, solo, Get(maps.groupDesc, b.name), Get(maps.groupSort, b.name).GetOr(0))];
    }
    groups := Sort(ChartGroupLe, unsorted);
    GroupsFromBuckets(maps, selected, buckets, ungrouped, unsorted);
    ChartFollowsRenames(renames, selected, groups, ungrouped);
  }

  // Where the renames put a field ----------------------------------------------------------------

  /** The last rename of the field with a non-blank group names this one. */
  ghost predicate InGroup(renames: seq<FieldRename>, selected: seq<string>, name: string, f: string) {
    f in selected && LastSets(GroupEntry, renames, f, name)
  }

  /** A group shows the fields its renames put there, each in its sub-group or solo. */
  ghost predicate FieldsPlaced(renames: seq<FieldRename>, selected: seq<string>, g: ChartGroup) {
    && (forall f :: f in g.soloFields <==> InGroup(renames, selected, g.name, f) && NoneSets(SubGroupEntry, renames, f))
    && (forall s, f :: s in g.subGroups ==>
          (f in s.fields <==> InGroup(renames, selected, g.name, f) && LastSets(SubGroupEntry, renames, f, s.name)))
    && (forall f, name :: InGroup(renames, selected, g.name, f) && LastSets(SubGroupEntry, renames, f, name) ==>
          exists s :: s in g.subGroups && s.name == name)
  }

  /** It and its sub-groups carry the last description and sort order given for their names. */
  ghost predicate GroupConfigured(renames: seq<FieldRename>, g: ChartGroup) {
    && Configured(GroupDescEntry, GroupSortEntry, renames, g.name, g.description, g.sortOrder)
    && forall s :: s in g.subGroups ==>
         Configured(SubGroupDescEntry, SubGroupSortEntry, renames, s.name, s.description, s.sortOrder)
  }

  ghost predicate Configured(desc: Entry<string>, sort: Entry<int>, renames: seq<FieldRename>, name: string,
                             description: Option<string>, sortOrder: int)
  {
    && (match description case Some(d) => LastSets(desc, renames, name, d) case None => NoneSets(desc, renames, name))
    && (LastSets(sort, renames, name, sortOrder) || (NoneSets(sort, renames, name) && sortOrder == 0))
  }

  /** Every selected field stands where its last non-blank rename puts it. */
  ghost predicate PlacedByRenames(renames: seq<FieldRename>, selected: seq<string>, groups: seq<ChartGroup>, ungrouped: seq<string>) {
    && (forall f :: f in ungrouped <==> f in selected && NoneSets(GroupEntry, renames, f))
    && (forall f, name :: InGroup(renames, selected, name, f) ==> exists g :: g in groups && g.name == name)
    && (forall g :: g in groups ==> FieldsPlaced(renames, selected, g) && GroupConfigured(renames, g))
  }

  lemma FieldsFollowRenames(maps: Maps, renames: seq<FieldRename>, selected: seq<string>, g: ChartGroup)
    requires HoldsLast(maps.group, GroupEntry, renames) && HoldsLast(maps.subGroup, SubGroupEntry, renames)
    requires IsGroup(maps, Selected(maps, selected, g.name), g)
    ensures FieldsPlaced(renames, selected, g)
  {
    var fields := Selected(maps, selected, g.name);
    forall f
      ensures f in fields <==> InGroup(renames, selected, g.name, f)
    {
      FilterMember(KeyIs(maps.group, g.name), selected, f);
    }
    FilterMembers(Unkeyed(maps.subGroup), fields);
    forall s, f | s in g.subGroups
      ensures f in s.fields <==> InGroup(renames, selected, g.name, f) && LastSets(SubGroupEntry, renames, f, s.name)
    {
      FilterMember(KeyIs(maps.subGroup, s.name), fields, f);
    }
  }

  lemma ConfigurationFollowsRenames(maps: Maps, renames: seq<FieldRename>, fields: seq<string>, g: ChartGroup)
    requires HoldLast(maps, renames) && IsGroup(maps, fields, g)
    ensures GroupConfigured(renames, g)
  {
    ConfiguredByMaps(maps.groupDesc, maps.groupSort, GroupDescEntry, GroupSortEntry, renames, g.name);
    forall s | s in g.subGroups
      ensures Configured(SubGroupDescEntry, SubGroupSortEntry, renames, s.name, s.description, s.sortOrder)
    {
      ConfiguredByMaps(maps.subGroupDesc, maps.subGroupSort, SubGroupDescEntry, SubGroupSortEntry, renames, s.name);
    }
  }

  lemma ConfiguredByMaps(descs: map<string, string>, sorts: map<string, int>, desc: Entry<string>, sort: Entry<int>,
                         renames: seq<FieldRename>, name: string)
    requires HoldsLast(descs, desc, renames) && HoldsLast(sorts, sort, renames)
    ensures Configured(desc, sort, renames, name, Get(descs, name), Get(sorts, name).GetOr(0))
  {
  }

  lemma ChartFollowsRenames(renames: seq<FieldRename>, selected: seq<string>, groups: seq<ChartGroup>, ungrouped: seq<string>)
    requires IsChart(MapsOf(renames), selected, groups, ungrouped)
    ensures PlacedByRenames(renames, selected, groups, ungrouped)
  {
    var maps := MapsOf(renames);
    MapsHoldLast(renames);
    FilterMembers(Unkeyed(maps.group), selected);
    forall g | g in groups
      ensures FieldsPlaced(renames, selected, g) && GroupConfigured(renames, g)
    {
      FieldsFollowRenames(maps, renames, selected, g);
      ConfigurationFollowsRenames(maps, renames, Selected(maps, selected, g.name), g);
    }
  }

  // The groups before sorting --------------------------------------------------------------------

  /** Groups built one by one from the buckets. */
  ghost predicate FromBuckets(maps: Maps, buckets: seq<Bucket>, groups: seq<ChartGroup>) {
    |groups| == |buckets| &&
    forall j :: 0 <= j < |buckets| ==> groups[j].name == buckets[j].name && IsGroup(maps, buckets[j].fields, groups[j])
  }

  lemma BucketsNamedApart(maps: Maps, buckets: seq<Bucket>, groups: seq<ChartGroup>)
    requires Distinct(BucketName, buckets) && FromBuckets(maps, buckets, groups)
    ensures Distinct(ChartGroupName, groups)
  {
  }

  lemma BucketIsGroup(maps: Maps, selected: seq<string>, buckets: seq<Bucket>, ungrouped: seq<string>, groups: seq<ChartGroup>, g: ChartGroup)
    requires IsPartition(maps.group, selected, buckets, ungrouped) && FromBuckets(maps, buckets, groups) && g in groups
    ensures Selected(maps, selected, g.name) != [] && IsGroup(maps, Selected(maps, selected, g.name), g)
  {
  }

  lemma FieldHasGroup(maps: Maps, selected: seq<string>, buckets: seq<Bucket>, ungrouped: seq<string>, groups: seq<ChartGroup>, f: string)
    requires IsPartition(maps.group, selected, buckets, ungrouped) && FromBuckets(maps, buckets, groups)
    requires f in selected && f in maps.group
    ensures exists g :: g in groups && g.name == maps.group[f]
  {
  }

  lemma GroupsFromBuckets(maps: Maps, selected: seq<string>, buckets: seq<Bucket>, ungrouped: seq<string>, unsorted: seq<ChartGroup>)
    requires IsPartition(maps.group, selected, buckets, ungrouped) && FromBuckets(maps, buckets, unsorted)
    ensures IsChart(maps, selected, Sort(ChartGroupLe, unsorted), ungrouped)
  {
    var groups := Sort(ChartGroupLe, unsorted);
    BucketsNamedApart(maps, buckets, unsorted);
    SortedChartGroups(unsorted);
    SameMembers(groups, unsorted);
    forall g | g in groups
      ensures Selected(maps, selected, g.name) != [] && IsGroup(maps, Selected(maps, selected, g.name), g)
    {
      BucketIsGroup(maps, selected, buckets, ungrouped, unsorted, g);
    }
    forall f | f in selected && f in maps.group
      ensures exists g :: g in groups && g.name == maps.group[f]
    {
      FieldHasGroup(maps, selected, buckets, ungrouped, unsorted, f);
    }
  }

  // Conservation ---------------------------------------------------------------------------------

  function SubGroupFields(subs: seq<SubGroup>): multiset<string> {
    if subs == [] then multiset{} else SubGroupFields(subs[..|subs| - 1]) + multiset(subs[|subs| - 1].fields)
  }

  function GroupFields(groups: seq<ChartGroup>): multiset<string> {
    if groups == [] then multiset{}
    else
      var last := groups[|groups| - 1];
      GroupFields(groups[..|groups| - 1]) + (SubGroupFields(last.subGroups) + multiset(last.soloFields))
  }

  /** Fields whose key is none of these names. */
  function KeyedOutside(keys: map<string, string>, names: seq<string>): string -> bool {
    (f: string) => !(f in keys && keys[f] in names)
  }

  /** Taking one more name out of the remaining fields. */
  lemma {:induction false} TakeName(keys: map<string, string>, names: seq<string>, name: string, fields: seq<string>)
    requires name !in names
    ensures multiset(Filter(KeyedOutside(keys, names), fields)) ==
            multiset(Filter(KeyIs(keys, name), fields)) + multiset(Filter(KeyedOutside(keys, names + [name]), fields))
  {
    if fields == [] {
    } else {
      TakeName(keys, names, name, fields[1..]);
    }
  }

  /** Nothing is keyed outside when every key in use is named. */
  lemma OutsideIsUnkeyed(keys: map<string, string>, names: seq<string>, fields: seq<string>)
    requires forall f :: f in fields && f in keys ==> keys[f] in names
    ensures Filter(KeyedOutside(keys, names), fields) == Filter(Unkeyed(keys), fields)
  {
    FilterAgrees(KeyedOutside(keys, names), Unkeyed(keys), fields);
  }

  lemma {:induction false} SubGroupsTake(maps: Maps, fields: seq<string>, subs: seq<SubGroup>)
    requires Distinct(SubGroupName, subs)
    requires forall i :: 0 <= i < |subs| ==> subs[i].fields == Filter(KeyIs(maps.subGroup, subs[i].name), fields)
    ensures SubGroupFields(subs) + multiset(Filter(KeyedOutside(maps.subGroup, Map(SubGroupName, subs)), fields)) == multiset(fields)
    decreases |subs|
  {
    var n := |subs| - 1;
    if subs == [] {
      FilterAll(KeyedOutside(maps.subGroup, []), fields);
    } else {
      SubGroupsTake(maps, fields, subs[..n]);
      var names := Map(SubGroupName, subs[..n]);
      TakeName(maps.subGroup, names, subs[n].name, fields);
      assert Map(SubGroupName, subs) == names + [subs[n].name];
    }
  }

  lemma {:induction false} FilterAll(keep: string -> bool, fields: seq<string>)
    requires forall f :: f in fields ==> keep(f)
    ensures Filter(keep, fields) == fields
  {
    if fields == [] {
    } else {
      FilterAll(keep, fields[1..]);
    }
  }

  /** One group holds exactly its fields, in sub-groups and solo. */
  lemma GroupConserves(maps: Maps, fields: seq<string>, g: ChartGroup)
    requires IsGroup(maps, fields, g)
    ensures SubGroupFields(g.subGroups) + multiset(g.soloFields) == multiset(fields)
  {
    forall i | 0 <= i < |g.subGroups|
      ensures g.subGroups[i].fields == Filter(KeyIs(maps.subGroup, g.subGroups[i].name), fields)
    {
      assert g.subGroups[i] in g.subGroups;
    }
    SubGroupsTake(maps, fields, g.subGroups);
    var names := Map(SubGroupName, g.subGroups);
    forall f | f in fields && f in maps.subGroup
      ensures maps.subGroup[f] in names
    {
      var s :| s in g.subGroups && s.name == maps.subGroup[f];
      var i :| 0 <= i < |g.subGroups| && g.subGroups[i] == s;
      assert names[i] == s.name;
    }
    OutsideIsUnkeyed(maps.subGroup, names, fields);
  }

  lemma GroupFieldsLast(groups: seq<ChartGroup>, last: ChartGroup)
    ensures GroupFields(groups + [last]) == GroupFields(groups) + (SubGroupFields(last.subGroups) + multiset(last.soloFields))
  {
    assert (groups + [last])[..|groups|] == groups;
  }

  /** The group holds exactly the selected fields of its name. */
  ghost predicate Conserves(maps: Maps, selected: seq<string>, g: ChartGroup) {
    SubGroupFields(g.subGroups) + multiset(g.soloFields) == multiset(Selected(maps, selected, g.name))
  }

  /** The selected fields of none of these groups. */
  function Remaining(maps: Maps, selected: seq<string>, groups: seq<ChartGroup>): multiset<string> {
    multiset(Filter(KeyedOutside(maps.group, Map(ChartGroupName, groups)), selected))
  }

  lemma LastGroupRemains(maps: Maps, selected: seq<string>, groups: seq<ChartGroup>, last: ChartGroup)
    requires forall i :: 0 <= i < |groups| ==> groups[i].name != last.name
    ensures Remaining(maps, selected, groups) ==
            multiset(Selected(maps, selected, last.name)) + Remaining(maps, selected, groups + [last])
  {
    var names := Map(ChartGroupName, groups);
    TakeName(maps.group, names, last.name, selected);
    assert Map(ChartGroupName, groups + [last]) == names + [last.name];
  }

  /** One more group takes its fields out of the remaining ones. */
  lemma LastGroupTakes(maps: Maps, selected: seq<string>, groups: seq<ChartGroup>, last: ChartGroup)
    requires forall i :: 0 <= i < |groups| ==> groups[i].name != last.name
    requires Conserves(maps, selected, last)
    ensures GroupFields(groups + [last]) + Remaining(maps, selected, groups + [last]) ==
            GroupFields(groups) + Remaining(maps, selected, groups)
  {
    var own, rest := multiset(Selected(maps, selected, last.name)), Remaining(maps, selected, groups + [last]);
    LastGroupRemains(maps, selected, groups, last);
    GroupFieldsLast(groups, last);
    assert GroupFields(groups + [last]) == GroupFields(groups) + own;
    assert (GroupFields(groups) + own) + rest == GroupFields(groups) + (own + rest);
  }

  lemma {:induction false} GroupsTake(maps: Maps, selected: seq<string>, groups: seq<ChartGroup>)
    requires Distinct(ChartGroupName, groups)
    requires forall i :: 0 <= i < |groups| ==> Conserves(maps, selected, groups[i])
    ensures GroupFields(groups) + Remaining(maps, selected, groups) == multiset(selected)
    decreases |groups|
  {
    var n := |groups| - 1;
    if groups == [] {
      FilterAll(KeyedOutside(maps.group, []), selected);
    } else {
      var front, last := groups[..n], groups[n];
      GroupsTake(maps, selected, front);
      forall i | 0 <= i < |front|
        ensures front[i].name != last.name
      {
        assert ChartGroupName(groups[i]) != ChartGroupName(groups[n]);
      }
      LastGroupTakes(maps, selected, front, last);
      assert groups == front + [last];
    }
  }

  /** The chart loses and repeats no selected field: sub-group, solo and ungrouped fields together are
      exactly the selection. */
  lemma ChartConservesFields(maps: Maps, selected: seq<string>, groups: seq<ChartGroup>, ungrouped: seq<string>)
    requires IsChart(maps, selected, groups, ungrouped)
    ensures GroupFields(groups) + multiset(ungrouped) == multiset(selected)
  {
    forall i | 0 <= i < |groups|
      ensures Conserves(maps, selected, groups[i])
    {
      assert groups[i] in groups;
      GroupConserves(maps, Selected(maps, selected, groups[i].name), groups[i]);
    }
    GroupsTake(maps, selected, groups);
    var names := Map(ChartGroupName, groups);
    forall f | f in selected && f in maps.group
      ensures maps.group[f] in names
    {
      var g :| g in groups && g.name == maps.group[f];
      var i :| 0 <= i < |groups| && groups[i] == g;
      assert names[i] == g.name;
    }
    OutsideIsUnkeyed(maps.group, names, selected);
  }
}
