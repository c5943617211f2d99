// What the device page's chart shows (frontend/src/app/dashboard/[deviceId]/page.tsx), read off the
// renames and the selection alone.

module ChartResults {
  import opened ChartGroups
  import opened Options
  import opened Sequences
  import opened Sorting
  import opened Text

  // Trimmed texts --------------------------------------------------------------------------------

  /** The white space and line ends of ECMAScript. */
  const WHITE: set<char> := {
    '\U{9}', '\U{A}', '\U{B}', '\U{C}', '\U{D}', '\U{20}', '\U{A0}', '\U{1680}', '\U{2000}', '\U{2001}', '\U{2002}', '\U{2003}',
    '\U{2004}', '\U{2005}', '\U{2006}', '\U{2007}', '\U{2008}', '\U{2009}', '\U{200A}', '\U{2028}', '\U{2029}', '\U{202F}',
    '\U{205F}', '\U{3000}', '\U{FEFF}'}

  predicate AllWhite(s: string) {
    forall i :: 0 <= i < |s| ==> s[i] in WHITE
  }

  lemma BlankIsWhite(c: char)
    ensures Blank(c) <==> c in WHITE
  {
  }

  lemma {:induction false} TrimStartStrips(s: string) returns (front: string)
    ensures s == front + TrimStart(s) && AllWhite(front)
    ensures TrimStart(s) != "" ==> TrimStart(s)[0] !in WHITE
  {
    front := "";
    if s != "" {
      BlankIsWhite(s[0]);
      if Blank(s[0]) {
        var rest := TrimStartStrips(s[1..]);
        front := [s[0]] + rest;
      }
    }
  }

  lemma {:induction false} TrimEndStrips(s: string) returns (back: string)
    ensures s == TrimEnd(s) + back && AllWhite(back)
    ensures TrimEnd(s) != "" ==> TrimEnd(s)[|TrimEnd(s)| - 1] !in WHITE && TrimEnd(s)[0] == s[0]
    decreases |s|
  {
    back := "";
    if s != "" {
      var n := |s| - 1;
      BlankIsWhite(s[n]);
      if Blank(s[n]) {
        var rest := TrimEndStrips(s[..n]);
        back := rest + [s[n]];
      }
    }
  }

  /** Trimming takes white space off both ends, all of it, and nothing else. */
  lemma TrimmedIsStripped(s: string) returns (front: string, back: string)
    ensures s == front + Trimmed(Some(s)) + back && AllWhite(front) && AllWhite(back)
    ensures var t := Trimmed(Some(s)); t != "" ==> t[0] !in WHITE && t[|t| - 1] !in WHITE
    ensures Trimmed(None) == ""
  {
    front := TrimStartStrips(s);
    back := TrimEndStrips(TrimStart(s));
  }

  // What the renames say -------------------------------------------------------------------------

  /** The last rename of the field that names a group names this one. */
  ghost predicate GroupIs(renames: seq<FieldRename>, f: string, name: string) {
    exists i :: 0 <= i < |renames| && renames[i].rawField == f && Trimmed(renames[i].chartGroup) == name != "" &&
                forall j :: i < j < |renames| && renames[j].rawField == f ==> Trimmed(renames[j].chartGroup) == ""
  }

  ghost predicate HasGroup(renames: seq<FieldRename>, f: string) {
    exists i :: 0 <= i < |renames| && renames[i].rawField == f && Trimmed(renames[i].chartGroup) != ""
  }

  ghost predicate SubGroupIs(renames: seq<FieldRename>, f: string, name: string) {
    exists i :: 0 <= i < |renames| && renames[i].rawField == f && Trimmed(renames[i].subGroup) == name != "" &&
                forall j :: i < j < |renames| && renames[j].rawField == f ==> Trimmed(renames[j].subGroup) == ""
  }

  ghost predicate HasSubGroup(renames: seq<FieldRename>, f: string) {
    exists i :: 0 <= i < |renames| && renames[i].rawField == f && Trimmed(renames[i].subGroup) != ""
  }

  /** The last rename in the group that gives a description or an order gives this one; without any there
      is no description, and the order is 0. */
  ghost predicate GroupDescribed(renames: seq<FieldRename>, name: string, description: Option<string>) {
    match description
    case Some(d) =>
      exists i :: 0 <= i < |renames| && Trimmed(renames[i].chartGroup) == name && Trimmed(renames[i].groupDescription) == d != "" &&
                  forall j :: i < j < |renames| && Trimmed(renames[j].chartGroup) == name ==> Trimmed(renames[j].groupDescription) == ""
    case None =>
      forall i :: 0 <= i < |renames| && Trimmed(renames[i].chartGroup) == name ==> Trimmed(renames[i].groupDescription) == ""
  }

  ghost predicate GroupOrdered(renames: seq<FieldRename>, name: string, order: int) {
    || (exists i :: 0 <= i < |renames| && Trimmed(renames[i].chartGroup) == name && renames[i].groupSortOrder == Some(order) &&
                    forall j :: i < j < |renames| && Trimmed(renames[j].chartGroup) == name ==> renames[j].groupSortOrder == None)
    || (order == 0 && forall i :: 0 <= i < |renames| && Trimmed(renames[i].chartGroup) == name ==> renames[i].groupSortOrder == None)
  }

  ghost predicate SubGroupDescribed(renames: seq<FieldRename>, name: string, description: Option<string>) {
    match description
    case Some(d) =>
      exists i :: 0 <= i < |renames| && Trimmed(renames[i].subGroup) == name && Trimmed(renames[i].subGroupDescription) == d != "" &&
                  forall j :: i < j < |renames| && Trimmed(renames[j].subGroup) == name ==> Trimmed(renames[j].subGroupDescription) == ""
    case None =>
      forall i :: 0 <= i < |renames| && Trimmed(renames[i].subGroup) == name ==> Trimmed(renames[i].subGroupDescription) == ""
  }

  ghost predicate SubGroupOrdered(renames: seq<FieldRename>, name: string, order: int) {
    || (exists i :: 0 <= i < |renames| && Trimmed(renames[i].subGroup) == name && renames[i].subGroupSortOrder == Some(order) &&
                    forall j :: i < j < |renames| && Trimmed(renames[j].subGroup) == name ==> renames[j].subGroupSortOrder == None)
    || (order == 0 && forall i :: 0 <= i < |renames| && Trimmed(renames[i].subGroup) == name ==> renames[i].subGroupSortOrder == None)
  }

  /** Setting nothing from a place on, place by place. */
  lemma NoneSetsFrom<V>(entry: Entry<V>, renames: seq<FieldRename>, from: nat, k: string)
    requires from <= |renames|
    ensures NoneSets(entry, renames[from..], k) <==> forall j :: from <= j < |renames| ==> !Sets(entry, renames[j], k)
  {
    if NoneSets(entry, renames[from..], k) {
      forall j | from <= j < |renames|
        ensures !Sets(entry, renames[j], k)
      {
        assert renames[from..][j - from] == renames[j];
      }
    }
  }

  lemma NoneSetsAll<V>(entry: Entry<V>, renames: seq<FieldRename>, k: string)
    ensures NoneSets(entry, renames, k) <==> forall j :: 0 <= j < |renames| ==> !Sets(entry, renames[j], k)
  {
    assert renames[0..] == renames;
    NoneSetsFrom(entry, renames, 0, k);
  }

  lemma LastSetsAtPlace<V>(entry: Entry<V>, renames: seq<FieldRename>, i: nat, k: string, v: V)
    requires i < |renames|
    ensures LastSetsAt(entry, renames, i, k, v) <==>
            entry(renames[i]) == Some((k, v)) && forall j :: i < j < |renames| ==> !Sets(entry, renames[j], k)
  {
    NoneSetsFrom(entry, renames, i + 1, k);
  }

  lemma GroupFromRenames(renames: seq<FieldRename>, f: string, name: string)
    ensures LastSets(GroupEntry, renames, f, name) <==> GroupIs(renames, f, name)
  {
    if i: nat :| i < |renames| && LastSetsAt(GroupEntry, renames, i, f, name) {
      LastSetsAtPlace(GroupEntry, renames, i, f, name);
      assert renames[i].rawField == f;
    }
    if GroupIs(renames, f, name) {
      var i: nat :| i < |renames| && renames[i].rawField == f && Trimmed(renames[i].chartGroup) == name != "" &&
                    forall j :: i < j < |renames| && renames[j].rawField == f ==> Trimmed(renames[j].chartGroup) == "";
      LastSetsAtPlace(GroupEntry, renames, i, f, name);
    }
  }

  lemma GroupsFromRenames(renames: seq<FieldRename>, f: string)
    ensures forall name :: LastSets(GroupEntry, renames, f, name) <==> GroupIs(renames, f, name)
    ensures NoneSets(GroupEntry, renames, f) <==> !HasGroup(renames, f)
  {
    NoneSetsAll(GroupEntry, renames, f);
    forall name
      ensures LastSets(GroupEntry, renames, f, name) <==> GroupIs(renames, f, name)
    {
      GroupFromRenames(renames, f, name);
    }
  }

  lemma SubGroupFromRenames(renames: seq<FieldRename>, f: string, name: string)
    ensures LastSets(SubGroupEntry, renames, f, name) <==> SubGroupIs(renames, f, name)
  {
    if i: nat :| i < |renames| && LastSetsAt(SubGroupEntry, renames, i, f, name) {
      LastSetsAtPlace(SubGroupEntry, renames, i, f, name);
      assert renames[i].rawField == f;
    }
    if SubGroupIs(renames, f, name) {
      var i: nat :| i < |renames| && renames[i].rawField == f && Trimmed(renames[i].subGroup) == name != "" &&
                    forall j :: i < j < |renames| && renames[j].rawField == f ==> Trimmed(renames[j].subGroup) == "";
      LastSetsAtPlace(SubGroupEntry, renames, i, f, name);
    }
  }

  lemma SubGroupsFromRenames(renames: seq<FieldRename>, f: string)
    ensures forall name :: LastSets(SubGroupEntry, renames, f, name) <==> SubGroupIs(renames, f, name)
    ensures NoneSets(SubGroupEntry, renames, f) <==> !HasSubGroup(renames, f)
  {
    NoneSetsAll(SubGroupEntry, renames, f);
    forall name
      ensures LastSets(SubGroupEntry, renames, f, name) <==> SubGroupIs(renames, f, name)
    {
      SubGroupFromRenames(renames, f, name);
    }
  }

  lemma GroupDescribedByRenames(renames: seq<FieldRename>, name: string, description: Option<string>)
    requires name != ""
    requires match description
             case Some(d) => LastSets(GroupDescEntry, renames, name, d)
             case None => NoneSets(GroupDescEntry, renames, name)
    ensures GroupDescribed(renames, name, description)
  {
    NoneSetsAll(GroupDescEntry, renames, name);
    if description.Some? {
      var i: nat :| i < |renames| && LastSetsAt(GroupDescEntry, renames, i, name, description.value);
      LastSetsAtPlace(GroupDescEntry, renames, i, name, description.value);
    }
  }

  lemma GroupOrderedByRenames(renames: seq<FieldRename>, name: string, order: int)
    requires name != ""
    requires LastSets(GroupSortEntry, renames, name, order) || (NoneSets(GroupSortEntry, renames, name) && order == 0)
    ensures GroupOrdered(renames, name, order)
  {
    NoneSetsAll(GroupSortEntry, renames, name);
    if LastSets(GroupSortEntry, renames, name, order) {
      var i: nat :| i < |renames| && LastSetsAt(GroupSortEntry, renames, i, name, order);
      LastSetsAtPlace(GroupSortEntry, renames, i, name, order);
      assert renames[i].groupSortOrder == Some(order);
    }
  }

  lemma SubGroupDescribedByRenames(renames: seq<FieldRename>, name: string, description: Option<string>)
    requires name != ""
    requires match description
             case Some(d) => LastSets(SubGroupDescEntry, renames, name, d)
             case None => NoneSets(SubGroupDescEntry, renames, name)
    ensures SubGroupDescribed(renames, name, description)
  {
    NoneSetsAll(SubGroupDescEntry, renames, name);
    if description.Some? {
      var i: nat :| i < |renames| && LastSetsAt(SubGroupDescEntry, renames, i, name, description.value);
      LastSetsAtPlace(SubGroupDescEntry, renames, i, name, description.value);
    }
  }

  lemma SubGroupOrderedByRenames(renames: seq<FieldRename>, name: string, order: int)
    requires name != ""
    requires LastSets(SubGroupSortEntry, renames, name, order) || (NoneSets(SubGroupSortEntry, renames, name) && order == 0)
    ensures SubGroupOrdered(renames, name, order)
  {
    NoneSetsAll(SubGroupSortEntry, renames, name);
    if LastSets(SubGroupSortEntry, renames, name, order) {
      var i: nat :| i < |renames| && LastSetsAt(SubGroupSortEntry, renames, i, name, order);
      LastSetsAtPlace(SubGroupSortEntry, renames, i, name, order);
      assert renames[i].subGroupSortOrder == Some(order);
    }
  }

  // What the chart shows -------------------------------------------------------------------------

  /** The elements that are wanted, in their order. */
  ghost predicate Picks<T(!new)>(xs: seq<T>, wanted: T -> bool, ys: seq<T>) {
    exists places: seq<nat> ::
      && |places| == |ys| && (forall k, l :: 0 <= k < l < |places| ==> places[k] < places[l])
      && (forall k :: 0 <= k < |places| ==> places[k] < |xs| && ys[k] == xs[places[k]])
      && (forall i: nat :: i in places <==> i < |xs| && wanted(xs[i]))
  }

  lemma FilterPicks<T(!new)>(keep: T -> bool, wanted: T -> bool, xs: seq<T>)
    requires forall x :: x in xs ==> keep(x) == wanted(x)
    ensures Picks(xs, wanted, Filter(keep, xs))
  {
    var places := KeptPlaces(keep, xs);
    assert forall i: nat :: i in places <==> i < |xs| && wanted(xs[i]);
  }

  ghost function Ungrouped(renames: seq<FieldRename>): string -> bool {
    (f: string) => !HasGroup(renames, f)
  }

  ghost function Solo(renames: seq<FieldRename>, group: string): string -> bool {
    (f: string) => GroupIs(renames, f, group) && !HasSubGroup(renames, f)
  }

  ghost function Within(renames: seq<FieldRename>, group: string, subGroup: string): string -> bool {
    (f: string) => GroupIs(renames, f, group) && SubGroupIs(renames, f, subGroup)
  }

  /** Ascending by sort order, then by name. */
  predicate Before(order: int, name: string, order': int, name': string) {
    order < order' || (order == order' && name != name' && TextLe(name, name'))
  }

  /** A sub-group lists its selected fields in their order, at least one, under the configuration given
      last for its name. */
  ghost predicate ShowsSubGroup(renames: seq<FieldRename>, selected: seq<string>, group: string, s: SubGroup) {
    && s.fields != [] && Picks(selected, Within(renames, group, s.name), s.fields)
    && SubGroupDescribed(renames, s.name, s.description) && SubGroupOrdered(renames, s.name, s.sortOrder)
  }

  ghost predicate ShowsGroup(renames: seq<FieldRename>, selected: seq<string>, g: ChartGroup) {
    && Picks(selected, Solo(renames, g.name), g.soloFields)
    && (forall i :: 0 <= i < |g.subGroups| ==> ShowsSubGroup(renames, selected, g.name, g.subGroups[i]))
    && (forall i, j :: 0 <= i < j < |g.subGroups| ==>
          Before(g.subGroups[i].sortOrder, g.subGroups[i].name, g.subGroups[j].sortOrder, g.subGroups[j].name))
    && GroupDescribed(renames, g.name, g.description) && GroupOrdered(renames, g.name, g.sortOrder)
  }

  /** A group or sub-group of that name is shown. */
  predicate ShowsName(groups: seq<ChartGroup>, name: string) {
    exists i :: 0 <= i < |groups| && groups[i].name == name
  }

  lemma FieldsWithin(renames: seq<FieldRename>, selected: seq<string>, maps: Maps, name: string, subName: string)
    requires maps == MapsOf(renames)
    ensures Picks(selected, Within(renames, name, subName), Filter(KeyIs(maps.subGroup, subName), Selected(maps, selected, name)))
  {
    var within := Within(renames, name, subName);
    MapsHoldLast(renames);
    forall f
      ensures within(f) == (KeyIs(maps.subGroup, subName)(f) && KeyIs(maps.group, name)(f))
    {
      GroupsFromRenames(renames, f);
      SubGroupsFromRenames(renames, f);
    }
    FilterTwice(KeyIs(maps.subGroup, subName), KeyIs(maps.group, name), within, selected);
    FilterPicks(within, within, selected);
  }

  lemma GroupIsConfigured(renames: seq<FieldRename>, maps: Maps, fields: seq<string>, g: ChartGroup)
    requires maps == MapsOf(renames) && IsGroup(maps, fields, g)
    ensures GroupConfigured(renames, g)
  {
    MapsHoldLast(renames);
    ConfigurationFollowsRenames(maps, renames, fields, g);
  }

  lemma OfSubGroup(renames: seq<FieldRename>, selected: seq<string>, maps: Maps, g: ChartGroup, s: SubGroup)
    requires maps == MapsOf(renames) && IsGroup(maps, Selected(maps, selected, g.name), g) && s in g.subGroups
    ensures ShowsSubGroup(renames, selected, g.name, s)
  {
    var fields := Selected(maps, selected, g.name);
    assert s == ToSubGroup(maps)(Bucket(s.name, Filter(KeyIs(maps.subGroup, s.name), fields))) && s.fields != [];
    FieldsWithin(renames, selected, maps, g.name, s.name);
    FilterMember(KeyIs(maps.subGroup, s.name), fields, s.fields[0]);
    SubGroupNameIsText(renames, s.fields[0]);
    GroupIsConfigured(renames, maps, fields, g);
    ConfiguredSubGroup(renames, g, s);
  }

  lemma SoloFields(renames: seq<FieldRename>, selected: seq<string>, maps: Maps, name: string)
    requires maps == MapsOf(renames)
    ensures Picks(selected, Solo(renames, name), Filter(Unkeyed(maps.subGroup), Selected(maps, selected, name)))
  {
    var solo := Solo(renames, name);
    MapsHoldLast(renames);
    forall f
      ensures solo(f) == (Unkeyed(maps.subGroup)(f) && KeyIs(maps.group, name)(f))
    {
      GroupsFromRenames(renames, f);
      SubGroupsFromRenames(renames, f);
    }
    FilterTwice(Unkeyed(maps.subGroup), KeyIs(maps.group, name), solo, selected);
    FilterPicks(solo, solo, selected);
  }

  lemma SortedSubGroupsAscend(subs: seq<SubGroup>)
    requires Sorted(SubGroupLe, subs) && Distinct(SubGroupName, subs)
    ensures forall i, j :: 0 <= i < j < |subs| ==> Before(subs[i].sortOrder, subs[i].name, subs[j].sortOrder, subs[j].name)
  {
    forall i, j | 0 <= i < j < |subs|
      ensures Before(subs[i].sortOrder, subs[i].name, subs[j].sortOrder, subs[j].name)
    {
      assert SubGroupLe(subs[i], subs[j]) && SubGroupName(subs[i]) != SubGroupName(subs[j]);
    }
  }

  /** Groups and sub-groups have names. */
  lemma GroupNameIsText(renames: seq<FieldRename>, f: string)
    requires f in Collect(GroupEntry, renames)
    ensures Collect(GroupEntry, renames)[f] != ""
  {
    var name := Collect(GroupEntry, renames)[f];
    CollectHoldsLast(GroupEntry, renames);
    assert LastSets(GroupEntry, renames, f, name);
    GroupFromRenames(renames, f, name);
  }

  lemma SubGroupNameIsText(renames: seq<FieldRename>, f: string)
    requires f in Collect(SubGroupEntry, renames)
    ensures Collect(SubGroupEntry, renames)[f] != ""
  {
    var name := Collect(SubGroupEntry, renames)[f];
    CollectHoldsLast(SubGroupEntry, renames);
    assert LastSets(SubGroupEntry, renames, f, name);
    SubGroupFromRenames(renames, f, name);
  }

  lemma ConfiguredGroup(renames: seq<FieldRename>, g: ChartGroup)
    requires GroupConfigured(renames, g) && g.name != ""
    ensures GroupDescribed(renames, g.name, g.description) && GroupOrdered(renames, g.name, g.sortOrder)
  {
    GroupDescribedByRenames(renames, g.name, g.description);
    GroupOrderedByRenames(renames, g.name, g.sortOrder);
  }

  lemma ConfiguredSubGroup(renames: seq<FieldRename>, g: ChartGroup, s: SubGroup)
    requires GroupConfigured(renames, g) && s in g.subGroups && s.name != ""
    ensures SubGroupDescribed(renames, s.name, s.description) && SubGroupOrdered(renames, s.name, s.sortOrder)
  {
    SubGroupDescribedByRenames(renames, s.name, s.description);
    SubGroupOrderedByRenames(renames, s.name, s.sortOrder);
  }

  lemma OfGroup(renames: seq<FieldRename>, selected: seq<string>, maps: Maps, g: ChartGroup)
    requires maps == MapsOf(renames) && IsGroup(maps, Selected(maps, selected, g.name), g) && Selected(maps, selected, g.name) != []
    ensures ShowsGroup(renames, selected, g)
  {
    var fields := Selected(maps, selected, g.name);
    SoloFields(renames, selected, maps, g.name);
    FilterMember(KeyIs(maps.group, g.name), selected, fields[0]);
    GroupNameIsText(renames, fields[0]);
    GroupIsConfigured(renames, maps, fields, g);
    ConfiguredGroup(renames, g);
    SortedSubGroupsAscend(g.subGroups);
    forall i | 0 <= i < |g.subGroups|
      ensures ShowsSubGroup(renames, selected, g.name, g.subGroups[i])
    {
      OfSubGroup(renames, selected, maps, g, g.subGroups[i]);
    }
  }

  lemma UngroupedFields(renames: seq<FieldRename>, selected: seq<string>)
    ensures Picks(selected, Ungrouped(renames), Filter(Unkeyed(MapsOf(renames).group), selected))
  {
    MapsHoldLast(renames);
    forall f
      ensures Unkeyed(MapsOf(renames).group)(f) == Ungrouped(renames)(f)
    {
      GroupsFromRenames(renames, f);
    }
    FilterPicks(Unkeyed(MapsOf(renames).group), Ungrouped(renames), selected);
  }

  lemma GroupInMap(renames: seq<FieldRename>, f: string, name: string)
    requires GroupIs(renames, f, name)
    ensures f in MapsOf(renames).group && MapsOf(renames).group[f] == name
  {
    GroupFromRenames(renames, f, name);
    CollectHoldsLast(GroupEntry, renames);
  }

  lemma SortedGroupsAscend(groups: seq<ChartGroup>)
    requires Sorted(ChartGroupLe, groups) && Distinct(ChartGroupName, groups)
    ensures forall i, j :: 0 <= i < j < |groups| ==> Before(groups[i].sortOrder, groups[i].name, groups[j].sortOrder, groups[j].name)
  {
    forall i, j | 0 <= i < j < |groups|
      ensures Before(groups[i].sortOrder, groups[i].name, groups[j].sortOrder, groups[j].name)
    {
      assert ChartGroupLe(groups[i], groups[j]) && ChartGroupName(groups[i]) != ChartGroupName(groups[j]);
    }
  }

  /** The chart, exactly: every group and sub-group that a selected field's last renames name is shown,
      in ascending order, with exactly its fields in the order of the selection and the configuration
      given last; the fields without a group stand apart. */
  lemma ChartIsExact(renames: seq<FieldRename>, selected: seq<string>, groups: seq<ChartGroup>, ungrouped: seq<string>)
    requires IsChart(MapsOf(renames), selected, groups, ungrouped)
    ensures Picks(selected, Ungrouped(renames), ungrouped)
    ensures forall i :: 0 <= i < |groups| ==> ShowsGroup(renames, selected, groups[i])
    ensures forall i, j :: 0 <= i < j < |groups| ==> Before(groups[i].sortOrder, groups[i].name, groups[j].sortOrder, groups[j].name)
    ensures forall f, name :: f in selected && GroupIs(renames, f, name) ==> ShowsName(groups, name)
  {
    UngroupedFields(renames, selected);
    SortedGroupsAscend(groups);
    forall i | 0 <= i < |groups|
      ensures ShowsGroup(renames, selected, groups[i])
    {
      assert groups[i] in groups;
      OfGroup(renames, selected, MapsOf(renames), groups[i]);
    }
    forall f, name | f in selected && GroupIs(renames, f, name)
      ensures ShowsName(groups, name)
    {
      GroupInMap(renames, f, name);
    }
  }

  /** And every sub-group that a selected field's renames name is shown in the field's group. */
  lemma EverySubGroupIsShown(renames: seq<FieldRename>, selected: seq<string>, groups: seq<ChartGroup>, ungrouped: seq<string>,
                             f: string, name: string, subName: string)
    requires IsChart(MapsOf(renames), selected, groups, ungrouped)
    requires f in selected && GroupIs(renames, f, name) && SubGroupIs(renames, f, subName)
    ensures exists g, s :: g in groups && g.name == name && s in g.subGroups && s.name == subName && f in s.fields
  {
    var maps := MapsOf(renames);
    MapsHoldLast(renames);
    GroupsFromRenames(renames, f);
    SubGroupsFromRenames(renames, f);
    assert LastSets(GroupEntry, renames, f, name) && LastSets(SubGroupEntry, renames, f, subName);
    var g :| g in groups && g.name == maps.group[f];
    var fields := Selected(maps, selected, g.name);
    FilterMember(KeyIs(maps.group, g.name), selected, f);
    var s :| s in g.subGroups && s.name == maps.subGroup[f];
    FilterMember(KeyIs(maps.subGroup, s.name), fields, f);
  }
}
