// Sub-groups are configured per chart group (UpdateSubGroupConfig in
// backend/internal/server/store_adapter.go), but the device page looks their description and order up
// by sub-group name alone (frontend/src/app/dashboard/[deviceId]/page.tsx). When that shows every
// sub-group as it is configured in its own group.

module ChartConfiguration {
  import opened ChartGroups
  import opened Options
  import opened Sequences
  import opened Text

  datatype Configuration = Configuration(description: Option<string>, sortOrder: int)

  function GroupOf(r: FieldRename): string { Trimmed(r.chartGroup) }
  function SubGroupOf(r: FieldRename): string { Trimmed(r.subGroup) }
  function RawField(r: FieldRename): string { r.rawField }

  function OfGroup(group: string): FieldRename -> bool {
    (r: FieldRename) => GroupOf(r) == group
  }

  /** The configuration these renames give a sub-group name. */
  function ConfigurationIn(renames: seq<FieldRename>, subGroup: string): Configuration {
    Configuration(Get(Collect(SubGroupDescEntry, renames), subGroup), Get(Collect(SubGroupSortEntry, renames), subGroup).GetOr(0))
  }

  /** The configuration of a sub-group in its own group. */
  function OwnConfiguration(renames: seq<FieldRename>, group: string, subGroup: string): Configuration {
    ConfigurationIn(Filter(OfGroup(group), renames), subGroup)
  }

  /** The rename puts its field into a sub-group of a group. */
  predicate Grouped(r: FieldRename) {
    GroupOf(r) != "" && SubGroupOf(r) != ""
  }

  /** No rename behind this one sets anything for `k`, and this one does. */
  ghost predicate Decides<V>(entry: Entry<V>, renames: seq<FieldRename>, i: nat, k: string) {
    i < |renames| && Sets(entry, renames[i], k) && NoneSets(entry, renames[i + 1..], k)
  }

  /** Groups that share a sub-group name configure it alike, and so does a rename that has the name
      without a group but comes last. */
  ghost predicate SharedNamesAgree(renames: seq<FieldRename>) {
    && (forall r, r' :: r in renames && r' in renames && Grouped(r) && Grouped(r') && SubGroupOf(r) == SubGroupOf(r') ==>
          OwnConfiguration(renames, GroupOf(r), SubGroupOf(r)) == OwnConfiguration(renames, GroupOf(r'), SubGroupOf(r)))
    && (forall r, i: nat :: r in renames && Grouped(r) && Decides(SubGroupDescEntry, renames, i, SubGroupOf(r)) && GroupOf(renames[i]) == "" ==>
          OwnConfiguration(renames, GroupOf(r), SubGroupOf(r)).description == Some(Trimmed(renames[i].subGroupDescription)))
    && (forall r, i: nat :: r in renames && Grouped(r) && Decides(SubGroupSortEntry, renames, i, SubGroupOf(r)) && GroupOf(renames[i]) == "" ==>
          OwnConfiguration(renames, GroupOf(r), SubGroupOf(r)).sortOrder == renames[i].subGroupSortOrder.value)
  }

  /** Every sub-group shown carries the configuration of its own group. */
  ghost predicate ShownAsConfigured(renames: seq<FieldRename>, groups: seq<ChartGroup>) {
    forall g: ChartGroup, s: SubGroup :: g in groups && s in g.subGroups ==>
      Configuration(s.description, s.sortOrder) == OwnConfiguration(renames, g.name, s.name)
  }

  // The last setting rename and its group --------------------------------------------------------

  lemma {:induction false} SomeDecides<V>(entry: Entry<V>, renames: seq<FieldRename>, k: string) returns (i: nat)
    requires !NoneSets(entry, renames, k)
    ensures Decides(entry, renames, i, k)
    decreases |renames|
  {
    var n := |renames| - 1;
    if Sets(entry, renames[n], k) {
      i := n;
    } else {
      assert renames == renames[..n] + [renames[n]];
      NoneSetsSnoc(entry, renames[..n], renames[n], k);
      i := SomeDecides(entry, renames[..n], k);
      assert renames[i + 1..] == renames[..n][i + 1..] + [renames[n]];
      NoneSetsSnoc(entry, renames[..n][i + 1..], renames[n], k);
    }
  }

  /** A filter that keeps the deciding rename keeps what it decides. */
  lemma {:induction false} FilterKeepsDecision<V(!new)>(entry: Entry<V>, keep: FieldRename -> bool, renames: seq<FieldRename>, i: nat, k: string)
    requires Decides(entry, renames, i, k) && keep(renames[i])
    ensures LastSets(entry, Filter(keep, renames), k, entry(renames[i]).value.1)
    decreases |renames|
  {
    var n := |renames| - 1;
    var front, last := renames[..n], renames[n];
    var v := entry(renames[i]).value.1;
    assert renames == front + [last];
    FilterSnoc(keep, front, last);
    LastSetsSnoc(entry, Filter(keep, front), last, k, v);
    if i == n {
      assert Filter(keep, renames) == Filter(keep, front) + [last];
    } else {
      assert renames[i + 1..] == front[i + 1..] + [last];
      NoneSetsSnoc(entry, front[i + 1..], last, k);
      assert front[i] == renames[i];
      FilterKeepsDecision(entry, keep, front, i, k);
      assert Filter(keep, renames) == if keep(last) then Filter(keep, front) + [last] else Filter(keep, front);
    }
  }

  /** The deciding rename decides among all renames and among those of its group. */
  lemma DecidesBoth<V(!new)>(entry: Entry<V>, renames: seq<FieldRename>, i: nat, k: string)
    requires Decides(entry, renames, i, k)
    ensures Get(Collect(entry, renames), k) == Some(entry(renames[i]).value.1)
    ensures Get(Collect(entry, Filter(OfGroup(GroupOf(renames[i])), renames)), k) == Some(entry(renames[i]).value.1)
  {
    var v := entry(renames[i]).value.1;
    var same := Filter(OfGroup(GroupOf(renames[i])), renames);
    CollectHoldsLast(entry, renames);
    assert LastSetsAt(entry, renames, i, k, v);
    assert LastSets(entry, renames, k, v);
    FilterKeepsDecision(entry, OfGroup(GroupOf(renames[i])), renames, i, k);
    CollectHoldsLast(entry, same);
  }

  /** Where nothing is set, no group sets anything either. */
  lemma NothingSet<V(!new)>(entry: Entry<V>, renames: seq<FieldRename>, group: string, k: string)
    requires NoneSets(entry, renames, k)
    ensures Get(Collect(entry, renames), k) == None && Get(Collect(entry, Filter(OfGroup(group), renames)), k) == None
  {
    CollectHoldsLast(entry, renames);
    FilterMembers(OfGroup(group), renames);
    CollectHoldsLast(entry, Filter(OfGroup(group), renames));
  }

  /** One entry of the shown configuration comes from no rename, from one of a group, or from one
      without a group. */
  lemma DescriptionAgrees(renames: seq<FieldRename>, r: FieldRename)
    requires SharedNamesAgree(renames) && r in renames && Grouped(r)
    ensures ConfigurationIn(renames, SubGroupOf(r)).description == OwnConfiguration(renames, GroupOf(r), SubGroupOf(r)).description
  {
    var k := SubGroupOf(r);
    if NoneSets(SubGroupDescEntry, renames, k) {
      NothingSet(SubGroupDescEntry, renames, GroupOf(r), k);
    } else {
      var i := SomeDecides(SubGroupDescEntry, renames, k);
      DecidesBoth(SubGroupDescEntry, renames, i, k);
      assert renames[i] in renames && SubGroupOf(renames[i]) == k;
    }
  }

  lemma SortOrderAgrees(renames: seq<FieldRename>, r: FieldRename)
    requires SharedNamesAgree(renames) && r in renames && Grouped(r)
    ensures ConfigurationIn(renames, SubGroupOf(r)).sortOrder == OwnConfiguration(renames, GroupOf(r), SubGroupOf(r)).sortOrder
  {
    var k := SubGroupOf(r);
    if NoneSets(SubGroupSortEntry, renames, k) {
      NothingSet(SubGroupSortEntry, renames, GroupOf(r), k);
    } else {
      var i := SomeDecides(SubGroupSortEntry, renames, k);
      DecidesBoth(SubGroupSortEntry, renames, i, k);
      assert renames[i] in renames && SubGroupOf(renames[i]) == k;
    }
  }

  /** The page's look-up by name finds every group's own configuration exactly when shared names agree. */
  lemma LookupsAgree(renames: seq<FieldRename>)
    ensures SharedNamesAgree(renames) <==>
            forall r :: r in renames && Grouped(r) ==>
              ConfigurationIn(renames, SubGroupOf(r)) == OwnConfiguration(renames, GroupOf(r), SubGroupOf(r))
  {
    if SharedNamesAgree(renames) {
      forall r | r in renames && Grouped(r)
        ensures ConfigurationIn(renames, SubGroupOf(r)) == OwnConfiguration(renames, GroupOf(r), SubGroupOf(r))
      {
        DescriptionAgrees(renames, r);
        SortOrderAgrees(renames, r);
      }
    } else if forall r :: r in renames && Grouped(r) ==>
                ConfigurationIn(renames, SubGroupOf(r)) == OwnConfiguration(renames, GroupOf(r), SubGroupOf(r)) {
      forall r, i: nat | r in renames && Decides(SubGroupDescEntry, renames, i, SubGroupOf(r))
        ensures ConfigurationIn(renames, SubGroupOf(r)).description == Some(Trimmed(renames[i].subGroupDescription))
      {
        DecidesBoth(SubGroupDescEntry, renames, i, SubGroupOf(r));
      }
      forall r, i: nat | r in renames && Decides(SubGroupSortEntry, renames, i, SubGroupOf(r))
        ensures ConfigurationIn(renames, SubGroupOf(r)).sortOrder == renames[i].subGroupSortOrder.value
      {
        DecidesBoth(SubGroupSortEntry, renames, i, SubGroupOf(r));
      }
      assert false;
    }
  }

  // What a chart shows ---------------------------------------------------------------------------

  /** A device has one rename per field, and it decides. */
  lemma OwnRenameDecides<V>(entry: Entry<V>, renames: seq<FieldRename>, r: FieldRename)
    requires Distinct(RawField, renames) && r in renames && Sets(entry, r, r.rawField)
    requires forall x: FieldRename :: entry(x).Some? ==> entry(x).value.0 == x.rawField
    ensures LastSets(entry, renames, r.rawField, entry(r).value.1)
  {
    var i :| 0 <= i < |renames| && renames[i] == r;
    forall x | x in renames[i + 1..]
      ensures !Sets(entry, x, r.rawField)
    {
      var j :| 0 <= j < |renames[i + 1..]| && renames[i + 1..][j] == x;
      assert RawField(renames[i + 1 + j]) != RawField(renames[i]);
    }
    assert LastSetsAt(entry, renames, i, r.rawField, entry(r).value.1);
  }

  lemma MapsOfRename(renames: seq<FieldRename>, r: FieldRename)
    requires Distinct(RawField, renames) && r in renames && Grouped(r)
    ensures var maps := MapsOf(renames);
            && r.rawField in maps.group && maps.group[r.rawField] == GroupOf(r)
            && r.rawField in maps.subGroup && maps.subGroup[r.rawField] == SubGroupOf(r)
  {
    OwnRenameDecides(GroupEntry, renames, r);
    OwnRenameDecides(SubGroupEntry, renames, r);
    CollectHoldsLast(GroupEntry, renames);
    CollectHoldsLast(SubGroupEntry, renames);
  }

  lemma GroupingRename(renames: seq<FieldRename>, f: string) returns (i: nat)
    requires f in Collect(GroupEntry, renames)
    ensures i < |renames| && renames[i].rawField == f && GroupOf(renames[i]) == Collect(GroupEntry, renames)[f] != ""
  {
    CollectHoldsLast(GroupEntry, renames);
    var group := Collect(GroupEntry, renames)[f];
    assert LastSets(GroupEntry, renames, f, group);
    i :| i < |renames| && LastSetsAt(GroupEntry, renames, i, f, group);
  }

  lemma SubGroupingRename(renames: seq<FieldRename>, f: string) returns (i: nat)
    requires f in Collect(SubGroupEntry, renames)
    ensures i < |renames| && renames[i].rawField == f && SubGroupOf(renames[i]) == Collect(SubGroupEntry, renames)[f] != ""
  {
    CollectHoldsLast(SubGroupEntry, renames);
    var subGroup := Collect(SubGroupEntry, renames)[f];
    assert LastSets(SubGroupEntry, renames, f, subGroup);
    i :| i < |renames| && LastSetsAt(SubGroupEntry, renames, i, f, subGroup);
  }

  /** A field shown in a sub-group of a group has a rename that says so. */
  lemma RenameOfMaps(renames: seq<FieldRename>, f: string) returns (r: FieldRename)
    requires Distinct(RawField, renames)
    requires f in MapsOf(renames).group && f in MapsOf(renames).subGroup
    ensures r in renames && Grouped(r) && GroupOf(r) == MapsOf(renames).group[f] && SubGroupOf(r) == MapsOf(renames).subGroup[f]
  {
    var i := GroupingRename(renames, f);
    var j := SubGroupingRename(renames, f);
    assert RawField(renames[i]) == RawField(renames[j]);
    r := renames[i];
  }

  /** The sub-groups a chart shows, each with a rename that puts a field there. */
  lemma ShownHasRename(renames: seq<FieldRename>, selected: seq<string>, groups: seq<ChartGroup>, ungrouped: seq<string>,
                       g: ChartGroup, s: SubGroup) returns (r: FieldRename)
    requires Distinct(RawField, renames) && IsChart(MapsOf(renames), selected, groups, ungrouped)
    requires g in groups && s in g.subGroups
    ensures r in renames && Grouped(r) && GroupOf(r) == g.name && SubGroupOf(r) == s.name
    ensures Configuration(s.description, s.sortOrder) == ConfigurationIn(renames, s.name)
  {
    var maps := MapsOf(renames);
    var fields := Selected(maps, selected, g.name);
    assert IsGroup(maps, fields, g);
    assert s == ToSubGroup(maps)(Bucket(s.name, Filter(KeyIs(maps.subGroup, s.name), fields))) && s.fields != [];
    var f := s.fields[0];
    FilterMember(KeyIs(maps.subGroup, s.name), fields, f);
    FilterMember(KeyIs(maps.group, g.name), selected, f);
    r := RenameOfMaps(renames, f);
  }

  /** The chart of a single field that has a group and a sub-group. */
  lemma OneFieldChart(maps: Maps, f: string) returns (g: ChartGroup, s: SubGroup)
    requires f in maps.group && f in maps.subGroup
    ensures IsChart(maps, [f], [g], []) && s in g.subGroups
    ensures g.name == maps.group[f] && s == ToSubGroup(maps)(Bucket(maps.subGroup[f], [f]))
  {
    s := ToSubGroup(maps)(Bucket(maps.subGroup[f], [f]));
    g := ChartGroup(maps.group[f], [s], [], Get(maps.groupDesc, maps.group[f]), Get(maps.groupSort, maps.group[f]).GetOr(0));
    assert Selected(maps, [f], g.name) == [f];
    assert Filter(KeyIs(maps.subGroup, s.name), [f]) == [f];
    assert g.subGroups == [s];
    assert AreSubGroups(maps, [f], [s]) by {
      assert s in [s];
    }
    assert g in [g];
  }

  lemma AgreementIsShown(renames: seq<FieldRename>, selected: seq<string>, groups: seq<ChartGroup>, ungrouped: seq<string>)
    requires Distinct(RawField, renames) && SharedNamesAgree(renames) && IsChart(MapsOf(renames), selected, groups, ungrouped)
    ensures ShownAsConfigured(renames, groups)
  {
    LookupsAgree(renames);
    forall g: ChartGroup, s: SubGroup | g in groups && s in g.subGroups
      ensures Configuration(s.description, s.sortOrder) == OwnConfiguration(renames, g.name, s.name)
    {
      var r := ShownHasRename(renames, selected, groups, ungrouped, g, s);
    }
  }

  lemma DisagreementIsShown(renames: seq<FieldRename>) returns (selected: seq<string>, groups: seq<ChartGroup>)
    requires Distinct(RawField, renames) && !SharedNamesAgree(renames)
    ensures IsChart(MapsOf(renames), selected, groups, []) && !ShownAsConfigured(renames, groups)
  {
    LookupsAgree(renames);
    var r :| r in renames && Grouped(r) &&
             ConfigurationIn(renames, SubGroupOf(r)) != OwnConfiguration(renames, GroupOf(r), SubGroupOf(r));
    MapsOfRename(renames, r);
    var g, s := OneFieldChart(MapsOf(renames), r.rawField);
    selected, groups := [r.rawField], [g];
    assert g in groups;
    assert Configuration(s.description, s.sortOrder) == ConfigurationIn(renames, SubGroupOf(r));
  }

  /** Whatever is selected, every sub-group shown carries its own group's configuration if and only if
      shared sub-group names agree. */
  lemma ShownAsConfiguredExactlyWhen(renames: seq<FieldRename>)
    requires Distinct(RawField, renames)
    ensures SharedNamesAgree(renames) <==>
            forall selected, groups: seq<ChartGroup>, ungrouped ::
              IsChart(MapsOf(renames), selected, groups, ungrouped) ==> ShownAsConfigured(renames, groups)
  {
    if SharedNamesAgree(renames) {
      forall selected, groups: seq<ChartGroup>, ungrouped | IsChart(MapsOf(renames), selected, groups, ungrouped)
        ensures ShownAsConfigured(renames, groups)
      {
        AgreementIsShown(renames, selected, groups, ungrouped);
      }
    } else {
      var selected, groups := DisagreementIsShown(renames);
    }
  }

  /** Two groups with a sub-group of one name: the later one's order is shown in both. */
  lemma SharedNameShowsTheLaterOrder() returns (a: FieldRename, b: FieldRename)
    ensures var renames := [a, b];
            && GroupOf(a) == "A" && GroupOf(b) == "B" && SubGroupOf(a) == SubGroupOf(b) == "S"
            && OwnConfiguration(renames, "A", "S").sortOrder == 1 && OwnConfiguration(renames, "B", "S").sortOrder == 2
            && ConfigurationIn(renames, "S").sortOrder == 2
            && Distinct(RawField, renames) && !SharedNamesAgree(renames)
  {
    a := FieldRename("f", Some("A"), Some("S"), None, None, None, Some(1));
    b := FieldRename("g", Some("B"), Some("S"), None, None, None, Some(2));
    var renames := [a, b];
    assert Filter(OfGroup("A"), [b]) == [] && Filter(OfGroup("A"), renames) == [a];
    assert Filter(OfGroup("B"), [b]) == [b] && Filter(OfGroup("B"), renames) == [b];
    assert [a][..0] == [] && [b][..0] == [] && renames[..1] == [a];
    assert Collect(SubGroupSortEntry, [a]) == map["S" := 1];
    assert Collect(SubGroupSortEntry, [b]) == map["S" := 2];
    assert Collect(SubGroupSortEntry, renames) == map["S" := 2];
    assert a in renames && b in renames && Grouped(a) && Grouped(b);
  }
}
