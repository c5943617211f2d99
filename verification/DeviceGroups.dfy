// Listing, creating, reordering and moving device groups: store_adapter.go and the dashboard page
// (frontend/src/app/dashboard/page.tsx).

module DeviceGroups {
  import opened Options
  import opened Sequences
  import opened Sorting
  import opened Tables
  import opened Consistency
  import opened Text

  /** ORDER BY sort_order, name. */
  predicate GroupLe(a: Group, b: Group) {
    a.sortOrder < b.sortOrder || (a.sortOrder == b.sortOrder && TextLe(a.name, b.name))
  }

  /** The comparison of the dashboard's sort. */
  predicate BySortOrder(a: Group, b: Group) {
    a.sortOrder <= b.sortOrder
  }

  function ListDeviceGroups(t: Tables): seq<Group> {
    Sort(GroupLe, t.groups)
  }

  function Ids(groups: seq<Group>): seq<int> {
    Map(GroupKey, groups)
  }

  lemma GroupLeOrder()
    ensures TotalPreorder(GroupLe)
  {
    TextLeOrder();
  }

  /** The list holds exactly the stored groups, in order. */
  lemma ListIsSorted(t: Tables)
    ensures multiset(ListDeviceGroups(t)) == multiset(t.groups) && Sorted(GroupLe, ListDeviceGroups(t))
    ensures var list := ListDeviceGroups(t);
            forall i, j :: 0 <= i < j < |list| ==>
              list[i].sortOrder < list[j].sortOrder || (list[i].sortOrder == list[j].sortOrder && TextLe(list[i].name, list[j].name))
    ensures Sort(BySortOrder, ListDeviceGroups(t)) == ListDeviceGroups(t)
  {
    SortedByGroupLe(t.groups);
    SortKeepsSorted(BySortOrder, ListDeviceGroups(t));
  }

  lemma ListIds(t: Tables)
    ensures |ListDeviceGroups(t)| == |t.groups|
    ensures multiset(Ids(ListDeviceGroups(t))) == multiset(Ids(t.groups))
  {
    SortPermutes(GroupLe, t.groups);
    MapPermuted(GroupKey, ListDeviceGroups(t), t.groups);
  }

  // Creating -------------------------------------------------------------------------------------

  /** A newly created group is listed last. It is created unless its name is taken or the order
      number no longer fits. */
  lemma NewGroupListedLast(t: Tables, name: string, now: int)
    requires Consistent(t)
    ensures var next := NextSortOrder(t.groups);
            if t.groups == [] then next == 0
            else (forall g :: g in t.groups ==> g.sortOrder < next) && exists g :: g in t.groups && g.sortOrder == next - 1
    ensures var created := Group(t.nextGroupId, name, NextSortOrder(t.groups), now);
            ListDeviceGroups(CreateDeviceGroupTx(t, name, now)) ==
            ListDeviceGroups(t) + if (exists g :: g in t.groups && g.name == name) || created.sortOrder > 2147483647 then [] else [created]
  {
    assert NameTaken(t, name, t.nextGroupId) <==> exists g :: g in t.groups && g.name == name;
    if !NameTaken(t, name, t.nextGroupId) && NextSortOrder(t.groups) <= MAX_INT4 {
      CreatedGroupListedLast(t, name, now);
    }
  }

  lemma CreatedGroupListedLast(t: Tables, name: string, now: int)
    requires Consistent(t) && !NameTaken(t, name, t.nextGroupId) && NextSortOrder(t.groups) <= MAX_INT4
    ensures ListDeviceGroups(CreateDeviceGroupTx(t, name, now)) ==
            ListDeviceGroups(t) + [Group(t.nextGroupId, name, NextSortOrder(t.groups), now)]
  {
    CreateDeviceGroupConsistent(t, name, now);
    HighestIsLast(t.groups, Group(t.nextGroupId, name, NextSortOrder(t.groups), now));
  }

  /** A group with a higher order number than all others sorts behind them. */
  lemma HighestIsLast(groups: seq<Group>, g: Group)
    requires Distinct(GroupName, groups + [g]) && forall h :: h in groups ==> h.sortOrder < g.sortOrder
    ensures Sort(GroupLe, groups + [g]) == Sort(GroupLe, groups) + [g]
  {
    var list, list' := Sort(GroupLe, groups), Sort(GroupLe, groups + [g]);
    SortedByGroupLe(groups);
    SortedByGroupLe(groups + [g]);
    SameMembers(list, groups);
    forall i | 0 <= i < |list|
      ensures GroupLe(list[i], g)
    {
      assert list[i] in groups;
    }
    SameMembers(list', groups + [g]);
    NamesBreakTies(groups + [g]);
    assert NoTies(GroupLe, list');
    SortedUnique(GroupLe, list', list + [g]);
  }

  lemma SortedByGroupLe(groups: seq<Group>)
    ensures Sorted(GroupLe, Sort(GroupLe, groups)) && multiset(Sort(GroupLe, groups)) == multiset(groups)
  {
    GroupLeOrder();
    SortPermutes(GroupLe, groups);
    SortSorts(GroupLe, groups);
  }

  lemma NamesBreakTies(groups: seq<Group>)
    requires Distinct(GroupName, groups)
    ensures NoTies(GroupLe, groups)
  {
    TextLeOrder();
    forall x, y | x in groups && y in groups && GroupLe(x, y) && GroupLe(y, x)
      ensures x == y
    {
      DistinctDetermines(GroupName, groups, x, y);
    }
  }

  // Reordering -----------------------------------------------------------------------------------

  /** The sort order a run of updates leaves on an id: that of its last mention, if any. */
  function PlaceOf(id: int, order: seq<int>, from: int, before: int): int
    decreases |order|
  {
    if order == [] then before
    else PlaceOf(id, order[1..], from + 1, if order[0] == id then from else before)
  }

  function Replaced(order: seq<int>, from: int): Group -> Group {
    (g: Group) => g.(sortOrder := PlaceOf(g.id, order, from, g.sortOrder))
  }

  /** The update loop changes each row on its own. */
  lemma {:induction false} PlaceAllMaps(groups: seq<Group>, order: seq<int>, from: int)
    ensures PlaceAll(groups, order, from) == Map(Replaced(order, from), groups)
    decreases |order|
  {
    if order == [] {
    } else {
      PlaceAllMaps(Map(Place(order[0], from), groups), order[1..], from + 1);
    }
  }

  ghost predicate NoRepeats(order: seq<int>) {
    forall i, j :: 0 <= i < j < |order| ==> order[i] != order[j]
  }

  lemma {:induction false} PlaceOfMention(id: int, order: seq<int>, from: int, before: int, i: nat)
    requires NoRepeats(order) && i < |order| && order[i] == id
    ensures PlaceOf(id, order, from, before) == from + i
    decreases |order|
  {
    if i == 0 {
      PlaceOfOther(id, order[1..], from + 1, from);
    } else {
      PlaceOfMention(id, order[1..], from + 1, before, i - 1);
    }
  }

  lemma {:induction false} PlaceOfOther(id: int, order: seq<int>, from: int, before: int)
    requires id !in order
    ensures PlaceOf(id, order, from, before) == before
    decreases |order|
  {
    if order == [] {
    } else {
      PlaceOfOther(id, order[1..], from + 1, before);
    }
  }

  /** Strictly increasing numbers below the length are the positions themselves. */
  lemma {:induction false} IncreasingIsIdentity(places: seq<int>, i: nat)
    requires forall a, b :: 0 <= a < b < |places| ==> places[a] < places[b]
    requires forall a :: 0 <= a < |places| ==> 0 <= places[a] < |places|
    requires i < |places|
    ensures places[i] == i
  {
    AtLeastPosition(places, i);
    AtMostPosition(places, i);
  }

  lemma {:induction false} AtLeastPosition(places: seq<int>, i: nat)
    requires forall a, b :: 0 <= a < b < |places| ==> places[a] < places[b]
    requires i < |places| && 0 <= places[0]
    ensures places[i] >= i
  {
    if i > 0 {
      AtLeastPosition(places, i - 1);
    }
  }

  lemma {:induction false} AtMostPosition(places: seq<int>, i: nat)
    requires forall a, b :: 0 <= a < b < |places| ==> places[a] < places[b]
    requires i < |places| && places[|places| - 1] < |places|
    ensures places[i] <= i
    decreases |places| - i
  {
    if i < |places| - 1 {
      AtMostPosition(places, i + 1);
    }
  }

  lemma ReorderKeepsIds(t: Tables, order: seq<int>)
    ensures Ids(Reordered(t, order).groups) == Ids(t.groups)
    ensures multiset(Ids(ListDeviceGroups(Reordered(t, order)))) == multiset(Ids(t.groups))
  {
    PlaceAllMaps(t.groups, order, 0);
    ListIds(Reordered(t, order));
  }

  lemma ReorderKeepsKeys(t: Tables, order: seq<int>)
    requires Distinct(GroupKey, t.groups)
    ensures Distinct(GroupKey, Reordered(t, order).groups) && |Reordered(t, order).groups| == |t.groups|
  {
    PlaceAllMaps(t.groups, order, 0);
    MapDistinct(GroupKey, Replaced(order, 0), t.groups);
  }

  lemma IdsDistinct(groups: seq<Group>, order: seq<int>)
    requires Distinct(GroupKey, groups) && multiset(order) == multiset(Ids(groups))
    ensures NoRepeats(order)
  {
    DistinctPermuted((x: int) => x, Ids(groups), order);
  }

  /** In the list after the loop, the group at place `i` got sort order `i`. */
  lemma ReorderedAt(t: Tables, order: seq<int>, i: nat)
    requires Distinct(GroupKey, t.groups) && multiset(order) == multiset(Ids(t.groups)) && i < |order|
    ensures |ListDeviceGroups(Reordered(t, order))| == |order|
    ensures ListDeviceGroups(Reordered(t, order))[i].id == order[i]
  {
    var t' := Reordered(t, order);
    var list := ListDeviceGroups(t');
    ReorderKeepsKeys(t, order);
    ListIsSorted(t');
    SameMembers(list, t'.groups);
    SameMembers(order, Ids(t.groups));
    IdsDistinct(t.groups, order);
    DistinctPermuted(GroupKey, t'.groups, list);
    var places := seq(|list|, k requires 0 <= k < |list| => list[k].sortOrder);
    forall k | 0 <= k < |list|
      ensures 0 <= places[k] < |order| && order[places[k]] == list[k].id
    {
      ReorderedPlace(t, order, list[k]);
    }
    forall a, b | 0 <= a < b < |places|
      ensures places[a] < places[b]
    {
      assert GroupLe(list[a], list[b]) && GroupKey(list[a]) != GroupKey(list[b]);
    }
    IncreasingIsIdentity(places, i);
  }

  lemma ReorderedPlace(t: Tables, order: seq<int>, g: Group)
    requires NoRepeats(order) && multiset(order) == multiset(Ids(t.groups))
    requires g in Reordered(t, order).groups
    ensures 0 <= g.sortOrder < |order| && order[g.sortOrder] == g.id
  {
    PlaceAllMaps(t.groups, order, 0);
    var groups := Reordered(t, order).groups;
    var k :| 0 <= k < |groups| && groups[k] == g;
    assert Ids(t.groups)[k] == g.id;
    SameMembers(order, Ids(t.groups));
    assert g.id in order;
    var i :| 0 <= i < |order| && order[i] == g.id;
    PlaceOfMention(g.id, order, 0, t.groups[k].sortOrder, i);
  }

  /** After the update loop the groups are listed in exactly the requested order, whatever their
      names, if and only if the request names every existing group exactly once. */
  lemma ReorderListsInOrder(t: Tables, order: seq<int>)
    requires Distinct(GroupKey, t.groups)
    ensures Ids(ListDeviceGroups(Reordered(t, order))) == order <==> multiset(order) == multiset(Ids(t.groups))
  {
    ReorderKeepsIds(t, order);
    if multiset(order) == multiset(Ids(t.groups)) {
      var ids := Ids(ListDeviceGroups(Reordered(t, order)));
      SameMembers(ids, order);
      forall i | 0 <= i < |order|
        ensures ids[i] == order[i]
      {
        ReorderedAt(t, order, i);
      }
    }
  }

  // Moving ---------------------------------------------------------------------------------------

  function WithOrder(n: int): Group -> bool {
    (g: Group) => g.sortOrder == n
  }

  /** The dashboard's sort is ascending by sort order and leaves groups of one order as they were. */
  lemma DashboardSort(groups: seq<Group>, n: int)
    ensures var sorted := Sort(BySortOrder, groups);
            && multiset(sorted) == multiset(groups)
            && (forall i, j :: 0 <= i < j < |sorted| ==> sorted[i].sortOrder <= sorted[j].sortOrder)
            && Filter((g: Group) => g.sortOrder == n, sorted) == Filter((g: Group) => g.sortOrder == n, groups)
  {
    SortPermutes(BySortOrder, groups);
    SortSorts(BySortOrder, groups);
    FilterAgrees((g: Group) => g.sortOrder == n, WithOrder(n), groups);
    FilterAgrees((g: Group) => g.sortOrder == n, WithOrder(n), Sort(BySortOrder, groups));
    SortKeepsTies(groups, n);
  }

  lemma {:induction false} SortKeepsTies(groups: seq<Group>, n: int)
    ensures Filter(WithOrder(n), Sort(BySortOrder, groups)) == Filter(WithOrder(n), groups)
  {
    if groups != [] {
      SortKeepsTies(groups[1..], n);
      InsertKeepsTies(groups[0], Sort(BySortOrder, groups[1..]), n);
    }
  }

  lemma {:induction false} InsertKeepsTies(g: Group, groups: seq<Group>, n: int)
    ensures Filter(WithOrder(n), Insert(BySortOrder, g, groups)) ==
            (if g.sortOrder == n then [g] else []) + Filter(WithOrder(n), groups)
  {
    if groups != [] && !BySortOrder(g, groups[0]) {
      InsertKeepsTies(g, groups[1..], n);
      assert ([groups[0]] + Insert(BySortOrder, g, groups[1..]))[1..] == Insert(BySortOrder, g, groups[1..]);
    } else {
      assert ([g] + groups)[1..] == groups;
    }
  }

  predicate HasId(groups: seq<Group>, id: int, i: int) {
    0 <= i < |groups| && groups[i].id == id && forall j :: 0 <= j < i ==> groups[j].id != id
  }

  /** The group is listed at place `i` and has a neighbour in the given direction. */
  predicate Movable(groups: seq<Group>, id: int, direction: int, i: int) {
    HasId(groups, id, i) && 0 <= i + direction < |groups|
  }

  function Swapped<T>(xs: seq<T>, i: nat, j: nat): (ys: seq<T>)
    requires i < |xs| && j < |xs|
    ensures |ys| == |xs|
  {
    xs[i := xs[j]][j := xs[i]]
  }

  /** The ids a move sends: the listed ones with the group and its neighbour swapped; nothing when the
      group is not listed or has no neighbour there. */
  ghost predicate IsMove(sorted: seq<Group>, id: int, direction: int, order: Option<seq<int>>) {
    match order
    case None => forall i :: !Movable(sorted, id, direction, i)
    case Some(ids) => exists i :: Movable(sorted, id, direction, i) && ids == Swapped(Ids(sorted), i, i + direction)
  }

  /** Told id by id: the group and its neighbour trade places and the others keep theirs. */
  ghost predicate TradesPlaces(sorted: seq<Group>, id: int, direction: int, order: Option<seq<int>>) {
    match order
    case Some(ids) =>
      |ids| == |sorted| &&
      exists i, n :: 0 <= i < |sorted| && 0 <= n < |sorted| && n == i + direction && sorted[i].id == id &&
                     ids[n] == id && ids[i] == sorted[n].id &&
                     forall j :: 0 <= j < |sorted| && j != i && j != n ==> ids[j] == sorted[j].id
    case None =>
      (forall i :: 0 <= i < |sorted| ==> sorted[i].id != id) ||
      exists i :: 0 <= i < |sorted| && sorted[i].id == id && !(0 <= i + direction < |sorted|)
  }

  /** The dashboard's handleMoveGroup: the ids it sends, or nothing when there is nothing to move. */
  method MoveGroup(groups: seq<Group>, id: int, direction: int) returns (order: Option<seq<int>>)
    requires direction == 1 || direction == -1
    ensures IsMove(Sort(BySortOrder, groups), id, direction, order)
  {
    var sorted := Sort(BySortOrder, groups);
    var idx := 0;
    while idx < |sorted| && sorted[idx].id != id
      invariant 0 <= idx <= |sorted|
      invariant forall j :: 0 <= j < idx ==> sorted[j].id != id
    {
      idx := idx + 1;
    }
    if idx == |sorted| {
      return None;
    }
    var targetIdx := idx + direction;
    if targetIdx < 0 || targetIdx >= |sorted| {
      assert forall i :: Movable(sorted, id, direction, i) ==> i == idx;
      return None;
    }
    var reordered := new Group[|sorted|](i requires 0 <= i < |sorted| => sorted[i]);
    reordered[idx], reordered[targetIdx] := reordered[targetIdx], reordered[idx];
    var ids := Ids(reordered[..]);
    assert Movable(sorted, id, direction, idx) && ids == Swapped(Ids(sorted), idx, idx + direction);
    assert IsMove(sorted, id, direction, Some(ids));
    return Some(ids);
  }

  lemma {:induction false} FirstPlace(groups: seq<Group>, id: int, i: nat) returns (first: nat)
    requires i < |groups| && groups[i].id == id
    ensures first <= i && HasId(groups, id, first)
  {
    if j: nat :| j < i && groups[j].id == id {
      first := FirstPlace(groups, id, j);
    } else {
      first := i;
    }
  }

  /** A move is a trade of places, and there is none when the group is missing or at the edge. */
  lemma MoveTradesPlaces(sorted: seq<Group>, id: int, direction: int, order: Option<seq<int>>)
    requires (direction == 1 || direction == -1) && IsMove(sorted, id, direction, order)
    ensures TradesPlaces(sorted, id, direction, order)
  {
    if order.Some? {
      var i :| Movable(sorted, id, direction, i) && order.value == Swapped(Ids(sorted), i, i + direction);
      var n := i + direction;
      assert order.value[n] == id && order.value[i] == sorted[n].id;
    } else if i: nat :| i < |sorted| && sorted[i].id == id {
      var first := FirstPlace(sorted, id, i);
      assert !Movable(sorted, id, direction, first);
    }
  }

  lemma SwappedPermutes<T>(xs: seq<T>, i: nat, j: nat)
    requires i < |xs| && j < |xs|
    ensures multiset(Swapped(xs, i, j)) == multiset(xs)
    ensures Swapped(Swapped(xs, i, j), j, i) == xs
  {
  }

  /** The tables after a move of the group listed at place `i`: its neighbour's place is swapped in,
      and the list shows exactly that swap. */
  lemma MoveShowsSwap(t: Tables, i: nat, j: nat)
    requires Distinct(GroupKey, t.groups) && i < |t.groups| && j < |t.groups|
    ensures |ListDeviceGroups(t)| == |t.groups|
    ensures var order := Swapped(Ids(ListDeviceGroups(t)), i, j);
            Distinct(GroupKey, Reordered(t, order).groups) && Ids(ListDeviceGroups(Reordered(t, order))) == order
  {
    ListIds(t);
    var order := Swapped(Ids(ListDeviceGroups(t)), i, j);
    SwappedPermutes(Ids(ListDeviceGroups(t)), i, j);
    ReorderListsInOrder(t, order);
    ReorderKeepsKeys(t, order);
  }

  /** After the group listed at place `i` changed places with the one at `j`, it is listed at `j`,
      and changing back restores the list. */
  lemma SwapBackRestores(t: Tables, i: nat, j: nat)
    requires Distinct(GroupKey, t.groups) && i < |t.groups| && j < |t.groups|
    ensures |ListDeviceGroups(t)| == |t.groups|
    ensures var t1 := Reordered(t, Swapped(Ids(ListDeviceGroups(t)), i, j));
            |ListDeviceGroups(t1)| == |t.groups| &&
            HasId(ListDeviceGroups(t1), ListDeviceGroups(t)[i].id, j) &&
            var t2 := Reordered(t1, Swapped(Ids(ListDeviceGroups(t1)), j, i));
            Ids(ListDeviceGroups(t2)) == Ids(ListDeviceGroups(t))
  {
    MoveShowsSwap(t, i, j);
    var list := ListDeviceGroups(t);
    var t1 := Reordered(t, Swapped(Ids(list), i, j));
    var list1 := ListDeviceGroups(t1);
    ReorderKeepsKeys(t, Swapped(Ids(list), i, j));
    MoveShowsSwap(t1, j, i);
    SwappedPermutes(Ids(list), i, j);
    ListIsSorted(t1);
    DistinctPermuted(GroupKey, t1.groups, list1);
    assert Ids(list1)[j] == list[i].id;
  }

  lemma MoveIsDetermined(sorted: seq<Group>, id: int, direction: int, i: int, order: Option<seq<int>>)
    requires Movable(sorted, id, direction, i) && IsMove(sorted, id, direction, order)
    ensures order == Some(Swapped(Ids(sorted), i, i + direction))
  {
  }

  lemma MovedFrom(sorted: seq<Group>, id: int, direction: int, ids: seq<int>) returns (i: int)
    requires IsMove(sorted, id, direction, Some(ids))
    ensures Movable(sorted, id, direction, i) && ids == Swapped(Ids(sorted), i, i + direction)
  {
    i :| Movable(sorted, id, direction, i) && ids == Swapped(Ids(sorted), i, i + direction);
  }

  /** The move back from where a group was moved to. */
  lemma MoveBack(t: Tables, id: int, direction: int, i: int, back: Option<seq<int>>)
    requires Distinct(GroupKey, t.groups) && |ListDeviceGroups(t)| == |t.groups|
    requires Movable(ListDeviceGroups(t), id, direction, i)
    requires var t1 := Reordered(t, Swapped(Ids(ListDeviceGroups(t)), i, i + direction));
             IsMove(ListDeviceGroups(t1), id, -direction, back)
    ensures var t1 := Reordered(t, Swapped(Ids(ListDeviceGroups(t)), i, i + direction));
            back.Some? && Ids(ListDeviceGroups(Reordered(t1, back.value))) == Ids(ListDeviceGroups(t))
  {
    var t1 := Reordered(t, Swapped(Ids(ListDeviceGroups(t)), i, i + direction));
    SwapBackRestores(t, i, i + direction);
    MoveIsDetermined(ListDeviceGroups(t1), id, -direction, i + direction, back);
  }

  /** Moving a group one place in one direction and then one place back restores the list. */
  lemma MoveAndBackRestores(t: Tables, id: int, direction: int, there: seq<int>, back: Option<seq<int>>)
    requires Distinct(GroupKey, t.groups) && (direction == 1 || direction == -1)
    requires IsMove(Sort(BySortOrder, ListDeviceGroups(t)), id, direction, Some(there))
    requires IsMove(Sort(BySortOrder, ListDeviceGroups(Reordered(t, there))), id, -direction, back)
    ensures back.Some?
    ensures Ids(ListDeviceGroups(Reordered(Reordered(t, there), back.value))) == Ids(ListDeviceGroups(t))
  {
    ListIsSorted(t);
    ListIsSorted(Reordered(t, there));
    ListIds(t);
    var i := MovedFrom(ListDeviceGroups(t), id, direction, there);
    MoveBack(t, id, direction, i, back);
  }
}
