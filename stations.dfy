/**
 * The station list of the desktop front-end: an ordered list of items, each a
 * station with the numeric id it was given when appended and a flag saying
 * whether it is the one playing. Every change to the list is persisted.
 */
module Catalog {
  import opened Wrappers

  /** A radio station: a display name and a stream URL. */
  datatype Station = Station(name: string, url: string)

  /** The markup shown for a station: bold while it plays, the plain name otherwise. */
  function Label(name: string, active: bool): (shown: string)
    ensures |shown| == if active then |name| + 7 else |name|
    ensures active ==> shown[..3] == "<b>" && shown[3..|shown| - 4] == name && shown[|shown| - 4..] == "</b>"
    ensures !active ==> shown == name
  {
    if active then "<b>" + name + "</b>" else name
  }

  /** One row of the list. Its station and id never change; its flag and label do. */
  class StationListItem {
    const station: Station
    const id: nat
    var active: bool
    var markup: string

    /** The label always shows the name, in bold exactly when the item is active. */
    ghost predicate Valid()
      reads this
    {
      markup == Label(station.name, active)
    }

    /** A new item starts inactive and shows the plain name. */
    constructor (station: Station, id: nat)
      ensures this.station == station && this.id == id
      ensures !active && markup == station.name
      ensures Valid()
    {
      this.station := station;
      this.id := id;
      active := false;
      markup := station.name;
    }

    method Active()
      modifies this
      ensures active && markup == "<b>" + station.name + "</b>"
      ensures Valid()
    {
      active := true;
      markup := "<b>" + station.name + "</b>";
    }

    method Inactive()
      modifies this
      ensures !active && markup == station.name
      ensures Valid()
    {
      active := false;
      markup := station.name;
    }
  }

  // ------------------------------------------------ views of a list of items

  /** The stations of `items`, in index order. */
  function Stations(items: seq<StationListItem>): (stations: seq<Station>)
    ensures |stations| == |items|
    ensures forall i :: 0 <= i < |items| ==> stations[i] == items[i].station
  {
    seq(|items|, i requires 0 <= i < |items| => items[i].station)
  }

  /** The ids of `items`, in index order. */
  function Ids(items: seq<StationListItem>): (ids: seq<nat>)
    ensures |ids| == |items|
    ensures forall i :: 0 <= i < |items| ==> ids[i] == items[i].id
  {
    seq(|items|, i requires 0 <= i < |items| => items[i].id)
  }

  /** `lo, lo + 1, ..., hi - 1`. */
  function Range(lo: nat, hi: nat): (r: seq<nat>)
    ensures |r| == if lo <= hi then hi - lo else 0
    ensures forall i :: 0 <= i < |r| ==> r[i] == lo + i
  {
    if lo < hi then seq(hi - lo, i requires 0 <= i < hi - lo => lo + i) else []
  }

  /** No item object occurs twice. */
  ghost predicate Distinct(items: seq<StationListItem>)
  {
    forall i, j :: 0 <= i < j < |items| ==> items[i] != items[j]
  }

  /** No id occurs twice. */
  predicate UniqueIds(items: seq<StationListItem>)
  {
    forall i, j :: 0 <= i < j < |items| ==> items[i].id != items[j].id
  }

  // ----------------------------------------------------- get_by_id, as a spec

  /** The lowest index at or after `from` whose item has id `id`. */
  function FirstFrom(items: seq<StationListItem>, id: nat, from: nat): (r: Option<nat>)
    decreases |items| - from
    ensures r.Some? ==> from <= r.value < |items| && items[r.value].id == id
    ensures r.Some? ==> forall j :: from <= j < r.value ==> items[j].id != id
    ensures r.None? ==> forall j :: from <= j < |items| ==> items[j].id != id
  {
    if from >= |items| then None
    else if items[from].id == id then Some(from)
    else FirstFrom(items, id, from + 1)
  }

  /**
   * The index `get_by_id` finds: nothing for `None`; for `Some(id)` the lowest
   * index whose item has that id, or nothing when no item has it.
   */
  function Find(items: seq<StationListItem>, id: Option<nat>): (r: Option<nat>)
    ensures id.None? ==> r.None?
    ensures r.Some? ==> r.value < |items| && items[r.value].id == id.value
    ensures r.Some? ==> forall j :: 0 <= j < r.value ==> items[j].id != id.value
    ensures r.None? && id.Some? ==> forall j :: 0 <= j < |items| ==> items[j].id != id.value
  {
    if id.None? then None else FirstFrom(items, id.value, 0)
  }

  /** The item at an optional index. */
  function ItemAt(items: seq<StationListItem>, k: Option<nat>): Option<StationListItem>
    requires k.Some? ==> k.value < |items|
  {
    if k.None? then None else Some(items[k.value])
  }

  // -------------------------------------------------- remove_by_id, as a spec

  /**
   * The loop of `remove_by_id` from index `x` up to the bound `n` fixed before
   * it started: an index past the current end finds nothing, and a removal
   * shifts the later items down while `x` still advances.
   */
  function RemoveScan(items: seq<StationListItem>, id: nat, x: nat, n: nat): (r: seq<StationListItem>)
    ensures |r| <= |items|
    decreases n - x
  {
    if x >= n then items
    else if x < |items| && items[x].id == id then RemoveScan(items[..x] + items[x + 1..], id, x + 1, n)
    else RemoveScan(items, id, x + 1, n)
  }

  /** What `remove_by_id(id)` leaves of `items`: never more items than before. */
  function Removed(items: seq<StationListItem>, id: nat): (r: seq<StationListItem>)
    ensures |r| <= |items|
  {
    RemoveScan(items, id, 0, |items|)
  }

  // ------------------------------------------------------------------ lemmas

  /** Scanning a stretch of indices holding no matching item changes nothing. */
  lemma {:induction false} ScanSkipsNonMatching(items: seq<StationListItem>, id: nat, x: nat, k: nat, n: nat)
    requires x <= k
    requires forall j :: x <= j < k && j < |items| ==> items[j].id != id
    ensures RemoveScan(items, id, x, n) == RemoveScan(items, id, if k <= n then k else n, n)
    decreases k - x
  {
    if x < k && x < n {
      ScanSkipsNonMatching(items, id, x + 1, k, n);
    }
  }

  /** If no item has the id, `remove_by_id` leaves the list as it was. */
  lemma RemoveAbsent(items: seq<StationListItem>, id: nat)
    requires forall j :: 0 <= j < |items| ==> items[j].id != id
    ensures Removed(items, id) == items
  {
    ScanSkipsNonMatching(items, id, 0, |items|, |items|);
  }

  /** With unique ids, `remove_by_id` removes exactly the item with the id and keeps the others in order. */
  lemma RemoveUnique(items: seq<StationListItem>, id: nat, k: nat)
    requires k < |items| && items[k].id == id
    requires UniqueIds(items)
    ensures Removed(items, id) == items[..k] + items[k + 1..]
  {
    var n := |items|;
    var rest := items[..k] + items[k + 1..];
    ScanSkipsNonMatching(items, id, 0, k, n);
    assert RemoveScan(items, id, k, n) == RemoveScan(rest, id, k + 1, n);
    ScanSkipsNonMatching(rest, id, k + 1, n, n);
  }

  /**
   * The shifting loop skips the index after a removal: of two adjacent items
   * with the removed id (and no other), the second survives, in the place of
   * the first.
   */
  lemma RemoveSkipsAdjacentDuplicate(items: seq<StationListItem>, id: nat, k: nat)
    requires k + 1 < |items| && items[k].id == id && items[k + 1].id == id
    requires forall j :: 0 <= j < |items| && j != k && j != k + 1 ==> items[j].id != id
    ensures Removed(items, id) == items[..k] + items[k + 1..]
    ensures Removed(items, id)[k].id == id
  {
    var n := |items|;
    var rest := items[..k] + items[k + 1..];
    ScanSkipsNonMatching(items, id, 0, k, n);
    assert RemoveScan(items, id, k, n) == RemoveScan(rest, id, k + 1, n);
    ScanSkipsNonMatching(rest, id, k + 1, n, n);
  }

  /**
   * Whatever the ids, the scan only drops items: every survivor was in the
   * list, and every item with another id survives.
   */
  /** Removing index `x` keeps the items before it and shifts the ones after it down by one. */
  lemma RemoveAtShifts(items: seq<StationListItem>, x: nat)
    requires x < |items|
    ensures var rest := items[..x] + items[x + 1..];
      rest[..x] == items[..x] && rest[x..] == items[x + 1..]
      && multiset(rest) <= multiset(items)
      && forall j :: 0 <= j < |items| && j != x ==> items[j] in rest
  {
    var rest := items[..x] + items[x + 1..];
    assert items == items[..x] + [items[x]] + items[x + 1..];
    forall j | 0 <= j < |items| && j != x
      ensures items[j] in rest
    {
      if j < x {
        assert rest[j] == items[j];
      } else {
        assert rest[j - 1] == items[j];
      }
    }
  }

  /**
   * Whatever the ids, the scan only drops items: every survivor was in the
   * list, and every item with another id survives.
   */
  lemma {:induction false} ScanKeepsOthers(items: seq<StationListItem>, id: nat, x: nat, n: nat)
    ensures multiset(RemoveScan(items, id, x, n)) <= multiset(items)
    ensures forall j :: 0 <= j < |items| && items[j].id != id ==> items[j] in RemoveScan(items, id, x, n)
    decreases n - x
  {
    if x < n {
      if x < |items| && items[x].id == id {
        RemoveAtShifts(items, x);
        ScanKeepsOthers(items[..x] + items[x + 1..], id, x + 1, n);
      } else {
        ScanKeepsOthers(items, id, x + 1, n);
      }
    }
  }

  /** `remove_by_id` removes at least one item exactly when some item has the id. */
  lemma RemoveShrinks(items: seq<StationListItem>, id: nat)
    ensures |Removed(items, id)| <= |items|
    ensures |Removed(items, id)| < |items| <==> exists k :: 0 <= k < |items| && items[k].id == id
  {
    ScanKeepsOthers(items, id, 0, |items|);
    var all := multiset(Removed(items, id));
    assert multiset(items) == all + (multiset(items) - all);
    var first := Find(items, Some(id));
    if first.Some? {
      var k := first.value;
      var rest := items[..k] + items[k + 1..];
      ScanSkipsNonMatching(items, id, 0, k, |items|);
      assert RemoveScan(items, id, k, |items|) == RemoveScan(rest, id, k + 1, |items|);
      ScanKeepsOthers(rest, id, k + 1, |items|);
      var kept := multiset(RemoveScan(rest, id, k + 1, |items|));
      assert multiset(rest) == kept + (multiset(rest) - kept);
      assert |multiset(rest)| == |rest| == |items| - 1;
    } else {
      RemoveAbsent(items, id);
    }
  }

  /** The scan never touches the indices it has already passed. */
  lemma {:induction false} ScanKeepsPrefix(items: seq<StationListItem>, id: nat, x: nat, n: nat)
    ensures var m := if x <= |items| then x else |items|;
      m <= |RemoveScan(items, id, x, n)| && RemoveScan(items, id, x, n)[..m] == items[..m]
    decreases n - x
  {
    if x < n {
      if x < |items| && items[x].id == id {
        var rest := items[..x] + items[x + 1..];
        ScanKeepsPrefix(rest, id, x + 1, n);
        assert rest[..x] == items[..x];
      } else {
        ScanKeepsPrefix(items, id, x + 1, n);
        var m := if x <= |items| then x else |items|;
        var m' := if x + 1 <= |items| then x + 1 else |items|;
        assert items[..m'][..m] == items[..m];
      }
    }
  }

  /**
   * The index after a removal is skipped: whatever the other ids, the item
   * right after the first one with the id survives, in that item's place.
   */
  lemma FirstMatchSuccessorSurvives(items: seq<StationListItem>, id: nat, k: nat)
    requires Find(items, Some(id)) == Some(k)
    requires k + 1 < |items|
    ensures k < |Removed(items, id)| && Removed(items, id)[k] == items[k + 1]
    ensures items[k + 1] in Removed(items, id)
  {
    var n := |items|;
    var rest := items[..k] + items[k + 1..];
    ScanSkipsNonMatching(items, id, 0, k, n);
    assert RemoveScan(items, id, k, n) == RemoveScan(rest, id, k + 1, n);
    ScanKeepsPrefix(rest, id, k + 1, n);
    assert rest[k] == items[k + 1];
  }

  /** Ids `0 .. n-1`, as a list built only by appends has, are unique and each is found at its own index. */
  lemma AppendedIdsAreIndices(items: seq<StationListItem>)
    requires Ids(items) == Range(0, |items|)
    ensures UniqueIds(items)
    ensures forall k :: 0 <= k < |items| ==> Find(items, Some(k)) == Some(k)
  {
    forall k | 0 <= k < |items|
      ensures Find(items, Some(k)) == Some(k)
    {
      assert Ids(items)[k] == k;
    }
  }

  /**
   * Ids can repeat: after removing any station but the last from a list built
   * by appends, the next append is given id `len`, which the last station
   * still has.
   */
  lemma AppendAfterRemoveReusesId(items: seq<StationListItem>, id: nat)
    requires Ids(items) == Range(0, |items|)
    requires id + 1 < |items|
    ensures |Removed(items, id)| == |items| - 1
    ensures Removed(items, id)[|items| - 2].id == |Removed(items, id)|
  {
    AppendedIdsAreIndices(items);
    assert items[id].id == id;
    RemoveUnique(items, id, id);
  }

  // ------------------------------------------------------------- the list

  /** The list of stations, with the sequence last written to the station file. */
  class StationList {
    var items: seq<StationListItem>
    /** What `save` last wrote, or `None` while nothing was written in this session. */
    var saved: Option<seq<Station>>

    /** Items are distinct objects with consistent labels, and the file mirrors the list once written. */
    ghost predicate Valid()
      reads this, items
    {
      && Distinct(items)
      && (forall i :: 0 <= i < |items| ==> items[i].Valid())
      && (saved.Some? ==> saved.value == Stations(items))
    }

    constructor ()
      ensures Valid() && items == [] && saved == None
    {
      items := [];
      saved := None;
    }

    /** Writes the stations of the list, in index order. */
    method Save()
      modifies this`saved
      ensures saved == Some(Stations(items))
    {
      var stations: seq<Station> := [];
      for x := 0 to |items|
        invariant stations == Stations(items[..x])
      {
        stations := stations + [items[x].station];
      }
      assert items[..|items|] == items;
      saved := Some(stations);
    }

    /** Adds an item for `station` at the end, with id the old length, and saves. */
    method Append(station: Station) returns (item: StationListItem)
      requires Valid()
      modifies this
      ensures Valid() && fresh(item)
      ensures items == old(items) + [item]
      ensures item.station == station && item.id == old(|items|)
      ensures !item.active
      ensures saved == Some(Stations(items))
    {
      item := new StationListItem(station, |items|);
      items := items + [item];
      Save();
    }

    /** The first item, in index order, with the id asked for. */
    method GetById(id: Option<nat>) returns (r: Option<StationListItem>)
      ensures id.None? ==> r.None?
      ensures r == ItemAt(items, Find(items, id))
    {
      r := None;
      if id.Some? {
        for x := 0 to |items|
          invariant forall j :: 0 <= j < x ==> items[j].id != id.value
        {
          if items[x].id == id.value {
            return Some(items[x]);
          }
        }
      }
    }

    /** Removes by the shifting index loop, then saves. */
    method RemoveById(id: nat)
      requires Valid()
      modifies this
      ensures Valid()
      ensures items == Removed(old(items), id)
      ensures saved == Some(Stations(items))
    {
      var n := |items|;
      var x := 0;
      while x < n
        invariant x <= n
        invariant RemoveScan(items, id, x, n) == Removed(old(items), id)
        invariant Distinct(items)
        invariant forall i :: 0 <= i < |items| ==> items[i] in old(items)
      {
        if x < |items| && items[x].id == id {
          items := items[..x] + items[x + 1..];
        }
        x := x + 1;
      }
      Save();
    }

    /** Appends the stations read from the file, in file order, giving them consecutive ids. */
    method Load(stations: seq<Station>)
      requires Valid()
      modifies this
      ensures Valid()
      ensures |items| == old(|items|) + |stations|
      ensures items[..old(|items|)] == old(items)
      ensures Stations(items) == old(Stations(items)) + stations
      ensures Ids(items) == old(Ids(items)) + Range(old(|items|), old(|items|) + |stations|)
      ensures forall i :: old(|items|) <= i < |items| ==> fresh(items[i]) && !items[i].active
      ensures saved == if stations == [] then old(saved) else Some(Stations(items))
    {
      ghost var before := items;
      for k := 0 to |stations|
        invariant Valid()
        invariant |items| == |before| + k
        invariant items[..|before|] == before
        invariant Stations(items) == Stations(before) + stations[..k]
        invariant Ids(items) == Ids(before) + Range(|before|, |before| + k)
        invariant forall i :: |before| <= i < |items| ==> fresh(items[i]) && !items[i].active
        invariant saved == if k == 0 then old(saved) else Some(Stations(items))
      {
        var _ := Append(stations[k]);
      }
      assert stations[..|stations|] == stations;
    }
  }
}
