/** Adding and deleting items, clearing rows, and deleting rows. */
module Edits {
  import opened Common
  import opened Catalog
  import opened Rects
  import opened Packing
  import opened Snap

  /** The chart's records and its `rectangles` array after an edit. */
  datatype Items = Items(recs: seq<Rect>, live: seq<nat>)

  /** Every item of the array is in one of the rows `0 .. rows - 1`. */
  predicate RowsInRange(recs: seq<Rect>, live: seq<nat>, rows: int)
    requires InBounds(recs, live)
  {
    forall k :: k in live ==> 0 <= recs[k].row < rows
  }

  /** No two items of the array share an id. */
  predicate UniqueIds(recs: seq<Rect>, live: seq<nat>)
    requires InBounds(recs, live)
  {
    forall i, j :: 0 <= i < j < |live| ==> recs[live[i]].id != recs[live[j]].id
  }

  /** No item of the array has id `id`. */
  predicate FreshId(recs: seq<Rect>, live: seq<nat>, id: int)
    requires InBounds(recs, live)
  {
    forall k :: k in live ==> recs[k].id != id
  }

  /** A new item as `addEntityFromIcon` creates it: no chronoboost data yet. */
  function NewRect(id: nat, row: int, x: real, w: real, entity: nat, entityType: string): Rect {
    Rect(id, row, x, w, entity, entityType, None, 0, false)
  }

  // ---------------------------------------------------------------------------------
  // Adding an item

  /** `positionRectangle(item)`: the item goes to the insertion point of its row nearest
      its current `x`, found with its own id excluded; items of the row from there on are
      pushed right by its width when that point lies before the row's end. */
  function PositionRectangle(recs: seq<Rect>, live: seq<nat>, rows: int, k: nat): (r: seq<Rect>)
    requires InBounds(recs, live) && k < |recs|
    ensures SameButX(recs, r)
    ensures NearestInsertionPoint(recs, live, rows, recs[k].row, recs[k].id, recs[k].x, r[k].x)
    ensures r[k].x < RowEnd(recs, live, recs[k].row, recs[k].id) ==>
              forall j :: 0 <= j < |recs| && j != k ==>
                r[j] == PushedRight(recs, live, recs[k].row, r[k].x, recs[k].width, recs[k].id)[j]
    ensures r[k].x >= RowEnd(recs, live, recs[k].row, recs[k].id) ==>
              forall j :: 0 <= j < |recs| && j != k ==> r[j] == recs[j]
    ensures forall j :: 0 <= j < |recs| && j != k && recs[j].id == recs[k].id ==> r[j] == recs[j]
  {
    var n := recs[k];
    var p := ValidPosition(recs, live, rows, n.row, n.x, n.width, n.id);
    ValidPositionFrame(recs, live, rows, n.row, n.x, n.width, n.id);
    MoveOne(recs, p.recs, k, p.x);
    p.recs[k := p.recs[k].(x := p.x)]
  }

  /** Setting the `x` of one record of a sequence that differs from `recs` only in `x`. */
  lemma MoveOne(recs: seq<Rect>, q: seq<Rect>, k: nat, x: real)
    requires SameButX(recs, q) && k < |q|
    ensures var r := q[k := q[k].(x := x)];
            SameButX(recs, r) && r[k].x == x && forall j :: 0 <= j < |q| && j != k ==> r[j] == q[j]
  {
  }

  /** An item already at an insertion point at or beyond its row's end stays, and
      nothing else moves. */
  lemma PositionRectangleStays(recs: seq<Rect>, live: seq<nat>, rows: int, k: nat)
    requires InBounds(recs, live) && k < |recs|
    requires IsInsertionPoint(recs, live, rows, recs[k].row, recs[k].id, recs[k].x)
    requires recs[k].x >= RowEnd(recs, live, recs[k].row, recs[k].id)
    ensures PositionRectangle(recs, live, rows, k) == recs
  {
    var n := recs[k];
    ValidPositionExact(recs, live, rows, n.row, n.x, n.width, n.id);
    var p := ValidPosition(recs, live, rows, n.row, n.x, n.width, n.id);
    assert p.recs == recs;
    assert p.recs[k := p.recs[k].(x := p.x)] == recs;
  }

  /** `addEntityFromIcon` with the new item numbered `id`: the item is created in the last
      row at the row's end, appended to the array, and then positioned. */
  function AddWithId(recs: seq<Rect>, live: seq<nat>, rows: int, catalog: seq<Entity>,
                     entity: nat, entityType: string, timeScale: real, id: nat): (a: Items)
    requires InBounds(recs, live) && entity < |catalog|
    ensures |a.recs| == |recs| + 1 && a.live == live + [|recs|] && InBounds(a.recs, a.live)
    ensures forall k :: 0 <= k < |recs| ==> a.recs[k] == recs[k].(x := a.recs[k].x)
    ensures a.recs[|recs|] == NewRect(id, rows - 1, a.recs[|recs|].x, a.recs[|recs|].width, entity, entityType)
  {
    var n := NewRect(id, rows - 1, RowEnd(recs, live, rows - 1, -1),
                     GetBuildTime(catalog[entity]) * timeScale, entity, entityType);
    var recs1 := recs + [n];
    AppendedInBounds(recs, live, n);
    var r := PositionRectangle(recs1, live + [|recs|], rows, |recs|);
    assert forall k :: 0 <= k < |recs| ==> recs1[k] == recs[k];
    Items(r, live + [|recs|])
  }

  /** The new item is as wide as its entity's build time at the current scale. */
  lemma AddWithIdWidth(recs: seq<Rect>, live: seq<nat>, rows: int, catalog: seq<Entity>,
                       entity: nat, entityType: string, timeScale: real, id: nat)
    requires InBounds(recs, live) && entity < |catalog|
    ensures AddWithId(recs, live, rows, catalog, entity, entityType, timeScale, id).recs[|recs|].width ==
            GetBuildTime(catalog[entity]) * timeScale
  {
  }

  /** `addEntityFromIcon` as written: the new id is the array's length. */
  function AddEntity(recs: seq<Rect>, live: seq<nat>, rows: int, catalog: seq<Entity>,
                     entity: nat, entityType: string, timeScale: real): (a: Items)
    requires InBounds(recs, live) && entity < |catalog|
  {
    AddWithId(recs, live, rows, catalog, entity, entityType, timeScale, |live|)
  }

  /** Two rows hold the same items at the same places give the same row end. */
  lemma RowEndSameItems(a: seq<Rect>, la: seq<nat>, ra: int, ea: int,
                        b: seq<Rect>, lb: seq<nat>, rb: int, eb: int)
    requires InBounds(a, la) && InBounds(b, lb)
    requires forall k :: (k in la && a[k].row == ra && a[k].id != ea) <==>
                         (k in lb && b[k].row == rb && b[k].id != eb)
    requires forall k :: k in la && a[k].row == ra && a[k].id != ea ==>
                         a[k].x == b[k].x && a[k].width == b[k].width
    ensures RowEnd(a, la, ra, ea) == RowEnd(b, lb, rb, eb)
  {
    var ma, mb := RowEnd(a, la, ra, ea), RowEnd(b, lb, rb, eb);
    if k0 :| k0 in la && a[k0].row == ra && a[k0].id != ea {
      assert k0 in lb && b[k0].row == rb && b[k0].id != eb;
      var i := RowEndWitness(a, la, ra, ea);
      var j := RowEndWitness(b, lb, rb, eb);
      assert b[i].x + b[i].width <= mb;
      assert a[j].x + a[j].width <= ma;
    } else {
      forall k | k in lb && b[k].row == rb ensures b[k].id == eb {
        assert !(k in la && a[k].row == ra && a[k].id != ea);
      }
    }
  }

  lemma AddWithIdUnfold(recs: seq<Rect>, live: seq<nat>, rows: int, catalog: seq<Entity>,
                        entity: nat, entityType: string, timeScale: real, id: nat, n: Rect)
    requires InBounds(recs, live) && entity < |catalog|
    requires n == NewRect(id, rows - 1, RowEnd(recs, live, rows - 1, -1),
                          GetBuildTime(catalog[entity]) * timeScale, entity, entityType)
    ensures InBounds(recs + [n], live + [|recs|])
    ensures AddWithId(recs, live, rows, catalog, entity, entityType, timeScale, id) ==
            Items(PositionRectangle(recs + [n], live + [|recs|], rows, |recs|), live + [|recs|])
  {
    AppendedInBounds(recs, live, n);
  }

  /** An item of the row whose right edge is the row's end. */
  lemma RowEndWitness(recs: seq<Rect>, live: seq<nat>, row: int, ex: int) returns (i: nat)
    requires InBounds(recs, live) && exists k :: k in live && recs[k].row == row && recs[k].id != ex
    ensures i in live && recs[i].row == row && recs[i].id != ex
    ensures recs[i].x + recs[i].width == RowEnd(recs, live, row, ex)
  {
    i :| i in live && recs[i].row == row && recs[i].id != ex &&
         recs[i].x + recs[i].width == RowEnd(recs, live, row, ex);
  }

  /** With an id no item of the array has, the new item lands at the end of the last row
      and nothing else moves. */
  lemma AddWithFreshIdAppends(recs: seq<Rect>, live: seq<nat>, rows: int, catalog: seq<Entity>,
                              entity: nat, entityType: string, timeScale: real, id: nat)
    requires InBounds(recs, live) && entity < |catalog| && FreshId(recs, live, id)
    ensures AddWithId(recs, live, rows, catalog, entity, entityType, timeScale, id).recs ==
            recs + [NewRect(id, rows - 1, RowEnd(recs, live, rows - 1, -1),
                            GetBuildTime(catalog[entity]) * timeScale, entity, entityType)]
  {
    var row := rows - 1;
    var x0 := RowEnd(recs, live, row, -1);
    var n := NewRect(id, row, x0, GetBuildTime(catalog[entity]) * timeScale, entity, entityType);
    var recs1 := recs + [n];
    var live1 := live + [|recs|];
    CreatedAtRowEnd(recs, live, rows, row, n);
    PositionRectangleStays(recs1, live1, rows, |recs|);
  }

  /** The new item, created at the row's end with an id no item has, sits at an
      insertion point at the row's end. */
  lemma CreatedAtRowEnd(recs: seq<Rect>, live: seq<nat>, rows: int, row: int, n: Rect)
    requires InBounds(recs, live) && FreshId(recs, live, n.id)
    requires n.row == row && n.x == RowEnd(recs, live, row, -1)
    ensures InBounds(recs + [n], live + [|recs|])
    ensures IsInsertionPoint(recs + [n], live + [|recs|], rows, row, n.id, n.x)
    ensures n.x == RowEnd(recs + [n], live + [|recs|], row, n.id)
  {
    CreatedIsInsertionPoint(recs, live, rows, row, n);
    CreatedRowEnd(recs, live, row, n);
  }

  lemma CreatedIsInsertionPoint(recs: seq<Rect>, live: seq<nat>, rows: int, row: int, n: Rect)
    requires InBounds(recs, live) && FreshId(recs, live, n.id)
    requires n.row == row && n.x == RowEnd(recs, live, row, -1)
    ensures InBounds(recs + [n], live + [|recs|])
    ensures IsInsertionPoint(recs + [n], live + [|recs|], rows, row, n.id, n.x)
  {
    var recs1 := recs + [n];
    var live1 := live + [|recs|];
    if exists k :: k in live && recs[k].row == row && recs[k].id != -1 {
      var k := RowEndWitness(recs, live, row, -1);
      assert recs1[k] == recs[k];
      assert k in live1 && recs1[k].row == row && recs1[k].id != n.id;
    }
  }

  lemma CreatedRowEnd(recs: seq<Rect>, live: seq<nat>, row: int, n: Rect)
    requires InBounds(recs, live) && FreshId(recs, live, n.id)
    requires n.row == row
    ensures InBounds(recs + [n], live + [|recs|])
    ensures RowEnd(recs, live, row, -1) == RowEnd(recs + [n], live + [|recs|], row, n.id)
  {
    var recs1 := recs + [n];
    var live1 := live + [|recs|];
    assert forall k :: k in live ==> recs1[k] == recs[k];
    assert forall k :: k in live1 <==> k in live || k == |recs|;
    RowEndSameItems(recs, live, row, -1, recs1, live1, row, n.id);
  }

  /** The placed item starts where every other item of the last row has ended, so it
      overlaps none of them. */
  lemma AddWithFreshIdNoOverlap(recs: seq<Rect>, live: seq<nat>, rows: int, catalog: seq<Entity>,
                                entity: nat, entityType: string, timeScale: real, id: nat)
    requires InBounds(recs, live) && entity < |catalog| && FreshId(recs, live, id)
    ensures var a := AddWithId(recs, live, rows, catalog, entity, entityType, timeScale, id);
            forall k :: k in live && recs[k].row == rows - 1 ==>
              a.recs[k] == recs[k] && recs[k].x + recs[k].width <= a.recs[|recs|].x
  {
    var n := AddedRecord(recs, live, rows, catalog, entity, entityType, timeScale, id);
    AppendedInBounds(recs, live, n);
    var q := recs + [n];
    assert q[|recs|] == n;
    forall k | k in live && recs[k].row == rows - 1
      ensures q[k] == recs[k] && recs[k].x + recs[k].width <= n.x
    {
      RowEndBound(recs, live, rows - 1, -1, k);
    }
  }

  lemma RowEndBound(recs: seq<Rect>, live: seq<nat>, row: int, ex: int, k: nat)
    requires InBounds(recs, live) && k in live && recs[k].row == row && recs[k].id != ex
    ensures recs[k].x + recs[k].width <= RowEnd(recs, live, row, ex)
  {
  }

  /** The record a fresh id appends. */
  lemma AddedRecord(recs: seq<Rect>, live: seq<nat>, rows: int, catalog: seq<Entity>,
                    entity: nat, entityType: string, timeScale: real, id: nat) returns (n: Rect)
    requires InBounds(recs, live) && entity < |catalog| && FreshId(recs, live, id)
    ensures n == NewRect(id, rows - 1, RowEnd(recs, live, rows - 1, -1),
                         GetBuildTime(catalog[entity]) * timeScale, entity, entityType)
    ensures AddWithId(recs, live, rows, catalog, entity, entityType, timeScale, id) ==
            Items(recs + [n], live + [|recs|])
  {
    n := NewRect(id, rows - 1, RowEnd(recs, live, rows - 1, -1),
                 GetBuildTime(catalog[entity]) * timeScale, entity, entityType);
    AddWithFreshIdAppends(recs, live, rows, catalog, entity, entityType, timeScale, id);
  }


  /** Every record was numbered at most its own reference: ids come from the array's
      length, which never exceeds the number of records. */
  predicate IdsBelow(recs: seq<Rect>) {
    forall k :: 0 <= k < |recs| ==> recs[k].id <= k
  }

  /** `AddEntity` unfolded: the new record, with the array's length as its id, appended at
      the end of the last row and then positioned. */
  lemma AddEntityUnfold(recs: seq<Rect>, live: seq<nat>, rows: int, catalog: seq<Entity>,
                        entity: nat, entityType: string, timeScale: real, n: Rect)
    requires InBounds(recs, live) && entity < |catalog|
    requires n == NewRect(|live|, rows - 1, RowEnd(recs, live, rows - 1, -1),
                          GetBuildTime(catalog[entity]) * timeScale, entity, entityType)
    ensures InBounds(recs + [n], live + [|recs|])
    ensures AddEntity(recs, live, rows, catalog, entity, entityType, timeScale) ==
            Items(PositionRectangle(recs + [n], live + [|recs|], rows, |recs|), live + [|recs|])
  {
    AddWithIdUnfold(recs, live, rows, catalog, entity, entityType, timeScale, |live|, n);
  }

  /** `addEntityFromIcon` numbering new items by the number of records ever created. */
  function AddEntityFresh(recs: seq<Rect>, live: seq<nat>, rows: int, catalog: seq<Entity>,
                          entity: nat, entityType: string, timeScale: real): (a: Items)
    requires InBounds(recs, live) && entity < |catalog|
  {
    AddWithId(recs, live, rows, catalog, entity, entityType, timeScale, |recs|)
  }

  /** Numbered by the record count, a new item never shares an id, so it is appended at
      the end of the last row and nothing moves. */
  lemma AddEntityFreshAppends(recs: seq<Rect>, live: seq<nat>, rows: int, catalog: seq<Entity>,
                              entity: nat, entityType: string, timeScale: real)
    requires InBounds(recs, live) && entity < |catalog| && IdsBelow(recs)
    ensures AddEntityFresh(recs, live, rows, catalog, entity, entityType, timeScale).recs ==
            recs + [NewRect(|recs|, rows - 1, RowEnd(recs, live, rows - 1, -1),
                            GetBuildTime(catalog[entity]) * timeScale, entity, entityType)]
    ensures IdsBelow(AddEntityFresh(recs, live, rows, catalog, entity, entityType, timeScale).recs)
  {
    AddWithFreshIdAppends(recs, live, rows, catalog, entity, entityType, timeScale, |recs|);
  }

  /** After a deletion the array's length can be the id of a remaining item. Adding an
      item then gives it that id, so the placement ignores the item holding it and puts the
      new item on top of it. Here item 0 was deleted, item 1 has slid to 0, and the new
      item takes id 1. */
  lemma AddEntityReusedIdOverlaps(recs: seq<Rect>, live: seq<nat>, catalog: seq<Entity>)
    requires recs == [Rect(0, 0, 0.0, 10.0, 0, "units", None, 0, false),
                      Rect(1, 0, 0.0, 10.0, 0, "units", None, 0, false)]
    requires live == [1]
    requires catalog == [Entity("Probe", "protoss", Some(12.0), None, Some(50), None)]
    ensures var r := AddEntity(recs, live, 1, catalog, 0, "units", 1.0);
            1 in r.live && 2 in r.live && r.recs[1].row == r.recs[2].row &&
            r.recs[2].x < r.recs[1].x + r.recs[1].width && r.recs[1].x < r.recs[2].x + r.recs[2].width
  {
    assert forall k :: k in live ==> recs[k].row == 0 && recs[k].id == 1;
    SharedIdIgnored(recs, live, 1, catalog, 0, "units", 1.0, 1);
    var r := AddWithId(recs, live, 1, catalog, 0, "units", 1.0, 1);
    assert AddEntity(recs, live, 1, catalog, 0, "units", 1.0) == r;
    assert r.recs[2].x == 0.0 && r.recs[1] == recs[1] && r.recs[2].row == 0;
    AddWithIdWidth(recs, live, 1, catalog, 0, "units", 1.0, 1);
    assert r.recs[2].width == GetBuildTime(catalog[0]) * 1.0 == 12.0;
    assert r.live == live + [|recs|];
  }

  /** When every item of the array is in the last row and has the new item's id, the
      new item is placed at 0 and nothing else moves. */
  lemma SharedIdIgnored(recs: seq<Rect>, live: seq<nat>, rows: int, catalog: seq<Entity>,
                        entity: nat, entityType: string, timeScale: real, id: nat)
    requires InBounds(recs, live) && entity < |catalog|
    requires forall k :: k in live ==> recs[k].row == rows - 1 && recs[k].id == id
    ensures var a := AddWithId(recs, live, rows, catalog, entity, entityType, timeScale, id);
            a.recs[|recs|].x == 0.0 && forall k :: k in live ==> a.recs[k] == recs[k]
  {
    var n := NewRect(id, rows - 1, RowEnd(recs, live, rows - 1, -1),
                     GetBuildTime(catalog[entity]) * timeScale, entity, entityType);
    var recs1 := recs + [n];
    var live1 := live + [|recs|];
    AppendedInBounds(recs, live, n);
    assert forall k :: k in live1 ==> recs1[k].row == rows - 1 && recs1[k].id == id;
    assert recs1[|recs|] == n;
    var r := PositionRectangle(recs1, live1, rows, |recs|);
    assert IsInsertionPoint(recs1, live1, rows, rows - 1, id, r[|recs|].x);
    OnlyZeroPoint(recs1, live1, rows, rows - 1, id, r[|recs|].x);
    forall k | k in live ensures r[k] == recs[k] {
      assert recs1[k] == recs[k] && k != |recs| && recs1[k].id == recs1[|recs|].id;
    }
    AddWithIdUnfold(recs, live, rows, catalog, entity, entityType, timeScale, id, n);
  }

  /** Appending a record and its reference keeps the array in bounds and the old
      records as they were. */
  lemma AppendedInBounds(recs: seq<Rect>, live: seq<nat>, n: Rect)
    requires InBounds(recs, live)
    ensures InBounds(recs + [n], live + [|recs|])
    ensures forall k :: k in live + [|recs|] <==> k in live || k == |recs|
    ensures forall k :: k in live ==> k < |recs| && (recs + [n])[k] == recs[k]
  {
  }

  /** A row whose every item has the excluded id, with no item in another row, offers
      only the insertion point 0. */
  lemma OnlyZeroPoint(recs: seq<Rect>, live: seq<nat>, rows: int, row: int, ex: int, v: real)
    requires InBounds(recs, live) && forall k :: k in live ==> recs[k].row == row && recs[k].id == ex
    requires IsInsertionPoint(recs, live, rows, row, ex, v)
    ensures v == 0.0
  {
  }

  // ---------------------------------------------------------------------------------
  // Removing items

  /** Removing one position of an increasing array keeps it increasing and removes
      exactly that reference. */
  lemma RemoveAt(live: seq<nat>, i: nat)
    requires Increasing(live) && i < |live|
    ensures Increasing(live[..i] + live[i + 1..])
    ensures forall k :: k in live[..i] + live[i + 1..] <==> k in live && k != live[i]
  {
    var r := live[..i] + live[i + 1..];
    forall a, b | 0 <= a < b < |r| ensures r[a] < r[b] {
      var a' := if a < i then a else a + 1;
      var b' := if b < i then b else b + 1;
      assert r[a] == live[a'] && r[b] == live[b'];
    }
    forall k ensures k in r <==> k in live && k != live[i] {
      if k in live && k != live[i] {
        var j :| 0 <= j < |live| && live[j] == k;
        if j < i { assert r[j] == k; } else { assert r[j - 1] == k; }
      }
      if k in r {
        var j :| 0 <= j < |r| && r[j] == k;
        if j < i { assert live[j] == k; } else { assert live[j + 1] == k; }
      }
    }
  }

  lemma RemoveFirstIdIncreasing(recs: seq<Rect>, live: seq<nat>, id: int)
    requires InBounds(recs, live) && Increasing(live)
    ensures Increasing(RemoveFirstId(recs, live, id))
    ensures forall k :: k in RemoveFirstId(recs, live, id) ==> k in live
  {
    var f := FindById(recs, live, id);
    if f.Some? {
      RemoveAt(live, f.value);
    }
  }

  /** With unique ids, removing the first item with the id of a present item removes
      exactly that item. */
  lemma RemoveFirstIdExact(recs: seq<Rect>, live: seq<nat>, k: nat)
    requires InBounds(recs, live) && Increasing(live) && UniqueIds(recs, live) && k in live
    ensures Increasing(RemoveFirstId(recs, live, recs[k].id))
    ensures forall j :: j in RemoveFirstId(recs, live, recs[k].id) <==> j in live && j != k
  {
    var i :| 0 <= i < |live| && live[i] == k;
    FindByIdUnique(recs, live, i);
    assert RemoveFirstId(recs, live, recs[k].id) == live[..i] + live[i + 1..];
    RemoveAt(live, i);
  }

  /** With unique ids, looking up the id of the item at position `i` finds `i`. */
  lemma FindByIdUnique(recs: seq<Rect>, live: seq<nat>, i: nat)
    requires InBounds(recs, live) && UniqueIds(recs, live) && i < |live|
    ensures FindById(recs, live, recs[live[i]].id) == Some(i)
  {
    var f := FindById(recs, live, recs[live[i]].id);
    assert f.Some?;
    var m := f.value;
    assert m <= i;
    if m < i {
      assert false;
    }
  }

  /** Removing, one after another, the first item with the id of each of `s`. */
  function RemoveEach(recs: seq<Rect>, live: seq<nat>, s: seq<nat>): (r: seq<nat>)
    requires InBounds(recs, live) && InBounds(recs, s)
    ensures InBounds(recs, r) && |r| <= |live|
    decreases |s|
  {
    if s == [] then live
    else RemoveEach(recs, RemoveFirstId(recs, live, recs[s[0]].id), s[1..])
  }

  /** `clearRow(row)`: each item of the row, in array order, is removed by looking up
      the first item with its id. */
  function ClearRow(recs: seq<Rect>, live: seq<nat>, row: int): (r: seq<nat>)
    requires InBounds(recs, live)
    ensures InBounds(recs, r) && |r| <= |live|
  {
    RemoveEach(recs, live, RowRefs(recs, live, row))
  }

  lemma {:induction false} RemoveEachIncreasing(recs: seq<Rect>, live: seq<nat>, s: seq<nat>)
    requires InBounds(recs, live) && InBounds(recs, s) && Increasing(live)
    ensures Increasing(RemoveEach(recs, live, s))
    ensures forall k :: k in RemoveEach(recs, live, s) ==> k in live
    decreases |s|
  {
    if s != [] {
      var l := RemoveFirstId(recs, live, recs[s[0]].id);
      RemoveFirstIdIncreasing(recs, live, recs[s[0]].id);
      RemoveEachIncreasing(recs, l, s[1..]);
    }
  }

  /** With unique ids, removing each of `s` removes exactly the items `s`. */
  lemma {:induction false} RemoveEachExact(recs: seq<Rect>, live: seq<nat>, s: seq<nat>)
    requires InBounds(recs, live) && InBounds(recs, s) && Increasing(live) && UniqueIds(recs, live)
    requires Increasing(s) && forall k :: k in s ==> k in live
    ensures forall k :: k in RemoveEach(recs, live, s) <==> k in live && k !in s
    decreases |s|
  {
    if s != [] {
      var k := s[0];
      var l := RemoveFirstId(recs, live, recs[k].id);
      RemoveFirstIdExact(recs, live, k);
      assert UniqueIds(recs, l) by {
        forall i, j | 0 <= i < j < |l| ensures recs[l[i]].id != recs[l[j]].id {
          SubsequenceIds(recs, live, l, i, j);
        }
      }
      assert forall j :: j in s <==> j == k || j in s[1..] by {
        assert s == [k] + s[1..];
      }
      assert forall j :: j in s[1..] ==> k < j by {
        forall j | j in s[1..] ensures k < j {
          HeadBelowTail(s, j);
        }
      }
      assert Increasing(s[1..]);
      RemoveEachExact(recs, l, s[1..]);
    }
  }

  /** Two positions of an increasing subsequence of an array with unique ids hold items
      with different ids. */
  lemma SubsequenceIds(recs: seq<Rect>, live: seq<nat>, l: seq<nat>, i: nat, j: nat)
    requires InBounds(recs, live) && Increasing(live) && UniqueIds(recs, live)
    requires InBounds(recs, l) && Increasing(l) && (forall k :: k in l ==> k in live) && i < j < |l|
    ensures recs[l[i]].id != recs[l[j]].id
  {
    assert l[i] in l && l[j] in l;
    var a :| 0 <= a < |live| && live[a] == l[i];
    var b :| 0 <= b < |live| && live[b] == l[j];
    assert a != b;
    if a > b {
      assert live[b] < live[a];
    }
  }

  /** With unique ids, `clearRow` removes exactly the items of the row and keeps the
      array's order. */
  lemma ClearRowExact(recs: seq<Rect>, live: seq<nat>, row: int)
    requires InBounds(recs, live) && Increasing(live) && UniqueIds(recs, live)
    ensures Increasing(ClearRow(recs, live, row))
    ensures forall k :: k in ClearRow(recs, live, row) <==> k in live && recs[k].row != row
  {
    var s := RowRefs(recs, live, row);
    RowRefsMembers(recs, live, row);
    RowRefsIncreasing(recs, live, row);
    RemoveEachIncreasing(recs, live, s);
    RemoveEachExact(recs, live, s);
  }

  /** `deleteEntity(item)`: the first item of the array with the item's id is removed, and
      the items of the item's row that start after it slide left by its width. The item
      may already be off the array (a stale handler); the slide happens all the same. */
  function DeleteEntity(recs: seq<Rect>, live: seq<nat>, k: nat): (d: Items)
    requires InBounds(recs, live) && k < |recs|
    ensures d.live == RemoveFirstId(recs, live, recs[k].id) && InBounds(d.recs, d.live)
    ensures SameButX(recs, d.recs)
  {
    var l := RemoveFirstId(recs, live, recs[k].id);
    CollapsedFrame(recs, l, recs[k].row, recs[k].x, recs[k].width, -1);
    Items(Collapsed(recs, l, recs[k].row, recs[k].x, recs[k].width, -1), l)
  }

  /** Deleting an item moves nothing outside its row and nothing at or before its start. */
  lemma DeleteEntityFrame(recs: seq<Rect>, live: seq<nat>, k: nat)
    requires InBounds(recs, live) && k < |recs|
    ensures var d := DeleteEntity(recs, live, k);
            forall j :: 0 <= j < |recs| && (recs[j].row != recs[k].row || recs[j].x <= recs[k].x) ==>
              d.recs[j] == recs[j]
  {
  }

  /** Deleting an item from a row packed from `start` leaves the rest of the row packed
      from `start`, in the same order. */
  lemma DeleteEntityKeepsPacked(recs: seq<Rect>, live: seq<nat>, order: seq<nat>, j: nat, start: real)
    requires InBounds(recs, live) && Increasing(live) && UniqueIds(recs, live)
    requires InBounds(recs, order) && Distinct(order) && j < |order| && order[j] in live
    requires start >= 0.0 && PackedBy(recs, order, start) && WidthsNonNeg(recs, order)
    requires forall i :: 0 <= i < |order| ==> order[i] in live && recs[order[i]].row == recs[order[j]].row
    ensures var d := DeleteEntity(recs, live, order[j]);
            (forall i :: 0 <= i < |order| ==> (order[i] in d.live <==> i != j)) &&
            PackedBy(d.recs, order[..j] + order[j + 1..], start)
  {
    var k := order[j];
    var l := RemoveFirstId(recs, live, recs[k].id);
    RemoveFirstIdExact(recs, live, k);
    forall i | 0 <= i < |order| && i != j ensures order[i] in l && recs[order[i]].row == recs[k].row {
      assert order[i] != k;
    }
    CollapseKeepsPacked(recs, l, recs[k].row, order, j, start);
  }

  // ---------------------------------------------------------------------------------
  // Deleting a row

  /** The renumbering of `deleteRow(row)`: items of the array below `row` move up one. */
  function Renumbered(recs: seq<Rect>, live: seq<nat>, row: int): (r: seq<Rect>)
    requires InBounds(recs, live)
    ensures |r| == |recs|
  {
    seq(|recs|, k requires 0 <= k < |recs| =>
      if k in live && recs[k].row > row then recs[k].(row := recs[k].row - 1) else recs[k])
  }

  /** `deleteRow(row)` on the items: with more than one row, the row is cleared and the
      rows below it are renumbered; the last remaining row is never deleted. */
  function DeleteRow(recs: seq<Rect>, live: seq<nat>, rows: int, row: int): (d: Items)
    requires InBounds(recs, live)
    ensures rows <= 1 ==> d == Items(recs, live)
    ensures |d.recs| == |recs| && InBounds(d.recs, d.live)
  {
    if rows <= 1 then Items(recs, live)
    else
      var l := ClearRow(recs, live, row);
      Items(Renumbered(recs, l, row), l)
  }

  /** With unique ids, deleting row `row` of `rows` removes exactly that row's items,
      keeps the others in array order, moves the rows below it up by one and leaves every
      item in one of the `rows - 1` remaining rows. */
  lemma DeleteRowRenumbers(recs: seq<Rect>, live: seq<nat>, rows: int, row: int)
    requires InBounds(recs, live) && Increasing(live) && UniqueIds(recs, live)
    requires RowsInRange(recs, live, rows) && 0 <= row < rows && rows > 1
    ensures var d := DeleteRow(recs, live, rows, row);
            Increasing(d.live) && RowsInRange(d.recs, d.live, rows - 1) &&
            (forall k :: k in d.live <==> k in live && recs[k].row != row) &&
            (forall k :: k in d.live && recs[k].row < row ==> d.recs[k] == recs[k]) &&
            (forall k :: k in d.live && recs[k].row > row ==> d.recs[k] == recs[k].(row := recs[k].row - 1))
  {
    ClearRowExact(recs, live, row);
  }
}
