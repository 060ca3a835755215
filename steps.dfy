/** The steps of the `GanttChart` methods, on values: the loops over the items with a
    running `currentX`, the removals from the array and the field updates, each proved to
    compute exactly what the corresponding specification function of the other modules
    describes, and the predicate the chart keeps. */
module Steps {
  import opened Common
  import opened Catalog
  import opened Rects
  import opened XSort
  import opened Packing
  import opened Layout
  import opened Snap
  import opened Edits
  import opened Boost
  import opened Drag

  /** Every record names a catalog entry. */
  predicate AllRefs(recs: seq<Rect>, catalog: seq<Entity>) {
    forall k :: 0 <= k < |recs| ==> recs[k].entity < |catalog|
  }

  /** What the chart keeps: references are in range, the array lists each item once (in
      creation order), there is a row and a positive scale, and every record names a
      catalog entry. */
  predicate ValidState(recs: seq<Rect>, live: seq<nat>, catalog: seq<Entity>, rows: nat, timeScale: real,
                       selected: Option<nat>, dragData: Option<DragData>)
  {
    InBounds(recs, live) && Increasing(live) && rows >= 1 && timeScale > 0.0 &&
    AllRefs(recs, catalog) &&
    (selected.Some? ==> selected.value < |recs|) &&
    (dragData.Some? ==> dragData.value.dragged < |recs| && InBounds(recs, dragData.value.rightward))
  }

  /** `b` holds as many records as `a`, each naming the same catalog entry. */
  predicate SameEntities(a: seq<Rect>, b: seq<Rect>) {
    |a| == |b| && forall k :: 0 <= k < |a| ==> b[k].entity == a[k].entity
  }

  /** Changing records without changing what they name, and catalog entries without
      adding or removing any, keeps the chart valid. */
  lemma RelabeledValid(a: seq<Rect>, b: seq<Rect>, live: seq<nat>, catalog: seq<Entity>, catalog': seq<Entity>,
                       rows: nat, timeScale: real, selected: Option<nat>, dragData: Option<DragData>)
    requires ValidState(a, live, catalog, rows, timeScale, selected, dragData)
    requires SameEntities(a, b) && |catalog'| == |catalog|
    ensures ValidState(b, live, catalog', rows, timeScale, selected, dragData)
  {
  }

  /** A new record, appended with its reference, keeps the chart valid. */
  lemma AppendValid(recs: seq<Rect>, live: seq<nat>, catalog: seq<Entity>, rows: nat, timeScale: real,
                    selected: Option<nat>, dragData: Option<DragData>, n: Rect)
    requires ValidState(recs, live, catalog, rows, timeScale, selected, dragData) && n.entity < |catalog|
    ensures ValidState(recs + [n], live + [|recs|], catalog, rows, timeScale, selected, dragData)
  {
    AppendedInBounds(recs, live, n);
    assert forall k :: 0 <= k < |recs| ==> (recs + [n])[k] == recs[k];
  }

  /** Moving items keeps the chart valid. */
  lemma MovedValid(a: seq<Rect>, b: seq<Rect>, live: seq<nat>, catalog: seq<Entity>, rows: nat, timeScale: real,
                   selected: Option<nat>, dragData: Option<DragData>)
    requires ValidState(a, live, catalog, rows, timeScale, selected, dragData) && SameButX(a, b)
    ensures ValidState(b, live, catalog, rows, timeScale, selected, dragData)
  {
  }

  /** The order `pushRectanglesRight` and `collapseGap` visit a row in: its items other
      than those with id `ex`, sorted by `x`. Each item is visited once. */
  function ShiftOrder(recs: seq<Rect>, live: seq<nat>, row: int, ex: int): (o: seq<nat>)
    requires InBounds(recs, live) && Increasing(live)
    ensures InBounds(recs, o) && Distinct(o)
    ensures forall k :: k in o <==> k in live && recs[k].row == row && recs[k].id != ex
  {
    var s := RowRefsExcept(recs, live, row, ex);
    SortByXOrdered(recs, s);
    KeyOrderedDistinct(recs, SortByX(recs, s));
    SortByXMembers(recs, s);
    SortByX(recs, s)
  }

  /** An item moved right by `w`. */
  function PushedBy(rec: Rect, w: real): Rect {
    rec.(x := rec.x + w)
  }

  /** An item moved left by `w`, never below 0. */
  function PulledBy(rec: Rect, w: real): Rect {
    rec.(x := Max(0.0, rec.x - w))
  }

  /** The items of `s` starting at or after `insertX`, moved right by `w`. */
  function PushSome(recs: seq<Rect>, s: seq<nat>, insertX: real, w: real): (r: seq<Rect>)
    ensures |r| == |recs|
  {
    seq(|recs|, k requires 0 <= k < |recs| =>
      if k in s && recs[k].x >= insertX then PushedBy(recs[k], w) else recs[k])
  }

  /** One more visited item of a distinct order: it moves when it starts at or after
      `insertX`, and nothing else changes. */
  lemma PushSomeStep(recs: seq<Rect>, s: seq<nat>, i: nat, insertX: real, w: real, cur: seq<Rect>)
    requires InBounds(recs, s) && Distinct(s) && i < |s| && cur == PushSome(recs, s[..i], insertX, w)
    ensures cur[s[i]].x >= insertX ==> PushSome(recs, s[..i + 1], insertX, w) == cur[s[i] := PushedBy(cur[s[i]], w)]
    ensures cur[s[i]].x < insertX ==> PushSome(recs, s[..i + 1], insertX, w) == cur
  {
    assert s[..i + 1] == s[..i] + [s[i]];
    assert s[i] !in s[..i];
  }

  /** Visiting all of a row's other items pushes exactly as `PushedRight` says. */
  lemma PushSomeAll(recs: seq<Rect>, live: seq<nat>, row: int, insertX: real, w: real, ex: int, s: seq<nat>)
    requires InBounds(recs, live)
    requires forall k :: k in s <==> k in live && recs[k].row == row && recs[k].id != ex
    ensures PushSome(recs, s, insertX, w) == PushedRight(recs, live, row, insertX, w, ex)
  {
  }

  /** The items of `s` starting after `gapStart`, moved left by `gapW`, never below 0. */
  function CollapseSome(recs: seq<Rect>, s: seq<nat>, gapStart: real, gapW: real): (r: seq<Rect>)
    ensures |r| == |recs|
  {
    seq(|recs|, k requires 0 <= k < |recs| =>
      if k in s && recs[k].x > gapStart then PulledBy(recs[k], gapW) else recs[k])
  }

  lemma CollapseSomeStep(recs: seq<Rect>, s: seq<nat>, i: nat, gapStart: real, gapW: real, cur: seq<Rect>)
    requires InBounds(recs, s) && Distinct(s) && i < |s| && cur == CollapseSome(recs, s[..i], gapStart, gapW)
    ensures cur[s[i]].x > gapStart ==> CollapseSome(recs, s[..i + 1], gapStart, gapW) == cur[s[i] := PulledBy(cur[s[i]], gapW)]
    ensures cur[s[i]].x <= gapStart ==> CollapseSome(recs, s[..i + 1], gapStart, gapW) == cur
  {
    assert s[..i + 1] == s[..i] + [s[i]];
    assert s[i] !in s[..i];
  }

  lemma CollapseSomeAll(recs: seq<Rect>, live: seq<nat>, row: int, gapStart: real, gapW: real, ex: int, s: seq<nat>)
    requires InBounds(recs, live)
    requires forall k :: k in s <==> k in live && recs[k].row == row && recs[k].id != ex
    ensures CollapseSome(recs, s, gapStart, gapW) == Collapsed(recs, live, row, gapStart, gapW, ex)
  {
  }

  /** The loop of `pushRectanglesRight` over the visiting order `order`. */
  method PushLoop(recs: seq<Rect>, order: seq<nat>, insertX: real, w: real) returns (out: seq<Rect>)
    requires InBounds(recs, order) && Distinct(order)
    ensures out == PushSome(recs, order, insertX, w)
  {
    out := recs;
    var i := 0;
    assert order[..0] == [];
    while i < |order|
      invariant 0 <= i <= |order|
      invariant out == PushSome(recs, order[..i], insertX, w)
    {
      var r := order[i];
      PushSomeStep(recs, order, i, insertX, w, out);
      if out[r].x >= insertX {
        out := out[r := PushedBy(out[r], w)];
      }
      i := i + 1;
    }
    assert order[..i] == order;
  }

  /** The loop of `collapseGap` over the visiting order `order`. */
  method CollapseLoop(recs: seq<Rect>, order: seq<nat>, gapStart: real, gapW: real) returns (out: seq<Rect>)
    requires InBounds(recs, order) && Distinct(order)
    ensures out == CollapseSome(recs, order, gapStart, gapW)
  {
    out := recs;
    var i := 0;
    assert order[..0] == [];
    while i < |order|
      invariant 0 <= i <= |order|
      invariant out == CollapseSome(recs, order[..i], gapStart, gapW)
    {
      var r := order[i];
      CollapseSomeStep(recs, order, i, gapStart, gapW, out);
      if out[r].x > gapStart {
        out := out[r := PulledBy(out[r], gapW)];
      }
      i := i + 1;
    }
    assert order[..i] == order;
  }

  /** The `forEach` with a running `currentX` shared by the repacking methods: the items
      of `order` are given consecutive positions from `start`. */
  method PackLoop(recs: seq<Rect>, order: seq<nat>, start: real) returns (out: seq<Rect>)
    requires InBounds(recs, order)
    ensures out == Pack(recs, order, start)
  {
    out := recs;
    var currentX := start;
    var i := 0;
    while i < |order|
      invariant 0 <= i <= |order| && |out| == |recs|
      invariant Pack(out, order[i..], currentX) == Pack(recs, order, start)
    {
      var o := order[i];
      var w := out[o].width;
      assert order[i..][1..] == order[i + 1..];
      out := out[o := out[o].(x := currentX)];
      currentX := currentX + w;
      i := i + 1;
    }
  }

  /** The loop of `repositionAllRectangles` over the rows `0 .. rows - 1`. */
  method RepackLoop(recs: seq<Rect>, live: seq<nat>, rows: nat) returns (out: seq<Rect>)
    requires InBounds(recs, live) && Increasing(live)
    ensures out == Repacked(recs, live, rows)
  {
    out := recs;
    var rowIndex := 0;
    while rowIndex < rows
      invariant 0 <= rowIndex <= rows
      invariant out == Repacked(recs, live, rowIndex)
    {
      RepackedStep(recs, live, rowIndex);
      out := PackLoop(out, RowOrder(out, live, rowIndex), 0.0);
      rowIndex := rowIndex + 1;
    }
  }

  /** An item with its catalog duration at scale `timeScale` as width. */
  function Widened(r: Rect, catalog: seq<Entity>, timeScale: real): Rect
    requires r.entity < |catalog|
  {
    r.(width := GetBuildTime(catalog[r.entity]) * timeScale)
  }

  lemma RescaledIs(recs: seq<Rect>, live: seq<nat>, catalog: seq<Entity>, timeScale: real, out: seq<Rect>)
    requires InBounds(recs, live) && EntitiesKnown(recs, live, catalog) && |out| == |recs|
    requires forall k :: 0 <= k < |out| ==> out[k] == if k in live then Widened(recs[k], catalog, timeScale) else recs[k]
    ensures out == Rescaled(recs, live, catalog, timeScale)
  {
    forall k | 0 <= k < |out| ensures out[k] == Rescaled(recs, live, catalog, timeScale)[k] {
      if k in live {
        RescaledAt(recs, live, catalog, timeScale, k);
      }
    }
  }

  /** The `forEach` of `updateTimeScale`: every item of the array gets its catalog
      duration at scale `timeScale` as width. */
  method RescaleLoop(recs: seq<Rect>, live: seq<nat>, catalog: seq<Entity>, timeScale: real) returns (out: seq<Rect>)
    requires InBounds(recs, live) && EntitiesKnown(recs, live, catalog)
    ensures out == Rescaled(recs, live, catalog, timeScale)
  {
    out := recs;
    var i := 0;
    while i < |live|
      invariant 0 <= i <= |live| && |out| == |recs|
      invariant forall k :: 0 <= k < |out| ==>
                  out[k] == if k in live[..i] then Widened(recs[k], catalog, timeScale) else recs[k]
    {
      var rect := live[i];
      assert live[..i + 1] == live[..i] + [rect];
      var buildTime := GetBuildTime(catalog[out[rect].entity]);
      var newWidth := buildTime * timeScale;
      out := out[rect := out[rect].(width := newWidth)];
      assert out[rect] == Widened(recs[rect], catalog, timeScale);
      i := i + 1;
    }
    assert live[..i] == live;
    RescaledIs(recs, live, catalog, timeScale, out);
  }

  /** The `forEach` of `deleteRow(row)` that renumbers the items of the rows below. */
  method RenumberLoop(recs: seq<Rect>, live: seq<nat>, row: int) returns (out: seq<Rect>)
    requires InBounds(recs, live) && Increasing(live)
    ensures out == Renumbered(recs, live, row)
  {
    out := recs;
    var i := 0;
    while i < |live|
      invariant 0 <= i <= |live| && InBounds(recs, live[..i])
      invariant out == Renumbered(recs, live[..i], row)
    {
      var rect := live[i];
      RenumberStep(recs, live, row, i);
      if out[rect].row > row {
        out := out[rect := out[rect].(row := out[rect].row - 1)];
      }
      i := i + 1;
    }
    assert live[..i] == live;
  }

  /** One more item of the array in `RenumberLoop`: it was not renumbered yet, and
      renumbering it is the one change. */
  lemma RenumberStep(recs: seq<Rect>, live: seq<nat>, row: int, i: nat)
    requires InBounds(recs, live) && Increasing(live) && i < |live|
    ensures InBounds(recs, live[..i]) && InBounds(recs, live[..i + 1])
    ensures var prev := Renumbered(recs, live[..i], row);
            var r := live[i];
            prev[r] == recs[r] &&
            Renumbered(recs, live[..i + 1], row) ==
              if recs[r].row > row then prev[r := recs[r].(row := recs[r].row - 1)] else prev
  {
    var r := live[i];
    assert live[..i + 1] == live[..i] + [r];
    assert r !in live[..i] by {
      forall j | 0 <= j < i ensures live[j] != r {
        assert live[j] < live[i];
      }
    }
  }

  /** The `forEach` of `clearRow`: for each item of `s`, the first item of the array with
      its id is spliced out. */
  method ClearLoop(recs: seq<Rect>, live: seq<nat>, s: seq<nat>) returns (out: seq<nat>)
    requires InBounds(recs, live) && InBounds(recs, s) && Increasing(live)
    ensures out == RemoveEach(recs, live, s) && Increasing(out)
  {
    out := live;
    var i := 0;
    while i < |s|
      invariant 0 <= i <= |s| && InBounds(recs, out) && Increasing(out)
      invariant RemoveEach(recs, out, s[i..]) == RemoveEach(recs, live, s)
    {
      var rectData := s[i];
      assert s[i..][1..] == s[i + 1..];
      RemoveFirstIdIncreasing(recs, out, recs[rectData].id);
      var index := FindById(recs, out, recs[rectData].id);
      if index.Some? {
        out := out[..index.value] + out[index.value + 1..];
      }
      i := i + 1;
    }
  }

  /** The row change of `handleMouseMove`: when the cursor is over another row, the
      dragged item, then each follower still in the chart, moves to row `newRow`. */
  method ReseatLoop(recs: seq<Rect>, live: seq<nat>, d: DragData, newRow: int) returns (out: seq<Rect>)
    requires d.dragged < |recs| && InBounds(recs, d.rightward)
    ensures out == Reseated(recs, live, d, newRow)
  {
    if newRow == recs[d.dragged].row {
      return recs;
    }
    out := recs[d.dragged := recs[d.dragged].(row := newRow)];
    var rw := d.rightward;
    var i := 0;
    while i < |rw|
      invariant 0 <= i <= |rw| && |out| == |recs|
      invariant SetRows(out, rw[i..], live, newRow) == Reseated(recs, live, d, newRow)
    {
      var rect := rw[i];
      assert rw[i..][1..] == rw[i + 1..];
      if rect in live {
        out := out[rect := out[rect].(row := newRow)];
      }
      i := i + 1;
    }
  }

  /** The followers loop of `handleMouseMove`: each follower goes `delta` further but not
      left of `currentX`, the end of the item before it. */
  method FollowLoop(recs: seq<Rect>, rs: seq<nat>, start: real, delta: real) returns (out: seq<Rect>)
    requires InBounds(recs, rs)
    ensures out == Follow(recs, rs, start, delta)
  {
    out := recs;
    var currentX := start;
    var i := 0;
    while i < |rs|
      invariant 0 <= i <= |rs| && |out| == |recs|
      invariant Follow(out, rs[i..], currentX, delta) == Follow(recs, rs, start, delta)
    {
      var rect := rs[i];
      assert rs[i..][1..] == rs[i + 1..];
      var nx := Max(currentX, out[rect].x + delta);
      out := out[rect := out[rect].(x := nx)];
      currentX := out[rect].x + out[rect].width;
      i := i + 1;
    }
  }

  /** An index that is nearest `d` and strictly nearer than every index before it is the
      one `Nearest` picks. */
  lemma NearestIs(pts: seq<real>, d: real, b: nat)
    requires b < |pts|
    requires forall j :: 0 <= j < |pts| ==> Abs(d - pts[b]) <= Abs(d - pts[j])
    requires forall j :: 0 <= j < b ==> Abs(d - pts[b]) < Abs(d - pts[j])
    ensures Nearest(pts, d) == b
  {
  }

  /** The scan of `findValidPosition` over the insertion points: the first of the points
      nearest `desired`. */
  method NearestPoint(pts: seq<real>, desired: real) returns (bestX: real)
    requires |pts| > 0
    ensures bestX == pts[Nearest(pts, desired)]
  {
    bestX := pts[0];
    var minDistance := Abs(desired - bestX);
    ghost var best := 0;
    var i := 0;
    while i < |pts|
      invariant 0 <= i <= |pts| && best < |pts| && best <= i && (i > 0 ==> best < i)
      invariant bestX == pts[best] && minDistance == Abs(desired - bestX)
      invariant forall j :: 0 <= j < i ==> minDistance <= Abs(desired - pts[j])
      invariant forall j :: 0 <= j < best ==> minDistance < Abs(desired - pts[j])
    {
      var distance := Abs(desired - pts[i]);
      if distance < minDistance {
        bestX := pts[i];
        minDistance := distance;
        best := i;
      }
      i := i + 1;
    }
    NearestIs(pts, desired, best);
  }

  /** The loop of `positionAtInsertionPoint` that finds where the group goes among the
      other items: the first index whose item starts at or after `x`, else the end. */
  method FindInsertIndex(recs: seq<Rect>, others: seq<nat>, x: real) returns (insertIndex: nat)
    requires InBounds(recs, others)
    ensures insertIndex == InsertIndex(recs, others, x)
  {
    insertIndex := 0;
    var i := 0;
    while i < |others|
      invariant 0 <= i <= |others| && insertIndex == i
      invariant forall j :: 0 <= j < i ==> recs[others[j]].x < x
    {
      if x <= recs[others[i]].x {
        insertIndex := i;
        break;
      }
      insertIndex := i + 1;
      i := i + 1;
    }
  }

  /** `positionRectangle` is the placement `findValidPosition` finds, with the item set
      to its `x`. */
  lemma PositionRectangleIs(recs: seq<Rect>, live: seq<nat>, rows: int, k: nat, p: Placement)
    requires InBounds(recs, live) && k < |recs|
    requires p == ValidPosition(recs, live, rows, recs[k].row, recs[k].x, recs[k].width, recs[k].id)
    ensures k < |p.recs| && Edits.PositionRectangle(recs, live, rows, k) == p.recs[k := p.recs[k].(x := p.x)]
  {
  }

  /** `pushRectanglesRight` on values: the row's other items, visited by `x`, each moved
      right by `w` when it starts at or after `insertX`. */
  method PushRight(recs: seq<Rect>, live: seq<nat>, row: int, insertX: real, w: real, ex: int)
    returns (out: seq<Rect>)
    requires InBounds(recs, live) && Increasing(live)
    ensures out == PushedRight(recs, live, row, insertX, w, ex)
  {
    var rowRects := ShiftOrder(recs, live, row, ex);
    out := PushLoop(recs, rowRects, insertX, w);
    PushSomeAll(recs, live, row, insertX, w, ex, rowRects);
  }

  /** `findValidPosition` on values: the insertion point nearest `desiredX`, and the row
      pushed right to make room when that point lies before the row's end. */
  method FindPosition(recs: seq<Rect>, live: seq<nat>, rows: int, row: int, desiredX: real, w: real, ex: int)
    returns (bestX: real, out: seq<Rect>)
    requires InBounds(recs, live) && Increasing(live)
    ensures Placement(bestX, out) == ValidPosition(recs, live, rows, row, desiredX, w, ex)
    ensures SameButX(recs, out)
  {
    var insertionPoints := InsertionPoints(recs, live, rows, row, ex);
    bestX := NearestPoint(insertionPoints, desiredX);
    out := recs;
    if bestX < RowEnd(recs, live, row, ex) {
      out := PushRight(recs, live, row, bestX, w, ex);
    }
    ValidPositionFrame(recs, live, rows, row, desiredX, w, ex);
  }

  /** `positionRectangle` on values: item `k` goes to its valid position. */
  method PositionAt(recs: seq<Rect>, live: seq<nat>, rows: int, k: nat) returns (out: seq<Rect>)
    requires InBounds(recs, live) && Increasing(live) && k < |recs|
    ensures out == Edits.PositionRectangle(recs, live, rows, k)
  {
    var n := recs[k];
    var validX, pushed := FindPosition(recs, live, rows, n.row, n.x, n.width, n.id);
    PositionRectangleIs(recs, live, rows, k, Placement(validX, pushed));
    out := pushed[k := pushed[k].(x := validX)];
  }

  /** The record `addEntityFromIcon` creates: a fresh item numbered by the array's length,
      on the last row, starting at that row's end, as wide as the entity's build time at the
      current scale. */
  method NewItem(recs: seq<Rect>, live: seq<nat>, rows: int, catalog: seq<Entity>,
                 entity: nat, entityType: string, timeScale: real) returns (n: Rect)
    requires InBounds(recs, live) && entity < |catalog|
    ensures n == NewRect(|live|, rows - 1, RowEnd(recs, live, rows - 1, -1),
                         GetBuildTime(catalog[entity]) * timeScale, entity, entityType)
    ensures InBounds(recs + [n], live + [|recs|])
  {
    var lastRowIndex := rows - 1;
    var initialX := RowEnd(recs, live, lastRowIndex, -1);
    var width := GetBuildTime(catalog[entity]) * timeScale;
    n := NewRect(|live|, lastRowIndex, initialX, width, entity, entityType);
    AppendedInBounds(recs, live, n);
  }

  /** The record `applyChronoboost` writes, computed step by step as the source does, is
      `BoostedRect`, and the catalog time it writes is `BoostedTime`. */
  lemma BoostedRectIs(r: Rect, catalog: seq<Entity>, change: int, timeScale: real, orig: real, count: int)
    requires r.entity < |catalog|
    requires orig == if Truthy(r.originalBuildTime) then r.originalBuildTime.value
                     else GetBuildTime(catalog[r.entity])
    requires var n := if r.boostCount + change > 0 then r.boostCount + change else 0;
             count == if n <= MaxBoosts(orig) then n else MaxBoosts(orig)
    ensures orig == OriginalTime(r, catalog) && count == BoostCount(r.boostCount, change, orig)
    ensures r.(originalBuildTime := Some(orig), boostCount := count,
               width := BoostedTime(orig, count) * timeScale, boosted := count > 0)
            == BoostedRect(r, catalog, change, timeScale)
  {
  }

  /** Writing the boosted record and the boosted catalog time, then repacking, is
      `ApplyChronoboost`. */
  lemma ChronoboostIs(recs: seq<Rect>, live: seq<nat>, rows: nat, catalog: seq<Entity>, timeScale: real,
                      k: nat, change: int, b: Rect, t: real)
    requires InBounds(recs, live) && k < |recs| && recs[k].entity < |catalog|
    requires b == BoostedRect(recs[k], catalog, change, timeScale)
    requires var orig := OriginalTime(recs[k], catalog);
             t == BoostedTime(orig, BoostCount(recs[k].boostCount, change, orig))
    ensures var e := recs[k].entity;
            ApplyChronoboost(recs, live, rows, catalog, timeScale, k, change) ==
              Boosted(Repacked(recs[k := b], live, rows), catalog[e := SetBuildTime(catalog[e], t)])
  {
  }

  /** The first steps of `handleMouseMove` (moving the dragged item and the ones to its
      right to the row under the cursor, then the dragged item to the cursor) are `Grabbed`. */
  lemma GrabbedIs(recs: seq<Rect>, live: seq<nat>, rows: int, d: DragData, x: real, y: real, r1: seq<Rect>)
    requires d.dragged < |recs| && InBounds(recs, d.rightward) && rows >= 1
    requires r1 == Reseated(recs, live, d, RowAt(y, rows))
    ensures |r1| == |recs| && r1[d.dragged].x == recs[d.dragged].x && r1[d.dragged].width == recs[d.dragged].width
    ensures r1[d.dragged := r1[d.dragged].(x := Max(0.0, x))] == Grabbed(recs, live, rows, d, x, y)
    ensures SameEntities(recs, Grabbed(recs, live, rows, d, x, y))
  {
    ReseatedAt(recs, live, d, RowAt(y, rows), d.dragged);
    forall j | 0 <= j < |recs| ensures r1[j].entity == recs[j].entity {
      ReseatedAt(recs, live, d, RowAt(y, rows), j);
    }
  }

  /** `handleMouseMove` step by step (reseat, move the dragged item to the cursor, let the
      items to its right follow from its new right edge) is `MoveDragged`. */
  lemma MoveDraggedIs(recs: seq<Rect>, live: seq<nat>, rows: int, d: DragData, x: real, y: real,
                      r1: seq<Rect>, g: seq<Rect>, out: seq<Rect>)
    requires d.dragged < |recs| && InBounds(recs, d.rightward) && rows >= 1
    requires r1 == Reseated(recs, live, d, RowAt(y, rows))
    requires |r1| == |recs| && g == r1[d.dragged := r1[d.dragged].(x := Max(0.0, x))]
    requires out == Follow(g, d.rightward, g[d.dragged].x + g[d.dragged].width, Max(0.0, x) - r1[d.dragged].x)
    ensures out == MoveDragged(recs, live, rows, d, x, y)
  {
    GrabbedIs(recs, live, rows, d, x, y, r1);
    assert g == Grabbed(recs, live, rows, d, x, y);
    assert g[d.dragged].x + g[d.dragged].width == Max(0.0, x) + recs[d.dragged].width;
    assert Max(0.0, x) - r1[d.dragged].x == Max(0.0, x) - recs[d.dragged].x;
    MoveDraggedUnfold(recs, live, rows, d, x, y);
  }

  /** Dragging changes rows and positions only: every record still names the same entry. */
  lemma MoveDraggedEntities(recs: seq<Rect>, live: seq<nat>, rows: int, d: DragData, x: real, y: real)
    requires d.dragged < |recs| && InBounds(recs, d.rightward) && rows >= 1
    ensures SameEntities(recs, MoveDragged(recs, live, rows, d, x, y))
  {
    MoveDraggedUnfold(recs, live, rows, d, x, y);
    GrabbedEntities(recs, live, rows, d, x, y);
    FollowEntities(recs, Grabbed(recs, live, rows, d, x, y), d.rightward,
                   Max(0.0, x) + recs[d.dragged].width, Max(0.0, x) - recs[d.dragged].x);
  }

  /** Following keeps every record's entry. */
  lemma FollowEntities(recs: seq<Rect>, g: seq<Rect>, rs: seq<nat>, cur: real, delta: real)
    requires InBounds(g, rs) && SameEntities(recs, g)
    ensures SameEntities(recs, Follow(g, rs, cur, delta))
  {
    FollowFrame(g, rs, cur, delta);
    SameButXEntities(recs, g, Follow(g, rs, cur, delta));
  }

  /** Grabbing keeps every record's entry. */
  lemma GrabbedEntities(recs: seq<Rect>, live: seq<nat>, rows: int, d: DragData, x: real, y: real)
    requires d.dragged < |recs| && InBounds(recs, d.rightward) && rows >= 1
    ensures SameEntities(recs, Grabbed(recs, live, rows, d, x, y))
  {
    GrabbedIs(recs, live, rows, d, x, y, Reseated(recs, live, d, RowAt(y, rows)));
  }

  /** Moving records after a change that kept their entries keeps their entries. */
  lemma SameButXEntities(a: seq<Rect>, b: seq<Rect>, c: seq<Rect>)
    requires SameEntities(a, b) && SameButX(b, c)
    ensures SameEntities(a, c)
  {
    forall j | 0 <= j < |a| ensures c[j].entity == a[j].entity {
      assert c[j] == b[j].(x := c[j].x);
    }
  }

  /** `handleMouseMove` while dragging: the dragged item and the ones to its right move to
      the row under the cursor, the dragged item moves to the cursor, and the ones to its
      right follow without overlapping it. */
  method MoveDraggedSteps(recs: seq<Rect>, live: seq<nat>, rows: int, d: DragData, x: real, y: real)
    returns (out: seq<Rect>)
    requires d.dragged < |recs| && InBounds(recs, d.rightward) && rows >= 1
    ensures out == MoveDragged(recs, live, rows, d, x, y)
  {
    var newRow := RowAt(y, rows);
    var r1 := ReseatLoop(recs, live, d, newRow);
    var oldX := r1[d.dragged].x;
    var newX := Max(0.0, x);
    var deltaX := newX - oldX;
    var g := r1[d.dragged := r1[d.dragged].(x := newX)];
    var currentX := g[d.dragged].x + g[d.dragged].width;
    out := FollowLoop(g, d.rightward, currentX, deltaX);
    MoveDraggedIs(recs, live, rows, d, x, y, r1, g, out);
  }
}
