/** The `GanttChart` object: its state and the methods that change it in place.

    Every method here does what the source does, delegating its loops to the methods of
    `Steps`, and is proved to produce exactly the state that the corresponding
    specification function of the other modules describes; the properties of the
    operations are proved about those functions. */
module Chart {
  import opened Common
  import opened Catalog
  import opened Rects
  import opened XSort
  import opened Packing
  import opened Layout
  import opened Snap
  import opened Edits
  import opened Boost
  import opened Drag
  import opened Steps

  class GanttChart {
    /** Every item record ever created, indexed by reference; deleted items keep theirs. */
    var records: seq<Rect>
    /** `rectangles`: the chart's items, as references into `records`. */
    var rectangles: seq<nat>
    /** The catalog entries the items share. */
    var catalog: seq<Entity>
    var rows: nat
    /** Pixels per second. */
    var timeScale: real
    /** `selectedRectangle`. */
    var selected: Option<nat>
    var dragData: Option<DragData>

    predicate Valid()
      reads this
    {
      ValidState(records, rectangles, catalog, rows, timeScale, selected, dragData)
    }

    /** Nothing but the item records changed. */
    twostate predicate OnlyRecords()
      reads this
    {
      rectangles == old(rectangles) && catalog == old(catalog) && rows == old(rows) &&
      timeScale == old(timeScale) && selected == old(selected) && dragData == old(dragData)
    }

    /** The constructor: one empty row at 3 pixels per second. */
    constructor (catalog: seq<Entity>)
      ensures Valid() && fresh(this)
      ensures records == [] && rectangles == [] && this.catalog == catalog && rows == 1 &&
              timeScale == 3.0 && selected == None && dragData == None
    {
      records := [];
      rectangles := [];
      this.catalog := catalog;
      rows := 1;
      timeScale := 3.0;
      selected := None;
      dragData := None;
    }

    // -------------------------------------------------------------------------------
    // Repacking

    /** Lays the items `order` out side by side from `start`. */
    method PackInPlace(order: seq<nat>, start: real)
      requires Valid() && InBounds(records, order)
      modifies this
      ensures Valid() && OnlyRecords()
      ensures records == Pack(old(records), order, start)
    {
      records := PackLoop(records, order, start);
      PackFrame(old(records), order, start);
      MovedValid(old(records), records, rectangles, catalog, rows, timeScale, selected, dragData);
    }

    /** `repositionAllRectangles`: each row `0 .. rows - 1` in turn is laid out from 0 in
        stable ascending-`x` order. */
    method RepositionAllRectangles()
      requires Valid()
      modifies this
      ensures Valid() && OnlyRecords()
      ensures records == Repacked(old(records), rectangles, rows)
    {
      records := RepackLoop(records, rectangles, rows);
      RepackedFrame(old(records), rectangles, rows);
      MovedValid(old(records), records, rectangles, catalog, rows, timeScale, selected, dragData);
    }

    /** `alignRowLeft(row)`: nothing for an empty row, otherwise the row laid out from 0
        in stable ascending-`x` order. */
    method AlignRowLeft(row: int)
      requires Valid()
      modifies this
      ensures Valid() && OnlyRecords()
      ensures records == Pack(old(records), RowOrder(old(records), rectangles, row), 0.0)
    {
      var rowRects := RowOrder(records, rectangles, row);
      if |rowRects| == 0 {
        return;
      }
      PackInPlace(rowRects, 0.0);
    }

    /** `alignRowRight(row)`: nothing for an empty row, otherwise the row laid out in
        stable ascending-`x` order so that it ends where the row above ends, starting no
        earlier than 0. */
    method AlignRowRight(row: int)
      requires Valid()
      modifies this
      ensures Valid() && OnlyRecords()
      ensures records == Pack(old(records), RowOrder(old(records), rectangles, row),
                              AlignRightStart(old(records), rectangles, row))
    {
      var rowRects := RowOrder(records, rectangles, row);
      if |rowRects| == 0 {
        return;
      }
      var totalWidth := SumW(records, rowRects);
      var alignmentX := 0.0;
      if row > 0 {
        alignmentX := RowEnd(records, rectangles, row - 1, -1);
      }
      var startX := Max(0.0, alignmentX - totalWidth);
      PackInPlace(rowRects, startX);
    }

    // -------------------------------------------------------------------------------
    // Shifts within a row

    /** `pushRectanglesRight(row, insertX, width, ex)`: the row's items other than those
        with id `ex`, visited by `x`, move right by `width` when they start at or after
        `insertX`. */
    method PushRectanglesRight(row: int, insertX: real, insertWidth: real, excludeId: int)
      requires Valid()
      modifies this
      ensures Valid() && OnlyRecords()
      ensures records == PushedRight(old(records), rectangles, row, insertX, insertWidth, excludeId)
    {
      records := PushRight(records, rectangles, row, insertX, insertWidth, excludeId);
      PushedRightFrame(old(records), rectangles, row, insertX, insertWidth, excludeId);
      MovedValid(old(records), records, rectangles, catalog, rows, timeScale, selected, dragData);
    }

    /** `collapseGap(row, gapStartX, gapWidth, ex)`: the row's items other than those with
        id `ex`, visited by `x`, that start after `gapStartX` move left by `gapWidth`,
        never below 0. */
    method CollapseGap(row: int, gapStartX: real, gapWidth: real, excludeId: int)
      requires Valid()
      modifies this
      ensures Valid() && OnlyRecords()
      ensures records == Collapsed(old(records), rectangles, row, gapStartX, gapWidth, excludeId)
    {
      var rowRects := ShiftOrder(records, rectangles, row, excludeId);
      records := CollapseLoop(records, rowRects, gapStartX, gapWidth);
      CollapseSomeAll(old(records), rectangles, row, gapStartX, gapWidth, excludeId, rowRects);
      CollapsedFrame(old(records), rectangles, row, gapStartX, gapWidth, excludeId);
      MovedValid(old(records), records, rectangles, catalog, rows, timeScale, selected, dragData);
    }

    // -------------------------------------------------------------------------------
    // Placing an item

    /** `findValidPosition(row, desiredX, width, ex)`: the insertion point nearest
        `desiredX` (the first on ties), with the row's other items from there on pushed
        right by `width` when it lies before the row's end. The source's fallback for an
        empty point list is never taken: 0 is always a point. */
    method FindValidPosition(row: int, desiredX: real, width: real, excludeId: int) returns (bestX: real)
      requires Valid()
      modifies this
      ensures Valid() && OnlyRecords()
      ensures var p := ValidPosition(old(records), rectangles, rows, row, desiredX, width, excludeId);
              bestX == p.x && records == p.recs
    {
      bestX, records := FindPosition(records, rectangles, rows, row, desiredX, width, excludeId);
      MovedValid(old(records), records, rectangles, catalog, rows, timeScale, selected, dragData);
    }

    /** `positionRectangle(item)`: the item is moved to the valid position nearest its
        current `x` in its row, its own id excluded. */
    method PositionRectangle(k: nat)
      requires Valid() && k < |records|
      modifies this
      ensures Valid() && OnlyRecords()
      ensures records == Edits.PositionRectangle(old(records), rectangles, rows, k)
    {
      records := PositionAt(records, rectangles, rows, k);
      MovedValid(old(records), records, rectangles, catalog, rows, timeScale, selected, dragData);
    }

    // -------------------------------------------------------------------------------
    // Adding, rescaling, deleting

    /** `addEntityFromIcon(entity, entityType)`: a new item, numbered by the array's
        length, is created at the end of the last row with its catalog duration as
        width, appended to the array and positioned. The new state is `Edits.AddEntity`
        of the old one, written out as `Edits.AddEntityUnfold` states it. */
    method AddEntityFromIcon(entity: nat, entityType: string)
      requires Valid() && entity < |catalog|
      modifies this
      ensures Valid()
      ensures catalog == old(catalog) && rows == old(rows) && timeScale == old(timeScale) &&
              selected == old(selected) && dragData == old(dragData)
      ensures rectangles == old(rectangles) + [|old(records)|]
      ensures records == Edits.PositionRectangle(
                old(records) + [NewRect(|old(rectangles)|, old(rows) - 1,
                                        RowEnd(old(records), old(rectangles), old(rows) - 1, -1),
                                        GetBuildTime(old(catalog)[entity]) * old(timeScale), entity, entityType)],
                rectangles, old(rows), |old(records)|)
    {
      var n := NewItem(records, rectangles, rows, catalog, entity, entityType, timeScale);
      AppendValid(records, rectangles, catalog, rows, timeScale, selected, dragData, n);
      var k := |records|;
      records, rectangles := records + [n], rectangles + [k];
      PositionRectangle(k);
    }

    /** `handleWheel`: with ctrl held, the scale shrinks by 10% for a downward wheel and
        grows by 10% otherwise, clamped to `[0.5, 10]`; only a changed scale triggers
        `updateTimeScale`. */
    method HandleWheel(ctrlKey: bool, deltaY: real)
      requires Valid() && EntitiesKnown(records, rectangles, catalog)
      modifies this
      ensures Valid()
      ensures rectangles == old(rectangles) && catalog == old(catalog) && rows == old(rows) &&
              selected == old(selected) && dragData == old(dragData)
      ensures timeScale == if ctrlKey then WheelScale(old(timeScale), deltaY) else old(timeScale)
      ensures records == if timeScale != old(timeScale)
                         then Boost.UpdateTimeScale(old(records), rectangles, rows, catalog, timeScale)
                         else old(records)
    {
      if ctrlKey {
        // the factor is 0.9 when scrolling down and 1.1 otherwise
        var scaled := if deltaY > 0.0 then timeScale * 0.9 else timeScale * 1.1;
        var newTimeScale := Max(0.5, Min(10.0, scaled));
        if newTimeScale != timeScale {
          timeScale := newTimeScale;
          UpdateTimeScale();
        }
      }
    }

    /** `updateTimeScale()`: every item gets its catalog duration at the current scale as
        width, then every row is repositioned. */
    method UpdateTimeScale()
      requires Valid() && EntitiesKnown(records, rectangles, catalog)
      modifies this
      ensures Valid() && OnlyRecords()
      ensures records == Boost.UpdateTimeScale(old(records), rectangles, rows, catalog, timeScale)
    {
      var recs := RescaleLoop(records, rectangles, catalog, timeScale);
      assert SameEntities(records, recs) by {
        forall k | 0 <= k < |recs| ensures recs[k].entity == records[k].entity {
          if k in rectangles {
            RescaledAt(records, rectangles, catalog, timeScale, k);
          }
        }
      }
      RelabeledValid(records, recs, rectangles, catalog, catalog, rows, timeScale, selected, dragData);
      records := recs;
      RepositionAllRectangles();
    }

    /** `deleteEntity(item)`: nothing without an item; otherwise the first item of the
        array with its id is spliced out, the selection is cleared if it was this item,
        and the items of its row that start after it slide left by its width. */
    method DeleteEntity(item: Option<nat>)
      requires Valid() && (item.Some? ==> item.value < |records|)
      modifies this
      ensures Valid()
      ensures catalog == old(catalog) && rows == old(rows) && timeScale == old(timeScale) &&
              dragData == old(dragData)
      ensures item.None? ==> records == old(records) && rectangles == old(rectangles) && selected == old(selected)
      ensures item.Some? ==>
                Items(records, rectangles) == Edits.DeleteEntity(old(records), old(rectangles), item.value) &&
                selected == if old(selected) == item then None else old(selected)
    {
      if item.None? {
        return;
      }
      var rectData := item.value;
      var index := FindById(records, rectangles, records[rectData].id);
      RemoveFirstIdIncreasing(records, rectangles, records[rectData].id);
      if index.Some? {
        rectangles := rectangles[..index.value] + rectangles[index.value + 1..];
      }
      if selected == Some(rectData) {
        selected := None;
      }
      CollapseGap(records[rectData].row, records[rectData].x, records[rectData].width, -1);
    }

    /** `clearRow(row)`: each item of the row, in array order, is removed by looking up
        the first item with its id; a selection in that row is cleared. */
    method ClearRow(row: int)
      requires Valid()
      modifies this
      ensures Valid()
      ensures records == old(records) && catalog == old(catalog) && rows == old(rows) &&
              timeScale == old(timeScale) && dragData == old(dragData)
      ensures rectangles == Edits.ClearRow(old(records), old(rectangles), row)
      ensures selected == if old(selected).Some? && records[old(selected).value].row == row
                          then None else old(selected)
    {
      var rowRects := RowRefs(records, rectangles, row);
      rectangles := ClearLoop(records, rectangles, rowRects);
      if selected.Some? && records[selected.value].row == row {
        selected := None;
      }
    }

    /** `deleteRow(row)`: refused when only one row is left; otherwise the row is cleared,
        the items of the rows below it move up one row and there is one row fewer. */
    method DeleteRow(row: int)
      requires Valid()
      modifies this
      ensures Valid()
      ensures catalog == old(catalog) && timeScale == old(timeScale) && dragData == old(dragData)
      ensures rows == if old(rows) <= 1 then old(rows) else old(rows) - 1
      ensures Items(records, rectangles) == Edits.DeleteRow(old(records), old(rectangles), old(rows), row)
      ensures old(rows) <= 1 ==> selected == old(selected)
      ensures old(rows) > 1 ==>
                selected == if old(selected).Some? && old(records)[old(selected).value].row == row
                            then None else old(selected)
    {
      if rows <= 1 {
        return;
      }
      ClearRow(row);
      var recs := RenumberLoop(records, rectangles, row);
      RelabeledValid(records, recs, rectangles, catalog, catalog, rows, timeScale, selected, dragData);
      records := recs;
      rows := rows - 1;
    }

    /** `addRow()`: one more (empty) row at the bottom. */
    method AddRow()
      requires Valid()
      modifies this
      ensures Valid()
      ensures rows == old(rows) + 1
      ensures records == old(records) && rectangles == old(rectangles) && catalog == old(catalog) &&
              timeScale == old(timeScale) && selected == old(selected) && dragData == old(dragData)
    {
      rows := rows + 1;
    }

    /** `applyChronoboost(item, change)`: nothing without an item; otherwise the item's
        duration snapshot is taken if missing, its boost count moves by `change` (not
        below 0, at most one per 30 seconds of the snapshot), the shared catalog entry and
        the item's width get the boosted duration, and every row is repositioned. */
    method ApplyChronoboost(item: Option<nat>, change: int)
      requires Valid() && (item.Some? ==> item.value < |records|)
      modifies this
      ensures Valid()
      ensures rectangles == old(rectangles) && rows == old(rows) && timeScale == old(timeScale) &&
              selected == old(selected) && dragData == old(dragData)
      ensures item.None? ==> records == old(records) && catalog == old(catalog)
      ensures item.Some? ==>
                Boosted(records, catalog) ==
                  Boost.ApplyChronoboost(old(records), rectangles, rows, old(catalog), timeScale, item.value, change)
    {
      if item.None? {
        return;
      }
      var k := item.value;
      var rectangleData := records[k];
      var originalBuildTime := rectangleData.originalBuildTime;
      if !Truthy(originalBuildTime) {
        originalBuildTime := Some(GetBuildTime(catalog[rectangleData.entity]));
      }
      var orig := originalBuildTime.value;
      var newCount := if rectangleData.boostCount + change > 0 then rectangleData.boostCount + change else 0;
      var maxChronoboosts := MaxBoosts(orig);
      var count := if newCount <= maxChronoboosts then newCount else maxChronoboosts;
      var newBuildTime := BoostedTime(orig, count);
      var newWidth := BoostedTime(orig, count) * timeScale;
      var boosted := rectangleData.(originalBuildTime := Some(orig), boostCount := count,
                                    width := newWidth, boosted := count > 0);
      var catalog' := catalog[rectangleData.entity := SetBuildTime(catalog[rectangleData.entity], newBuildTime)];
      BoostedRectIs(rectangleData, catalog, change, timeScale, orig, count);
      ChronoboostIs(records, rectangles, rows, catalog, timeScale, k, change, boosted, newBuildTime);
      RelabeledValid(records, records[k := boosted], rectangles, catalog, catalog', rows, timeScale, selected, dragData);
      catalog := catalog';
      records := records[k := boosted];
      ghost var pre := records;
      RepositionAllRectangles();
      assert records == Repacked(pre, rectangles, rows);
    }

    // -------------------------------------------------------------------------------
    // Dragging

    /** `handleMouseDown` on the item `hit` under the cursor (if any): an item not in the
        array is ignored; otherwise it is selected and a drag starts with the items of its
        row strictly to its right. */
    method HandleMouseDown(hit: Option<nat>)
      requires Valid()
      modifies this
      ensures Valid()
      ensures records == old(records) && rectangles == old(rectangles) && catalog == old(catalog) &&
              rows == old(rows) && timeScale == old(timeScale)
      ensures hit.None? || hit.value !in rectangles ==> selected == old(selected) && dragData == old(dragData)
      ensures hit.Some? && hit.value in rectangles ==>
                selected == hit && dragData == Some(StartDrag(records, rectangles, hit.value))
    {
      if hit.None? || hit.value !in rectangles {
        return;
      }
      var rectData := hit.value;
      selected := Some(rectData);
      var rightwardRects := Rightward(records, rectangles, rectData);
      assert InBounds(records, rightwardRects);
      dragData := Some(DragData(rectData, records[rectData].x, records[rectData].row, rightwardRects));
    }

    /** `handleMouseMove` with the cursor at `(x, y)` in chart coordinates, the grab
        offsets already taken off: during a drag, the group changes row when the cursor
        is over another row, the dragged item goes to `max(0, x)` and its followers move
        with it, none left of the end of the one before. */
    method HandleMouseMove(x: real, y: real)
      requires Valid()
      modifies this
      ensures Valid() && OnlyRecords()
      ensures records == if dragData.Some? then MoveDragged(old(records), rectangles, rows, dragData.value, x, y)
                         else old(records)
    {
      if dragData.None? {
        return;
      }
      var recs := MoveDraggedSteps(records, rectangles, rows, dragData.value, x, y);
      MoveDraggedEntities(records, rectangles, rows, dragData.value, x, y);
      RelabeledValid(records, recs, rectangles, catalog, catalog, rows, timeScale, selected, dragData);
      records := recs;
    }

    /** `positionAtInsertionPoint(dragged)` for the drag `d`: the group is spliced among
        the other items of the dragged item's row before the first that starts at or after
        it, and the row is laid out from 0 in that order. */
    method PositionAtInsertionPoint(d: DragData)
      requires Valid() && d.dragged < |records| && InBounds(records, d.rightward)
      modifies this
      ensures Valid() && OnlyRecords()
      ensures records == Dropped(old(records), rectangles, d)
    {
      var otherRects := Others(records, rectangles, d);
      var insertIndex := FindInsertIndex(records, otherRects, records[d.dragged].x);
      var draggedGroup := [d.dragged] + d.rightward;
      var allRects := otherRects[..insertIndex] + draggedGroup + otherRects[insertIndex..];
      assert allRects == DropOrder(records, rectangles, d);
      PackInPlace(allRects, 0.0);
    }

    /** `handleMouseUp`: a drag in progress is dropped at its insertion point and ends;
        the selection is cleared in any case. */
    method HandleMouseUp()
      requires Valid()
      modifies this
      ensures Valid()
      ensures rectangles == old(rectangles) && catalog == old(catalog) && rows == old(rows) &&
              timeScale == old(timeScale)
      ensures records == if old(dragData).Some? then Dropped(old(records), rectangles, old(dragData).value)
                         else old(records)
      ensures dragData == None && selected == None
    {
      if dragData.Some? {
        PositionAtInsertionPoint(dragData.value);
        dragData := None;
      }
      selected := None;
    }
  }
}
