# SC2 build-order timeline: a verified model

This project models two parts of a StarCraft II build-order planner.

The first is the timeline layout engine of the browser `GanttChart` class
(`src/sc2_gantt/frontend/js/gantt.js`). A build order is a set of rows. Each row
holds items (units, buildings, upgrades) laid out on a time axis: an item is an
interval `[x, x + width)` in pixels, where `width` is the entity's build or research
time times the chart's `timeScale`. The model covers:

- placing a new item at the end of the last row;
- snapping to insertion points and pushing items right;
- relaying rows left-to-right in x-order (`repositionAllRectangles`, align left/right);
- closing the gap a deleted item leaves;
- clearing, deleting and adding rows;
- zooming;
- chronoboost (one 10-second cut per 30 seconds of build time);
- the drag state machine (grab, move with the items to its right, drop into the row);
- the time-span, row-statistics and export computations.

The second is three pure helpers of the catalog scraper
(`src/sc2_gantt/backend/sc2_data/comprehensive_scraper.py`):

- `aggregate_upgrades` merges upgrade records by key;
- `_parse_field_content` splits an infobox field into items;
- `_find_matching_icon` scores icon file names against an upgrade name and keeps the
  first best.

How the model is laid out:

- The chart's array of record objects is modelled as a heap:
  - `records: seq<Rect>` holds every record ever created, and its index is the
    object's identity.
  - `rectangles: seq<nat>` is the JavaScript array of references to those records.
  - A deleted record therefore stays addressable, as the JavaScript object does.
- Catalog entries are shared objects. Records hold an index into the chart's
  `catalog`, so chronoboost's write to the entry is seen by every item of that
  entity.
- The mutators are methods of the class `Chart.GanttChart`. Each is specified by a
  function over the record sequence (`Packing.Pack`, `Layout.Repacked`,
  `Packing.PushedRight`, `Drag.Dropped`, ...). The loops that compute them are
  methods in `Steps`, proved equal to those functions.
- The scraper's loops are methods in `Scraper` with loop invariants, proved against
  specification functions.

Coordinates and times are `real`. `formatTime` works on natural seconds.

## Model

| member | source | states |
|---|---|---|
| Common.Max | src/sc2_gantt/frontend/js/gantt.js:991 | `Math.max` of two values: an upper bound of both and equal to one of them |
| Common.Abs | src/sc2_gantt/frontend/js/gantt.js:822-825 | `Math.abs`: non-negative and equal to the argument or its negation |
| Common.MaxOf | src/sc2_gantt/frontend/js/gantt.js:843 | `Math.max(...xs)` of a non-empty list bounds every element and is one of them |
| TimeFormat.NatToString | src/sc2_gantt/frontend/js/gantt.js:32-34 | the decimal digits of a number are non-empty, all digits, one digit below 10 and two below 100 |
| TimeFormat.ParseNatToString | src/sc2_gantt/frontend/js/gantt.js:32-34 | reading back the decimal digits gives the number |
| TimeFormat.PadStart2 | src/sc2_gantt/frontend/js/gantt.js:34 | `padStart(2, '0')` is the text itself after as many `'0'`s as bring it to length 2, none when it is already that long |
| TimeFormat.FormatTime | src/sc2_gantt/frontend/js/gantt.js:31-35 | `formatTime` is `M:SS`: digits, a colon, then exactly two digits |
| TimeFormat.FormatTimeRoundTrip | src/sc2_gantt/frontend/js/gantt.js:31-35 | parsing `formatTime(s)` gives back `s`, and the seconds field is below 60 (floor division, no rounding) |
| Catalog.GetBuildTime | src/sc2_gantt/frontend/js/gantt.js:37-39 | `build_time` if truthy, else `research_time` if truthy, else 0; zero exactly when neither is truthy |
| Catalog.SetBuildTime | src/sc2_gantt/frontend/js/gantt.js:725-729 | chronoboost writes `build_time` if set, else `research_time`, so `getBuildTime` then gives the new time; nothing else changes |
| Rects.RowRefsMembers | src/sc2_gantt/frontend/js/gantt.js:1159 | the row filter keeps exactly the live items of that row |
| Rects.RowRefsIncreasing | src/sc2_gantt/frontend/js/gantt.js:1159 | filtering keeps array order |
| Rects.ExceptId | src/sc2_gantt/frontend/js/gantt.js:841 | the `id !== excludeId` filter keeps exactly the items with another id, in array order |
| Rects.RowRefsExcept | src/sc2_gantt/frontend/js/gantt.js:1078 | the row-and-id filter keeps exactly the live items of the row with another id, in array order |
| Rects.MaxEnd | src/sc2_gantt/frontend/js/gantt.js:843 | the largest right edge bounds every item and belongs to one |
| Rects.RowEnd | src/sc2_gantt/frontend/js/gantt.js:840-844 | `getRowEndPosition` is 0 for an empty row, otherwise the largest right edge of the row's other-id items |
| Rects.AnyOverlap | src/sc2_gantt/frontend/js/gantt.js:884-891 | true exactly when some item's open interval meets `[x, x + width)` |
| Rects.HasCollision | src/sc2_gantt/frontend/js/gantt.js:883-892 | `hasCollision` is true exactly when a live item of the row with another id overlaps the interval |
| Rects.FindById | src/sc2_gantt/frontend/js/gantt.js:404 | `findIndex` by id: none when no item has the id, else the first index holding it |
| Rects.RemoveFirstId | src/sc2_gantt/frontend/js/gantt.js:404-407 | removes the first item with the id, or nothing when there is none |
| Rects.Stats | src/sc2_gantt/frontend/js/gantt.js:481-501 | row statistics: zeros for an empty row, else the end time is the largest right edge over `timeScale`, and the totals are the summed costs (`Rects.StatsPerm` shows they do not depend on order) |
| Rects.TotalMineralsAppend | src/sc2_gantt/frontend/js/gantt.js:493-498 | the mineral total of two lists one after the other is the sum of their totals |
| Rects.TotalGasAppend | src/sc2_gantt/frontend/js/gantt.js:493-498 | the gas total of two lists one after the other is the sum of their totals |
| Rects.TotalMineralsRemove | src/sc2_gantt/frontend/js/gantt.js:493-498 | taking one item out of a row lowers the mineral total by exactly that item's minerals, 0 when missing |
| Rects.TotalGasRemove | src/sc2_gantt/frontend/js/gantt.js:493-498 | taking one item out of a row lowers the gas total by exactly that item's gas, 0 when missing |
| Rects.TotalsPerm | src/sc2_gantt/frontend/js/gantt.js:493-498 | the mineral and gas totals are the same for any order of the same items |
| Rects.MaxEndPerm | src/sc2_gantt/frontend/js/gantt.js:490 | the latest right edge is the same for any order of the same items |
| Rects.StatsPerm | src/sc2_gantt/frontend/js/gantt.js:481-501 | the row statistics are the same for any order of the same items |
| Rects.ScaledMax | src/sc2_gantt/frontend/js/gantt.js:490 | the maximum of end times divided by the scale is the maximum end divided by the scale |
| Packing.SumWAppend | src/sc2_gantt/frontend/js/gantt.js:1210 | the total width of two lists is the sum of their totals |
| Packing.PackFrame | src/sc2_gantt/frontend/js/gantt.js:796-801 | packing changes only `x`, and only of the items it lays out |
| Packing.PackSpec | src/sc2_gantt/frontend/js/gantt.js:796-801 | after packing, each item starts at `start` plus the widths of the items before it |
| Packing.PackFixpoint | src/sc2_gantt/frontend/js/gantt.js:796-801 | packing an already packed order changes nothing |
| Packing.PackedNoOverlap | src/sc2_gantt/frontend/js/gantt.js:796-801 | in a packed order each item ends at or before the next one starts |
| Packing.PackedNoCollision | src/sc2_gantt/frontend/js/gantt.js:883-892 | when a packed order holds the whole row, `hasCollision` is false for each of its items |
| Packing.CollapseKeepsPacked | src/sc2_gantt/frontend/js/gantt.js:1144-1156 | removing an item from a packed row and collapsing its gap leaves the rest packed from the same start |
| Packing.CollapsedFrame | src/sc2_gantt/frontend/js/gantt.js:1149-1155 | collapsing changes only `x` |
| XSort.InsertByXPerm | src/sc2_gantt/frontend/js/gantt.js:794 | one insertion step of the stable sort adds exactly the inserted item |
| XSort.SortByXPerm | src/sc2_gantt/frontend/js/gantt.js:794 | `sort((a, b) => a.x - b.x)` is a permutation |
| XSort.SortByXMembers | src/sc2_gantt/frontend/js/gantt.js:794 | sorting keeps exactly the same members |
| XSort.InsertKeyOrdered | src/sc2_gantt/frontend/js/gantt.js:794 | inserting an earlier item into an (x, array position)-ordered list keeps it ordered |
| XSort.SortByXOrdered | src/sc2_gantt/frontend/js/gantt.js:794 | the stable sort orders by x, ties in array order |
| XSort.KeyOrderedUnique | src/sc2_gantt/frontend/js/gantt.js:794 | two (x, array position)-ordered permutations of one list are equal, so the stable result is unique |
| XSort.SortByXIsKeyOrder | src/sc2_gantt/frontend/js/gantt.js:794 | any (x, array position)-ordered permutation is the stable sort's result |
| XSort.SortByXSameX | src/sc2_gantt/frontend/js/gantt.js:794 | the sort depends only on the items' x |
| Layout.RowOrderMembers | src/sc2_gantt/frontend/js/gantt.js:792-794 | a row's sorted list holds exactly the live items of the row |
| Layout.RowOrderKeyOrdered | src/sc2_gantt/frontend/js/gantt.js:792-794 | a row's sorted list is in (x, array position) order with no repeats |
| Layout.RowOrderSameButX | src/sc2_gantt/frontend/js/gantt.js:792-794 | the row order is unchanged when other rows move or the row's x values stay |
| Layout.IndexIn | src/sc2_gantt/frontend/js/gantt.js:797 | an item's position in a list holds that item |
| Layout.RepackedFrame | src/sc2_gantt/frontend/js/gantt.js:789-803 | repositioning changes only `x`, and only of live items in rows `0..rows-1` |
| Layout.RepackedStep | src/sc2_gantt/frontend/js/gantt.js:791-802 | one more pass of the row loop packs the next row: the closed form for `i + 1` rows |
| Layout.RepackedSpec | src/sc2_gantt/frontend/js/gantt.js:789-803 | every row is laid out gapless from 0 in stable x-order |
| Layout.PackedKeyOrdered | src/sc2_gantt/frontend/js/gantt.js:794-801 | with positive widths, packing produces x-order |
| Layout.RepackedFixpoint | src/sc2_gantt/frontend/js/gantt.js:789-803 | when every row is already gapless from 0 in its x-order, repositioning changes nothing |
| Layout.RepackedIdempotent | src/sc2_gantt/frontend/js/gantt.js:789-803 | with positive widths, a second `repositionAllRectangles` changes nothing |
| Layout.RepackedNoCollision | src/sc2_gantt/frontend/js/gantt.js:789-803 | after repositioning, `hasCollision` is false for every live item in a row `0..rows-1` |
| Layout.PackedEnd | src/sc2_gantt/frontend/js/gantt.js:1226-1231 | a packed row ends at `start` + total width, and its last item ends there |
| Layout.AlignRightEndsWithRowAbove | src/sc2_gantt/frontend/js/gantt.js:1202-1235 | `alignRowRight` ends the row exactly at the end of the row above when that end is at least the row's total width |
| Layout.PackedEnds | src/sc2_gantt/frontend/js/gantt.js:1223-1231 | the packed row fits in `[start, start + total width]` |
| Steps.ShiftOrder | src/sc2_gantt/frontend/js/gantt.js:847-849 | the sorted row list of `pushRectanglesRight`/`collapseGap` holds exactly the live items of the row with another id, each once |
| Steps.PushSomeAll | src/sc2_gantt/frontend/js/gantt.js:852-858 | pushing item by item over the row's list gives `pushRectanglesRight`'s result |
| Steps.CollapseSomeAll | src/sc2_gantt/frontend/js/gantt.js:1149-1155 | collapsing item by item over the row's list gives `collapseGap`'s result |
| Steps.PushLoop | src/sc2_gantt/frontend/js/gantt.js:852-858 | the push loop computes the item-by-item push |
| Steps.CollapseLoop | src/sc2_gantt/frontend/js/gantt.js:1149-1155 | the collapse loop computes the item-by-item collapse |
| Steps.PackLoop | src/sc2_gantt/frontend/js/gantt.js:796-801 | the `currentX` loop computes `Pack` |
| Steps.RepackLoop | src/sc2_gantt/frontend/js/gantt.js:791-802 | the row-by-row loop computes the closed form `Repacked` |
| Steps.RescaleLoop | src/sc2_gantt/frontend/js/gantt.js:366-373 | the width loop of `updateTimeScale` sets each live width to build time × scale |
| Steps.RenumberLoop | src/sc2_gantt/frontend/js/gantt.js:1266-1270 | the loop of `deleteRow` moves every item below the deleted row up by one |
| Steps.ClearLoop | src/sc2_gantt/frontend/js/gantt.js:1162-1170 | `clearRow`'s loop removes, one by one, the first item with each cleared item's id, keeping array order |
| Steps.ReseatLoop | src/sc2_gantt/frontend/js/gantt.js:964-987 | the row change of `handleMouseMove` moves the dragged item and its live followers to the new row |
| Steps.FollowLoop | src/sc2_gantt/frontend/js/gantt.js:1002-1008 | the follower loop computes `Follow` |
| Steps.NearestPoint | src/sc2_gantt/frontend/js/gantt.js:821-830 | the scan returns the first insertion point at minimal distance from the desired x |
| Steps.FindInsertIndex | src/sc2_gantt/frontend/js/gantt.js:1122-1129 | the scan returns the drop's insertion index |
| Steps.PushRight | src/sc2_gantt/frontend/js/gantt.js:846-859 | the whole of `pushRectanglesRight` (filter, sort, loop) computes `PushedRight` |
| Steps.FindPosition | src/sc2_gantt/frontend/js/gantt.js:813-838 | the whole of `findValidPosition` computes `ValidPosition` |
| Steps.PositionAt | src/sc2_gantt/frontend/js/gantt.js:805-811 | `positionRectangle` computes `Edits.PositionRectangle` |
| Steps.NewItem | src/sc2_gantt/frontend/js/gantt.js:296-323 | a new item goes to the last row at that row's end, with id = array length and width = build time × scale |
| Steps.ChronoboostIs | src/sc2_gantt/frontend/js/gantt.js:698-751 | chronoboost is the boosted record, the catalog write and then a full reposition |
| Steps.MoveDraggedSteps | src/sc2_gantt/frontend/js/gantt.js:956-1012 | the steps of `handleMouseMove` compute `MoveDragged` |
| Steps.MoveDraggedEntities | src/sc2_gantt/frontend/js/gantt.js:956-1012 | a drag move never changes which entity a record shows |
| Snap.InsertSorted | src/sc2_gantt/frontend/js/gantt.js:1104 | inserting into a strictly ascending list keeps it strictly ascending and adds exactly the value |
| Snap.SortedSet | src/sc2_gantt/frontend/js/gantt.js:1104 | `[...new Set(points)].sort` is strictly ascending with exactly the same members |
| Snap.AscendingUnique | src/sc2_gantt/frontend/js/gantt.js:1104 | two strictly ascending lists with the same members are equal |
| Snap.Edges | src/sc2_gantt/frontend/js/gantt.js:1084-1091 | holds exactly the left and right edges of the given items |
| Snap.OtherRowEdges | src/sc2_gantt/frontend/js/gantt.js:1094-1102 | holds exactly the edges of live items in the other rows `0..rows-1`, with no id filter |
| Snap.RawPointsExact | src/sc2_gantt/frontend/js/gantt.js:1081-1102 | the collected points are exactly the insertion points: 0, edges of the row's other-id items and edges of other rows |
| Snap.InsertionPoints | src/sc2_gantt/frontend/js/gantt.js:1077-1105 | `getInsertionPoints` is strictly ascending, contains 0 and holds exactly the insertion points |
| Snap.Nearest | src/sc2_gantt/frontend/js/gantt.js:821-830 | the chosen index is at minimal distance and every earlier index is strictly farther |
| Snap.NearestEarliest | src/sc2_gantt/frontend/js/gantt.js:821-830 | over ascending points, every point as near as the chosen one is at or after it |
| Snap.NearestMinimal | src/sc2_gantt/frontend/js/gantt.js:821-830 | no point of the list is closer than the chosen one |
| Snap.NearestOfMember | src/sc2_gantt/frontend/js/gantt.js:821-830 | when the desired x is itself a point, it is chosen |
| Snap.ValidPosition | src/sc2_gantt/frontend/js/gantt.js:813-838 | `findValidPosition` returns a nearest insertion point, the smallest of them on ties (strict `<` over ascending points); it pushes the row right only when that point is before the row end, otherwise nothing moves |
| Snap.ValidPositionExact | src/sc2_gantt/frontend/js/gantt.js:813-838 | a desired x that is an insertion point is returned unchanged |
| Snap.ValidPositionFrame | src/sc2_gantt/frontend/js/gantt.js:813-838 | only x changes, and never for the excluded id |
| Snap.PushedRightFrame | src/sc2_gantt/frontend/js/gantt.js:846-859 | pushing changes only x, and never for the excluded id |
| Snap.PushKeepsApart | src/sc2_gantt/frontend/js/gantt.js:852-858 | two items of the row in order stay apart after a push |
| Snap.PushOpensGap | src/sc2_gantt/frontend/js/gantt.js:846-859 | when no item straddles the insertion x, after the push the new interval collides with nothing |
| Edits.PositionRectangle | src/sc2_gantt/frontend/js/gantt.js:805-811 | the item moves to the nearest insertion point, the smallest on ties; when that point is before the row end every other record is as `pushRectanglesRight` leaves it, otherwise no other record changes; only x values change, and other items with its id stay |
| Edits.PositionRectangleStays | src/sc2_gantt/frontend/js/gantt.js:805-838 | an item at an insertion point at or past its row end does not move and nothing else moves |
| Edits.AddWithId | src/sc2_gantt/frontend/js/gantt.js:296-344 | adding appends one record and reference, and earlier records change only in x |
| Edits.AddWithFreshIdAppends | src/sc2_gantt/frontend/js/gantt.js:296-344 | with an unused id, the item lands at the end of the last row and no other item moves |
| Edits.AddWithFreshIdNoOverlap | src/sc2_gantt/frontend/js/gantt.js:296-344 | with an unused id, every item of the last row ends at or before the new one starts |
| Edits.CreatedAtRowEnd | src/sc2_gantt/frontend/js/gantt.js:296-305 | the initial x, the row end, is an insertion point and the row end seen by `positionRectangle` |
| Edits.AddEntityFreshAppends | src/sc2_gantt/frontend/js/gantt.js:296-344 | with ids below their record index, an id equal to the record count always appends at the row end |
| Edits.AddEntityReusedIdOverlaps | src/sc2_gantt/frontend/js/gantt.js:320 | after a deletion the new item reuses a live id, and on this input it overlaps that item |
| Edits.SharedIdIgnored | src/sc2_gantt/frontend/js/gantt.js:807 | items sharing the new item's id are invisible to its placement, which goes to 0 |
| Edits.RemoveFirstIdExact | src/sc2_gantt/frontend/js/gantt.js:404-407 | with unique ids, `deleteEntity` removes exactly that item and keeps array order |
| Edits.FindByIdUnique | src/sc2_gantt/frontend/js/gantt.js:404 | with unique ids, `findIndex` finds the item's own position |
| Edits.RemoveEachExact | src/sc2_gantt/frontend/js/gantt.js:1162-1170 | with unique ids, removing by id removes exactly the given items |
| Edits.ClearRowExact | src/sc2_gantt/frontend/js/gantt.js:1158-1170 | with unique ids, `clearRow` removes exactly the items of its row and keeps array order |
| Edits.DeleteEntity | src/sc2_gantt/frontend/js/gantt.js:395-419 | `deleteEntity` removes the first item with the id, then collapses its gap, moving x values only |
| Edits.DeleteEntityFrame | src/sc2_gantt/frontend/js/gantt.js:1145-1155 | items of other rows, and items at or left of the deleted item's x, do not move |
| Edits.DeleteEntityKeepsPacked | src/sc2_gantt/frontend/js/gantt.js:395-419 | deleting from a packed row leaves the rest packed from the same start |
| Edits.DeleteRow | src/sc2_gantt/frontend/js/gantt.js:1237-1276 | `deleteRow` with at most one row changes nothing |
| Edits.DeleteRowRenumbers | src/sc2_gantt/frontend/js/gantt.js:1237-1276 | deleting row k removes exactly its items; rows above k stay and rows below k move up by one, all within `rows - 1` |
| Drag.RightOf | src/sc2_gantt/frontend/js/gantt.js:937 | the `x >` filter keeps exactly the items strictly right of x, in array order |
| Drag.Rightward | src/sc2_gantt/frontend/js/gantt.js:934-938 | the followers are exactly the live items of the row with another id strictly right of the grabbed item |
| Drag.StartDragOk | src/sc2_gantt/frontend/js/gantt.js:929-948 | a drag starts with the grabbed item outside its followers, no repeats, all in its row |
| Drag.RowAt | src/sc2_gantt/frontend/js/gantt.js:962 | the cursor's row is clamped to `0..rows-1` |
| Drag.RowAtBand | src/sc2_gantt/frontend/js/gantt.js:962 | a cursor within row r's 105-pixel band selects row r |
| Drag.SetRowsAt | src/sc2_gantt/frontend/js/gantt.js:976-982 | the `rightwardRects` loop of a row change gives the new row to exactly the listed items still in the chart and leaves every other record as it was |
| Drag.ReseatedRows | src/sc2_gantt/frontend/js/gantt.js:964-982 | a row change puts the dragged item and its live followers in the new row and changes nothing else |
| Drag.FollowFrame | src/sc2_gantt/frontend/js/gantt.js:1003-1008 | the follower loop changes only the followers' x |
| Drag.FollowChained | src/sc2_gantt/frontend/js/gantt.js:1003-1008 | after the loop each follower starts at or after the end of the one before |
| Drag.ChainedNoOverlap | src/sc2_gantt/frontend/js/gantt.js:1002-1008 | a chained group never overlaps itself |
| Drag.FollowRigid | src/sc2_gantt/frontend/js/gantt.js:1002-1008 | a group that was chained moves rigidly by the same delta |
| Drag.MoveDraggedEffect | src/sc2_gantt/frontend/js/gantt.js:956-1012 | a move puts the dragged item at max(0, x) in the cursor's row, chains the group after it, and changes nothing else |
| Drag.MoveDraggedRigid | src/sc2_gantt/frontend/js/gantt.js:990-1008 | a chained group moves by exactly the dragged item's delta |
| Drag.MoveKeepsGroupOk | src/sc2_gantt/frontend/js/gantt.js:956-1012 | a move keeps the group within one row |
| Drag.Without | src/sc2_gantt/frontend/js/gantt.js:1114 | `!rightwardRects.includes(r)` keeps exactly the items outside the group, in order |
| Drag.Others | src/sc2_gantt/frontend/js/gantt.js:1111-1115 | the stationary items are exactly the live items of the target row with another id outside the group, in array order |
| Drag.InsertIndex | src/sc2_gantt/frontend/js/gantt.js:1122-1129 | the insertion index is the first array position whose x is at least the dragged x |
| Drag.DropOrderMembers | src/sc2_gantt/frontend/js/gantt.js:1111-1132 | the drop order holds exactly the group and the row's other items, each once |
| Drag.DropOrderPlace | src/sc2_gantt/frontend/js/gantt.js:1118-1132 | the group sits contiguously at the insertion index; items before it start left of the dragged x |
| Drag.DropOrderDistinct | src/sc2_gantt/frontend/js/gantt.js:1111-1132 | the drop order has no repeats |
| Drag.DroppedSpec | src/sc2_gantt/frontend/js/gantt.js:1107-1142 | after the drop the target row is gapless from 0 in drop order, nothing outside it moves, and no item collides |
| Boost.MaxBoostsFloor | src/sc2_gantt/frontend/js/gantt.js:714 | the cap is `floor(orig / 30)` |
| Boost.BoostCount | src/sc2_gantt/frontend/js/gantt.js:710-717 | the new count is `min(max(0, count + change), cap)`, so it stays within `[0, cap]` |
| Boost.BoostedTimeBounds | src/sc2_gantt/frontend/js/gantt.js:720-721 | a boosted time stays between two thirds of the original and the original |
| Boost.BoostUndo | src/sc2_gantt/frontend/js/gantt.js:710-717 | below the cap, +1 then -1 restores the count; at the cap, +1 does nothing |
| Boost.BoostedRect | src/sc2_gantt/frontend/js/gantt.js:702-748 | the record snapshots its original time, takes the capped count, a width of the boosted time × scale and the boosted flag |
| Boost.ChronoboostRecord | src/sc2_gantt/frontend/js/gantt.js:702-748 | the boosted record's count, width, flag, entity and row after the whole operation |
| Boost.ChronoboostAt | src/sc2_gantt/frontend/js/gantt.js:698-751 | the boosted record after the full reposition differs from `BoostedRect` only in x |
| Boost.ChronoboostCatalog | src/sc2_gantt/frontend/js/gantt.js:725-729 | the shared catalog entry gets the boosted time, and no other entry changes |
| Boost.ChronoboostUndo | src/sc2_gantt/frontend/js/gantt.js:698-751 | boost then unboost gives the unboosted record back, apart from x |
| Boost.BoostedRectUndo | src/sc2_gantt/frontend/js/gantt.js:702-732 | unboosting a boosted record restores its count and width |
| Boost.ChronoboostNoCollision | src/sc2_gantt/frontend/js/gantt.js:751 | after chronoboost no live item collides with another in its row |
| Boost.ChronoboostEntities | src/sc2_gantt/frontend/js/gantt.js:698-751 | chronoboost never changes which entity a record shows |
| Boost.WheelScale | src/sc2_gantt/frontend/js/gantt.js:354-355 | the new scale stays within [0.5, 10] |
| Boost.WheelScaleDirection | src/sc2_gantt/frontend/js/gantt.js:354-357 | scrolling down never grows the scale and up never shrinks it; it stays only at the bound in that direction |
| Boost.UpdateTimeScaleWidths | src/sc2_gantt/frontend/js/gantt.js:364-374 | after rescaling each live width is build time × scale, with row and entity kept |
| Boost.RescaledFixpoint | src/sc2_gantt/frontend/js/gantt.js:366-373 | the width update leaves widths that are already build time × scale unchanged |
| Boost.UpdateTimeScaleIdempotent | src/sc2_gantt/frontend/js/gantt.js:364-374 | with positive durations and scale, a second `updateTimeScale` at the same scale changes nothing |
| Boost.UpdateTimeScaleAt | src/sc2_gantt/frontend/js/gantt.js:364-374 | a rescaled live record differs from the old one only in width and x |
| Boost.RescaledAt | src/sc2_gantt/frontend/js/gantt.js:366-373 | the width loop changes only the width |
| Boost.UpdateTimeScaleNoCollision | src/sc2_gantt/frontend/js/gantt.js:364-374 | after `updateTimeScale` no live item collides with another in its row |
| Report.MaxTimeSpan | src/sc2_gantt/frontend/js/gantt.js:473-479 | the span is at least 300, a multiple of 30, exactly 300 with no items, and covers every item's end time |
| Report.MaxTimeSpanLeast | src/sc2_gantt/frontend/js/gantt.js:473-479 | the span is the least such bound |
| Report.ExportOf | src/sc2_gantt/frontend/js/gantt.js:1338-1350 | an exported item carries start time = x over the scale, `getBuildTime`, and minerals and gas that are 0 when missing (`getCost`'s rule) |
| Report.ExportBuildOrder | src/sc2_gantt/frontend/js/gantt.js:1320-1366 | the export loop builds the document of the specification function |
| Report.ExportRowsAt | src/sc2_gantt/frontend/js/gantt.js:1333-1364 | row i of the export describes row i |
| Report.ExportRowItems | src/sc2_gantt/frontend/js/gantt.js:1335-1357 | an exported row lists each item of the row once, in stable x-order |
| Report.ExportRowSorted | src/sc2_gantt/frontend/js/gantt.js:1335-1357 | an exported row's start times are non-decreasing |
| Report.ExportRowStats | src/sc2_gantt/frontend/js/gantt.js:1335-1362 | a row has statistics exactly when it has items, and its end time covers every item |
| Report.ExportRowStatsAsShown | src/sc2_gantt/frontend/js/gantt.js:1353-1362 | the exported statistics of a row, summed in x-order, equal the ones `updateRowStats` shows, summed in array order |
| Report.ExportRowEnd | src/sc2_gantt/frontend/js/gantt.js:481-513 | a row's end time is its largest right edge over the scale |
| Chart.GanttChart.constructor | src/sc2_gantt/frontend/js/gantt.js:2-16 | a new chart has no items, one row, scale 3 and no selection or drag |
| Chart.GanttChart.PackInPlace | src/sc2_gantt/frontend/js/gantt.js:796-801 | the in-place `currentX` loop packs the given order and changes nothing else |
| Chart.GanttChart.RepositionAllRectangles | src/sc2_gantt/frontend/js/gantt.js:789-803 | records become `Repacked` and nothing else changes |
| Chart.GanttChart.AlignRowLeft | src/sc2_gantt/frontend/js/gantt.js:1183-1200 | the row is packed from 0 in stable x-order |
| Chart.GanttChart.AlignRowRight | src/sc2_gantt/frontend/js/gantt.js:1202-1235 | the row is packed from max(0, end of the row above − total width) |
| Chart.GanttChart.PushRectanglesRight | src/sc2_gantt/frontend/js/gantt.js:846-859 | records become `PushedRight` |
| Chart.GanttChart.CollapseGap | src/sc2_gantt/frontend/js/gantt.js:1144-1156 | records become `Collapsed` |
| Chart.GanttChart.FindValidPosition | src/sc2_gantt/frontend/js/gantt.js:813-838 | returns and applies `ValidPosition` |
| Chart.GanttChart.PositionRectangle | src/sc2_gantt/frontend/js/gantt.js:805-811 | records become `Edits.PositionRectangle` |
| Chart.GanttChart.AddEntityFromIcon | src/sc2_gantt/frontend/js/gantt.js:266-348 | appends the new record and its reference, then positions it |
| Chart.GanttChart.HandleWheel | src/sc2_gantt/frontend/js/gantt.js:350-362 | with ctrl, the scale becomes `WheelScale`, and widths and layout are redone only when it changed |
| Chart.GanttChart.UpdateTimeScale | src/sc2_gantt/frontend/js/gantt.js:364-384 | records become `Boost.UpdateTimeScale` |
| Chart.GanttChart.DeleteEntity | src/sc2_gantt/frontend/js/gantt.js:395-419 | no item is a no-op; otherwise the items become `Edits.DeleteEntity`, and the selection is cleared when it was that item |
| Chart.GanttChart.ClearRow | src/sc2_gantt/frontend/js/gantt.js:1158-1181 | the array becomes `Edits.ClearRow`; the selection is cleared when it is in the row |
| Chart.GanttChart.DeleteRow | src/sc2_gantt/frontend/js/gantt.js:1237-1276 | with more than one row, the items become `Edits.DeleteRow`, rows drop by one and a selection in the deleted row is cleared; otherwise nothing changes |
| Chart.GanttChart.AddRow | src/sc2_gantt/frontend/js/gantt.js:763-786 | rows grow by one and nothing else changes |
| Chart.GanttChart.ApplyChronoboost | src/sc2_gantt/frontend/js/gantt.js:698-761 | no item is a no-op; otherwise records and catalog become `Boost.ApplyChronoboost` |
| Chart.GanttChart.HandleMouseDown | src/sc2_gantt/frontend/js/gantt.js:916-954 | a hit on a live item selects it and starts a drag with its followers; otherwise nothing changes |
| Chart.GanttChart.HandleMouseMove | src/sc2_gantt/frontend/js/gantt.js:956-1012 | with a drag, records become `MoveDragged`; otherwise nothing changes |
| Chart.GanttChart.PositionAtInsertionPoint | src/sc2_gantt/frontend/js/gantt.js:1107-1142 | records become `Dropped` |
| Chart.GanttChart.HandleMouseUp | src/sc2_gantt/frontend/js/gantt.js:1014-1038 | with a drag, records become `Dropped`; drag and selection are cleared |
| Text.StripSpec | src/sc2_gantt/backend/sc2_data/comprehensive_scraper.py:642 | `strip()` is a slice with only whitespace cut off either side and no whitespace at its ends |
| Text.StripIdempotent | src/sc2_gantt/backend/sc2_data/comprehensive_scraper.py:642 | stripping twice is stripping once |
| Text.StripEmpty | src/sc2_gantt/backend/sc2_data/comprehensive_scraper.py:642 | a string strips to empty exactly when it is all whitespace |
| Text.SplitPieces | src/sc2_gantt/backend/sc2_data/comprehensive_scraper.py:651 | no piece of a split holds a separator |
| Text.SplitJoin | src/sc2_gantt/backend/sc2_data/comprehensive_scraper.py:642 | joining the pieces of `split(c)` with `c` gives the string back |
| Text.LowerAt | src/sc2_gantt/backend/sc2_data/comprehensive_scraper.py:326 | `lower()` maps each character |
| Text.LowerIdempotent | src/sc2_gantt/backend/sc2_data/comprehensive_scraper.py:326 | lowering twice is lowering once, and leaves no capital |
| Text.ReplaceAt | src/sc2_gantt/backend/sc2_data/comprehensive_scraper.py:326 | `replace(' ', '_')` swaps each space and leaves no space |
| Text.ContainsAt | src/sc2_gantt/backend/sc2_data/comprehensive_scraper.py:343 | `in` on strings means the needle occurs at some offset |
| Text.LastIndexLast | src/sc2_gantt/backend/sc2_data/comprehensive_scraper.py:338 | the last index of a character has none of it after it |
| Text.StripExtensionSpec | src/sc2_gantt/backend/sc2_data/comprehensive_scraper.py:338 | `splitext(...)[0]` is a prefix and leaves a name without a dot unchanged |
| Scraper.SetToList | src/sc2_gantt/backend/sc2_data/comprehensive_scraper.py:536 | `list(set(xs))` has no duplicates and the same elements |
| Scraper.KeysMembers | src/sc2_gantt/backend/sc2_data/comprehensive_scraper.py:529-545 | the keys of the input are exactly the keys some record holds |
| Scraper.KeyCountPositive | src/sc2_gantt/backend/sc2_data/comprehensive_scraper.py:532 | a key is present exactly when some record has it |
| Scraper.FirstIsFirst | src/sc2_gantt/backend/sc2_data/comprehensive_scraper.py:544 | the kept record is the first record with the key |
| Scraper.UnitsMembers | src/sc2_gantt/backend/sc2_data/comprehensive_scraper.py:535 | the union of a key's units is exactly the units of its records |
| Scraper.UnitsSingle | src/sc2_gantt/backend/sc2_data/comprehensive_scraper.py:544 | a key seen once has just its record's units |
| Scraper.IconsFirst | src/sc2_gantt/backend/sc2_data/comprehensive_scraper.py:539-540 | the first icon listed for a key is the icon of the first record with a non-empty one |
| Scraper.IconOfEmpty | src/sc2_gantt/backend/sc2_data/comprehensive_scraper.py:539-540 | the merged entry has an icon exactly when some record of the key has one |
| Scraper.AggregateUpgrades | src/sc2_gantt/backend/sc2_data/comprehensive_scraper.py:525-545 | one entry per distinct key; the first record's fields; the units of a single record or, when merged, the union without duplicates; the first non-empty icon |
| Scraper.MergedMeans | src/sc2_gantt/backend/sc2_data/comprehensive_scraper.py:525-545 | the loop invariant at the end gives the promised result |
| Scraper.ParseFieldContent | src/sc2_gantt/backend/sc2_data/comprehensive_scraper.py:637-655 | the loop computes `FieldItems`, and an empty field gives no items |
| Scraper.FieldItemsClean | src/sc2_gantt/backend/sc2_data/comprehensive_scraper.py:642-653 | every item is stripped, non-empty, without a newline or separator where split, and longer than 2 |
| Scraper.FieldItemsComplete | src/sc2_gantt/backend/sc2_data/comprehensive_scraper.py:645-653 | a kept line without a separator is an item whole; with one, every long enough stripped part is an item |
| Scraper.WordHitsSpec | src/sc2_gantt/backend/sc2_data/comprehensive_scraper.py:341-344 | the word score is positive exactly when some word hits, and at most the word count |
| Scraper.FindLevelLeftmost | src/sc2_gantt/backend/sc2_data/comprehensive_scraper.py:332-334 | `re.search(r'level\s+(\d+)')` takes the leftmost match |
| Scraper.FindLevelNone | src/sc2_gantt/backend/sc2_data/comprehensive_scraper.py:332-334 | no match means no offset matches |
| Scraper.LevelScore | src/sc2_gantt/backend/sc2_data/comprehensive_scraper.py:347-348 | an icon name holding the level number scores at least 5 |
| Scraper.ScoreIcon | src/sc2_gantt/backend/sc2_data/comprehensive_scraper.py:338-362 | the scoring loop computes word hits + level bonus + pattern bonuses |
| Scraper.ScoredAt | src/sc2_gantt/backend/sc2_data/comprehensive_scraper.py:336-362 | the j-th score is that icon's score with its url |
| Scraper.BestScoreBound | src/sc2_gantt/backend/sc2_data/comprehensive_scraper.py:364-366 | the best score bounds every score and a positive one is attained |
| Scraper.BestUrlSpec | src/sc2_gantt/backend/sc2_data/comprehensive_scraper.py:327-368 | none exactly when every score is 0; otherwise the url of the first icon with the maximum, positive score |
| Scraper.FindMatchingIcon | src/sc2_gantt/backend/sc2_data/comprehensive_scraper.py:324-368 | the search loop returns the first best-scoring icon's url |

## Left out

- Rendering and the browser:
  - DOM elements, `style.left`/`top`, row labels and the info panel are not modelled.
  - Drop zones, grid lines, the time index, the palette and search UI are not modelled.
  - Event wiring, `alert`, `console` and `try/catch` are not modelled.
  - A drag's row change is modelled as always taking place. The source also requires
    both row elements to exist, which they do in a consistent page.
- Input geometry: the cursor's chart-relative `x`/`y` are inputs. Client offsets and
  `getBoundingClientRect` are not modelled. The 105/47-pixel row band is kept in
  `Drag.RowAt`.
- Drop target: a hit is an `Option` of a record reference; `closest('.rectangle')` and
  the lookup by element are not modelled.
- Browser I/O: the data fetch, file download, the `new Date()` export date (a
  parameter) and the POST part of the export are not modelled.
- Arithmetic:
  - Numbers are mathematical reals, with no IEEE rounding.
  - `Math.floor` in `formatTime` is modelled on natural seconds.
  - The 0.9/1.1 zoom factors are exact.
- Row statistics: `updateRowStats` and `updateAllRowStats` only update the display. Their
  computation is `Rects.Stats`, and `Report.ExportRowStatsAsShown` shows the export
  computes the same statistics.
- Dead code: `findInsertionPosition` is never called, and `getValidPositions` is called
  only from it (gantt.js:895). Neither is modelled. `findInsertionPosition` also calls a
  method that does not exist.
- Entity data: every record has its `entityData`, so the `if (rect.entityData)` and
  `!rectangleData.entityData` guards are always true. This is the only way the page
  creates records.
- Layout.RepackedIdempotent: holds only when every width is positive. With zero widths,
  equal x values can reorder, so a second reposition may move items.
- Boost.UpdateTimeScaleIdempotent: holds only when every item's duration and the scale
  are positive, for the same reason.
- Edits.RemoveEachExact, Edits.ClearRowExact, Edits.RemoveFirstIdExact,
  Edits.DeleteRowRenumbers and Drag.DroppedSpec: proved only for unique ids. The source
  can reuse an id after a deletion (`Edits.AddEntityReusedIdOverlaps`), and then removal
  by id can remove another item.
- Scraper I/O: HTTP, HTML parsing, the thread pool, image conversion and file writes are
  not modelled.
- Scraper.SetToList: `list(set(...))` has a hash-dependent order. The model fixes it to
  first occurrence, and states only elements and no duplicates.
- Scraper.AggregateUpgrades:
  - The shallow `upgrade.copy()` means the merge also extends the first input record's
    own list. That aliasing is not modelled.
  - A missing `icon_url` and `None` are the same `None`.
- Text.Lower: `lower()` is ASCII only. `\d` in the level pattern is ASCII digits only.
  `\s` is Python's full `str.isspace` set, as in the source.
- Text.StripExtension: `os.path.splitext` is modelled with POSIX rules. A leading dot
  does not start an extension.
