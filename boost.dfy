/** Chronoboost and changes of the time scale.

    Both change item widths and then reposition every row. A chronoboost also writes the
    reduced duration back into the item's catalog entry, which every item of that entity
    shares. */
module Boost {
  import opened Common
  import opened Catalog
  import opened Rects
  import opened Packing
  import opened Layout

  // ---------------------------------------------------------------------------------
  // Chronoboost

  /** `Math.floor(originalBuildTime / 30)`: one chronoboost per 30 seconds of build time,
      by repeated steps of 30 (see `MaxBoostsFloor`). */
  function MaxBoosts(orig: real): (m: int)
    ensures orig >= 0.0 ==> m >= 0
    decreases if orig < 0.0 then (-orig).Floor + 1 else orig.Floor
  {
    if orig < 0.0 then (if orig >= -30.0 then -1 else MaxBoosts(orig + 30.0) - 1)
    else if orig < 30.0 then 0
    else MaxBoosts(orig - 30.0) + 1
  }

  /** `MaxBoosts` is the floor of a thirtieth. */
  lemma {:induction false} MaxBoostsFloor(orig: real)
    ensures 30.0 * MaxBoosts(orig) as real <= orig < 30.0 * (MaxBoosts(orig) + 1) as real
    ensures MaxBoosts(orig) == (orig / 30.0).Floor
    decreases if orig < 0.0 then (-orig).Floor + 1 else orig.Floor
  {
    if orig < -30.0 {
      MaxBoostsFloor(orig + 30.0);
    } else if orig >= 30.0 {
      MaxBoostsFloor(orig - 30.0);
    }
  }

  /** The count after a change of `change` boosts: not below 0, then capped at
      `MaxBoosts(orig)`. */
  function BoostCount(current: int, change: int, orig: real): (c: int)
    ensures c <= MaxBoosts(orig)
    ensures c == MaxBoosts(orig) || c == (if current + change > 0 then current + change else 0)
    ensures c <= (if current + change > 0 then current + change else 0)
    ensures orig >= 0.0 ==> c >= 0
  {
    var n := if current + change > 0 then current + change else 0;
    if n <= MaxBoosts(orig) then n else MaxBoosts(orig)
  }

  /** Each boost saves 10 seconds. */
  function BoostedTime(orig: real, count: int): real {
    orig - 10.0 * count as real
  }

  /** A capped count saves at most a third of the duration: the boosted duration is
      never below two thirds of the original, so never negative. */
  lemma BoostedTimeBounds(orig: real, current: int, change: int)
    requires orig >= 0.0
    ensures var t := BoostedTime(orig, BoostCount(current, change, orig));
            orig * 2.0 / 3.0 <= t <= orig
  {
    MaxBoostsFloor(orig);
  }

  /** Adding a boost and taking it away again restores the count, below the cap; at the
      cap adding one changes nothing. */
  lemma BoostUndo(orig: real, c: int)
    requires 0 <= c <= MaxBoosts(orig)
    ensures c < MaxBoosts(orig) ==> BoostCount(BoostCount(c, 1, orig), -1, orig) == c
    ensures c == MaxBoosts(orig) ==> BoostCount(c, 1, orig) == c
  {
  }

  /** The duration a chronoboost starts from: the item's snapshot when it is truthy,
      otherwise the catalog's current duration. */
  function OriginalTime(r: Rect, catalog: seq<Entity>): real
    requires r.entity < |catalog|
  {
    if Truthy(r.originalBuildTime) then r.originalBuildTime.value else GetBuildTime(catalog[r.entity])
  }

  /** The item after `applyChronoboost(item, change)`, before repositioning. */
  function BoostedRect(r: Rect, catalog: seq<Entity>, change: int, timeScale: real): (b: Rect)
    requires r.entity < |catalog|
    ensures b == r.(originalBuildTime := b.originalBuildTime, boostCount := b.boostCount,
                    width := b.width, boosted := b.boosted)
    ensures b.originalBuildTime == Some(OriginalTime(r, catalog))
    ensures b.boostCount == BoostCount(r.boostCount, change, OriginalTime(r, catalog))
    ensures b.width == BoostedTime(OriginalTime(r, catalog), b.boostCount) * timeScale
    ensures b.boosted <==> b.boostCount > 0
  {
    var orig := OriginalTime(r, catalog);
    var count := BoostCount(r.boostCount, change, orig);
    r.(originalBuildTime := Some(orig), boostCount := count,
       width := BoostedTime(orig, count) * timeScale, boosted := count > 0)
  }

  datatype Boosted = Boosted(recs: seq<Rect>, catalog: seq<Entity>)

  /** `applyChronoboost(item, change)`: the item's snapshot, count, width and flag are
      updated, the catalog entry it shares is given the boosted duration, and every row
      `0 .. rows - 1` is repositioned. */
  function ApplyChronoboost(recs: seq<Rect>, live: seq<nat>, rows: nat, catalog: seq<Entity>,
                            timeScale: real, k: nat, change: int): (b: Boosted)
    requires InBounds(recs, live) && k < |recs| && recs[k].entity < |catalog|
    ensures |b.recs| == |recs| && |b.catalog| == |catalog|
    ensures b.recs[k].entity == recs[k].entity
  {
    var r := recs[k];
    var orig := OriginalTime(r, catalog);
    var t := BoostedTime(orig, BoostCount(r.boostCount, change, orig));
    var recs1 := recs[k := BoostedRect(r, catalog, change, timeScale)];
    RepackedAt(recs1, live, rows, k);
    Boosted(Repacked(recs1, live, rows), catalog[r.entity := SetBuildTime(catalog[r.entity], t)])
  }

  /** What a chronoboost does to the item: the snapshot is kept, the count is capped,
      the width is the boosted duration at the current scale and the flag says whether
      any boost is applied; entity and row stay. */
  lemma ChronoboostRecord(recs: seq<Rect>, live: seq<nat>, rows: nat, catalog: seq<Entity>,
                          timeScale: real, k: nat, change: int)
    requires InBounds(recs, live) && k < |recs| && recs[k].entity < |catalog|
    ensures var q := ApplyChronoboost(recs, live, rows, catalog, timeScale, k, change).recs;
            var orig := OriginalTime(recs[k], catalog);
            var c := BoostCount(recs[k].boostCount, change, orig);
            q[k].originalBuildTime == Some(orig) && q[k].boostCount == c &&
            q[k].width == BoostedTime(orig, c) * timeScale && (q[k].boosted <==> c > 0) &&
            q[k].entity == recs[k].entity && q[k].row == recs[k].row
  {
    var q := ApplyChronoboost(recs, live, rows, catalog, timeScale, k, change).recs;
    var b := BoostedRect(recs[k], catalog, change, timeScale);
    ChronoboostAt(recs, live, rows, catalog, timeScale, k, change);
    assert q[k].originalBuildTime == b.originalBuildTime && q[k].boostCount == b.boostCount &&
           q[k].width == b.width && q[k].boosted == b.boosted;
    assert q[k].entity == b.entity && q[k].row == b.row;
  }

  /** `Repacked` moves the boosted item but changes nothing else about it. */
  lemma ChronoboostAt(recs: seq<Rect>, live: seq<nat>, rows: nat, catalog: seq<Entity>,
                      timeScale: real, k: nat, change: int)
    requires InBounds(recs, live) && k < |recs| && recs[k].entity < |catalog|
    ensures var q := ApplyChronoboost(recs, live, rows, catalog, timeScale, k, change).recs;
            q[k] == BoostedRect(recs[k], catalog, change, timeScale).(x := q[k].x)
  {
    var recs1 := recs[k := BoostedRect(recs[k], catalog, change, timeScale)];
    RepackedAt(recs1, live, rows, k);
    assert ApplyChronoboost(recs, live, rows, catalog, timeScale, k, change).recs == Repacked(recs1, live, rows);
  }


  /** What a chronoboost does to the catalog: the entry the item shares now reads the
      boosted duration (unless either duration is 0), and no other entry changes. */
  lemma ChronoboostCatalog(recs: seq<Rect>, live: seq<nat>, rows: nat, catalog: seq<Entity>,
                           timeScale: real, k: nat, change: int)
    requires InBounds(recs, live) && k < |recs| && recs[k].entity < |catalog|
    ensures var c' := ApplyChronoboost(recs, live, rows, catalog, timeScale, k, change).catalog;
            var orig := OriginalTime(recs[k], catalog);
            var t := BoostedTime(orig, BoostCount(recs[k].boostCount, change, orig));
            (GetBuildTime(catalog[recs[k].entity]) != 0.0 && t != 0.0 ==>
               GetBuildTime(c'[recs[k].entity]) == t) &&
            (forall e :: 0 <= e < |catalog| && e != recs[k].entity ==> c'[e] == catalog[e])
  {
  }

  /** The snapshot makes boosts relative to the duration first seen: adding a boost and
      then removing it leaves the item as a boost of no change would, whatever the first
      boost wrote into the shared catalog entry (see `BoostedRectUndo`). */
  lemma ChronoboostUndo(recs: seq<Rect>, live: seq<nat>, rows: nat, catalog: seq<Entity>,
                        timeScale: real, k: nat)
    requires InBounds(recs, live) && k < |recs| && recs[k].entity < |catalog|
    requires OriginalTime(recs[k], catalog) > 0.0
    requires 0 <= recs[k].boostCount < MaxBoosts(OriginalTime(recs[k], catalog))
    ensures var b1 := ApplyChronoboost(recs, live, rows, catalog, timeScale, k, 1);
            var q2 := ApplyChronoboost(b1.recs, live, rows, b1.catalog, timeScale, k, -1).recs;
            q2[k] == BoostedRect(recs[k], catalog, 0, timeScale).(x := q2[k].x)
  {
    ChronoboostAt(recs, live, rows, catalog, timeScale, k, 1);
    var b1 := ApplyChronoboost(recs, live, rows, catalog, timeScale, k, 1);
    BoostedRectUndo(recs[k], catalog, b1.catalog, timeScale, b1.recs[k]);
    ChronoboostAt(b1.recs, live, rows, b1.catalog, timeScale, k, -1);
  }

  /** Removing a boost just added restores the count and the width the item had with
      its current count, whatever the catalog says the second time. */
  lemma BoostedRectUndo(r: Rect, catalog: seq<Entity>, catalog': seq<Entity>, timeScale: real, r1: Rect)
    requires r.entity < |catalog| && r1.entity < |catalog'|
    requires r1 == BoostedRect(r, catalog, 1, timeScale).(x := r1.x)
    requires OriginalTime(r, catalog) > 0.0 && 0 <= r.boostCount < MaxBoosts(OriginalTime(r, catalog))
    ensures BoostedRect(r1, catalog', -1, timeScale) == BoostedRect(r, catalog, 0, timeScale).(x := r1.x)
    ensures BoostedRect(r1, catalog', -1, timeScale).boostCount == r.boostCount
    ensures BoostedRect(r1, catalog', -1, timeScale).width ==
              BoostedTime(OriginalTime(r, catalog), r.boostCount) * timeScale
  {
    BoostUndo(OriginalTime(r, catalog), r.boostCount);
  }

  /** After a chronoboost, with non-negative widths, durations and snapshots, no item of
      rows `0 .. rows - 1` collides with another item of its row. */
  lemma ChronoboostNoCollision(recs: seq<Rect>, live: seq<nat>, rows: nat, catalog: seq<Entity>,
                               timeScale: real, k: nat, change: int)
    requires InBounds(recs, live) && Increasing(live) && k < |recs| && recs[k].entity < |catalog|
    requires forall j :: j in live ==> recs[j].width >= 0.0
    requires EntityOk(catalog[recs[k].entity]) && timeScale > 0.0
    requires recs[k].originalBuildTime.Some? ==> recs[k].originalBuildTime.value >= 0.0
    ensures var q := ApplyChronoboost(recs, live, rows, catalog, timeScale, k, change).recs;
            forall j :: j in live && 0 <= q[j].row < rows ==>
              !HasCollision(q, live, q[j].row, q[j].x, q[j].width, q[j].id)
  {
    var r := recs[k];
    var orig := OriginalTime(r, catalog);
    BoostedTimeBounds(orig, r.boostCount, change);
    var recs1 := recs[k := BoostedRect(r, catalog, change, timeScale)];
    assert recs1[k].width >= 0.0;
    RepackedNoCollision(recs1, live, rows);
  }

  // ---------------------------------------------------------------------------------
  // Time scale

  /** The scale `handleWheel` computes for a ctrl-wheel event: 10% smaller when scrolling
      down, 10% larger otherwise, clamped to `[0.5, 10]`. */
  function WheelScale(timeScale: real, deltaY: real): (s: real)
    ensures 0.5 <= s <= 10.0
  {
    Max(0.5, Min(10.0, if deltaY > 0.0 then timeScale * 0.9 else timeScale * 1.1))
  }

  /** Scrolling down never enlarges a scale in range and scrolling up never shrinks one;
      the scale stays put only at the bound it is moving towards. */
  lemma WheelScaleDirection(timeScale: real, deltaY: real)
    requires 0.5 <= timeScale <= 10.0
    ensures deltaY > 0.0 ==> WheelScale(timeScale, deltaY) <= timeScale
    ensures deltaY <= 0.0 ==> WheelScale(timeScale, deltaY) >= timeScale
    ensures WheelScale(timeScale, deltaY) == timeScale ==>
              (if deltaY > 0.0 then timeScale == 0.5 else timeScale == 10.0)
  {
  }

  predicate EntitiesKnown(recs: seq<Rect>, live: seq<nat>, catalog: seq<Entity>)
    requires InBounds(recs, live)
  {
    forall k :: k in live ==> recs[k].entity < |catalog|
  }

  /** The width update of `updateTimeScale`: every item of the array gets its catalog
      duration at the new scale. */
  function Rescaled(recs: seq<Rect>, live: seq<nat>, catalog: seq<Entity>, timeScale: real): (r: seq<Rect>)
    requires InBounds(recs, live) && EntitiesKnown(recs, live, catalog)
    ensures |r| == |recs|
  {
    seq(|recs|, k requires 0 <= k < |recs| =>
      if k in live then recs[k].(width := GetBuildTime(catalog[recs[k].entity]) * timeScale) else recs[k])
  }

  /** `updateTimeScale()`: new widths, then every row repositioned. */
  function UpdateTimeScale(recs: seq<Rect>, live: seq<nat>, rows: nat, catalog: seq<Entity>,
                           timeScale: real): (r: seq<Rect>)
    requires InBounds(recs, live) && EntitiesKnown(recs, live, catalog)
    ensures |r| == |recs|
  {
    Repacked(Rescaled(recs, live, catalog, timeScale), live, rows)
  }

  /** After a scale change every item of the array has its catalog duration times the
      scale as width, and keeps its row. */
  lemma UpdateTimeScaleWidths(recs: seq<Rect>, live: seq<nat>, rows: nat, catalog: seq<Entity>,
                              timeScale: real)
    requires InBounds(recs, live) && EntitiesKnown(recs, live, catalog)
    ensures var q := UpdateTimeScale(recs, live, rows, catalog, timeScale);
            forall k :: k in live ==> q[k].width == GetBuildTime(catalog[recs[k].entity]) * timeScale &&
                                      q[k].row == recs[k].row && q[k].entity == recs[k].entity
  {
    forall k | k in live
      ensures UpdateTimeScale(recs, live, rows, catalog, timeScale)[k].width ==
                GetBuildTime(catalog[recs[k].entity]) * timeScale
      ensures UpdateTimeScale(recs, live, rows, catalog, timeScale)[k].row == recs[k].row
      ensures UpdateTimeScale(recs, live, rows, catalog, timeScale)[k].entity == recs[k].entity
    {
      UpdateTimeScaleAt(recs, live, rows, catalog, timeScale, k);
    }
  }

  /** `UpdateTimeScaleWidths` at one item. */
  lemma UpdateTimeScaleAt(recs: seq<Rect>, live: seq<nat>, rows: nat, catalog: seq<Entity>,
                          timeScale: real, k: nat)
    requires InBounds(recs, live) && EntitiesKnown(recs, live, catalog) && k in live
    ensures var q := UpdateTimeScale(recs, live, rows, catalog, timeScale);
            q[k] == recs[k].(x := q[k].x, width := GetBuildTime(catalog[recs[k].entity]) * timeScale)
  {
    var r := Rescaled(recs, live, catalog, timeScale);
    RescaledAt(recs, live, catalog, timeScale, k);
    RepackedAt(r, live, rows, k);
  }

  lemma RescaledAt(recs: seq<Rect>, live: seq<nat>, catalog: seq<Entity>, timeScale: real, k: nat)
    requires InBounds(recs, live) && EntitiesKnown(recs, live, catalog) && k in live
    ensures Rescaled(recs, live, catalog, timeScale)[k] ==
              recs[k].(width := GetBuildTime(catalog[recs[k].entity]) * timeScale)
  {
  }

  /** Widths already at the scale are left alone by the width update. */
  lemma RescaledFixpoint(q: seq<Rect>, live: seq<nat>, catalog: seq<Entity>, timeScale: real)
    requires InBounds(q, live) && EntitiesKnown(q, live, catalog)
    requires forall k :: k in live ==> q[k].width == GetBuildTime(catalog[q[k].entity]) * timeScale
    ensures Rescaled(q, live, catalog, timeScale) == q
  {
    var r := Rescaled(q, live, catalog, timeScale);
    forall k | 0 <= k < |q| ensures r[k] == q[k] {
      if k in live {
        RescaledAt(q, live, catalog, timeScale, k);
      }
    }
  }

  /** A second `updateTimeScale` at the same scale changes nothing, when every item has
      a positive duration and the scale is positive. */
  lemma UpdateTimeScaleIdempotent(recs: seq<Rect>, live: seq<nat>, rows: nat, catalog: seq<Entity>,
                                  timeScale: real)
    requires InBounds(recs, live) && Increasing(live) && EntitiesKnown(recs, live, catalog)
    requires timeScale > 0.0 && forall k :: k in live ==> GetBuildTime(catalog[recs[k].entity]) > 0.0
    ensures var q := UpdateTimeScale(recs, live, rows, catalog, timeScale);
            EntitiesKnown(q, live, catalog) && UpdateTimeScale(q, live, rows, catalog, timeScale) == q
  {
    var r := Rescaled(recs, live, catalog, timeScale);
    var q := UpdateTimeScale(recs, live, rows, catalog, timeScale);
    UpdateTimeScaleWidths(recs, live, rows, catalog, timeScale);
    forall k | k in live ensures r[k].width > 0.0 {
      RescaledAt(recs, live, catalog, timeScale, k);
      ProductPositive(GetBuildTime(catalog[recs[k].entity]), timeScale);
    }
    RescaledFixpoint(q, live, catalog, timeScale);
    RepackedIdempotent(r, live, rows);
  }

  /** A product of two positive reals is positive. */
  lemma ProductPositive(a: real, b: real)
    requires a > 0.0 && b > 0.0
    ensures a * b > 0.0
  {
  }

  /** With valid durations and a positive scale, no item of rows `0 .. rows - 1`
      collides with another item of its row after a scale change. */
  lemma UpdateTimeScaleNoCollision(recs: seq<Rect>, live: seq<nat>, rows: nat, catalog: seq<Entity>,
                                   timeScale: real)
    requires InBounds(recs, live) && Increasing(live) && EntitiesKnown(recs, live, catalog)
    requires timeScale > 0.0 && forall e :: 0 <= e < |catalog| ==> EntityOk(catalog[e])
    ensures var q := UpdateTimeScale(recs, live, rows, catalog, timeScale);
            forall k :: k in live && 0 <= q[k].row < rows ==>
              !HasCollision(q, live, q[k].row, q[k].x, q[k].width, q[k].id)
  {
    var r := Rescaled(recs, live, catalog, timeScale);
    forall k | k in live ensures r[k].width >= 0.0 {
      var d := GetBuildTime(catalog[recs[k].entity]);
      assert EntityOk(catalog[recs[k].entity]);
      assert r[k].width == d * timeScale;
    }
    RepackedNoCollision(r, live, rows);
  }

  /** A chronoboost changes no item's entity. */
  lemma ChronoboostEntities(recs: seq<Rect>, live: seq<nat>, rows: nat, catalog: seq<Entity>,
                            timeScale: real, k: nat, change: int)
    requires InBounds(recs, live) && k < |recs| && recs[k].entity < |catalog|
    ensures var b := ApplyChronoboost(recs, live, rows, catalog, timeScale, k, change);
            forall i :: 0 <= i < |recs| ==> b.recs[i].entity == recs[i].entity
  {
    var recs1 := recs[k := BoostedRect(recs[k], catalog, change, timeScale)];
    forall i | 0 <= i < |recs|
      ensures ApplyChronoboost(recs, live, rows, catalog, timeScale, k, change).recs[i].entity == recs[i].entity
    {
      RepackedAt(recs1, live, rows, i);
    }
  }
}
