/** Dragging an item with the items to its right.

    On mouse-down the item and every item of its row strictly to its right form a group.
    While the mouse moves, the group follows the cursor (changing row as a whole), and on
    mouse-up the row is laid out again from 0 with the group inserted before the first
    other item it starts at or before. */
module Drag {
  import opened Common
  import opened Rects
  import opened Packing
  import opened Edits

  /** Height of a row band and the offset of an item's top within it, in pixels. */
  const RowHeight: real := 105.0
  const RowOffset: real := 47.0

  /** `dragData`: the dragged item, where it started and the items that move with it.
      The grab offsets of the source are folded into the cursor positions the handlers
      receive. */
  datatype DragData = DragData(dragged: nat, startX: real, originalRow: int, rightward: seq<nat>)

  // ---------------------------------------------------------------------------------
  // Mouse-down

  /** The items of `s` that start strictly right of `x`, in order. */
  function RightOf(recs: seq<Rect>, s: seq<nat>, x: real): (r: seq<nat>)
    requires InBounds(recs, s)
    ensures InBounds(recs, r)
    ensures forall k :: k in r <==> k in s && recs[k].x > x
    ensures Increasing(s) ==> Increasing(r)
  {
    if s == [] then []
    else
      var rest := RightOf(recs, s[1..], x);
      IncreasingTail(s, rest);
      (if recs[s[0]].x > x then [s[0]] else []) + rest
  }

  /** The items that move with item `k`: those of its row, with another id, strictly to
      its right, in array order (not in order of position). */
  function Rightward(recs: seq<Rect>, live: seq<nat>, k: nat): (r: seq<nat>)
    requires InBounds(recs, live) && k < |recs|
    ensures InBounds(recs, r)
    ensures forall j :: j in r <==> j in live && recs[j].row == recs[k].row &&
                                    recs[j].id != recs[k].id && recs[j].x > recs[k].x
    ensures Increasing(live) ==> Increasing(r)
  {
    RightOf(recs, RowRefsExcept(recs, live, recs[k].row, recs[k].id), recs[k].x)
  }

  /** `handleMouseDown` on item `k`: the drag state it records. */
  function StartDrag(recs: seq<Rect>, live: seq<nat>, k: nat): DragData
    requires InBounds(recs, live) && k < |recs|
  {
    DragData(k, recs[k].x, recs[k].row, Rightward(recs, live, k))
  }

  /** What a drag needs to stay meaningful: the dragged item is not one of the items that
      follow it, those are listed once, and the live ones share the dragged item's row. */
  predicate GroupOk(recs: seq<Rect>, live: seq<nat>, d: DragData)
    requires d.dragged < |recs| && InBounds(recs, d.rightward)
  {
    d.dragged !in d.rightward && Distinct(d.rightward) &&
    forall j :: j in d.rightward && j in live ==> recs[j].row == recs[d.dragged].row
  }

  /** A drag starts with a well-formed group. */
  lemma StartDragOk(recs: seq<Rect>, live: seq<nat>, k: nat)
    requires InBounds(recs, live) && Increasing(live) && k < |recs|
    ensures var d := StartDrag(recs, live, k);
            d.dragged == k && InBounds(recs, d.rightward) && GroupOk(recs, live, d)
  {
    var r := Rightward(recs, live, k);
    forall i, j | 0 <= i < j < |r| ensures r[i] != r[j] {
      assert r[i] < r[j];
    }
  }

  // ---------------------------------------------------------------------------------
  // Mouse-move

  /** `Math.max(0, Math.min(rows - 1, Math.floor((y + 47) / 105)))`: the row band under
      the cursor, clamped to the existing rows. */
  function RowAt(y: real, rows: int): (r: int)
    requires rows >= 1
    ensures 0 <= r < rows
  {
    var f := ((y + RowOffset) / RowHeight).Floor;
    var m := if f <= rows - 1 then f else rows - 1;
    if m >= 0 then m else 0
  }

  /** A cursor anywhere in row `row`'s band, in particular where the drag started
      (`row * 105 + 47`), selects that row. */
  lemma RowAtBand(y: real, rows: int, row: int)
    requires 0 <= row < rows
    requires row as real * RowHeight - RowOffset <= y < (row + 1) as real * RowHeight - RowOffset
    ensures RowAt(y, rows) == row
  {
    var f := ((y + RowOffset) / RowHeight).Floor;
    assert row as real <= (y + RowOffset) / RowHeight < (row + 1) as real;
    assert f == row;
  }

  /** The row change of `handleMouseMove`: when the cursor is over another row, the
      dragged item and then those followers still in the chart move to it. */
  function Reseated(recs: seq<Rect>, live: seq<nat>, d: DragData, newRow: int): (r: seq<Rect>)
    requires d.dragged < |recs| && InBounds(recs, d.rightward)
    ensures |r| == |recs|
  {
    if newRow == recs[d.dragged].row then recs
    else SetRows(recs[d.dragged := recs[d.dragged].(row := newRow)], d.rightward, live, newRow)
  }

  /** The `rightwardRects` loop of the row change: each item of `rs` still in the chart
      moves to row `newRow`. */
  function SetRows(recs: seq<Rect>, rs: seq<nat>, live: seq<nat>, newRow: int): (r: seq<Rect>)
    requires InBounds(recs, rs)
    ensures |r| == |recs|
    decreases |rs|
  {
    if rs == [] then recs
    else
      var o := rs[0];
      SetRows(if o in live then recs[o := recs[o].(row := newRow)] else recs, rs[1..], live, newRow)
  }

  /** The row loop on one item: a listed item still in the chart gets the new row, every
      other item keeps its record. */
  lemma {:induction false} SetRowsAt(recs: seq<Rect>, rs: seq<nat>, live: seq<nat>, newRow: int, j: nat)
    requires InBounds(recs, rs) && j < |recs|
    ensures SetRows(recs, rs, live, newRow)[j] ==
              if j in rs && j in live then recs[j].(row := newRow) else recs[j]
    decreases |rs|
  {
    if rs != [] {
      var o := rs[0];
      var r1 := if o in live then recs[o := recs[o].(row := newRow)] else recs;
      SetRowsAt(r1, rs[1..], live, newRow, j);
      assert j in rs <==> j == o || j in rs[1..];
    }
  }

  /** The followers of the drag loop: each goes `delta` further, but never left of where
      the previous item of the group ends (`cur`). */
  function Follow(recs: seq<Rect>, rs: seq<nat>, cur: real, delta: real): (r: seq<Rect>)
    requires InBounds(recs, rs)
    ensures |r| == |recs|
    decreases |rs|
  {
    if rs == [] then recs
    else
      var o := rs[0];
      var nx := Max(cur, recs[o].x + delta);
      Follow(recs[o := recs[o].(x := nx)], rs[1..], nx + recs[o].width, delta)
  }

  /** The first half of `handleMouseMove` with the cursor at `(x, y)`: the row change,
      then the dragged item at `max(0, x)`. */
  function Grabbed(recs: seq<Rect>, live: seq<nat>, rows: int, d: DragData, x: real, y: real): (r: seq<Rect>)
    requires d.dragged < |recs| && InBounds(recs, d.rightward) && rows >= 1
    ensures |r| == |recs|
  {
    var p := Reseated(recs, live, d, RowAt(y, rows));
    p[d.dragged := p[d.dragged].(x := Max(0.0, x))]
  }

  /** `handleMouseMove` with the cursor at `(x, y)`: the dragged item moves, then its
      followers after it, by as much as it moved (a row change leaves `x` alone). */
  function MoveDragged(recs: seq<Rect>, live: seq<nat>, rows: int, d: DragData, x: real, y: real): (r: seq<Rect>)
    requires d.dragged < |recs| && InBounds(recs, d.rightward) && rows >= 1
    ensures |r| == |recs|
  {
    var nx := Max(0.0, x);
    Follow(Grabbed(recs, live, rows, d, x, y), d.rightward,
           nx + recs[d.dragged].width, nx - recs[d.dragged].x)
  }

  /** Items laid out one after another in the order of `rs`, starting at or after `cur`:
      the first starts at or after `cur` and each starts at or after the end of the one
      before it. */
  ghost predicate ChainedFrom(recs: seq<Rect>, rs: seq<nat>, cur: real)
    requires InBounds(recs, rs)
  {
    (|rs| > 0 ==> recs[rs[0]].x >= cur) &&
    forall i :: 0 < i < |rs| ==> recs[rs[i - 1]].x + recs[rs[i - 1]].width <= recs[rs[i]].x
  }

  /** Following changes only the positions of the followers. */
  lemma {:induction false} FollowFrame(recs: seq<Rect>, rs: seq<nat>, cur: real, delta: real)
    requires InBounds(recs, rs)
    ensures SameButX(recs, Follow(recs, rs, cur, delta))
    ensures forall k :: 0 <= k < |recs| && k !in rs ==> Follow(recs, rs, cur, delta)[k] == recs[k]
    decreases |rs|
  {
    if rs != [] {
      var o := rs[0];
      var nx := Max(cur, recs[o].x + delta);
      var recs1 := recs[o := recs[o].(x := nx)];
      FollowFrame(recs1, rs[1..], nx + recs[o].width, delta);
      var f := Follow(recs1, rs[1..], nx + recs[o].width, delta);
      assert Follow(recs, rs, cur, delta) == f;
      TailMembers(rs);
      MovedOneThenRest(recs, o, nx, f);
    }
  }

  /** Moving one item, then items of a list, moves only items. */
  lemma MovedOneThenRest(recs: seq<Rect>, o: nat, nx: real, f: seq<Rect>)
    requires o < |recs| && SameButX(recs[o := recs[o].(x := nx)], f)
    ensures SameButX(recs, f)
  {
    var recs1 := recs[o := recs[o].(x := nx)];
    forall k | 0 <= k < |recs| ensures f[k] == recs[k].(x := f[k].x) {
      assert f[k] == recs1[k].(x := f[k].x);
    }
  }

  /** Every element of the tail is an element of the sequence. */
  lemma TailMembers(rs: seq<nat>)
    requires |rs| > 0
    ensures forall k :: k in rs[1..] ==> k in rs
  {
    forall k | k in rs[1..] ensures k in rs {
      var i :| 0 <= i < |rs[1..]| && rs[1..][i] == k;
      assert rs[i + 1] == k;
    }
  }

  /** Following leaves an item outside the group as it was. */
  lemma FollowKeeps(recs: seq<Rect>, rs: seq<nat>, cur: real, delta: real, k: nat)
    requires InBounds(recs, rs) && k < |recs| && k !in rs
    ensures Follow(recs, rs, cur, delta)[k] == recs[k]
  {
    FollowFrame(recs, rs, cur, delta);
  }

  /** After following, the group is laid out one after another from `cur`. */
  lemma {:induction false} FollowChained(recs: seq<Rect>, rs: seq<nat>, cur: real, delta: real)
    requires InBounds(recs, rs) && Distinct(rs)
    ensures ChainedFrom(Follow(recs, rs, cur, delta), rs, cur)
    decreases |rs|
  {
    if rs != [] {
      var o := rs[0];
      var w := recs[o].width;
      var nx := Max(cur, recs[o].x + delta);
      var recs1 := recs[o := recs[o].(x := nx)];
      var rest := rs[1..];
      DistinctTail(rs);
      FollowChained(recs1, rest, nx + w, delta);
      FollowKeeps(recs1, rest, nx + w, delta, o);
      var f := Follow(recs1, rest, nx + w, delta);
      assert Follow(recs, rs, cur, delta) == f;
      ChainedCons(f, rs, cur);
    }
  }

  /** A chain extends by one item in front that starts at or after `cur` and ends
      where the rest of the chain may begin. */
  lemma ChainedCons(recs: seq<Rect>, rs: seq<nat>, cur: real)
    requires InBounds(recs, rs) && |rs| > 0 && recs[rs[0]].x >= cur
    requires ChainedFrom(recs, rs[1..], recs[rs[0]].x + recs[rs[0]].width)
    ensures ChainedFrom(recs, rs, cur)
  {
    var rest := rs[1..];
    forall i | 0 < i < |rs| ensures recs[rs[i - 1]].x + recs[rs[i - 1]].width <= recs[rs[i]].x {
      assert rs[i] == rest[i - 1];
      if i > 1 {
        assert rs[i - 1] == rest[i - 2];
      }
    }
  }

  /** The items after the first are chained from the end of the first. */
  lemma ChainedTail(recs: seq<Rect>, rs: seq<nat>, cur: real)
    requires InBounds(recs, rs) && |rs| > 0 && ChainedFrom(recs, rs, cur)
    ensures ChainedFrom(recs, rs[1..], recs[rs[0]].x + recs[rs[0]].width)
  {
    var rest := rs[1..];
    if |rest| > 0 {
      assert rest[0] == rs[1];
    }
    forall i | 0 < i < |rest| ensures recs[rest[i - 1]].x + recs[rest[i - 1]].width <= recs[rest[i]].x {
      assert rest[i] == rs[i + 1] && rest[i - 1] == rs[i];
    }
  }

  /** In a chain every item starts at or after `cur` and at or after the end of every
      earlier item. */
  lemma {:induction false} ChainReach(recs: seq<Rect>, rs: seq<nat>, cur: real, j: nat)
    requires InBounds(recs, rs) && ChainedFrom(recs, rs, cur) && WidthsNonNeg(recs, rs) && j < |rs|
    ensures cur <= recs[rs[j]].x
    ensures forall i :: 0 <= i < j ==> recs[rs[i]].x + recs[rs[i]].width <= recs[rs[j]].x
  {
    if j > 0 {
      ChainReach(recs, rs, cur, j - 1);
      assert recs[rs[j - 1]].width >= 0.0;
      assert recs[rs[j - 1]].x + recs[rs[j - 1]].width <= recs[rs[j]].x;
    }
  }

  /** Items chained from `cur` do not overlap one another, and none starts before `cur`. */
  lemma ChainedNoOverlap(recs: seq<Rect>, rs: seq<nat>, cur: real)
    requires InBounds(recs, rs) && ChainedFrom(recs, rs, cur) && WidthsNonNeg(recs, rs)
    ensures forall i :: 0 <= i < |rs| ==> cur <= recs[rs[i]].x
    ensures forall i, j :: 0 <= i < j < |rs| ==> recs[rs[i]].x + recs[rs[i]].width <= recs[rs[j]].x
  {
    forall j | 0 <= j < |rs|
      ensures cur <= recs[rs[j]].x
      ensures forall i :: 0 <= i < j ==> recs[rs[i]].x + recs[rs[i]].width <= recs[rs[j]].x
    {
      ChainReach(recs, rs, cur, j);
    }
  }

  /** Chaining depends only on positions and widths. */
  lemma ChainedFromSame(a: seq<Rect>, b: seq<Rect>, rs: seq<nat>, cur: real)
    requires InBounds(a, rs) && InBounds(b, rs)
    requires forall i :: 0 <= i < |rs| ==> b[rs[i]] == a[rs[i]]
    requires ChainedFrom(a, rs, cur)
    ensures ChainedFrom(b, rs, cur)
  {
    forall i | 0 < i < |rs| ensures b[rs[i - 1]].x + b[rs[i - 1]].width <= b[rs[i]].x {
      assert b[rs[i - 1]] == a[rs[i - 1]];
    }
  }

  /** A group that was already laid out one after another from `start` moves rigidly:
      following with the chain start moved by `delta` moves every item by exactly
      `delta`. */
  lemma {:induction false} FollowRigid(recs: seq<Rect>, rs: seq<nat>, start: real, delta: real, cur: real)
    requires InBounds(recs, rs) && Distinct(rs) && ChainedFrom(recs, rs, start) && cur == start + delta
    ensures forall i :: 0 <= i < |rs| ==> Follow(recs, rs, cur, delta)[rs[i]].x == recs[rs[i]].x + delta
    decreases |rs|
  {
    if rs != [] {
      var o := rs[0];
      var rest := rs[1..];
      var w := recs[o].width;
      var nx := recs[o].x + delta;
      var recs1 := recs[o := recs[o].(x := nx)];
      DistinctTail(rs);
      ChainedRest(recs, rs, start, nx);
      FollowRigid(recs1, rest, recs[o].x + w, delta, nx + w);
      FollowKeeps(recs1, rest, nx + w, delta, o);
      assert Max(cur, recs[o].x + delta) == nx;
      var f := Follow(recs1, rest, nx + w, delta);
      assert Follow(recs, rs, cur, delta) == f;
      forall i | 0 <= i < |rest| ensures f[rest[i]].x == recs[rest[i]].x + delta {
        assert rest[i] in rest;
      }
      RigidCons(recs, rs, delta, f);
    }
  }

  /** The head moved by `delta` and every later item moved by `delta`: the whole list
      moved by `delta`. */
  lemma RigidCons(recs: seq<Rect>, rs: seq<nat>, delta: real, f: seq<Rect>)
    requires InBounds(recs, rs) && |rs| > 0 && |f| == |recs|
    requires f[rs[0]].x == recs[rs[0]].x + delta
    requires forall i :: 0 <= i < |rs| - 1 ==> f[rs[1..][i]].x == recs[rs[1..][i]].x + delta
    ensures forall i :: 0 <= i < |rs| ==> f[rs[i]].x == recs[rs[i]].x + delta
  {
    forall i | 0 < i < |rs| ensures f[rs[i]].x == recs[rs[i]].x + delta {
      assert rs[i] == rs[1..][i - 1];
    }
  }

  /** Moving the head of a chain leaves the rest of it chained from the head's old end. */
  lemma ChainedRest(recs: seq<Rect>, rs: seq<nat>, start: real, nx: real)
    requires InBounds(recs, rs) && |rs| > 0 && Distinct(rs) && ChainedFrom(recs, rs, start)
    ensures var o := rs[0];
            ChainedFrom(recs[o := recs[o].(x := nx)], rs[1..], recs[o].x + recs[o].width)
  {
    var o := rs[0];
    var rest := rs[1..];
    var recs1 := recs[o := recs[o].(x := nx)];
    DistinctTail(rs);
    ChainedTail(recs, rs, start);
    forall i | 0 <= i < |rest| ensures recs1[rest[i]] == recs[rest[i]] {
      assert rest[i] in rest;
    }
    ChainedFromSame(recs, recs1, rest, recs[o].x + recs[o].width);
  }

  /** The tail of a sequence without repetitions has none either, and lacks the head. */
  lemma DistinctTail(rs: seq<nat>)
    requires |rs| > 0 && Distinct(rs)
    ensures Distinct(rs[1..]) && rs[0] !in rs[1..]
  {
    var rest := rs[1..];
    forall i, j | 0 <= i < j < |rest| ensures rest[i] != rest[j] {
      assert rest[i] == rs[i + 1] && rest[j] == rs[j + 1];
    }
    forall i | 0 <= i < |rest| ensures rest[i] != rs[0] {
      assert rest[i] == rs[i + 1];
    }
  }


  /** What a move does: the dragged item `k` sits at `nx` in row `nr`, its followers
      still in the chart are in that row too, the followers are laid out one after
      another from the dragged item's end, and no item outside the group changes. */
  ghost predicate MovedTo(recs: seq<Rect>, q: seq<Rect>, live: seq<nat>, k: nat, rs: seq<nat>, nr: int, nx: real)
    requires k < |recs| == |q| && InBounds(recs, rs)
  {
    q[k].x == nx && q[k].row == nr && ChainedFrom(q, rs, nx + q[k].width) &&
    (forall j :: j in rs && j in live ==> q[j].row == nr) &&
    (forall j :: 0 <= j < |recs| && j != k && j !in rs ==> q[j] == recs[j])
  }

  /** A move puts the dragged item at `max(0, x)` in the row under the cursor and lays
      out the group after it, as `MovedTo` says. */
  lemma MoveDraggedEffect(recs: seq<Rect>, live: seq<nat>, rows: int, d: DragData, x: real, y: real)
    requires d.dragged < |recs| && InBounds(recs, d.rightward) && rows >= 1
    requires GroupOk(recs, live, d)
    ensures MovedTo(recs, MoveDragged(recs, live, rows, d, x, y), live, d.dragged, d.rightward,
                    RowAt(y, rows), Max(0.0, x))
  {
    MoveDraggedUnfold(recs, live, rows, d, x, y);
    GrabThenFollow(recs, live, rows, d, x, y);
  }

  /** The two halves of a move, each by its own lemma. */
  lemma GrabThenFollow(recs: seq<Rect>, live: seq<nat>, rows: int, d: DragData, x: real, y: real)
    requires d.dragged < |recs| && InBounds(recs, d.rightward) && rows >= 1
    requires GroupOk(recs, live, d)
    ensures MovedTo(recs, Follow(Grabbed(recs, live, rows, d, x, y), d.rightward,
                                 Max(0.0, x) + recs[d.dragged].width, Max(0.0, x) - recs[d.dragged].x),
                    live, d.dragged, d.rightward, RowAt(y, rows), Max(0.0, x))
  {
    GrabbedEffect(recs, live, rows, d, x, y);
    FollowShape(recs, Grabbed(recs, live, rows, d, x, y), live, d.dragged, d.rightward, RowAt(y, rows), Max(0.0, x));
  }

  /** Following a grabbed group: the second half of a move. */
  lemma FollowShape(recs: seq<Rect>, g: seq<Rect>, live: seq<nat>, k: nat, rs: seq<nat>, nr: int, nx: real)
    requires k < |recs| == |g| && InBounds(recs, rs) && k !in rs && Distinct(rs)
    requires GrabbedTo(recs, g, live, k, rs, nr, nx)
    ensures MovedTo(recs, Follow(g, rs, nx + recs[k].width, nx - recs[k].x), live, k, rs, nr, nx)
  {
    FollowEffect(g, rs, k, nx + recs[k].width, nx - recs[k].x);
    MovedShape(recs, g, Follow(g, rs, nx + recs[k].width, nx - recs[k].x), live, k, rs, nr, nx);
  }

  /** The effect of a move, from the effects of its two halves. */
  lemma MovedShape(recs: seq<Rect>, g: seq<Rect>, q: seq<Rect>, live: seq<nat>, k: nat, rs: seq<nat>, nr: int, nx: real)
    requires k < |recs| == |g| == |q| && InBounds(recs, rs) && k !in rs
    requires GrabbedTo(recs, g, live, k, rs, nr, nx)
    requires ChainedFrom(q, rs, nx + recs[k].width) && SameButX(g, q)
    requires forall j :: 0 <= j < |g| && j !in rs ==> q[j] == g[j]
    ensures MovedTo(recs, q, live, k, rs, nr, nx)
  {
    forall j | j in rs && j in live ensures q[j].row == nr {
      assert j < |g|;
    }
  }

  /** The dragged item `k` is at `nx` in row `nr`, its live followers are in that row,
      and nothing outside the group differs from `recs`. */
  ghost predicate GrabbedTo(recs: seq<Rect>, g: seq<Rect>, live: seq<nat>, k: nat, rs: seq<nat>, nr: int, nx: real)
    requires k < |recs| == |g| && InBounds(recs, rs)
  {
    g[k] == recs[k].(row := nr, x := nx) &&
    (forall j :: j in rs && j in live ==> g[j].row == nr) &&
    (forall j :: 0 <= j < |recs| && j != k && j !in rs ==> g[j] == recs[j])
  }

  /** Grabbing: the dragged item goes to `max(0, x)` in the row under the cursor, its
      live followers go to that row, and nothing else changes. */
  lemma GrabbedEffect(recs: seq<Rect>, live: seq<nat>, rows: int, d: DragData, x: real, y: real)
    requires d.dragged < |recs| && InBounds(recs, d.rightward) && rows >= 1
    requires GroupOk(recs, live, d)
    ensures GrabbedTo(recs, Grabbed(recs, live, rows, d, x, y), live, d.dragged, d.rightward,
                      RowAt(y, rows), Max(0.0, x))
  {
    var k, nr := d.dragged, RowAt(y, rows);
    var r1 := Reseated(recs, live, d, nr);
    ReseatedRows(recs, live, d, nr);
    assert Grabbed(recs, live, rows, d, x, y) == r1[k := r1[k].(x := Max(0.0, x))];
  }

  /** The follower loop over a group without repeats leaves every item outside the group
      as it was and lays the group out one after another from `cur`. */
  lemma FollowEffect(g: seq<Rect>, rs: seq<nat>, k: nat, cur: real, delta: real)
    requires InBounds(g, rs) && Distinct(rs) && k < |g| && k !in rs
    ensures var q := Follow(g, rs, cur, delta);
            ChainedFrom(q, rs, cur) && SameButX(g, q) &&
            forall j :: 0 <= j < |g| && j !in rs ==> q[j] == g[j]
  {
    FollowFrame(g, rs, cur, delta);
    FollowChained(g, rs, cur, delta);
  }

  /** The row change puts the dragged item and its live followers in the new row, keeps
      their positions and widths, and touches no other item. */
  lemma ReseatedRows(recs: seq<Rect>, live: seq<nat>, d: DragData, newRow: int)
    requires d.dragged < |recs| && InBounds(recs, d.rightward) && GroupOk(recs, live, d)
    ensures var r := Reseated(recs, live, d, newRow);
            r[d.dragged] == recs[d.dragged].(row := newRow) &&
            (forall j :: j in d.rightward && j in live ==> r[j] == recs[j].(row := newRow)) &&
            (forall j :: 0 <= j < |recs| && j != d.dragged && j !in d.rightward ==> r[j] == recs[j])
  {
    var k, r := d.dragged, Reseated(recs, live, d, newRow);
    if newRow != recs[k].row {
      var base := recs[k := recs[k].(row := newRow)];
      forall j | 0 <= j < |recs|
        ensures r[j] == if j in d.rightward && j in live then base[j].(row := newRow) else base[j]
      {
        SetRowsAt(base, d.rightward, live, newRow, j);
      }
    }
  }


  /** A group that was laid out one after another (as a packed row is) moves rigidly:
      every follower moves by exactly as much as the dragged item. */
  lemma MoveDraggedRigid(recs: seq<Rect>, live: seq<nat>, rows: int, d: DragData, x: real, y: real)
    requires d.dragged < |recs| && InBounds(recs, d.rightward) && rows >= 1
    requires d.dragged !in d.rightward && Distinct(d.rightward)
    requires ChainedFrom(recs, d.rightward, recs[d.dragged].x + recs[d.dragged].width)
    ensures var q := MoveDragged(recs, live, rows, d, x, y);
            forall i :: 0 <= i < |d.rightward| ==>
              q[d.rightward[i]].x == recs[d.rightward[i]].x + (Max(0.0, x) - recs[d.dragged].x)
  {
    var k := d.dragged;
    var rs := d.rightward;
    var g := Grabbed(recs, live, rows, d, x, y);
    var nx := Max(0.0, x);
    MoveDraggedUnfold(recs, live, rows, d, x, y);
    GrabbedFollowers(recs, live, rows, d, x, y);
    assert ChainedFrom(g, rs, recs[k].x + recs[k].width) by {
      forall i | 0 < i < |rs| ensures g[rs[i - 1]].x + g[rs[i - 1]].width <= g[rs[i]].x {
        assert recs[rs[i - 1]].x + recs[rs[i - 1]].width <= recs[rs[i]].x;
      }
    }
    FollowRigid(g, rs, recs[k].x + recs[k].width, nx - recs[k].x, nx + recs[k].width);
  }

  lemma MoveDraggedUnfold(recs: seq<Rect>, live: seq<nat>, rows: int, d: DragData, x: real, y: real)
    requires d.dragged < |recs| && InBounds(recs, d.rightward) && rows >= 1
    ensures MoveDragged(recs, live, rows, d, x, y) ==
              Follow(Grabbed(recs, live, rows, d, x, y), d.rightward,
                     Max(0.0, x) + recs[d.dragged].width, Max(0.0, x) - recs[d.dragged].x)
  {
  }

  /** Grabbing moves no follower. */
  lemma GrabbedFollowers(recs: seq<Rect>, live: seq<nat>, rows: int, d: DragData, x: real, y: real)
    requires d.dragged < |recs| && InBounds(recs, d.rightward) && rows >= 1 && d.dragged !in d.rightward
    ensures var g := Grabbed(recs, live, rows, d, x, y);
            forall i :: 0 <= i < |d.rightward| ==>
              g[d.rightward[i]].x == recs[d.rightward[i]].x && g[d.rightward[i]].width == recs[d.rightward[i]].width
  {
    var rs := d.rightward;
    forall i | 0 <= i < |rs|
      ensures Grabbed(recs, live, rows, d, x, y)[rs[i]].x == recs[rs[i]].x
      ensures Grabbed(recs, live, rows, d, x, y)[rs[i]].width == recs[rs[i]].width
    {
      assert rs[i] in rs;
      ReseatedAt(recs, live, d, RowAt(y, rows), rs[i]);
    }
  }



  /** A row change changes nothing but rows. */
  lemma ReseatedAt(recs: seq<Rect>, live: seq<nat>, d: DragData, newRow: int, j: nat)
    requires d.dragged < |recs| && InBounds(recs, d.rightward) && j < |recs|
    ensures Reseated(recs, live, d, newRow)[j] == recs[j].(row := Reseated(recs, live, d, newRow)[j].row)
  {
    if newRow != recs[d.dragged].row {
      SetRowsAt(recs[d.dragged := recs[d.dragged].(row := newRow)], d.rightward, live, newRow, j);
    }
  }

  /** Moving keeps the group well formed, so the next move (or the drop) applies. */
  lemma MoveKeepsGroupOk(recs: seq<Rect>, live: seq<nat>, rows: int, d: DragData, x: real, y: real)
    requires d.dragged < |recs| && InBounds(recs, d.rightward) && rows >= 1
    requires GroupOk(recs, live, d)
    ensures GroupOk(MoveDragged(recs, live, rows, d, x, y), live, d)
  {
    MoveDraggedEffect(recs, live, rows, d, x, y);
  }

  // ---------------------------------------------------------------------------------
  // Mouse-up

  /** The elements of `s` not in `ex`, in order. */
  function Without(s: seq<nat>, ex: seq<nat>): (r: seq<nat>)
    ensures |r| <= |s|
    ensures forall k :: k in r <==> k in s && k !in ex
    ensures Increasing(s) ==> Increasing(r)
  {
    if s == [] then []
    else
      var rest := Without(s[1..], ex);
      IncreasingTail(s, rest);
      (if s[0] !in ex then [s[0]] else []) + rest
  }

  /** `otherRects` of `positionAtInsertionPoint`: the items of the dragged item's row
      other than the group, in array order. */
  function Others(recs: seq<Rect>, live: seq<nat>, d: DragData): (r: seq<nat>)
    requires InBounds(recs, live) && d.dragged < |recs|
    ensures InBounds(recs, r)
    ensures forall k :: k in r <==> k in live && recs[k].row == recs[d.dragged].row &&
                                    recs[k].id != recs[d.dragged].id && k !in d.rightward
    ensures Increasing(live) ==> Increasing(r)
  {
    var s := RowRefsExcept(recs, live, recs[d.dragged].row, recs[d.dragged].id);
    var r := Without(s, d.rightward);
    assert forall i :: 0 <= i < |r| ==> r[i] in s;
    r
  }

  /** Where the group goes among `s`: before the first item that starts at or after `x`,
      or at the end when there is none. */
  function InsertIndex(recs: seq<Rect>, s: seq<nat>, x: real): (i: nat)
    requires InBounds(recs, s)
    ensures i <= |s|
    ensures forall j :: 0 <= j < i ==> recs[s[j]].x < x
    ensures i < |s| ==> x <= recs[s[i]].x
    decreases |s|
  {
    if s == [] then 0
    else if x <= recs[s[0]].x then 0
    else InsertIndex(recs, s[1..], x) + 1
  }

  /** The new order of the target row: the other items with the group spliced in at the
      insertion index, the dragged item first, then its followers. */
  function DropOrder(recs: seq<Rect>, live: seq<nat>, d: DragData): (o: seq<nat>)
    requires InBounds(recs, live) && d.dragged < |recs| && InBounds(recs, d.rightward)
    ensures InBounds(recs, o)
  {
    var others := Others(recs, live, d);
    var ii := InsertIndex(recs, others, recs[d.dragged].x);
    var g := [d.dragged] + d.rightward;
    SpliceInBounds(recs, others, ii, g);
    others[..ii] + g + others[ii..]
  }

  /** `positionAtInsertionPoint` for the drag `d`: the target row laid out again from 0
      in the drop order. */
  function Dropped(recs: seq<Rect>, live: seq<nat>, d: DragData): (r: seq<Rect>)
    requires InBounds(recs, live) && d.dragged < |recs| && InBounds(recs, d.rightward)
    ensures |r| == |recs|
  {
    Pack(recs, DropOrder(recs, live, d), 0.0)
  }

  /** `s` with `g` spliced in at `i`: the first `i` elements of `s`, then `g`, then the
      rest of `s`. */
  lemma SpliceParts(s: seq<nat>, i: nat, g: seq<nat>)
    requires i <= |s|
    ensures var o := s[..i] + g + s[i..];
            |o| == |s| + |g| &&
            (forall j :: 0 <= j < i ==> o[j] == s[j]) &&
            (forall j :: 0 <= j < |g| ==> o[i + j] == g[j]) &&
            (forall j :: i <= j < |s| ==> o[j + |g|] == s[j])
  {
  }

  /** Splicing keeps exactly the elements of both sequences. */
  lemma SpliceIn(s: seq<nat>, i: nat, g: seq<nat>)
    requires i <= |s|
    ensures forall k :: k in s[..i] + g + s[i..] <==> k in s || k in g
  {
    forall k ensures k in s[..i] + g + s[i..] <==> k in s || k in g {
      assert s == s[..i] + s[i..];
      InConcat3(s[..i], g, s[i..], k);
    }
  }

  /** Splicing items of the array into a list of items of the array gives items of the
      array. */
  lemma SpliceInBounds(recs: seq<Rect>, s: seq<nat>, i: nat, g: seq<nat>)
    requires i <= |s| && InBounds(recs, s) && InBounds(recs, g)
    ensures InBounds(recs, s[..i] + g + s[i..])
  {
    SpliceParts(s, i, g);
    var o := s[..i] + g + s[i..];
    forall j | 0 <= j < |o| ensures o[j] < |recs| {
      if j < i {
      } else if j < i + |g| {
        assert o[i + (j - i)] == g[j - i];
      } else {
        assert o[(j - |g|) + |g|] == s[j - |g|];
      }
    }
  }

  /** The drop order holds exactly the group and the other items of the target row, each
      once. */
  lemma DropOrderMembers(recs: seq<Rect>, live: seq<nat>, d: DragData)
    requires InBounds(recs, live) && Increasing(live)
    requires d.dragged < |recs| && InBounds(recs, d.rightward) && GroupOk(recs, live, d)
    ensures var o := DropOrder(recs, live, d);
            |o| == |Others(recs, live, d)| + 1 + |d.rightward| && Distinct(o) &&
            (forall k :: k in o <==> k == d.dragged || k in d.rightward ||
                                     (k in live && recs[k].row == recs[d.dragged].row &&
                                      recs[k].id != recs[d.dragged].id))
  {
    var others := Others(recs, live, d);
    var ii := InsertIndex(recs, others, recs[d.dragged].x);
    SpliceIn(others, ii, [d.dragged] + d.rightward);
    DropOrderDistinct(recs, live, d);
  }

  /** The group stays together in the drop order, the dragged item first: the items placed
      before it are other items that started left of it, and the next other item (if any)
      did not. */
  lemma DropOrderPlace(recs: seq<Rect>, live: seq<nat>, d: DragData)
    requires InBounds(recs, live)
    requires d.dragged < |recs| && InBounds(recs, d.rightward)
    ensures var o := DropOrder(recs, live, d);
            var others := Others(recs, live, d);
            var ii := InsertIndex(recs, others, recs[d.dragged].x);
            var n := |d.rightward|;
            |o| == |others| + 1 + n &&
            o[ii] == d.dragged &&
            (forall j :: 0 <= j < n ==> o[ii + 1 + j] == d.rightward[j]) &&
            (forall j :: 0 <= j < ii ==> recs[o[j]].x < recs[d.dragged].x) &&
            (ii + 1 + n < |o| ==> recs[d.dragged].x <= recs[o[ii + 1 + n]].x)
  {
    SplicePlace(recs, Others(recs, live, d), d.dragged, d.rightward);
  }

  /** `DropOrderPlace` for any list of other items. */
  lemma SplicePlace(recs: seq<Rect>, s: seq<nat>, k: nat, rs: seq<nat>)
    requires InBounds(recs, s) && k < |recs|
    ensures var ii := InsertIndex(recs, s, recs[k].x);
            var o := s[..ii] + ([k] + rs) + s[ii..];
            var n := |rs|;
            |o| == |s| + 1 + n &&
            o[ii] == k &&
            (forall j :: 0 <= j < n ==> o[ii + 1 + j] == rs[j]) &&
            (forall j :: 0 <= j < ii ==> recs[o[j]].x < recs[k].x) &&
            (ii + 1 + n < |o| ==> recs[k].x <= recs[o[ii + 1 + n]].x)
  {
    var ii := InsertIndex(recs, s, recs[k].x);
    var g := [k] + rs;
    SpliceParts(s, ii, g);
    forall j | 0 <= j < |rs| ensures g[1 + j] == rs[j] {
    }
  }

  /** The drop order repeats no item. */
  lemma DropOrderDistinct(recs: seq<Rect>, live: seq<nat>, d: DragData)
    requires InBounds(recs, live) && Increasing(live)
    requires d.dragged < |recs| && InBounds(recs, d.rightward) && GroupOk(recs, live, d)
    ensures Distinct(DropOrder(recs, live, d))
  {
    var others := Others(recs, live, d);
    var ii := InsertIndex(recs, others, recs[d.dragged].x);
    var g := [d.dragged] + d.rightward;
    IncreasingDistinct(others);
    GroupDistinct(d);
    forall k | k in others ensures k !in g {
      assert k != d.dragged;
    }
    DistinctSplice(others, g, ii);
  }

  lemma IncreasingDistinct(s: seq<nat>)
    requires Increasing(s)
    ensures Distinct(s)
  {
    forall i, j | 0 <= i < j < |s| ensures s[i] != s[j] {
      assert s[i] < s[j];
    }
  }

  /** The group lists each item once. */
  lemma GroupDistinct(d: DragData)
    requires d.dragged !in d.rightward && Distinct(d.rightward)
    ensures Distinct([d.dragged] + d.rightward)
  {
    var g := [d.dragged] + d.rightward;
    forall i, j | 0 <= i < j < |g| ensures g[i] != g[j] {
      assert g[j] == d.rightward[j - 1];
      if i > 0 {
        assert g[i] == d.rightward[i - 1];
      }
    }
  }

  /** Membership in a concatenation of three sequences. */
  lemma InConcat3(a: seq<nat>, b: seq<nat>, c: seq<nat>, k: nat)
    ensures k in a + b + c <==> k in a || k in b || k in c
  {
  }

  /** Splicing a repetition-free `g` with no element of `s` into a repetition-free `s`
      leaves no repetitions. */
  lemma DistinctSplice(s: seq<nat>, g: seq<nat>, i: nat)
    requires i <= |s| && Distinct(s) && Distinct(g) && forall k :: k in s ==> k !in g
    ensures Distinct(s[..i] + g + s[i..])
  {
    var o := s[..i] + g + s[i..];
    forall p, q | 0 <= p < q < |o| ensures o[p] != o[q] {
      if p < i {
        assert o[p] == s[p];
        if q < i + |g| && q >= i {
          assert o[q] == g[q - i];
          assert s[p] in s;
        } else if q >= i + |g| {
          assert o[q] == s[q - |g|];
        }
      } else if p < i + |g| {
        assert o[p] == g[p - i];
        if q < i + |g| {
          assert o[q] == g[q - i];
        } else {
          assert o[q] == s[q - |g|];
          assert s[q - |g|] in s;
        }
      } else {
        assert o[p] == s[p - |g|] && o[q] == s[q - |g|];
      }
    }
  }

  /** What a drop does: only positions change, only the group and the other items of the
      target row move, and these end up side by side from 0 in the drop order, so that no
      item of the target row overlaps another. */
  lemma DroppedSpec(recs: seq<Rect>, live: seq<nat>, d: DragData)
    requires InBounds(recs, live) && Increasing(live) && UniqueIds(recs, live) && d.dragged in live
    requires d.dragged < |recs| && InBounds(recs, d.rightward) && GroupOk(recs, live, d)
    requires WidthsNonNeg(recs, live) && WidthsNonNeg(recs, d.rightward)
    ensures var q := Dropped(recs, live, d);
            var o := DropOrder(recs, live, d);
            SameButX(recs, q) &&
            PackedBy(q, o, 0.0) &&
            (forall k :: 0 <= k < |recs| && k !in o ==> q[k] == recs[k]) &&
            (forall k :: k in live && q[k].row == q[d.dragged].row ==> k in o) &&
            (forall k :: k in live && q[k].row == q[d.dragged].row ==>
               !HasCollision(q, live, q[d.dragged].row, q[k].x, q[k].width, q[k].id))
  {
    var o := DropOrder(recs, live, d);
    var q := Dropped(recs, live, d);
    var row := recs[d.dragged].row;
    DropOrderMembers(recs, live, d);
    PackFrame(recs, o, 0.0);
    PackSpec(recs, o, 0.0);
    forall k | k in live && recs[k].row == row ensures k in o {
      if recs[k].id == recs[d.dragged].id {
        SameIdSame(recs, live, k, d.dragged);
      }
    }
    assert WidthsNonNeg(q, o) by {
      forall i | 0 <= i < |o| ensures q[o[i]].width >= 0.0 {
        var k := o[i];
        assert k in o;
        if k != d.dragged && k !in d.rightward {
          var m :| 0 <= m < |live| && live[m] == k;
          assert recs[live[m]].width >= 0.0;
        } else if k in d.rightward {
          var m :| 0 <= m < |d.rightward| && d.rightward[m] == k;
          assert recs[d.rightward[m]].width >= 0.0;
        } else {
          var m :| 0 <= m < |live| && live[m] == k;
          assert recs[live[m]].width >= 0.0;
        }
      }
    }
    PackedNoCollision(q, live, row, o, 0.0);
    forall k | k in live && q[k].row == row
      ensures !HasCollision(q, live, row, q[k].x, q[k].width, q[k].id)
    {
      var i :| 0 <= i < |o| && o[i] == k;
    }
  }

  /** Two items of the array with the same id are the same item. */
  lemma SameIdSame(recs: seq<Rect>, live: seq<nat>, a: nat, b: nat)
    requires InBounds(recs, live) && UniqueIds(recs, live) && a in live && b in live
    requires recs[a].id == recs[b].id
    ensures a == b
  {
    var i :| 0 <= i < |live| && live[i] == a;
    var j :| 0 <= j < |live| && live[j] == b;
  }
}
