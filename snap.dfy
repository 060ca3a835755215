/** Snapping a dropped or added item to a position: `getInsertionPoints`,
    the nearest-point choice of `findValidPosition`, and `pushRectanglesRight`. */
module Snap {
  import opened Common
  import opened Rects
  import opened XSort
  import opened Packing

  predicate StrictlyAscending(s: seq<real>) {
    forall i, j :: 0 <= i < j < |s| ==> s[i] < s[j]
  }

  /** Adds `v` to an ascending duplicate-free list, keeping it so. */
  function InsertSorted(v: real, s: seq<real>): (t: seq<real>)
    requires StrictlyAscending(s)
    ensures StrictlyAscending(t) && (forall u :: u in t <==> u == v || u in s)
  {
    if s == [] then [v]
    else if v < s[0] then [v] + s
    else if v == s[0] then s
    else
      var r := InsertSorted(v, s[1..]);
      assert forall u :: u in s[1..] ==> s[0] < u by {
        forall u | u in s[1..] ensures s[0] < u {
          var j :| 0 <= j < |s[1..]| && s[1..][j] == u;
          assert s[j + 1] == u;
        }
      }
      assert forall u :: u in s ==> u == s[0] || u in s[1..] by {
        assert s == [s[0]] + s[1..];
      }
      ConsAscending(s[0], r);
      [s[0]] + r
  }

  lemma ConsAscending(x: real, t: seq<real>)
    requires StrictlyAscending(t) && forall u :: u in t ==> x < u
    ensures StrictlyAscending([x] + t)
  {
    var u := [x] + t;
    forall i, j | 0 <= i < j < |u| ensures u[i] < u[j] {
      assert u[j] == t[j - 1] && t[j - 1] in t;
      if i > 0 {
        assert u[i] == t[i - 1];
      }
    }
  }

  /** `[...new Set(s)].sort((a, b) => a - b)`: the distinct values of `s`, ascending. */
  function SortedSet(s: seq<real>): (t: seq<real>)
    ensures StrictlyAscending(t) && forall u :: u in t <==> u in s
  {
    if s == [] then []
    else
      var init := s[..|s| - 1];
      assert s == init + [s[|s| - 1]];
      InsertSorted(s[|s| - 1], SortedSet(init))
  }

  /** An ascending duplicate-free list is determined by its set of values. */
  lemma {:induction false} AscendingUnique(a: seq<real>, b: seq<real>)
    requires StrictlyAscending(a) && StrictlyAscending(b)
    requires forall u :: u in a <==> u in b
    ensures a == b
  {
    if a != [] {
      assert a[0] in a;
      assert b[0] in b;
      var j :| 0 <= j < |b| && b[j] == a[0];
      var i :| 0 <= i < |a| && a[i] == b[0];
      assert a[0] <= a[i] && b[0] <= b[j];
      forall u ensures u in a[1..] <==> u in b[1..] {
        AscendingTail(a, u);
        AscendingTail(b, u);
      }
      AscendingUnique(a[1..], b[1..]);
      assert a == [a[0]] + a[1..] && b == [b[0]] + b[1..];
    } else {
      EmptyOrHasHead(b);
    }
  }

  lemma EmptyOrHasHead(b: seq<real>)
    ensures b == [] || b[0] in b
  {
  }

  lemma AscendingTail(a: seq<real>, u: real)
    requires StrictlyAscending(a) && |a| > 0
    ensures StrictlyAscending(a[1..]) && (u in a[1..] <==> u in a && u != a[0])
  {
    assert a == [a[0]] + a[1..];
    if u in a[1..] {
      var j :| 0 <= j < |a[1..]| && a[1..][j] == u;
      assert a[j + 1] == u;
    }
  }

  /** Left edges of the items, in order. */
  function Starts(recs: seq<Rect>, s: seq<nat>): (r: seq<real>)
    requires InBounds(recs, s)
    ensures |r| == |s| && forall i :: 0 <= i < |s| ==> r[i] == recs[s[i]].x
  {
    seq(|s|, i requires 0 <= i < |s| => recs[s[i]].x)
  }

  /** `x` then `x + width` of each item, in order. */
  function Edges(recs: seq<Rect>, s: seq<nat>): (r: seq<real>)
    requires InBounds(recs, s)
    ensures forall v :: v in r <==>
              exists k :: k in s && (v == recs[k].x || v == recs[k].x + recs[k].width)
  {
    if s == [] then []
    else
      var rest := Edges(recs, s[1..]);
      assert forall k :: k in s <==> k == s[0] || k in s[1..] by {
        assert s == [s[0]] + s[1..];
      }
      [recs[s[0]].x, recs[s[0]].x + recs[s[0]].width] + rest
  }

  /** The edges contributed by rows `r .. rows - 1` other than `row`. */
  function OtherRowEdges(recs: seq<Rect>, live: seq<nat>, rows: int, row: int, r: int): (e: seq<real>)
    requires InBounds(recs, live)
    ensures forall v :: v in e <==>
              exists k :: k in live && r <= recs[k].row < rows && recs[k].row != row &&
                          (v == recs[k].x || v == recs[k].x + recs[k].width)
    decreases rows - r
  {
    if r >= rows then []
    else
      RowRefsMembers(recs, live, r);
      var here := if r != row then Edges(recs, RowRefs(recs, live, r)) else [];
      here + OtherRowEdges(recs, live, rows, row, r + 1)
  }

  /** A value `getInsertionPoints(row, ex)` offers: 0, an edge of an item of `row` whose id
      is not `ex`, or an edge of any item of another row `0 .. rows - 1`. The id filter
      applies only to the row itself. */
  predicate IsInsertionPoint(recs: seq<Rect>, live: seq<nat>, rows: int, row: int, ex: int, v: real)
    requires InBounds(recs, live)
  {
    v == 0.0 ||
    (exists k :: k in live && recs[k].row == row && recs[k].id != ex &&
                 (v == recs[k].x || v == recs[k].x + recs[k].width)) ||
    (exists k :: k in live && 0 <= recs[k].row < rows && recs[k].row != row &&
                 (v == recs[k].x || v == recs[k].x + recs[k].width))
  }

  /** The values gathered before deduplication: 0, the row's starts, its ends, and the
      other rows' edges. */
  function RawPoints(recs: seq<Rect>, live: seq<nat>, rows: int, row: int, ex: int): (raw: seq<real>)
    requires InBounds(recs, live)
  {
    var own := SortByX(recs, RowRefsExcept(recs, live, row, ex));
    [0.0] + Starts(recs, own) + Ends(recs, own) + OtherRowEdges(recs, live, rows, row, 0)
  }

  lemma RawPointsExact(recs: seq<Rect>, live: seq<nat>, rows: int, row: int, ex: int, v: real)
    requires InBounds(recs, live)
    ensures v in RawPoints(recs, live, rows, row, ex) <==> IsInsertionPoint(recs, live, rows, row, ex, v)
  {
    RawMembers(recs, live, rows, row, ex, v);
    ExceptEdges(recs, live, row, ex, v);
  }

  /** An edge of an item of the row other than `ex` is an edge of a live item of that
      row whose id is not `ex`, and conversely. */
  lemma ExceptEdges(recs: seq<Rect>, live: seq<nat>, row: int, ex: int, v: real)
    requires InBounds(recs, live)
    ensures (exists k :: k in RowRefsExcept(recs, live, row, ex) &&
                         (v == recs[k].x || v == recs[k].x + recs[k].width)) <==>
            (exists k :: k in live && recs[k].row == row && recs[k].id != ex &&
                         (v == recs[k].x || v == recs[k].x + recs[k].width))
  {
    var except := RowRefsExcept(recs, live, row, ex);
    if exists k :: k in except && (v == recs[k].x || v == recs[k].x + recs[k].width) {
      var k :| k in except && (v == recs[k].x || v == recs[k].x + recs[k].width);
      assert k in live && recs[k].row == row && recs[k].id != ex;
    }
    if exists k :: k in live && recs[k].row == row && recs[k].id != ex &&
                   (v == recs[k].x || v == recs[k].x + recs[k].width) {
      var k :| k in live && recs[k].row == row && recs[k].id != ex &&
               (v == recs[k].x || v == recs[k].x + recs[k].width);
      assert k in except;
    }
  }

  /** The gathered values are 0, the edges of the row's items other than `ex`, and the
      other rows' edges. */
  lemma RawMembers(recs: seq<Rect>, live: seq<nat>, rows: int, row: int, ex: int, v: real)
    requires InBounds(recs, live)
    ensures v in RawPoints(recs, live, rows, row, ex) <==>
            v == 0.0 || v in OtherRowEdges(recs, live, rows, row, 0) ||
            exists k :: k in RowRefsExcept(recs, live, row, ex) &&
                        (v == recs[k].x || v == recs[k].x + recs[k].width)
  {
    var except := RowRefsExcept(recs, live, row, ex);
    var own := SortByX(recs, except);
    assert RawPoints(recs, live, rows, row, ex) ==
           [0.0] + Starts(recs, own) + Ends(recs, own) + OtherRowEdges(recs, live, rows, row, 0);
    SortByXMembers(recs, except);
    OwnEdges(recs, own, v);
  }

  lemma OwnEdges(recs: seq<Rect>, own: seq<nat>, v: real)
    requires InBounds(recs, own)
    ensures (v in Starts(recs, own) || v in Ends(recs, own)) <==>
            exists k :: k in own && (v == recs[k].x || v == recs[k].x + recs[k].width)
  {
    var starts := Starts(recs, own);
    var ends := Ends(recs, own);
    if v in starts {
      var i :| 0 <= i < |starts| && starts[i] == v;
      assert own[i] in own;
    } else if v in ends {
      var i :| 0 <= i < |ends| && ends[i] == v;
      assert own[i] in own;
    }
    if exists k :: k in own && (v == recs[k].x || v == recs[k].x + recs[k].width) {
      var k :| k in own && (v == recs[k].x || v == recs[k].x + recs[k].width);
      var i :| 0 <= i < |own| && own[i] == k;
      assert starts[i] == recs[k].x && ends[i] == recs[k].x + recs[k].width;
    }
  }

  /** `getInsertionPoints(row, ex)`: 0, the starts and then the ends of the row's items in
      `x` order, the edges of every other row, deduplicated and sorted. */
  function InsertionPoints(recs: seq<Rect>, live: seq<nat>, rows: int, row: int, ex: int): (pts: seq<real>)
    requires InBounds(recs, live)
    ensures StrictlyAscending(pts) && 0.0 in pts
    ensures forall v :: v in pts <==> IsInsertionPoint(recs, live, rows, row, ex, v)
  {
    var raw := RawPoints(recs, live, rows, row, ex);
    forall v ensures v in raw <==> IsInsertionPoint(recs, live, rows, row, ex, v) {
      RawPointsExact(recs, live, rows, row, ex, v);
    }
    SortedSet(raw)
  }

  /** The index the scan in `findValidPosition` settles on: a point at least distance from
      `d`, the first one on ties. */
  function Nearest(pts: seq<real>, d: real): (i: nat)
    requires |pts| > 0
    ensures i < |pts|
    ensures forall j :: 0 <= j < |pts| ==> Abs(d - pts[i]) <= Abs(d - pts[j])
    ensures forall j :: 0 <= j < i ==> Abs(d - pts[i]) < Abs(d - pts[j])
  {
    if |pts| == 1 then 0
    else
      var i := Nearest(pts[..|pts| - 1], d);
      if Abs(d - pts[|pts| - 1]) < Abs(d - pts[i]) then |pts| - 1 else i
  }

  lemma NearestMinimal(pts: seq<real>, d: real)
    requires |pts| > 0
    ensures forall v :: v in pts ==> Abs(d - pts[Nearest(pts, d)]) <= Abs(d - v)
  {
    forall v | v in pts ensures Abs(d - pts[Nearest(pts, d)]) <= Abs(d - v) {
      var j :| 0 <= j < |pts| && pts[j] == v;
    }
  }

  /** In an ascending list the strict `<` scan keeps the smallest of the nearest points:
      any point as near as the chosen one lies at or after it. */
  lemma NearestEarliest(pts: seq<real>, d: real)
    requires StrictlyAscending(pts) && |pts| > 0
    ensures forall v :: v in pts && Abs(d - v) == Abs(d - pts[Nearest(pts, d)]) ==> pts[Nearest(pts, d)] <= v
  {
    var i := Nearest(pts, d);
    forall v | v in pts && Abs(d - v) == Abs(d - pts[i]) ensures pts[i] <= v {
      var j :| 0 <= j < |pts| && pts[j] == v;
      assert i <= j;
    }
  }

  /** The nearest point to `d` in an ascending list containing `d` is `d` itself. */
  lemma NearestOfMember(pts: seq<real>, d: real)
    requires StrictlyAscending(pts) && d in pts
    ensures pts[Nearest(pts, d)] == d
  {
    var j :| 0 <= j < |pts| && pts[j] == d;
    var i := Nearest(pts, d);
    assert Abs(d - pts[i]) <= Abs(d - pts[j]);
  }

  /** `x` is an insertion point of `row` nearest to `d`, and the smallest of the nearest
      ones. */
  ghost predicate NearestInsertionPoint(recs: seq<Rect>, live: seq<nat>, rows: int, row: int, ex: int, d: real, x: real)
    requires InBounds(recs, live)
  {
    IsInsertionPoint(recs, live, rows, row, ex, x) &&
    (forall v :: IsInsertionPoint(recs, live, rows, row, ex, v) ==> Abs(d - x) <= Abs(d - v)) &&
    (forall v :: IsInsertionPoint(recs, live, rows, row, ex, v) && Abs(d - v) == Abs(d - x) ==> x <= v)
  }

  /** The position `findValidPosition` returns and the positions after it. */
  datatype Placement = Placement(x: real, recs: seq<Rect>)

  /** `findValidPosition(row, desiredX, width, ex)`: the nearest insertion point, and when
      it lies before the row's end, the row's other items from there on pushed right by
      `width`. */
  function ValidPosition(recs: seq<Rect>, live: seq<nat>, rows: int, row: int, desired: real, w: real, ex: int)
    : (p: Placement)
    requires InBounds(recs, live)
    ensures NearestInsertionPoint(recs, live, rows, row, ex, desired, p.x)
    ensures p.x < RowEnd(recs, live, row, ex) ==> p.recs == PushedRight(recs, live, row, p.x, w, ex)
    ensures p.x >= RowEnd(recs, live, row, ex) ==> p.recs == recs
  {
    var pts := InsertionPoints(recs, live, rows, row, ex);
    var best := pts[Nearest(pts, desired)];
    NearestIsNearestInsertionPoint(recs, live, rows, row, ex, desired);
    if best < RowEnd(recs, live, row, ex) then Placement(best, PushedRight(recs, live, row, best, w, ex))
    else Placement(best, recs)
  }

  /** The point the scan settles on over the sorted insertion points is the smallest
      insertion point nearest to `d`. */
  lemma NearestIsNearestInsertionPoint(recs: seq<Rect>, live: seq<nat>, rows: int, row: int, ex: int, d: real)
    requires InBounds(recs, live)
    ensures var pts := InsertionPoints(recs, live, rows, row, ex);
            NearestInsertionPoint(recs, live, rows, row, ex, d, pts[Nearest(pts, d)])
  {
    var pts := InsertionPoints(recs, live, rows, row, ex);
    var x := pts[Nearest(pts, d)];
    NearestMinimal(pts, d);
    NearestEarliest(pts, d);
    assert x in pts;
    forall v | IsInsertionPoint(recs, live, rows, row, ex, v) ensures Abs(d - x) <= Abs(d - v) {
      assert v in pts;
    }
    forall v | IsInsertionPoint(recs, live, rows, row, ex, v) && Abs(d - v) == Abs(d - x) ensures x <= v {
      assert v in pts;
    }
  }

  /** When `desired` is itself an insertion point (the row's end, say), it is chosen. */
  lemma ValidPositionExact(recs: seq<Rect>, live: seq<nat>, rows: int, row: int, desired: real, w: real, ex: int)
    requires InBounds(recs, live) && IsInsertionPoint(recs, live, rows, row, ex, desired)
    ensures ValidPosition(recs, live, rows, row, desired, w, ex).x == desired
  {
    var pts := InsertionPoints(recs, live, rows, row, ex);
    NearestOfMember(pts, desired);
  }

  /** Placement moves only positions, and never an item with the excluded id. */
  lemma ValidPositionFrame(recs: seq<Rect>, live: seq<nat>, rows: int, row: int, desired: real, w: real, ex: int)
    requires InBounds(recs, live)
    ensures SameButX(recs, ValidPosition(recs, live, rows, row, desired, w, ex).recs)
    ensures forall k :: 0 <= k < |recs| && recs[k].id == ex ==>
              ValidPosition(recs, live, rows, row, desired, w, ex).recs[k] == recs[k]
  {
    var p := ValidPosition(recs, live, rows, row, desired, w, ex);
    if p.x < RowEnd(recs, live, row, ex) {
      PushedRightFrame(recs, live, row, p.x, w, ex);
    }
  }

  lemma PushedRightFrame(recs: seq<Rect>, live: seq<nat>, row: int, insertX: real, w: real, ex: int)
    requires InBounds(recs, live)
    ensures SameButX(recs, PushedRight(recs, live, row, insertX, w, ex))
    ensures forall k :: 0 <= k < |recs| && recs[k].id == ex ==> PushedRight(recs, live, row, insertX, w, ex)[k] == recs[k]
  {
  }

  /** Pushing keeps apart any two items of the row that were apart. */
  lemma PushKeepsApart(recs: seq<Rect>, live: seq<nat>, row: int, insertX: real, w: real, ex: int, a: nat, b: nat)
    requires InBounds(recs, live) && w >= 0.0
    requires a in live && b in live && recs[a].row == row && recs[b].row == row
    requires recs[a].id != ex && recs[b].id != ex && recs[a].width >= 0.0
    requires recs[a].x + recs[a].width <= recs[b].x
    ensures var q := PushedRight(recs, live, row, insertX, w, ex);
            q[a].x + q[a].width <= q[b].x
  {
  }

  /** Pushing opens the gap `[insertX, insertX + w)` in the row, unless an item of the row
      straddles `insertX`. */
  lemma PushOpensGap(recs: seq<Rect>, live: seq<nat>, row: int, insertX: real, w: real, ex: int)
    requires InBounds(recs, live) && w >= 0.0
    requires forall k :: k in live && recs[k].row == row && recs[k].id != ex ==>
               !(recs[k].x < insertX < recs[k].x + recs[k].width) && recs[k].width >= 0.0
    ensures !HasCollision(PushedRight(recs, live, row, insertX, w, ex), live, row, insertX, w, ex)
  {
    var q := PushedRight(recs, live, row, insertX, w, ex);
    forall k | k in live && q[k].row == row && q[k].id != ex
      ensures !(insertX < q[k].x + q[k].width && insertX + w > q[k].x)
    {
      assert q[k].row == recs[k].row && q[k].id == recs[k].id;
    }
  }
}
