/** Laying items side by side, and the two in-row shifts.

    Every repacking operation (repositioning all rows, aligning a row left or right,
    dropping a dragged group) walks a list of items with a running `currentX`, giving each
    item that position and advancing by its width. `Pack` is that walk; `PackSpec` says what
    it produces. `PushedRight` and `Collapsed` are the shifts made when an item is inserted
    into a row or removed from it. */
module Packing {
  import opened Common
  import opened Rects

  /** Gives the items `order` consecutive positions from `start`. */
  function Pack(recs: seq<Rect>, order: seq<nat>, start: real): (r: seq<Rect>)
    requires InBounds(recs, order)
    ensures |r| == |recs|
    decreases |order|
  {
    if order == [] then recs
    else
      var o := order[0];
      Pack(recs[o := recs[o].(x := start)], order[1..], start + recs[o].width)
  }

  /** `b` differs from `a` at most in the positions of its items. */
  predicate SameButX(a: seq<Rect>, b: seq<Rect>) {
    |a| == |b| && forall k :: 0 <= k < |a| ==> b[k] == a[k].(x := b[k].x)
  }

  /** Total width of the first `j` items of `order`. */
  function PrefixW(recs: seq<Rect>, order: seq<nat>, j: nat): real
    requires InBounds(recs, order) && j <= |order|
  {
    SumW(recs, order[..j])
  }

  /** The items `order` sit side by side from `start`, in that order: each starts where
      the widths of those before it add up to. */
  predicate PackedBy(recs: seq<Rect>, order: seq<nat>, start: real)
    requires InBounds(recs, order)
  {
    forall j {:trigger PrefixW(recs, order, j)} :: 0 <= j < |order| ==>
      recs[order[j]].x == start + PrefixW(recs, order, j)
  }

  predicate WidthsNonNeg(recs: seq<Rect>, s: seq<nat>)
    requires InBounds(recs, s)
  {
    forall i :: 0 <= i < |s| ==> recs[s[i]].width >= 0.0
  }

  lemma {:induction false} SumWCons(recs: seq<Rect>, a: nat, t: seq<nat>)
    requires a < |recs| && InBounds(recs, t)
    ensures SumW(recs, [a] + t) == recs[a].width + SumW(recs, t)
  {
    var u := [a] + t;
    if t == [] {
      assert u[..0] == [];
    } else {
      assert u[..|u| - 1] == [a] + t[..|t| - 1];
      SumWCons(recs, a, t[..|t| - 1]);
    }
  }

  lemma {:induction false} SumWAppend(recs: seq<Rect>, s: seq<nat>, t: seq<nat>)
    requires InBounds(recs, s) && InBounds(recs, t)
    ensures SumW(recs, s + t) == SumW(recs, s) + SumW(recs, t)
  {
    if t == [] {
      assert s + t == s;
    } else {
      assert (s + t)[..|s + t| - 1] == s + t[..|t| - 1];
      SumWAppend(recs, s, t[..|t| - 1]);
    }
  }

  lemma {:induction false} SumWNonNeg(recs: seq<Rect>, s: seq<nat>)
    requires InBounds(recs, s) && WidthsNonNeg(recs, s)
    ensures SumW(recs, s) >= 0.0
  {
    if s != [] {
      SumWNonNeg(recs, s[..|s| - 1]);
    }
  }

  lemma SumWStep(recs: seq<Rect>, s: seq<nat>, j: nat)
    requires InBounds(recs, s) && j < |s|
    ensures PrefixW(recs, s, j + 1) == PrefixW(recs, s, j) + recs[s[j]].width
  {
    assert s[..j + 1][..j] == s[..j];
  }

  /** Prefix sums of non-negative widths never decrease. */
  lemma SumWMono(recs: seq<Rect>, s: seq<nat>, i: nat, j: nat)
    requires InBounds(recs, s) && WidthsNonNeg(recs, s) && i <= j <= |s|
    ensures PrefixW(recs, s, i) <= PrefixW(recs, s, j)
  {
    assert s[..j] == s[..i] + s[i..j];
    SumWAppend(recs, s[..i], s[i..j]);
    SumWNonNeg(recs, s[i..j]);
  }

  lemma {:induction false} SumWSameButX(a: seq<Rect>, b: seq<Rect>, s: seq<nat>)
    requires SameButX(a, b) && InBounds(a, s)
    ensures InBounds(b, s) && SumW(a, s) == SumW(b, s)
  {
    if s != [] {
      SumWSameButX(a, b, s[..|s| - 1]);
      assert b[s[|s| - 1]].width == a[s[|s| - 1]].width;
    }
  }

  /** Packing changes only positions, and only those of the packed items. */
  lemma {:induction false} PackFrame(recs: seq<Rect>, order: seq<nat>, start: real)
    requires InBounds(recs, order)
    ensures SameButX(recs, Pack(recs, order, start))
    ensures forall k :: 0 <= k < |recs| && k !in order ==> Pack(recs, order, start)[k] == recs[k]
    decreases |order|
  {
    if order != [] {
      var o := order[0];
      var recs1 := recs[o := recs[o].(x := start)];
      PackFrame(recs1, order[1..], start + recs[o].width);
      forall k | 0 <= k < |recs| && k !in order ensures k !in order[1..] {
        assert forall i :: 0 <= i < |order[1..]| ==> order[1..][i] == order[i + 1];
      }
    }
  }

  /** What packing does: only positions change, only the packed items move, and they end
      up side by side from `start` in the given order. */
  lemma {:induction false} PackSpec(recs: seq<Rect>, order: seq<nat>, start: real)
    requires InBounds(recs, order) && Distinct(order)
    ensures PackedBy(Pack(recs, order, start), order, start)
    decreases |order|
  {
    if order != [] {
      var o := order[0];
      var rest := order[1..];
      var recs1 := recs[o := recs[o].(x := start)];
      var start1 := start + recs[o].width;
      assert Distinct(rest) by {
        forall i, j | 0 <= i < j < |rest| ensures rest[i] != rest[j] {
          assert rest[i] == order[i + 1] && rest[j] == order[j + 1];
        }
      }
      assert o !in rest by {
        forall i | 0 <= i < |rest| ensures rest[i] != o {
          assert rest[i] == order[i + 1];
        }
      }
      PackSpec(recs1, rest, start1);
      PackFrame(recs1, rest, start1);
      var p := Pack(recs1, rest, start1);
      assert p[o] == recs1[o];
      assert p[o].width == recs[o].width;
      PackedCons(p, o, rest, start);
      assert [o] + rest == order;
      PackUnfold(recs, order, start, p);
    }
  }

  lemma PackUnfold(recs: seq<Rect>, order: seq<nat>, start: real, p: seq<Rect>)
    requires InBounds(recs, order) && order != []
    requires p == Pack(recs[order[0] := recs[order[0]].(x := start)], order[1..], start + recs[order[0]].width)
    requires InBounds(p, order) && PackedBy(p, order, start)
    ensures PackedBy(Pack(recs, order, start), order, start)
  {
  }

  /** Packing `[o] + rest` from `start` is `o` at `start` followed by `rest` packed from
      `start + width(o)`. */
  lemma PackedCons(p: seq<Rect>, o: nat, rest: seq<nat>, start: real)
    requires o < |p| && InBounds(p, rest)
    requires p[o].x == start && PackedBy(p, rest, start + p[o].width)
    ensures PackedBy(p, [o] + rest, start)
  {
    var order := [o] + rest;
    forall j | 0 <= j < |order| ensures p[order[j]].x == start + PrefixW(p, order, j) {
      if j == 0 {
        assert order[..0] == [];
      } else {
        assert order[..j] == [o] + rest[..j - 1];
        assert order[j] == rest[j - 1];
        assert p[rest[j - 1]].x == start + p[o].width + PrefixW(p, rest, j - 1);
        SumWCons(p, o, rest[..j - 1]);
      }
    }
  }

  /** A row that is already packed in `order` from `start` is left as it is. */
  lemma PackFixpoint(recs: seq<Rect>, order: seq<nat>, start: real)
    requires InBounds(recs, order) && Distinct(order) && PackedBy(recs, order, start)
    ensures Pack(recs, order, start) == recs
  {
    var r := Pack(recs, order, start);
    PackSpec(recs, order, start);
    PackFrame(recs, order, start);
    forall k | 0 <= k < |recs| ensures r[k] == recs[k] {
      if k in order {
        var j :| 0 <= j < |order| && order[j] == k;
        assert r[k].x == start + PrefixW(r, order, j) && recs[k].x == start + PrefixW(recs, order, j);
        SumWSameButX(recs, r, order[..j]);
      }
    }
  }

  /** Packed items do not overlap: each ends at or before the start of every later one. */
  lemma PackedNoOverlap(recs: seq<Rect>, order: seq<nat>, start: real)
    requires InBounds(recs, order) && PackedBy(recs, order, start) && WidthsNonNeg(recs, order)
    ensures forall i, j :: 0 <= i < j < |order| ==>
              recs[order[i]].x + recs[order[i]].width <= recs[order[j]].x
  {
    forall i, j | 0 <= i < j < |order|
      ensures recs[order[i]].x + recs[order[i]].width <= recs[order[j]].x
    {
      SumWStep(recs, order, i);
      SumWMono(recs, order, i + 1, j);
    }
  }

  /** When every item of a row is in a packed `order`, no item of the row collides with
      the others (`hasCollision` with its own id excluded is false). */
  lemma PackedNoCollision(recs: seq<Rect>, live: seq<nat>, row: int, order: seq<nat>, start: real)
    requires InBounds(recs, live) && InBounds(recs, order)
    requires PackedBy(recs, order, start) && WidthsNonNeg(recs, order)
    requires forall k :: k in live && recs[k].row == row ==> k in order
    ensures forall i :: 0 <= i < |order| ==>
              !HasCollision(recs, live, row, recs[order[i]].x, recs[order[i]].width, recs[order[i]].id)
  {
    PackedNoOverlap(recs, order, start);
    forall i | 0 <= i < |order|
      ensures !HasCollision(recs, live, row, recs[order[i]].x, recs[order[i]].width, recs[order[i]].id)
    {
      var a := order[i];
      forall k | k in live && recs[k].row == row && recs[k].id != recs[a].id
        ensures !(recs[a].x < recs[k].x + recs[k].width && recs[a].x + recs[a].width > recs[k].x)
      {
        var m :| 0 <= m < |order| && order[m] == k;
        assert m != i;
      }
    }
  }

  /** `pushRectanglesRight(row, insertX, width, ex)`: the items of the row, other than those
      with id `ex`, that start at or after `insertX` move right by `width`. */
  function PushedRight(recs: seq<Rect>, live: seq<nat>, row: int, insertX: real, w: real, ex: int): (r: seq<Rect>)
    requires InBounds(recs, live)
    ensures |r| == |recs|
  {
    seq(|recs|, k requires 0 <= k < |recs| =>
      if k in live && recs[k].row == row && recs[k].id != ex && recs[k].x >= insertX
      then recs[k].(x := recs[k].x + w) else recs[k])
  }

  /** `collapseGap(row, gapStartX, gapWidth, ex)`: the items of the row, other than those
      with id `ex`, that start after `gapStartX` move left by `gapWidth`, never below 0. */
  function Collapsed(recs: seq<Rect>, live: seq<nat>, row: int, gapStart: real, gapW: real, ex: int): (r: seq<Rect>)
    requires InBounds(recs, live)
    ensures |r| == |recs|
  {
    seq(|recs|, k requires 0 <= k < |recs| =>
      if k in live && recs[k].row == row && recs[k].id != ex && recs[k].x > gapStart
      then recs[k].(x := Max(0.0, recs[k].x - gapW)) else recs[k])
  }

  /** Removing one item from a packed row and collapsing its gap leaves the remaining
      items packed from the same start, in the same order. */
  lemma CollapseKeepsPacked(recs: seq<Rect>, live: seq<nat>, row: int, order: seq<nat>, j: nat, start: real)
    requires InBounds(recs, live) && InBounds(recs, order) && Distinct(order) && j < |order|
    requires start >= 0.0 && PackedBy(recs, order, start) && WidthsNonNeg(recs, order)
    requires forall i :: 0 <= i < |order| && i != j ==> order[i] in live && recs[order[i]].row == row
    ensures var g := order[j];
            PackedBy(Collapsed(recs, live, row, recs[g].x, recs[g].width, -1),
                     order[..j] + order[j + 1..], start)
  {
    var g := order[j];
    var c := Collapsed(recs, live, row, recs[g].x, recs[g].width, -1);
    var rest := order[..j] + order[j + 1..];
    forall m | 0 <= m < |rest| ensures c[rest[m]].x == start + PrefixW(c, rest, m) {
      CollapseItem(recs, live, row, order, j, start, c, m);
    }
  }

  lemma CollapseItem(recs: seq<Rect>, live: seq<nat>, row: int, order: seq<nat>, j: nat, start: real,
                     c: seq<Rect>, m: nat)
    requires InBounds(recs, live) && InBounds(recs, order) && j < |order|
    requires start >= 0.0 && PackedBy(recs, order, start) && WidthsNonNeg(recs, order)
    requires forall i :: 0 <= i < |order| && i != j ==> order[i] in live && recs[order[i]].row == row
    requires c == Collapsed(recs, live, row, recs[order[j]].x, recs[order[j]].width, -1)
    requires m < |order| - 1
    ensures var rest := order[..j] + order[j + 1..];
            c[rest[m]].x == start + PrefixW(c, rest, m)
  {
    var rest := order[..j] + order[j + 1..];
    CollapsedFrame(recs, live, row, recs[order[j]].x, recs[order[j]].width, -1);
    SumWSameButX(recs, c, rest[..m]);
    if m < j {
      assert rest[m] == order[m] && rest[..m] == order[..m];
      SumWMono(recs, order, m, j);
      assert recs[order[m]].x == start + PrefixW(recs, order, m);
      assert recs[order[j]].x == start + PrefixW(recs, order, j);
    } else {
      var k := order[m + 1];
      var gs, w := recs[order[j]].x, recs[order[j]].width;
      assert rest[m] == k;
      assert k in live && recs[k].row == row;
      assert c[k].x == if recs[k].x > gs then Max(0.0, recs[k].x - w) else recs[k].x;
      var sum := CollapseRightItem(recs, order, j, m, start);
      assert recs[order[j]].x == start + PrefixW(recs, order, j);
      SumWNonNeg(recs, order[..j]);
      ShiftBack(recs[k].x, c[k].x, gs, w, sum);
    }
  }

  lemma ShiftBack(x: real, x': real, gapStart: real, w: real, sum: real)
    requires gapStart >= 0.0 && w >= 0.0 && sum >= 0.0 && x == gapStart + w + sum
    requires x' == if x > gapStart then Max(0.0, x - w) else x
    ensures x' == gapStart + sum
  {
  }

  lemma CollapsedFrame(recs: seq<Rect>, live: seq<nat>, row: int, gapStart: real, gapW: real, ex: int)
    requires InBounds(recs, live)
    ensures SameButX(recs, Collapsed(recs, live, row, gapStart, gapW, ex))
  {
  }

  /** The arithmetic for an item after the removed one: it sits `sum` beyond the gap's far
      edge, and the items before it in the shortened order add up to the gap's start plus
      `sum`. */
  lemma CollapseRightItem(recs: seq<Rect>, order: seq<nat>, j: nat, m: nat, start: real) returns (sum: real)
    requires InBounds(recs, order) && j <= m && m + 1 < |order|
    requires PackedBy(recs, order, start) && WidthsNonNeg(recs, order)
    ensures sum >= 0.0
    ensures recs[order[m + 1]].x == recs[order[j]].x + recs[order[j]].width + sum
    ensures SumW(recs, (order[..j] + order[j + 1..])[..m]) == SumW(recs, order[..j]) + sum
  {
    var g := order[j];
    var mid := order[j + 1..m + 1];
    sum := SumW(recs, mid);
    SumWNonNeg(recs, mid);
    assert order[..m + 1] == (order[..j] + [g]) + mid;
    assert (order[..j] + order[j + 1..])[..m] == order[..j] + order[j + 1..][..m - j];
    assert order[j + 1..][..m - j] == mid;
    SumWAppend(recs, order[..j] + [g], mid);
    SumWAppend(recs, order[..j], mid);
    SumWStep(recs, order, j);
    assert order[..j + 1] == order[..j] + [g];
    assert recs[order[j]].x == start + PrefixW(recs, order, j);
    assert recs[order[m + 1]].x == start + PrefixW(recs, order, m + 1);
  }
}
