/** Whole-row repacking: `repositionAllRectangles`, `alignRowLeft` and `alignRowRight`.

    Each takes a row's items in stable ascending-`x` order and lays them side by side,
    from 0 for the first two and from a computed start for the third. */
module Layout {
  import opened Common
  import opened Rects
  import opened XSort
  import opened Packing

  /** A row's items in the order every repacking walks them. */
  function RowOrder(recs: seq<Rect>, live: seq<nat>, row: int): (o: seq<nat>)
    requires InBounds(recs, live)
    ensures InBounds(recs, o)
  {
    SortByX(recs, RowRefs(recs, live, row))
  }

  /** A row's order lists exactly the live items in that row. */
  lemma RowOrderMembers(recs: seq<Rect>, live: seq<nat>, row: int)
    requires InBounds(recs, live)
    ensures forall k :: k in RowOrder(recs, live, row) <==> k in live && recs[k].row == row
  {
    RowRefsMembers(recs, live, row);
    SortByXMembers(recs, RowRefs(recs, live, row));
  }

  lemma KeyOrderedDistinct(recs: seq<Rect>, s: seq<nat>)
    requires InBounds(recs, s) && KeyOrdered(recs, s)
    ensures Distinct(s)
  {
    forall i, j | 0 <= i < j < |s| ensures s[i] != s[j] {
      assert KeyBefore(recs, s[i], s[j]);
    }
  }

  /** A row's order lists each of its items once, by `(x, reference)`. */
  lemma RowOrderKeyOrdered(recs: seq<Rect>, live: seq<nat>, row: int)
    requires InBounds(recs, live) && Increasing(live)
    ensures KeyOrdered(recs, RowOrder(recs, live, row)) && Distinct(RowOrder(recs, live, row))
  {
    RowRefsIncreasing(recs, live, row);
    SortByXOrdered(recs, RowRefs(recs, live, row));
    KeyOrderedDistinct(recs, RowOrder(recs, live, row));
  }

  /** The order depends only on the rows and positions of the items. */
  lemma RowOrderSameButX(recs: seq<Rect>, recs': seq<Rect>, live: seq<nat>, row: int)
    requires InBounds(recs, live) && SameButX(recs, recs')
    requires forall k :: k in live && recs[k].row == row ==> recs'[k].x == recs[k].x
    ensures InBounds(recs', live) && RowOrder(recs, live, row) == RowOrder(recs', live, row)
  {
    RowRefsSameRows(recs, recs', live, row);
    var s := RowRefs(recs, live, row);
    RowRefsMembers(recs, live, row);
    SortByXSameX(recs, recs', s);
  }

  lemma {:induction false} RowRefsSameRows(recs: seq<Rect>, recs': seq<Rect>, live: seq<nat>, row: int)
    requires InBounds(recs, live) && SameButX(recs, recs')
    ensures InBounds(recs', live) && RowRefs(recs, live, row) == RowRefs(recs', live, row)
  {
    if live != [] {
      RowRefsSameRows(recs, recs', live[1..], row);
      assert recs'[live[0]].row == recs[live[0]].row;
    }
  }

  /** The first place of `k` in `s`. */
  function IndexIn(s: seq<nat>, k: nat): (i: nat)
    requires k in s
    ensures i < |s| && s[i] == k
  {
    if s[0] == k then 0 else 1 + IndexIn(s[1..], k)
  }

  /** Where repositioning puts a live item: after the widths of the items before it in its
      row's order. */
  function RowSlot(recs: seq<Rect>, live: seq<nat>, k: nat): real
    requires InBounds(recs, live) && k in live
  {
    RowOrderMembers(recs, live, recs[k].row);
    var o := RowOrder(recs, live, recs[k].row);
    PrefixW(recs, o, IndexIn(o, k))
  }

  /** `repositionAllRectangles` over rows `0 .. n - 1`: every item of those rows is placed
      at its slot in its row, and nothing else changes. */
  function Repacked(recs: seq<Rect>, live: seq<nat>, n: nat): (r: seq<Rect>)
    requires InBounds(recs, live)
    ensures |r| == |recs|
  {
    seq(|recs|, k requires 0 <= k < |recs| =>
      if k in live && 0 <= recs[k].row < n then recs[k].(x := RowSlot(recs, live, k)) else recs[k])
  }

  /** Repositioning changes only positions, and only those of items in rows `0 .. n - 1`. */
  lemma RepackedFrame(recs: seq<Rect>, live: seq<nat>, n: nat)
    requires InBounds(recs, live)
    ensures SameButX(recs, Repacked(recs, live, n))
    ensures forall k :: 0 <= k < |recs| && !(k in live && 0 <= recs[k].row < n) ==>
              Repacked(recs, live, n)[k] == recs[k]
  {
  }

  /** `RepackedFrame` at one index: the item keeps everything but its position. */
  lemma RepackedAt(recs: seq<Rect>, live: seq<nat>, n: nat, k: nat)
    requires InBounds(recs, live) && k < |recs|
    ensures Repacked(recs, live, n)[k] == recs[k].(x := Repacked(recs, live, n)[k].x)
  {
  }

  /** Packing `order` from `start` puts each of its items after the widths of the items
      before it, and leaves every other item as it is. */
  lemma PackAt(recs: seq<Rect>, order: seq<nat>, start: real, k: nat)
    requires InBounds(recs, order) && Distinct(order) && k < |recs|
    ensures Pack(recs, order, start)[k] ==
              if k in order then recs[k].(x := start + PrefixW(recs, order, IndexIn(order, k))) else recs[k]
  {
    PackFrame(recs, order, start);
    if k in order {
      var q := Pack(recs, order, start);
      var j := IndexIn(order, k);
      PackSpec(recs, order, start);
      assert q[order[j]].x == start + PrefixW(q, order, j);
      SumWSameButX(recs, q, order[..j]);
    }
  }

  /** The loop step of `repositionAllRectangles`: once rows `0 .. i - 1` are in place,
      packing row `i` from 0 in its current order puts rows `0 .. i` in place. */
  lemma RepackedStep(recs: seq<Rect>, live: seq<nat>, i: nat)
    requires InBounds(recs, live) && Increasing(live)
    ensures var c := Repacked(recs, live, i);
            InBounds(c, live) && Pack(c, RowOrder(c, live, i), 0.0) == Repacked(recs, live, i + 1)
  {
    var c := Repacked(recs, live, i);
    RepackedFrame(recs, live, i);
    RowOrderSameButX(recs, c, live, i);
    var o := RowOrder(recs, live, i);
    forall k | 0 <= k < |recs| ensures Pack(c, o, 0.0)[k] == Repacked(recs, live, i + 1)[k] {
      RepackedStepAt(recs, live, i, k);
    }
  }

  /** `RepackedStep` at one index. */
  lemma RepackedStepAt(recs: seq<Rect>, live: seq<nat>, i: nat, k: nat)
    requires InBounds(recs, live) && Increasing(live) && k < |recs|
    ensures var c := Repacked(recs, live, i);
            var o := RowOrder(recs, live, i);
            InBounds(c, o) && Pack(c, o, 0.0)[k] == Repacked(recs, live, i + 1)[k]
  {
    var o := RowOrder(recs, live, i);
    RowOrderKeyOrdered(recs, live, i);
    RowOrderMembers(recs, live, i);
    if k in o {
      StepInRow(recs, live, i, k);
    } else {
      StepOffRow(recs, live, i, k);
    }
  }

  /** An item of row `i` goes to its slot. */
  lemma StepInRow(recs: seq<Rect>, live: seq<nat>, i: nat, k: nat)
    requires InBounds(recs, live) && Distinct(RowOrder(recs, live, i))
    requires k in live && recs[k].row == i && k in RowOrder(recs, live, i)
    ensures var c := Repacked(recs, live, i);
            var o := RowOrder(recs, live, i);
            InBounds(c, o) && Pack(c, o, 0.0)[k] == Repacked(recs, live, i + 1)[k]
  {
    var c := Repacked(recs, live, i);
    var o := RowOrder(recs, live, i);
    RepackedFrame(recs, live, i);
    PackAt(c, o, 0.0, k);
    SumWSameButX(recs, c, o[..IndexIn(o, k)]);
  }

  /** An item outside row `i` stays where the rows above put it. */
  lemma StepOffRow(recs: seq<Rect>, live: seq<nat>, i: nat, k: nat)
    requires InBounds(recs, live) && Distinct(RowOrder(recs, live, i)) && k < |recs|
    requires k !in RowOrder(recs, live, i) && !(k in live && recs[k].row == i)
    ensures var c := Repacked(recs, live, i);
            var o := RowOrder(recs, live, i);
            InBounds(c, o) && Pack(c, o, 0.0)[k] == Repacked(recs, live, i + 1)[k]
  {
    var c := Repacked(recs, live, i);
    RepackedFrame(recs, live, i);
    PackAt(c, RowOrder(recs, live, i), 0.0, k);
  }

  /** In a list without repeats, an item's first place is its only place. */
  lemma IndexInDistinct(s: seq<nat>, j: int)
    requires Distinct(s) && 0 <= j < |s|
    ensures IndexIn(s, s[j]) == j
  {
  }

  /** What repositioning does: each of the rows `0 .. n - 1` ends up packed from 0 in its
      original `(x, reference)` order. With `RepackedFrame`: only positions change, and
      only in those rows. */
  lemma RepackedSpec(recs: seq<Rect>, live: seq<nat>, n: nat, r: int)
    requires InBounds(recs, live) && Increasing(live) && 0 <= r < n
    ensures PackedBy(Repacked(recs, live, n), RowOrder(recs, live, r), 0.0)
  {
    var q := Repacked(recs, live, n);
    var o := RowOrder(recs, live, r);
    RowOrderKeyOrdered(recs, live, r);
    RowOrderMembers(recs, live, r);
    RepackedFrame(recs, live, n);
    forall j | 0 <= j < |o| ensures q[o[j]].x == 0.0 + PrefixW(q, o, j) {
      assert o[j] in o;
      IndexInDistinct(o, j);
      SumWSameButX(recs, q, o[..j]);
    }
  }

  /** Positive widths make a packed order strictly ascending in `x`, hence `(x, reference)`
      ordered. */
  lemma PackedKeyOrdered(recs: seq<Rect>, order: seq<nat>, start: real)
    requires InBounds(recs, order) && PackedBy(recs, order, start)
    requires forall i :: 0 <= i < |order| ==> recs[order[i]].width > 0.0
    ensures KeyOrdered(recs, order)
  {
    PackedNoOverlap(recs, order, start);
  }

  /** Rows already packed from 0 in their own order are left as they are. */
  lemma RepackedFixpoint(recs: seq<Rect>, live: seq<nat>, n: nat)
    requires InBounds(recs, live) && Increasing(live)
    requires forall r :: 0 <= r < n ==> PackedBy(recs, RowOrder(recs, live, r), 0.0)
    ensures Repacked(recs, live, n) == recs
  {
    var q := Repacked(recs, live, n);
    forall k | 0 <= k < |recs| ensures q[k] == recs[k] {
      if k in live && 0 <= recs[k].row < n {
        var o := RowOrder(recs, live, recs[k].row);
        RowOrderKeyOrdered(recs, live, recs[k].row);
        RowOrderMembers(recs, live, recs[k].row);
        var j := IndexIn(o, k);
        assert recs[o[j]].x == 0.0 + PrefixW(recs, o, j);
      }
    }
  }

  /** Repositioning twice at the same scale is repositioning once, when every item has a
      positive width. */
  lemma RepackedIdempotent(recs: seq<Rect>, live: seq<nat>, n: nat)
    requires InBounds(recs, live) && Increasing(live)
    requires forall k :: k in live ==> recs[k].width > 0.0
    ensures Repacked(Repacked(recs, live, n), live, n) == Repacked(recs, live, n)
  {
    var q := Repacked(recs, live, n);
    RepackedFrame(recs, live, n);
    forall r | 0 <= r < n ensures PackedBy(q, RowOrder(q, live, r), 0.0) {
      RepackedSpec(recs, live, n, r);
      var o := RowOrder(recs, live, r);
      RowOrderMembers(recs, live, r);
      RowRefsSameRows(recs, q, live, r);
      var s := RowRefs(q, live, r);
      assert forall i :: 0 <= i < |o| ==> q[o[i]].width > 0.0 by {
        forall i | 0 <= i < |o| ensures q[o[i]].width > 0.0 {
          assert o[i] in o;
        }
      }
      PackedKeyOrdered(q, o, 0.0);
      SortByXPerm(recs, RowRefs(recs, live, r));
      RowRefsIncreasing(q, live, r);
      SortByXIsKeyOrder(q, s, o);
    }
    RepackedFixpoint(q, live, n);
  }

  /** After repositioning, no item of rows `0 .. n - 1` collides with another item of its
      row, when widths are not negative. */
  lemma RepackedNoCollision(recs: seq<Rect>, live: seq<nat>, n: nat)
    requires InBounds(recs, live) && Increasing(live)
    requires forall k :: k in live ==> recs[k].width >= 0.0
    ensures var q := Repacked(recs, live, n);
            forall k :: k in live && 0 <= q[k].row < n ==>
              !HasCollision(q, live, q[k].row, q[k].x, q[k].width, q[k].id)
  {
    var q := Repacked(recs, live, n);
    RepackedFrame(recs, live, n);
    forall k | k in live && 0 <= q[k].row < n
      ensures !HasCollision(q, live, q[k].row, q[k].x, q[k].width, q[k].id)
    {
      RepackedSpec(recs, live, n, q[k].row);
      PackedRowNoCollision(recs, q, live, q[k].row, k);
    }
  }

  lemma PackedRowNoCollision(recs: seq<Rect>, q: seq<Rect>, live: seq<nat>, r: int, k: nat)
    requires InBounds(recs, live) && SameButX(recs, q)
    requires forall k :: k in live ==> recs[k].width >= 0.0
    requires PackedBy(q, RowOrder(recs, live, r), 0.0)
    requires k in live && q[k].row == r
    ensures !HasCollision(q, live, r, q[k].x, q[k].width, q[k].id)
  {
    var o := RowOrder(recs, live, r);
    RowOrderMembers(recs, live, r);
    assert WidthsNonNeg(q, o) by {
      forall i | 0 <= i < |o| ensures q[o[i]].width >= 0.0 {
        assert o[i] in o;
      }
    }
    RowRefsSameRows(recs, q, live, r);
    assert forall k :: k in live && q[k].row == r ==> k in o;
    PackedNoCollision(q, live, r, o, 0.0);
    var i :| 0 <= i < |o| && o[i] == k;
  }

  /** The right end of a row packed from `start` is `start` plus its total width. */
  lemma PackedEnd(recs: seq<Rect>, order: seq<nat>, start: real)
    requires InBounds(recs, order) && |order| > 0
    requires PackedBy(recs, order, start) && WidthsNonNeg(recs, order)
    ensures forall i :: 0 <= i < |order| ==>
              recs[order[i]].x + recs[order[i]].width <= start + SumW(recs, order)
    ensures recs[order[|order| - 1]].x + recs[order[|order| - 1]].width == start + SumW(recs, order)
  {
    forall i | 0 <= i < |order|
      ensures recs[order[i]].x + recs[order[i]].width <= start + SumW(recs, order)
    {
      SumWStep(recs, order, i);
      SumWMono(recs, order, i + 1, |order|);
      assert order[..|order|] == order;
    }
    SumWStep(recs, order, |order| - 1);
    assert order[..|order|] == order;
  }

  /** The start `alignRowRight` computes: the end of the row above less the row's total
      width, but not below 0. The first row, and a row under an empty row, start at 0. */
  function AlignRightStart(recs: seq<Rect>, live: seq<nat>, row: int): (s: real)
    requires InBounds(recs, live)
  {
    var total := SumW(recs, RowOrder(recs, live, row));
    var alignment := if row > 0 then RowEnd(recs, live, row - 1, -1) else 0.0;
    Max(0.0, alignment - total)
  }

  /** `alignRowRight` lays the row out so that it ends where the row above ends, whenever
      the row above is at least as long as the row's total width. */
  lemma AlignRightEndsWithRowAbove(recs: seq<Rect>, live: seq<nat>, row: int)
    requires InBounds(recs, live) && Increasing(live) && row > 0
    requires forall k :: k in live ==> recs[k].width >= 0.0
    requires RowOrder(recs, live, row) != []
    requires RowEnd(recs, live, row - 1, -1) >= SumW(recs, RowOrder(recs, live, row))
    ensures var o := RowOrder(recs, live, row);
            var q := Pack(recs, o, AlignRightStart(recs, live, row));
            (forall i :: 0 <= i < |o| ==> q[o[i]].x + q[o[i]].width <= RowEnd(recs, live, row - 1, -1)) &&
            q[o[|o| - 1]].x + q[o[|o| - 1]].width == RowEnd(recs, live, row - 1, -1)
  {
    var o := RowOrder(recs, live, row);
    RowOrderKeyOrdered(recs, live, row);
    RowOrderMembers(recs, live, row);
    assert WidthsNonNeg(recs, o) by {
      forall i | 0 <= i < |o| ensures recs[o[i]].width >= 0.0 {
        assert o[i] in o;
      }
    }
    PackedEnds(recs, o, AlignRightStart(recs, live, row));
  }

  /** Packing from `start` puts every right edge at or before `start` plus the total width,
      and the last one exactly there. */
  lemma PackedEnds(recs: seq<Rect>, o: seq<nat>, start: real)
    requires InBounds(recs, o) && Distinct(o) && WidthsNonNeg(recs, o) && |o| > 0
    ensures var q := Pack(recs, o, start);
            (forall i :: 0 <= i < |o| ==> q[o[i]].x + q[o[i]].width <= start + SumW(recs, o)) &&
            q[o[|o| - 1]].x + q[o[|o| - 1]].width == start + SumW(recs, o)
  {
    PackSpec(recs, o, start);
    PackFrame(recs, o, start);
    var q := Pack(recs, o, start);
    SumWSameButX(recs, q, o);
    assert WidthsNonNeg(q, o);
    PackedEnd(q, o, start);
  }
}
