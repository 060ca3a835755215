/** Placed items and the read-only queries the timeline makes over them.

    The chart's items are JavaScript objects shared by reference. They are modelled as a
    heap: `recs: seq<Rect>` holds every item record ever created, indexed by its reference,
    and the chart's `rectangles` array is a `seq<nat>` of references into it. A deleted item
    keeps its record, as a detached JavaScript object does. */
module Rects {
  import opened Common
  import opened Catalog

  /** One placed item (`rectData`). `id` is the number given at creation, which a later
      item may reuse; `entity` indexes the shared catalog entry. */
  datatype Rect = Rect(
    id: nat,
    row: int,
    x: real,
    width: real,
    entity: nat,
    entityType: string,
    originalBuildTime: Option<real>,
    boostCount: int,
    boosted: bool)

  predicate InBounds(recs: seq<Rect>, s: seq<nat>) {
    forall i :: 0 <= i < |s| ==> s[i] < |recs|
  }

  predicate Increasing(s: seq<nat>) {
    forall i, j :: 0 <= i < j < |s| ==> s[i] < s[j]
  }

  predicate Distinct(s: seq<nat>) {
    forall i, j :: 0 <= i < j < |s| ==> s[i] != s[j]
  }

  /** `rectangles.filter(r => r.row === row)`, in array order. */
  function RowRefs(recs: seq<Rect>, live: seq<nat>, row: int): (r: seq<nat>)
    requires InBounds(recs, live)
    ensures InBounds(recs, r) && |r| <= |live|
  {
    if live == [] then []
    else (if recs[live[0]].row == row then [live[0]] else []) + RowRefs(recs, live[1..], row)
  }

  /** The row's references are exactly the live items in that row. */
  lemma {:induction false} RowRefsMembers(recs: seq<Rect>, live: seq<nat>, row: int)
    requires InBounds(recs, live)
    ensures forall k :: k in RowRefs(recs, live, row) <==> k in live && recs[k].row == row
  {
    if live != [] {
      RowRefsMembers(recs, live[1..], row);
      assert live == [live[0]] + live[1..];
    }
  }

  /** Filtering keeps the array's reference order. */
  lemma {:induction false} RowRefsIncreasing(recs: seq<Rect>, live: seq<nat>, row: int)
    requires InBounds(recs, live)
    ensures Increasing(live) ==> Increasing(RowRefs(recs, live, row))
  {
    if live != [] {
      var rest := RowRefs(recs, live[1..], row);
      RowRefsIncreasing(recs, live[1..], row);
      RowRefsMembers(recs, live[1..], row);
      IncreasingTail(live, rest);
    }
  }

  /** `.filter(r => r.id !== excludeId)`, in order. */
  function ExceptId(recs: seq<Rect>, s: seq<nat>, ex: int): (r: seq<nat>)
    requires InBounds(recs, s)
    ensures InBounds(recs, r) && |r| <= |s|
    ensures forall k :: k in r <==> k in s && recs[k].id != ex
    ensures Increasing(s) ==> Increasing(r)
  {
    if s == [] then []
    else
      var rest := ExceptId(recs, s[1..], ex);
      IncreasingTail(s, rest);
      (if recs[s[0]].id != ex then [s[0]] else []) + rest
  }

  /** Prepending the head of an increasing sequence to increasing elements of its tail
      keeps the result increasing. */
  lemma IncreasingTail(s: seq<nat>, t: seq<nat>)
    requires |s| > 0 && forall k :: k in t ==> k in s[1..]
    ensures Increasing(s) && Increasing(t) ==> Increasing([s[0]] + t) && Increasing([] + t)
  {
    assert [] + t == t;
    if Increasing(s) && Increasing(t) {
      forall k | k in t ensures s[0] < k {
        HeadBelowTail(s, k);
      }
      IncreasingCons(s[0], t);
    }
  }

  lemma HeadBelowTail(s: seq<nat>, k: nat)
    requires |s| > 0 && Increasing(s) && k in s[1..]
    ensures s[0] < k
  {
    var j :| 0 <= j < |s[1..]| && s[1..][j] == k;
    assert s[j + 1] == k;
  }

  lemma IncreasingCons(x: nat, t: seq<nat>)
    requires Increasing(t) && forall k :: k in t ==> x < k
    ensures Increasing([x] + t)
  {
    var u := [x] + t;
    forall i, j | 0 <= i < j < |u| ensures u[i] < u[j] {
      assert u[j] == t[j - 1] && t[j - 1] in t;
      if i > 0 {
        assert u[i] == t[i - 1];
      }
    }
  }

  /** `rectangles.filter(r => r.row === row && r.id !== excludeId)`. */
  function RowRefsExcept(recs: seq<Rect>, live: seq<nat>, row: int, ex: int): (r: seq<nat>)
    requires InBounds(recs, live)
    ensures InBounds(recs, r)
    ensures forall k :: k in r <==> k in live && recs[k].row == row && recs[k].id != ex
    ensures Increasing(live) ==> Increasing(r)
  {
    RowRefsMembers(recs, live, row);
    RowRefsIncreasing(recs, live, row);
    ExceptId(recs, RowRefs(recs, live, row), ex)
  }

  /** Right edges `x + width` of the given items, in order. */
  function Ends(recs: seq<Rect>, s: seq<nat>): (e: seq<real>)
    requires InBounds(recs, s)
    ensures |e| == |s|
    ensures forall i :: 0 <= i < |s| ==> e[i] == recs[s[i]].x + recs[s[i]].width
  {
    seq(|s|, i requires 0 <= i < |s| => recs[s[i]].x + recs[s[i]].width)
  }

  /** `Math.max(...s.map(r => r.x + r.width))` for a non-empty list. */
  function MaxEnd(recs: seq<Rect>, s: seq<nat>): (m: real)
    requires InBounds(recs, s) && |s| > 0
    ensures forall i :: 0 <= i < |s| ==> recs[s[i]].x + recs[s[i]].width <= m
    ensures exists i :: 0 <= i < |s| && recs[s[i]].x + recs[s[i]].width == m
  {
    var e := Ends(recs, s);
    var m := MaxOf(e);
    assert forall i :: 0 <= i < |s| ==> e[i] <= m;
    m
  }

  /** `getRowEndPosition(row, excludeId)`: the rightmost edge of the row's items other
      than `excludeId`, or 0 for a row without such items. */
  function RowEnd(recs: seq<Rect>, live: seq<nat>, row: int, ex: int): (m: real)
    requires InBounds(recs, live)
    ensures (forall k :: k in live && recs[k].row == row ==> recs[k].id == ex) ==> m == 0.0
    ensures forall k :: k in live && recs[k].row == row && recs[k].id != ex ==>
              recs[k].x + recs[k].width <= m
    ensures (exists k :: k in live && recs[k].row == row && recs[k].id != ex) ==>
              exists k :: k in live && recs[k].row == row && recs[k].id != ex &&
                          recs[k].x + recs[k].width == m
  {
    var s := RowRefsExcept(recs, live, row, ex);
    if s == [] then 0.0
    else
      var m := MaxEnd(recs, s);
      assert forall k :: k in s ==> recs[k].x + recs[k].width <= m;
      m
  }

  /** True when `[x, x + w)` overlaps one of the items `s`. */
  function AnyOverlap(recs: seq<Rect>, s: seq<nat>, x: real, w: real): (b: bool)
    requires InBounds(recs, s)
    ensures b <==> exists k :: k in s && x < recs[k].x + recs[k].width && x + w > recs[k].x
  {
    if s == [] then false
    else
      var k := s[0];
      if x < recs[k].x + recs[k].width && x + w > recs[k].x then true
      else
        assert forall j :: j in s ==> j == k || j in s[1..];
        AnyOverlap(recs, s[1..], x, w)
  }

  /** `hasCollision(row, x, width, excludeId)`: does `[x, x + width)` overlap an item of
      the row other than those with id `excludeId`? */
  function HasCollision(recs: seq<Rect>, live: seq<nat>, row: int, x: real, w: real, ex: int): (b: bool)
    requires InBounds(recs, live)
    ensures b <==> exists k :: k in live && recs[k].row == row && recs[k].id != ex &&
                               x < recs[k].x + recs[k].width && x + w > recs[k].x
  {
    AnyOverlap(recs, RowRefsExcept(recs, live, row, ex), x, w)
  }

  /** Total width of the items, `s.reduce((sum, r) => sum + r.width, 0)`. */
  function SumW(recs: seq<Rect>, s: seq<nat>): real
    requires InBounds(recs, s)
  {
    if s == [] then 0.0 else SumW(recs, s[..|s| - 1]) + recs[s[|s| - 1]].width
  }

  /** The first position in `live` holding an item with id `id`
      (`rectangles.findIndex(r => r.id === id)`), or `None`. */
  function FindById(recs: seq<Rect>, live: seq<nat>, id: int): (r: Option<nat>)
    requires InBounds(recs, live)
    ensures r.None? <==> forall i :: 0 <= i < |live| ==> recs[live[i]].id != id
    ensures r.Some? ==> r.value < |live| && recs[live[r.value]].id == id &&
                        forall i :: 0 <= i < r.value ==> recs[live[i]].id != id
  {
    if live == [] then None
    else if recs[live[0]].id == id then Some(0)
    else
      var t := FindById(recs, live[1..], id);
      if t.None? then None else Some(t.value + 1)
  }

  /** `rectangles.splice(index, 1)` for the first item with id `id`, if any. */
  function RemoveFirstId(recs: seq<Rect>, live: seq<nat>, id: int): (r: seq<nat>)
    requires InBounds(recs, live)
    ensures InBounds(recs, r)
    ensures FindById(recs, live, id).None? ==> r == live
    ensures FindById(recs, live, id).Some? ==>
              var i := FindById(recs, live, id).value; r == live[..i] + live[i + 1..]
  {
    var f := FindById(recs, live, id);
    if f.None? then live else live[..f.value] + live[f.value + 1..]
  }

  /** Row statistics as `updateRowStats` and the export compute them: the latest end time
      in seconds and the summed costs of the row's items. */
  datatype RowStats = RowStats(endTime: real, totalMinerals: int, totalGas: int)

  predicate EntitiesIn(recs: seq<Rect>, s: seq<nat>, catalog: seq<Entity>)
    requires InBounds(recs, s)
  {
    forall i :: 0 <= i < |s| ==> recs[s[i]].entity < |catalog|
  }

  function TotalMinerals(recs: seq<Rect>, s: seq<nat>, catalog: seq<Entity>): int
    requires InBounds(recs, s) && EntitiesIn(recs, s, catalog)
  {
    if s == [] then 0
    else TotalMinerals(recs, s[..|s| - 1], catalog) + GetCost(catalog[recs[s[|s| - 1]].entity]).minerals
  }

  function TotalGas(recs: seq<Rect>, s: seq<nat>, catalog: seq<Entity>): int
    requires InBounds(recs, s) && EntitiesIn(recs, s, catalog)
  {
    if s == [] then 0
    else TotalGas(recs, s[..|s| - 1], catalog) + GetCost(catalog[recs[s[|s| - 1]].entity]).gas
  }

  /** Statistics of the items `s` of one row at `timeScale` pixels per second. The end
      time is the latest right edge converted to seconds, 0 for an empty row. */
  function Stats(recs: seq<Rect>, s: seq<nat>, catalog: seq<Entity>, timeScale: real): (st: RowStats)
    requires InBounds(recs, s) && EntitiesIn(recs, s, catalog) && timeScale > 0.0
    ensures s == [] ==> st == RowStats(0.0, 0, 0)
    ensures s != [] ==> st.endTime == MaxEnd(recs, s) / timeScale
    ensures st.totalMinerals == TotalMinerals(recs, s, catalog) && st.totalGas == TotalGas(recs, s, catalog)
  {
    if s == [] then RowStats(0.0, 0, 0)
    else
      var e := Ends(recs, s);
      var times := seq(|s|, i requires 0 <= i < |s| => e[i] / timeScale);
      ScaledMax(e, times, timeScale);
      RowStats(MaxOf(times), TotalMinerals(recs, s, catalog), TotalGas(recs, s, catalog))
  }

  /** The mineral total of two lists one after the other is the sum of their totals. */
  lemma {:induction false} TotalMineralsAppend(recs: seq<Rect>, a: seq<nat>, b: seq<nat>, catalog: seq<Entity>)
    requires InBounds(recs, a + b) && EntitiesIn(recs, a + b, catalog)
    ensures InBounds(recs, a) && EntitiesIn(recs, a, catalog) && InBounds(recs, b) && EntitiesIn(recs, b, catalog)
    ensures TotalMinerals(recs, a + b, catalog) == TotalMinerals(recs, a, catalog) + TotalMinerals(recs, b, catalog)
    decreases |b|
  {
    assert forall i :: 0 <= i < |a| ==> a[i] == (a + b)[i];
    assert forall i :: 0 <= i < |b| ==> b[i] == (a + b)[|a| + i];
    if b == [] {
      assert a + b == a;
    } else {
      var init := b[..|b| - 1];
      assert (a + b)[..|a + b| - 1] == a + init;
      TotalMineralsAppend(recs, a, init, catalog);
    }
  }

  /** Taking one item out of a list lowers its mineral total by that item's minerals. */
  lemma TotalMineralsRemove(recs: seq<Rect>, s: seq<nat>, catalog: seq<Entity>, j: nat)
    requires InBounds(recs, s) && EntitiesIn(recs, s, catalog) && j < |s|
    ensures InBounds(recs, s[..j] + s[j + 1..]) && EntitiesIn(recs, s[..j] + s[j + 1..], catalog)
    ensures TotalMinerals(recs, s, catalog) ==
            TotalMinerals(recs, s[..j] + s[j + 1..], catalog) + GetCost(catalog[recs[s[j]].entity]).minerals
  {
    assert s == (s[..j] + [s[j]]) + s[j + 1..];
    TotalMineralsAppend(recs, s[..j] + [s[j]], s[j + 1..], catalog);
    TotalMineralsAppend(recs, s[..j], [s[j]], catalog);
    TotalMineralsAppend(recs, s[..j], s[j + 1..], catalog);
    assert [s[j]][..0] == [];
  }

  /** The gas total of two lists one after the other is the sum of their totals. */
  lemma {:induction false} TotalGasAppend(recs: seq<Rect>, a: seq<nat>, b: seq<nat>, catalog: seq<Entity>)
    requires InBounds(recs, a + b) && EntitiesIn(recs, a + b, catalog)
    ensures InBounds(recs, a) && EntitiesIn(recs, a, catalog) && InBounds(recs, b) && EntitiesIn(recs, b, catalog)
    ensures TotalGas(recs, a + b, catalog) == TotalGas(recs, a, catalog) + TotalGas(recs, b, catalog)
    decreases |b|
  {
    assert forall i :: 0 <= i < |a| ==> a[i] == (a + b)[i];
    assert forall i :: 0 <= i < |b| ==> b[i] == (a + b)[|a| + i];
    if b == [] {
      assert a + b == a;
    } else {
      var init := b[..|b| - 1];
      assert (a + b)[..|a + b| - 1] == a + init;
      TotalGasAppend(recs, a, init, catalog);
    }
  }

  /** Taking one item out of a list lowers its gas total by that item's gas. */
  lemma TotalGasRemove(recs: seq<Rect>, s: seq<nat>, catalog: seq<Entity>, j: nat)
    requires InBounds(recs, s) && EntitiesIn(recs, s, catalog) && j < |s|
    ensures InBounds(recs, s[..j] + s[j + 1..]) && EntitiesIn(recs, s[..j] + s[j + 1..], catalog)
    ensures TotalGas(recs, s, catalog) ==
            TotalGas(recs, s[..j] + s[j + 1..], catalog) + GetCost(catalog[recs[s[j]].entity]).gas
  {
    assert s == (s[..j] + [s[j]]) + s[j + 1..];
    TotalGasAppend(recs, s[..j] + [s[j]], s[j + 1..], catalog);
    TotalGasAppend(recs, s[..j], [s[j]], catalog);
    TotalGasAppend(recs, s[..j], s[j + 1..], catalog);
    assert [s[j]][..0] == [];
  }

  /** Taking the last item of `s` and a copy of it in `t` out of two lists with the same
      items leaves lists with the same items. */
  lemma RemoveMatching(s: seq<nat>, t: seq<nat>, j: nat)
    requires multiset(s) == multiset(t) && |s| > 0 && j < |t| && t[j] == s[|s| - 1]
    ensures multiset(t[..j] + t[j + 1..]) == multiset(s[..|s| - 1])
  {
    var last := s[|s| - 1];
    var rest := t[..j] + t[j + 1..];
    assert s == s[..|s| - 1] + [last];
    assert t == t[..j] + [t[j]] + t[j + 1..];
    assert multiset(t) == multiset(rest) + multiset{last};
    assert multiset(s) == multiset(s[..|s| - 1]) + multiset{last};
    assert multiset(rest) == multiset(t) - multiset{last};
    assert multiset(s[..|s| - 1]) == multiset(s) - multiset{last};
  }

  /** The cost totals do not depend on the order of the items: `updateRowStats` sums a
      row in array order and the export in x-order, and both get the same totals. */
  lemma {:induction false} TotalsPerm(recs: seq<Rect>, s: seq<nat>, t: seq<nat>, catalog: seq<Entity>)
    requires InBounds(recs, s) && EntitiesIn(recs, s, catalog)
    requires InBounds(recs, t) && EntitiesIn(recs, t, catalog)
    requires multiset(s) == multiset(t)
    ensures TotalMinerals(recs, s, catalog) == TotalMinerals(recs, t, catalog)
    ensures TotalGas(recs, s, catalog) == TotalGas(recs, t, catalog)
    decreases |s|
  {
    if s != [] {
      var last := s[|s| - 1];
      assert s == s[..|s| - 1] + [last];
      assert last in multiset(t);
      var j :| 0 <= j < |t| && t[j] == last;
      TotalMineralsRemove(recs, t, catalog, j);
      TotalGasRemove(recs, t, catalog, j);
      RemoveMatching(s, t, j);
      TotalsPerm(recs, s[..|s| - 1], t[..j] + t[j + 1..], catalog);
    } else {
      assert |t| == |multiset(t)| == 0;
    }
  }

  /** Two lists with the same items have the same latest right edge. */
  lemma MaxEndPerm(recs: seq<Rect>, s: seq<nat>, t: seq<nat>)
    requires InBounds(recs, s) && InBounds(recs, t) && |s| > 0 && |t| > 0
    requires multiset(s) == multiset(t)
    ensures MaxEnd(recs, s) == MaxEnd(recs, t)
  {
    var i :| 0 <= i < |s| && recs[s[i]].x + recs[s[i]].width == MaxEnd(recs, s);
    var j :| 0 <= j < |t| && recs[t[j]].x + recs[t[j]].width == MaxEnd(recs, t);
    assert s[i] in multiset(t);
    assert t[j] in multiset(s);
    var i' :| 0 <= i' < |t| && t[i'] == s[i];
    var j' :| 0 <= j' < |s| && s[j'] == t[j];
  }

  /** Row statistics depend only on which items the row holds, not on their order. */
  lemma StatsPerm(recs: seq<Rect>, s: seq<nat>, t: seq<nat>, catalog: seq<Entity>, timeScale: real)
    requires InBounds(recs, s) && EntitiesIn(recs, s, catalog)
    requires InBounds(recs, t) && EntitiesIn(recs, t, catalog)
    requires multiset(s) == multiset(t) && timeScale > 0.0
    ensures Stats(recs, s, catalog, timeScale) == Stats(recs, t, catalog, timeScale)
  {
    TotalsPerm(recs, s, t, catalog);
    if s != [] {
      assert s[0] in multiset(t);
      MaxEndPerm(recs, s, t);
    } else {
      assert |t| == |multiset(t)| == 0;
    }
  }

  /** The maximum of values divided by a positive constant is the divided maximum. */
  lemma ScaledMax(e: seq<real>, times: seq<real>, c: real)
    requires |e| == |times| > 0 && c > 0.0
    requires forall i :: 0 <= i < |e| ==> times[i] == e[i] / c
    ensures MaxOf(times) == MaxOf(e) / c
  {
    var i, j := MaxWitnesses(e, times);
    DivMonotone(e[i], e[j], c);
  }

  lemma MaxWitnesses(e: seq<real>, times: seq<real>) returns (i: nat, j: nat)
    requires |e| == |times| > 0
    ensures i < |e| && j < |e| && e[j] == MaxOf(e) && times[i] == MaxOf(times)
  {
    j :| 0 <= j < |e| && e[j] == MaxOf(e);
    i :| 0 <= i < |e| && times[i] == MaxOf(times);
  }

  lemma DivMonotone(a: real, b: real, c: real)
    requires a <= b && c > 0.0
    ensures a / c <= b / c
  {
  }
}
