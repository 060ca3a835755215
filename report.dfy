/** Read-only summaries of the chart: the length of the time ruler (`getMaxTimeSpan`) and
    the document `exportBuildOrder` builds before handing it to the browser or the server. */
module Report {
  import opened Common
  import opened Catalog
  import opened Rects
  import opened XSort
  import opened Layout

  /** Shortest ruler, in seconds (5 minutes), and the step it is rounded up to. */
  const MinSpan: int := 300
  const SpanStep: int := 30

  /** Right edges of the items in seconds, `(r.x + r.width) / timeScale`, in array order. */
  function EndTimes(recs: seq<Rect>, live: seq<nat>, timeScale: real): (e: seq<real>)
    requires InBounds(recs, live) && timeScale > 0.0
    ensures |e| == |live|
    ensures forall i :: 0 <= i < |live| ==> e[i] == (recs[live[i]].x + recs[live[i]].width) / timeScale
  {
    seq(|live|, i requires 0 <= i < |live| => (recs[live[i]].x + recs[live[i]].width) / timeScale)
  }

  /** `getMaxTimeSpan`: 300 seconds for an empty chart, otherwise the latest end time
      rounded up to a multiple of 30, and at least 300. The result is a multiple of 30 of
      at least 300 that reaches past every item; `MaxTimeSpanLeast` shows it is the
      shortest such. */
  function MaxTimeSpan(recs: seq<Rect>, live: seq<nat>, timeScale: real): (t: int)
    requires InBounds(recs, live) && timeScale > 0.0
    ensures t >= MinSpan && t % SpanStep == 0
    ensures live == [] ==> t == MinSpan
    ensures forall k :: k in live ==> (recs[k].x + recs[k].width) / timeScale <= t as real
  {
    if live == [] then MinSpan
    else
      var e := EndTimes(recs, live, timeScale);
      var m := MaxOf(e);
      var c := Ceil(m / SpanStep as real) * SpanStep;
      assert forall k :: k in live ==> (recs[k].x + recs[k].width) / timeScale <= m by {
        forall k | k in live ensures (recs[k].x + recs[k].width) / timeScale <= m {
          var i :| 0 <= i < |live| && live[i] == k;
          assert e[i] <= m;
        }
      }
      if MinSpan >= c then MinSpan else c
  }

  /** No shorter ruler would do: every multiple of 30 of at least 300 that reaches past
      every item is at least `MaxTimeSpan`. */
  lemma MaxTimeSpanLeast(recs: seq<Rect>, live: seq<nat>, timeScale: real, u: int)
    requires InBounds(recs, live) && timeScale > 0.0
    requires u >= MinSpan && u % SpanStep == 0
    requires forall k :: k in live ==> (recs[k].x + recs[k].width) / timeScale <= u as real
    ensures MaxTimeSpan(recs, live, timeScale) <= u
  {
    if live != [] {
      var e := EndTimes(recs, live, timeScale);
      var m := MaxOf(e);
      var i :| 0 <= i < |e| && e[i] == m;
      assert live[i] in live;
      assert m <= u as real;
      var q := u / SpanStep;
      assert u == q * SpanStep;
      assert m / SpanStep as real <= q as real;
      assert Ceil(m / SpanStep as real) <= q;
    }
  }

  // ---------------------------------------------------------------------------------
  // Export document

  /** One exported item. */
  datatype ExportEntity = ExportEntity(
    name: string,
    entityType: string,
    race: string,
    startTime: real,
    buildTime: real,
    minerals: int,
    gas: int,
    chronoboosted: bool,
    chronoboostCount: int)

  /** One exported row: its index, its items by start time and, for a non-empty row, its
      statistics. */
  datatype ExportRow = ExportRow(rowIndex: nat, entities: seq<ExportEntity>, stats: Option<RowStats>)

  /** The export date is the caller's clock reading. */
  datatype Metadata = Metadata(exportDate: string, timeScale: real, totalRows: int)

  datatype BuildOrder = BuildOrder(metadata: Metadata, rows: seq<ExportRow>)

  /** The exported form of item `r` whose catalog entry is `e`. */
  function ExportOf(r: Rect, e: Entity, timeScale: real): (x: ExportEntity)
    requires timeScale > 0.0
    ensures x.startTime * timeScale == r.x
    ensures x.buildTime == GetBuildTime(e)
    ensures x.minerals == (if e.minerals.Some? then e.minerals.value else 0)
    ensures x.gas == (if e.gas.Some? then e.gas.value else 0)
  {
    ExportEntity(e.name, r.entityType, e.race, r.x / timeScale, GetBuildTime(e),
                 GetCost(e).minerals, GetCost(e).gas, r.boosted, r.boostCount)
  }

  /** Every item of the chart refers to a catalog entry. */
  predicate Refs(recs: seq<Rect>, live: seq<nat>, catalog: seq<Entity>)
    requires InBounds(recs, live)
  {
    forall k :: k in live ==> recs[k].entity < |catalog|
  }

  /** The exported row `row`: its items sorted by `x` (ties in array order), and the row
      statistics when it has items. */
  function ExportRowOf(recs: seq<Rect>, live: seq<nat>, catalog: seq<Entity>, timeScale: real, row: nat): (r: ExportRow)
    requires InBounds(recs, live) && Refs(recs, live, catalog) && timeScale > 0.0
    ensures r.rowIndex == row
  {
    var o := RowOrder(recs, live, row);
    assert EntitiesIn(recs, o, catalog) by {
      RowOrderMembers(recs, live, row);
      assert forall i :: 0 <= i < |o| ==> o[i] in o;
    }
    var ents := seq(|o|, i requires 0 <= i < |o| =>
                         ExportOf(recs[o[i]], catalog[recs[o[i]].entity], timeScale));
    ExportRow(row, ents, if o == [] then None else Some(Stats(recs, o, catalog, timeScale)))
  }

  /** The exported rows `0 .. n - 1`, in order. */
  function ExportRows(recs: seq<Rect>, live: seq<nat>, catalog: seq<Entity>, timeScale: real, n: nat): (r: seq<ExportRow>)
    requires InBounds(recs, live) && Refs(recs, live, catalog) && timeScale > 0.0
    ensures |r| == n
  {
    if n == 0 then []
    else ExportRows(recs, live, catalog, timeScale, n - 1) + [ExportRowOf(recs, live, catalog, timeScale, n - 1)]
  }

  /** The document `exportBuildOrder` builds: the metadata and one row per chart row. */
  function ExportDoc(recs: seq<Rect>, live: seq<nat>, catalog: seq<Entity>, timeScale: real,
                     rows: nat, exportDate: string): BuildOrder
    requires InBounds(recs, live) && Refs(recs, live, catalog) && timeScale > 0.0
  {
    BuildOrder(Metadata(exportDate, timeScale, rows), ExportRows(recs, live, catalog, timeScale, rows))
  }

  /** `exportBuildOrder`, the document-building part: a loop over the rows. */
  method ExportBuildOrder(recs: seq<Rect>, live: seq<nat>, catalog: seq<Entity>, timeScale: real,
                          rows: nat, exportDate: string) returns (doc: BuildOrder)
    requires InBounds(recs, live) && Refs(recs, live, catalog) && timeScale > 0.0
    ensures doc == ExportDoc(recs, live, catalog, timeScale, rows, exportDate)
  {
    var out: seq<ExportRow> := [];
    var rowIndex := 0;
    while rowIndex < rows
      invariant 0 <= rowIndex <= rows
      invariant out == ExportRows(recs, live, catalog, timeScale, rowIndex)
    {
      out := out + [ExportRowOf(recs, live, catalog, timeScale, rowIndex)];
      rowIndex := rowIndex + 1;
    }
    doc := BuildOrder(Metadata(exportDate, timeScale, rows), out);
  }

  /** The export lists every chart row once, in order: entry `i` is row `i`. */
  lemma {:induction false} ExportRowsAt(recs: seq<Rect>, live: seq<nat>, catalog: seq<Entity>, timeScale: real,
                                        n: nat, i: nat)
    requires InBounds(recs, live) && Refs(recs, live, catalog) && timeScale > 0.0 && i < n
    ensures ExportRows(recs, live, catalog, timeScale, n)[i] == ExportRowOf(recs, live, catalog, timeScale, i)
    ensures ExportRows(recs, live, catalog, timeScale, n)[i].rowIndex == i
  {
    var p := ExportRows(recs, live, catalog, timeScale, n - 1);
    var last := ExportRowOf(recs, live, catalog, timeScale, n - 1);
    assert ExportRows(recs, live, catalog, timeScale, n) == p + [last];
    if i < n - 1 {
      ExportRowsAt(recs, live, catalog, timeScale, n - 1, i);
      assert (p + [last])[i] == p[i];
    } else {
      assert (p + [last])[i] == last;
    }
  }

  /** An exported row holds each item of its chart row once, as `ExportOf` makes it. */
  lemma ExportRowItems(recs: seq<Rect>, live: seq<nat>, catalog: seq<Entity>, timeScale: real, row: nat)
    requires InBounds(recs, live) && Increasing(live) && Refs(recs, live, catalog) && timeScale > 0.0
    ensures var er := ExportRowOf(recs, live, catalog, timeScale, row);
            var o := RowOrder(recs, live, row);
            |er.entities| == |o| && Distinct(o) &&
            (forall k :: k in live && recs[k].row == row ==>
               exists j :: 0 <= j < |er.entities| && o[j] == k &&
                           er.entities[j] == ExportOf(recs[k], catalog[recs[k].entity], timeScale))
  {
    var o := RowOrder(recs, live, row);
    var er := ExportRowOf(recs, live, catalog, timeScale, row);
    RowOrderKeyOrdered(recs, live, row);
    RowOrderMembers(recs, live, row);
    forall k | k in live && recs[k].row == row
      ensures exists j :: 0 <= j < |er.entities| && o[j] == k &&
                          er.entities[j] == ExportOf(recs[k], catalog[recs[k].entity], timeScale)
    {
      var j :| 0 <= j < |o| && o[j] == k;
      assert er.entities[j] == ExportOf(recs[o[j]], catalog[recs[o[j]].entity], timeScale);
    }
  }

  /** An exported row lists its items by start time. */
  lemma ExportRowSorted(recs: seq<Rect>, live: seq<nat>, catalog: seq<Entity>, timeScale: real, row: nat)
    requires InBounds(recs, live) && Increasing(live) && Refs(recs, live, catalog) && timeScale > 0.0
    ensures var es := ExportRowOf(recs, live, catalog, timeScale, row).entities;
            forall i, j :: 0 <= i < j < |es| ==> es[i].startTime <= es[j].startTime
  {
    var o := RowOrder(recs, live, row);
    var es := ExportRowOf(recs, live, catalog, timeScale, row).entities;
    RowOrderKeyOrdered(recs, live, row);
    forall i, j | 0 <= i < j < |es| ensures es[i].startTime <= es[j].startTime {
      assert KeyBefore(recs, o[i], o[j]);
      assert es[i].startTime == recs[o[i]].x / timeScale;
      assert es[j].startTime == recs[o[j]].x / timeScale;
      DivMonotone(recs[o[i]].x, recs[o[j]].x, timeScale);
    }
  }

  /** An exported row has statistics exactly when its chart row has items, and they are
      that row's statistics. */
  lemma ExportRowStats(recs: seq<Rect>, live: seq<nat>, catalog: seq<Entity>, timeScale: real, row: nat)
    requires InBounds(recs, live) && Refs(recs, live, catalog) && timeScale > 0.0
    ensures var st := ExportRowOf(recs, live, catalog, timeScale, row).stats;
            (st.Some? <==> exists k :: k in live && recs[k].row == row) &&
            (st.Some? ==> forall k :: k in live && recs[k].row == row ==>
                            (recs[k].x + recs[k].width) / timeScale <= st.value.endTime)
  {
    var o := RowOrder(recs, live, row);
    ExportRowEnd(recs, live, catalog, timeScale, row);
    RowOrderMembers(recs, live, row);
    if o != [] {
      assert o[0] in o;
      forall k | k in live && recs[k].row == row
        ensures (recs[k].x + recs[k].width) / timeScale <= MaxEnd(recs, o) / timeScale
      {
        EndWithinMax(recs, o, k, timeScale);
      }
    }
  }

  /** An exported row carries the statistics `updateRowStats` shows for that row, which
      sums the row's items in array order rather than in x-order. */
  lemma ExportRowStatsAsShown(recs: seq<Rect>, live: seq<nat>, catalog: seq<Entity>, timeScale: real, row: nat)
    requires InBounds(recs, live) && Refs(recs, live, catalog) && timeScale > 0.0
    ensures var s := RowRefs(recs, live, row);
            EntitiesIn(recs, s, catalog) &&
            ExportRowOf(recs, live, catalog, timeScale, row).stats ==
              (if s == [] then None else Some(Stats(recs, s, catalog, timeScale)))
  {
    var s := RowRefs(recs, live, row);
    var o := RowOrder(recs, live, row);
    RowRefsMembers(recs, live, row);
    RowOrderMembers(recs, live, row);
    assert forall i :: 0 <= i < |s| ==> s[i] in s;
    assert forall i :: 0 <= i < |o| ==> o[i] in o;
    SortByXPerm(recs, s);
    if s == [] {
      assert |o| == |multiset(o)| == 0;
    } else {
      assert s[0] in multiset(o);
      StatsPerm(recs, s, o, catalog, timeScale);
    }
  }

  lemma ExportRowEnd(recs: seq<Rect>, live: seq<nat>, catalog: seq<Entity>, timeScale: real, row: nat)
    requires InBounds(recs, live) && Refs(recs, live, catalog) && timeScale > 0.0
    ensures var st := ExportRowOf(recs, live, catalog, timeScale, row).stats;
            var o := RowOrder(recs, live, row);
            (st.Some? <==> o != []) && (st.Some? ==> st.value.endTime == MaxEnd(recs, o) / timeScale)
  {
  }

  lemma EndWithinMax(recs: seq<Rect>, o: seq<nat>, k: nat, timeScale: real)
    requires InBounds(recs, o) && k in o && timeScale > 0.0
    ensures (recs[k].x + recs[k].width) / timeScale <= MaxEnd(recs, o) / timeScale
  {
    var i :| 0 <= i < |o| && o[i] == k;
    DivMonotone(recs[k].x + recs[k].width, MaxEnd(recs, o), timeScale);
  }
}
