/** The pure helpers of the catalog scraper: merging upgrade records by key
    (`aggregate_upgrades`), splitting an infobox field into items (`_parse_field_content`)
    and choosing an upgrade's icon by file name (`_find_matching_icon`). */
module Scraper {
  import opened Common
  import opened Text

  /** No element occurs twice. */
  predicate NoDup<T(==)>(s: seq<T>) {
    forall i, j :: 0 <= i < j < |s| ==> s[i] != s[j]
  }

  function Elems<T>(s: seq<T>): set<T> {
    set x | x in s
  }

  // ---------------------------------------------------------------------------------
  // aggregate_upgrades

  /** An upgrade record: its key, the units it affects, its icon URL (absent or `None` is
      `None`) and its other fields, which merging copies but never reads. */
  datatype Upgrade = Upgrade(key: string, affectsUnits: seq<string>, iconUrl: Option<string>,
                             fields: map<string, string>)

  /** The truth value of `upgrade.get('icon_url')`: present and not empty. */
  predicate HasIcon(u: Upgrade) {
    u.iconUrl.Some? && u.iconUrl.value != []
  }

  /** `list(set(units))`: the distinct units. Python's order for them follows string
      hashes; here they keep the order of their first occurrence. */
  function SetToList(s: seq<string>): (r: seq<string>)
    ensures NoDup(r) && Elems(r) == Elems(s)
  {
    if s == [] then []
    else
      var d := SetToList(s[..|s| - 1]);
      var x := s[|s| - 1];
      assert s == s[..|s| - 1] + [x];
      assert Elems(s) == Elems(s[..|s| - 1]) + {x};
      if x in d then d
      else
        assert Elems(d + [x]) == Elems(d) + {x};
        d + [x]
  }

  /** The keys of the records. */
  function Keys(s: seq<Upgrade>): set<string> {
    if s == [] then {} else Keys(s[..|s| - 1]) + {s[|s| - 1].key}
  }

  /** How many records have key `k`. */
  function KeyCount(s: seq<Upgrade>, k: string): nat {
    if s == [] then 0 else KeyCount(s[..|s| - 1], k) + (if s[|s| - 1].key == k then 1 else 0)
  }

  /** The first record with key `k`. */
  function First(s: seq<Upgrade>, k: string): Upgrade
    requires k in Keys(s)
  {
    if k in Keys(s[..|s| - 1]) then First(s[..|s| - 1], k) else s[|s| - 1]
  }

  /** All units affected by the records with key `k`. */
  function Units(s: seq<Upgrade>, k: string): set<string> {
    if s == [] then {}
    else Units(s[..|s| - 1], k) + (if s[|s| - 1].key == k then Elems(s[|s| - 1].affectsUnits) else {})
  }

  /** The non-empty icon URLs of the records with key `k`, in input order. */
  function Icons(s: seq<Upgrade>, k: string): seq<string> {
    if s == [] then []
    else
      var u := s[|s| - 1];
      Icons(s[..|s| - 1], k) + (if u.key == k && HasIcon(u) then [u.iconUrl.value] else [])
  }

  /** The merged icon of key `k`: the first non-empty one, or else the first record's own. */
  function IconOf(s: seq<Upgrade>, k: string): Option<string>
    requires k in Keys(s)
  {
    if Icons(s, k) != [] then Some(Icons(s, k)[0]) else First(s, k).iconUrl
  }

  /** The keys are exactly the keys of some record. */
  lemma {:induction false} KeysMembers(s: seq<Upgrade>)
    ensures forall k :: k in Keys(s) <==> exists i :: 0 <= i < |s| && s[i].key == k
  {
    if s != [] {
      var p := s[..|s| - 1];
      KeysMembers(p);
      forall k ensures k in Keys(s) <==> exists i :: 0 <= i < |s| && s[i].key == k {
        if exists i :: 0 <= i < |s| && s[i].key == k {
          var i :| 0 <= i < |s| && s[i].key == k;
          if i < |p| {
            assert p[i].key == k;
          }
        }
        if k in Keys(p) {
          var i :| 0 <= i < |p| && p[i].key == k;
          assert s[i].key == k;
        }
      }
    }
  }

  /** A key is present exactly when some record carries it. */
  lemma {:induction false} KeyCountPositive(s: seq<Upgrade>, k: string)
    ensures k in Keys(s) <==> KeyCount(s, k) > 0
  {
    if s != [] {
      KeyCountPositive(s[..|s| - 1], k);
    }
  }

  /** The first record with key `k` is the record at the least index carrying `k`. */
  lemma {:induction false} FirstIsFirst(s: seq<Upgrade>, k: string)
    requires k in Keys(s)
    ensures exists i :: 0 <= i < |s| && s[i] == First(s, k) && s[i].key == k &&
              forall j :: 0 <= j < i ==> s[j].key != k
  {
    var p := s[..|s| - 1];
    if k in Keys(p) {
      FirstIsFirst(p, k);
      var i :| 0 <= i < |p| && p[i] == First(p, k) && p[i].key == k && forall j :: 0 <= j < i ==> p[j].key != k;
      assert s[i] == p[i];
      assert forall j :: 0 <= j < i ==> s[j] == p[j];
    } else {
      KeysMembers(p);
      assert forall j :: 0 <= j < |p| ==> s[j] == p[j];
    }
  }

  /** A unit is in the merged set exactly when some record with key `k` lists it. */
  lemma {:induction false} UnitsMembers(s: seq<Upgrade>, k: string)
    ensures forall x :: x in Units(s, k) <==> exists i :: 0 <= i < |s| && s[i].key == k && x in s[i].affectsUnits
  {
    if s != [] {
      var p := s[..|s| - 1];
      UnitsMembers(p, k);
      forall x ensures x in Units(s, k) <==> exists i :: 0 <= i < |s| && s[i].key == k && x in s[i].affectsUnits {
        if exists i :: 0 <= i < |s| && s[i].key == k && x in s[i].affectsUnits {
          var i :| 0 <= i < |s| && s[i].key == k && x in s[i].affectsUnits;
          if i < |p| {
            assert p[i] == s[i];
          }
        }
        if x in Units(p, k) {
          var i :| 0 <= i < |p| && p[i].key == k && x in p[i].affectsUnits;
          assert s[i] == p[i];
        }
      }
    }
  }

  /** With a single record for `k`, the units are that record's. */
  lemma {:induction false} UnitsSingle(s: seq<Upgrade>, k: string)
    requires KeyCount(s, k) == 1
    ensures k in Keys(s) && Units(s, k) == Elems(First(s, k).affectsUnits)
  {
    var p := s[..|s| - 1];
    KeyCountPositive(s, k);
    KeyCountPositive(p, k);
    if s[|s| - 1].key != k {
      UnitsSingle(p, k);
    } else {
      UnitsNone(p, k);
    }
  }

  lemma {:induction false} UnitsNone(s: seq<Upgrade>, k: string)
    requires KeyCount(s, k) == 0
    ensures Units(s, k) == {} && Icons(s, k) == []
  {
    if s != [] {
      UnitsNone(s[..|s| - 1], k);
    }
  }

  /** The merged icon, when there is a non-empty one, is that of the first record with key
      `k` whose icon is not empty. */
  lemma {:induction false} IconsFirst(s: seq<Upgrade>, k: string)
    requires Icons(s, k) != []
    ensures exists i :: 0 <= i < |s| && s[i].key == k && HasIcon(s[i]) && Icons(s, k)[0] == s[i].iconUrl.value &&
              forall j :: 0 <= j < i ==> !(s[j].key == k && HasIcon(s[j]))
  {
    var p := s[..|s| - 1];
    if Icons(p, k) != [] {
      IconsFirst(p, k);
      var i :| 0 <= i < |p| && p[i].key == k && HasIcon(p[i]) && Icons(p, k)[0] == p[i].iconUrl.value &&
               forall j :: 0 <= j < i ==> !(p[j].key == k && HasIcon(p[j]));
      assert s[i] == p[i];
      assert forall j :: 0 <= j < i ==> s[j] == p[j];
    } else {
      IconsNone(p, k);
      assert forall j :: 0 <= j < |p| ==> s[j] == p[j];
    }
  }

  /** No non-empty icon means no record with key `k` has one. */
  lemma {:induction false} IconsNone(s: seq<Upgrade>, k: string)
    requires Icons(s, k) == []
    ensures forall j :: 0 <= j < |s| ==> !(s[j].key == k && HasIcon(s[j]))
  {
    if s != [] {
      var p := s[..|s| - 1];
      IconsNone(p, k);
      assert forall j :: 0 <= j < |p| ==> s[j] == p[j];
    }
  }

  /** The merged icon is empty or absent exactly when no record with key `k` has one. */
  lemma IconOfEmpty(s: seq<Upgrade>, k: string)
    requires k in Keys(s)
    ensures HasIcon(First(s, k).(iconUrl := IconOf(s, k))) <==> Icons(s, k) != []
  {
    if Icons(s, k) == [] {
      IconsNone(s, k);
      FirstIsFirst(s, k);
    } else {
      IconsNonEmpty(s, k);
    }
  }

  /** Every listed icon is non-empty. */
  lemma {:induction false} IconsNonEmpty(s: seq<Upgrade>, k: string)
    ensures forall j :: 0 <= j < |Icons(s, k)| ==> Icons(s, k)[j] != []
  {
    if s != [] {
      IconsNonEmpty(s[..|s| - 1], k);
    }
  }

  /** The entry `aggregate_upgrades` holds for key `k` after the records `all`. */
  ghost predicate EntryOk(all: seq<Upgrade>, k: string, e: Upgrade)
    requires k in Keys(all)
  {
    e == First(all, k).(affectsUnits := e.affectsUnits, iconUrl := e.iconUrl) &&
    (KeyCount(all, k) == 1 ==> e.affectsUnits == First(all, k).affectsUnits) &&
    (KeyCount(all, k) > 1 ==> NoDup(e.affectsUnits) && Elems(e.affectsUnits) == Units(all, k)) &&
    e.iconUrl == IconOf(all, k)
  }

  /** What `aggregate_upgrades` has built from the records `all`, as the loop's invariant. */
  ghost predicate Merged(all: seq<Upgrade>, agg: map<string, Upgrade>, order: seq<string>) {
    agg.Keys == Keys(all) && Elems(order) == Keys(all) && NoDup(order) &&
    forall k :: k in agg ==> EntryOk(all, k, agg[k])
  }

  /** `aggregate_upgrades(all_upgrades)`: one entry per distinct key, equal to the first
      record with that key except that the units of all its records are merged without
      duplicates and the first non-empty icon is kept. `order` is the dictionary's key
      order, the order in which keys first appear. */
  method AggregateUpgrades(all: seq<Upgrade>) returns (agg: map<string, Upgrade>, order: seq<string>)
    ensures agg.Keys == Keys(all)
    ensures forall k :: k in agg ==>
              agg[k] == First(all, k).(affectsUnits := agg[k].affectsUnits, iconUrl := agg[k].iconUrl)
    ensures forall k :: k in agg && KeyCount(all, k) == 1 ==> agg[k].affectsUnits == First(all, k).affectsUnits
    ensures forall k :: k in agg && KeyCount(all, k) > 1 ==>
              NoDup(agg[k].affectsUnits) && Elems(agg[k].affectsUnits) == Units(all, k)
    ensures forall k :: k in agg ==> agg[k].iconUrl == IconOf(all, k)
    ensures Elems(order) == Keys(all) && NoDup(order)
  {
    agg := map[];
    order := [];
    var i := 0;
    while i < |all|
      invariant 0 <= i <= |all|
      invariant Merged(all[..i], agg, order)
    {
      var u := all[i];
      if u.key in agg {
        var e := agg[u.key];
        var units := SetToList(e.affectsUnits + u.affectsUnits);
        var icon := if !HasIcon(e) && HasIcon(u) then u.iconUrl else e.iconUrl;
        MergeStep(all, i, agg, order, units, icon);
        agg := agg[u.key := e.(affectsUnits := units, iconUrl := icon)];
      } else {
        AddStep(all, i, agg, order);
        agg := agg[u.key := u];
        order := order + [u.key];
      }
      i := i + 1;
    }
    assert all[..i] == all;
    MergedMeans(all, agg, order);
  }

  /** What the invariant says once all records are merged. */
  lemma MergedMeans(all: seq<Upgrade>, agg: map<string, Upgrade>, order: seq<string>)
    requires Merged(all, agg, order)
    ensures agg.Keys == Keys(all)
    ensures forall k :: k in agg ==>
              agg[k] == First(all, k).(affectsUnits := agg[k].affectsUnits, iconUrl := agg[k].iconUrl)
    ensures forall k :: k in agg && KeyCount(all, k) == 1 ==> agg[k].affectsUnits == First(all, k).affectsUnits
    ensures forall k :: k in agg && KeyCount(all, k) > 1 ==>
              NoDup(agg[k].affectsUnits) && Elems(agg[k].affectsUnits) == Units(all, k)
    ensures forall k :: k in agg ==> agg[k].iconUrl == IconOf(all, k)
    ensures Elems(order) == Keys(all) && NoDup(order)
  {
    forall k | k in agg ensures EntryOk(all, k, agg[k]) {
    }
  }

  /** The loop's step for a record whose key is new: it becomes the entry for that key. */
  lemma AddStep(all: seq<Upgrade>, i: nat, agg: map<string, Upgrade>, order: seq<string>)
    requires i < |all| && Merged(all[..i], agg, order) && all[i].key !in agg
    ensures Merged(all[..i + 1], agg[all[i].key := all[i]], order + [all[i].key])
  {
    AddKey(all, i, order);
    AddEntries(all, i, agg, agg[all[i].key := all[i]]);
  }

  lemma AddKey(all: seq<Upgrade>, i: nat, order: seq<string>)
    requires i < |all| && Elems(order) == Keys(all[..i]) && NoDup(order) && all[i].key !in Keys(all[..i])
    ensures Keys(all[..i + 1]) == Keys(all[..i]) + {all[i].key}
    ensures Elems(order + [all[i].key]) == Keys(all[..i + 1]) && NoDup(order + [all[i].key])
  {
    assert all[..i + 1][..i] == all[..i];
    assert Elems(order + [all[i].key]) == Elems(order) + {all[i].key};
    assert forall j :: 0 <= j < |order| ==> order[j] in Elems(order);
  }

  lemma AddEntries(all: seq<Upgrade>, i: nat, agg: map<string, Upgrade>, agg': map<string, Upgrade>)
    requires i < |all| && agg.Keys == Keys(all[..i]) && all[i].key !in agg
    requires forall k :: k in agg ==> EntryOk(all[..i], k, agg[k])
    requires agg' == agg[all[i].key := all[i]]
    ensures forall k :: k in agg' ==> k in Keys(all[..i + 1]) && EntryOk(all[..i + 1], k, agg'[k])
  {
    forall k | k in agg' ensures k in Keys(all[..i + 1]) && EntryOk(all[..i + 1], k, agg'[k]) {
      if k != all[i].key {
        OtherKey(all, i, k, agg[k]);
      } else {
        NewKey(all, i);
      }
    }
  }

  /** A record leaves the entries of the other keys as they were. */
  lemma OtherKey(all: seq<Upgrade>, i: nat, k: string, e: Upgrade)
    requires i < |all| && k != all[i].key && k in Keys(all[..i]) && EntryOk(all[..i], k, e)
    ensures k in Keys(all[..i + 1]) && EntryOk(all[..i + 1], k, e)
  {
    assert all[..i + 1][..i] == all[..i];
  }

  /** The first record with a key is that key's entry. */
  lemma NewKey(all: seq<Upgrade>, i: nat)
    requires i < |all| && all[i].key !in Keys(all[..i])
    ensures all[i].key in Keys(all[..i + 1]) && EntryOk(all[..i + 1], all[i].key, all[i])
  {
    assert all[..i + 1][..i] == all[..i];
    KeyCountPositive(all[..i], all[i].key);
    UnitsNone(all[..i], all[i].key);
  }

  /** The loop's step for a record whose key was seen before: it is merged into that
      key's entry. */
  lemma MergeStep(all: seq<Upgrade>, i: nat, agg: map<string, Upgrade>, order: seq<string>,
                  units: seq<string>, icon: Option<string>)
    requires i < |all| && Merged(all[..i], agg, order) && all[i].key in agg
    requires units == SetToList(agg[all[i].key].affectsUnits + all[i].affectsUnits)
    requires icon == if !HasIcon(agg[all[i].key]) && HasIcon(all[i]) then all[i].iconUrl else agg[all[i].key].iconUrl
    ensures Merged(all[..i + 1], agg[all[i].key := agg[all[i].key].(affectsUnits := units, iconUrl := icon)], order)
  {
    var e' := agg[all[i].key].(affectsUnits := units, iconUrl := icon);
    var agg' := agg[all[i].key := e'];
    SeenKey(all, i);
    assert agg'.Keys == agg.Keys;
    MergeEntries(all, i, agg, e', agg');
  }

  /** A key seen before adds no key. */
  lemma SeenKey(all: seq<Upgrade>, i: nat)
    requires i < |all| && all[i].key in Keys(all[..i])
    ensures Keys(all[..i + 1]) == Keys(all[..i])
  {
    assert all[..i + 1][..i] == all[..i];
  }

  lemma MergeEntries(all: seq<Upgrade>, i: nat, agg: map<string, Upgrade>, e': Upgrade,
                     agg': map<string, Upgrade>)
    requires i < |all| && agg.Keys == Keys(all[..i]) && all[i].key in agg
    requires forall k :: k in agg ==> EntryOk(all[..i], k, agg[k])
    requires var e := agg[all[i].key];
             e' == e.(affectsUnits := SetToList(e.affectsUnits + all[i].affectsUnits),
                      iconUrl := if !HasIcon(e) && HasIcon(all[i]) then all[i].iconUrl else e.iconUrl)
    requires agg' == agg[all[i].key := e']
    ensures forall k :: k in agg' ==> k in Keys(all[..i + 1]) && EntryOk(all[..i + 1], k, agg'[k])
  {
    forall k | k in agg' ensures k in Keys(all[..i + 1]) && EntryOk(all[..i + 1], k, agg'[k]) {
      if k != all[i].key {
        OtherKey(all, i, k, agg[k]);
      } else {
        MergeEntry(all, i, agg[k]);
      }
    }
  }

  /** The merged entry of the record's own key. */
  lemma MergeEntry(all: seq<Upgrade>, i: nat, e: Upgrade)
    requires i < |all| && all[i].key in Keys(all[..i]) && EntryOk(all[..i], all[i].key, e)
    ensures var u := all[i];
            all[i].key in Keys(all[..i + 1]) &&
            EntryOk(all[..i + 1], all[i].key,
                    e.(affectsUnits := SetToList(e.affectsUnits + u.affectsUnits),
                       iconUrl := if !HasIcon(e) && HasIcon(u) then u.iconUrl else e.iconUrl))
  {
    var p := all[..i];
    var u := all[i];
    var k := u.key;
    assert all[..i + 1][..i] == p;
    KeyCountPositive(p, k);
    if KeyCount(p, k) == 1 {
      UnitsSingle(p, k);
    }
    assert Elems(e.affectsUnits + u.affectsUnits) == Elems(e.affectsUnits) + Elems(u.affectsUnits);
    IconOfEmpty(p, k);
    assert HasIcon(e) <==> HasIcon(First(p, k).(iconUrl := IconOf(p, k)));
  }

  // ---------------------------------------------------------------------------------
  // _parse_field_content

  /** The characters `_parse_field_content` splits a line on: comma, bullet and middle dot. */
  const ItemSeps: set<char> := {',', '\U{2022}', '\U{B7}'}

  /** `any(sep in line for sep in [',', '•', '·'])`. */
  predicate HasItemSep(line: string) {
    ',' in line || '\U{2022}' in line || '\U{B7}' in line
  }

  /** `line.endswith(':')`. */
  predicate EndsWithColon(line: string) {
    line != [] && line[|line| - 1] == ':'
  }

  /** `[line.strip() for line in raw if line.strip()]`. */
  function StrippedLines(raw: seq<string>): seq<string> {
    if raw == [] then []
    else
      var t := Strip(raw[|raw| - 1]);
      StrippedLines(raw[..|raw| - 1]) + (if t != [] then [t] else [])
  }

  /** `[part.strip() for part in parts if part.strip() and len(part.strip()) > 2]`. */
  function KeptParts(parts: seq<string>): seq<string> {
    if parts == [] then []
    else
      var t := Strip(parts[|parts| - 1]);
      KeptParts(parts[..|parts| - 1]) + (if |t| > 2 then [t] else [])
  }

  /** What one stripped line contributes: nothing when it ends in a colon or is shorter
      than 3, its long enough separator-free parts when it holds a separator, and the
      line itself otherwise. */
  function LineItems(line: string): seq<string> {
    if EndsWithColon(line) || |line| < 3 then []
    else if HasItemSep(line) then KeptParts(Split(line, ItemSeps))
    else [line]
  }

  /** The items of the lines, line after line. */
  function ItemsOf(lines: seq<string>): seq<string> {
    if lines == [] then [] else ItemsOf(lines[..|lines| - 1]) + LineItems(lines[|lines| - 1])
  }

  /** The items `_parse_field_content(content)` returns. */
  function FieldItems(content: string): seq<string> {
    if content == [] then [] else ItemsOf(StrippedLines(Split(content, {'\n'})))
  }

  /** `_parse_field_content(content)`. */
  method ParseFieldContent(content: string) returns (items: seq<string>)
    ensures items == FieldItems(content)
    ensures content == [] ==> items == []
  {
    if content == [] {
      return [];
    }
    var lines := StrippedLines(Split(content, {'\n'}));
    items := [];
    var i := 0;
    while i < |lines|
      invariant 0 <= i <= |lines|
      invariant items == ItemsOf(lines[..i])
    {
      var line := lines[i];
      assert lines[..i + 1][..i] == lines[..i];
      if EndsWithColon(line) || |line| < 3 {
      } else if HasItemSep(line) {
        var parts := Split(line, ItemSeps);
        items := items + KeptParts(parts);
      } else {
        items := items + [line];
      }
      i := i + 1;
    }
    assert lines[..i] == lines;
  }

  /** A stripped, non-empty string of at least 3 characters without newlines or item
      separators: what every returned item is. */
  predicate CleanItem(t: string) {
    Strip(t) == t && |t| >= 3 && forall c :: c in t ==> c != '\n' && c !in ItemSeps
  }

  /** Every line kept is stripped, not empty and free of newlines. */
  lemma {:induction false} StrippedLinesClean(raw: seq<string>)
    requires forall l, c :: l in raw && c in l ==> c != '\n'
    ensures forall t :: t in StrippedLines(raw) ==> Strip(t) == t && t != [] && '\n' !in t
  {
    if raw != [] {
      var l := raw[|raw| - 1];
      assert l in raw;
      StrippedLinesClean(raw[..|raw| - 1]);
      StripIdempotent(l);
      StripChars(l);
    }
  }

  /** Every part kept is clean, when the parts hold no newline or separator. */
  lemma {:induction false} KeptPartsClean(parts: seq<string>)
    requires forall l, c :: l in parts && c in l ==> c != '\n' && c !in ItemSeps
    ensures forall t :: t in KeptParts(parts) ==> CleanItem(t)
  {
    if parts != [] {
      var l := parts[|parts| - 1];
      assert l in parts;
      KeptPartsClean(parts[..|parts| - 1]);
      StripIdempotent(l);
      StripChars(l);
    }
  }

  /** The items of clean lines are clean. */
  lemma {:induction false} ItemsOfClean(lines: seq<string>)
    requires forall t :: t in lines ==> Strip(t) == t && t != [] && '\n' !in t
    ensures forall t :: t in ItemsOf(lines) ==> CleanItem(t)
  {
    if lines != [] {
      var line := lines[|lines| - 1];
      assert line in lines;
      ItemsOfClean(lines[..|lines| - 1]);
      if !(EndsWithColon(line) || |line| < 3) && HasItemSep(line) {
        SplitChars(line, ItemSeps);
        SplitPieces(line, ItemSeps);
        KeptPartsClean(Split(line, ItemSeps));
      }
    }
  }

  /** Every item `_parse_field_content` returns is stripped, at least 3 characters long, and
      holds neither a newline nor a separator. */
  lemma FieldItemsClean(content: string)
    ensures forall t :: t in FieldItems(content) ==> CleanItem(t)
  {
    if content != [] {
      SplitPieces(content, {'\n'});
      StrippedLinesClean(Split(content, {'\n'}));
      ItemsOfClean(StrippedLines(Split(content, {'\n'})));
    }
  }

  /** Every non-empty stripped line is kept. */
  lemma {:induction false} StrippedLinesKeep(raw: seq<string>, l: string)
    requires l in raw && Strip(l) != []
    ensures Strip(l) in StrippedLines(raw)
  {
    var p := raw[..|raw| - 1];
    if l != raw[|raw| - 1] {
      assert raw == p + [raw[|raw| - 1]];
      StrippedLinesKeep(p, l);
    }
  }

  /** Every part that strips to more than 2 characters is kept. */
  lemma {:induction false} KeptPartsKeep(parts: seq<string>, q: string)
    requires q in parts && |Strip(q)| > 2
    ensures Strip(q) in KeptParts(parts)
  {
    var p := parts[..|parts| - 1];
    if q != parts[|parts| - 1] {
      assert parts == p + [parts[|parts| - 1]];
      KeptPartsKeep(p, q);
    }
  }

  /** The items of every line are among the items of all lines. */
  lemma {:induction false} ItemsOfKeep(lines: seq<string>, line: string)
    requires line in lines
    ensures forall t :: t in LineItems(line) ==> t in ItemsOf(lines)
  {
    var p := lines[..|lines| - 1];
    if line != lines[|lines| - 1] {
      assert lines == p + [lines[|lines| - 1]];
      ItemsOfKeep(p, line);
    }
  }

  /** Nothing is lost: a line that is at least 3 characters long after stripping and does
      not end in a colon is returned whole when it has no separator, and otherwise each of
      its parts that strips to more than 2 characters is returned. */
  lemma FieldItemsComplete(content: string, l: string)
    requires content != [] && l in Split(content, {'\n'})
    requires |Strip(l)| >= 3 && !EndsWithColon(Strip(l))
    ensures !HasItemSep(Strip(l)) ==> Strip(l) in FieldItems(content)
    ensures HasItemSep(Strip(l)) ==>
              forall q :: q in Split(Strip(l), ItemSeps) && |Strip(q)| > 2 ==> Strip(q) in FieldItems(content)
  {
    var lines := StrippedLines(Split(content, {'\n'}));
    StrippedLinesKeep(Split(content, {'\n'}), l);
    ItemsOfKeep(lines, Strip(l));
    if HasItemSep(Strip(l)) {
      forall q | q in Split(Strip(l), ItemSeps) && |Strip(q)| > 2 ensures Strip(q) in FieldItems(content) {
        KeptPartsKeep(Split(Strip(l), ItemSeps), q);
      }
    }
  }

  // ---------------------------------------------------------------------------------
  // _find_matching_icon

  predicate IsDigit(c: char) {
    '0' <= c <= '9'
  }

  /** The longest run of digits `s` starts with. */
  function DigitRun(s: string): (r: string)
    ensures r <= s && (|r| < |s| ==> !IsDigit(s[|r|]))
  {
    if s != [] && IsDigit(s[0]) then [s[0]] + DigitRun(s[1..]) else []
  }

  /** The match of `level\s+(\d+)` at the start of `s`: "level", at least one whitespace
      character, then the digits that follow. */
  function LevelAt(s: string): (r: Option<string>)
    ensures r.Some? ==> r.value != []
  {
    if |s| >= 5 && s[..5] == "level" then
      var t := TrimStart(s[5..]);
      if LeadingSpace(s[5..]) > 0 && DigitRun(t) != [] then Some(DigitRun(t)) else None
    else None
  }

  /** `re.search(r'level\s+(\d+)', s).group(1)`: the leftmost match, if any. */
  function FindLevel(s: string): Option<string> {
    if LevelAt(s).Some? || s == [] then LevelAt(s) else FindLevel(s[1..])
  }

  /** A match the search reports is the pattern's match at the leftmost position where
      it matches. */
  lemma {:induction false} FindLevelLeftmost(s: string)
    requires FindLevel(s).Some?
    ensures exists i :: 0 <= i <= |s| && LevelAt(s[i..]) == FindLevel(s) &&
              forall j :: 0 <= j < i ==> LevelAt(s[j..]).None?
  {
    if LevelAt(s).Some? {
      assert s[0..] == s;
    } else {
      var t := s[1..];
      FindLevelLeftmost(t);
      var i :| 0 <= i <= |t| && LevelAt(t[i..]) == FindLevel(s) &&
               forall j :: 0 <= j < i ==> LevelAt(t[j..]).None?;
      assert s[i + 1..] == t[i..];
      forall j | 0 <= j < i + 1 ensures LevelAt(s[j..]).None? {
        if j == 0 {
          assert s[0..] == s;
        } else {
          assert s[j..] == t[j - 1..];
        }
      }
    }
  }

  /** The search reports nothing only when the pattern matches at no position. */
  lemma {:induction false} FindLevelNone(s: string)
    requires FindLevel(s).None?
    ensures forall i :: 0 <= i <= |s| ==> LevelAt(s[i..]).None?
  {
    if s != [] {
      var t := s[1..];
      FindLevelNone(t);
      forall i | 0 <= i <= |s| ensures LevelAt(s[i..]).None? {
        if i == 0 {
          assert s[0..] == s;
        } else {
          assert s[i..] == t[i - 1..];
        }
      }
    } else {
      assert s[0..] == s;
    }
  }

  /** The words of an upgrade name: `name.lower().replace(' ', '_').split('_')`. */
  function Words(name: string): seq<string> {
    Split(Replace(Lower(name), ' ', '_'), {'_'})
  }

  /** A word scores when it is not "level", has more than 2 characters and occurs in the
      icon name. */
  predicate WordHit(word: string, iconName: string) {
    word != "level" && |word| > 2 && Contains(iconName, word)
  }

  /** How many of the words score. */
  function WordHits(words: seq<string>, iconName: string): nat {
    if words == [] then 0
    else WordHits(words[..|words| - 1], iconName) + (if WordHit(words[|words| - 1], iconName) then 1 else 0)
  }

  /** The words score at all exactly when one of them scores, and never more than there
      are words. */
  lemma {:induction false} WordHitsSpec(words: seq<string>, iconName: string)
    ensures WordHits(words, iconName) > 0 <==> exists i :: 0 <= i < |words| && WordHit(words[i], iconName)
    ensures WordHits(words, iconName) <= |words|
  {
    if words != [] {
      var p := words[..|words| - 1];
      WordHitsSpec(p, iconName);
      if exists i :: 0 <= i < |words| && WordHit(words[i], iconName) {
        var i :| 0 <= i < |words| && WordHit(words[i], iconName);
        if i < |p| {
          assert p[i] == words[i];
        }
      }
      if WordHits(p, iconName) > 0 {
        var i :| 0 <= i < |p| && WordHit(p[i], iconName);
        assert words[i] == p[i];
      }
    }
  }

  /** The bonuses for words that usually name the same upgrade: 2 each for "glial",
      "tunneling" (matched by "tunneling" or "claw" in the icon), "weapons", "armor",
      "carapace" and "attacks". */
  function Bonus(lname: string, iconName: string): nat {
    (if Contains(lname, "glial") && Contains(iconName, "glial") then 2 else 0) +
    (if Contains(lname, "tunneling") && (Contains(iconName, "tunneling") || Contains(iconName, "claw")) then 2 else 0) +
    (if Contains(lname, "weapons") && Contains(iconName, "weapons") then 2 else 0) +
    (if Contains(lname, "armor") && Contains(iconName, "armor") then 2 else 0) +
    (if Contains(lname, "carapace") && Contains(iconName, "carapace") then 2 else 0) +
    (if Contains(lname, "attacks") && Contains(iconName, "attacks") then 2 else 0)
  }

  /** The name an icon file is matched by: its root, lower-cased. */
  function IconName(file: string): string {
    Lower(StripExtension(file))
  }

  /** The 5-point bonus when the name's level number occurs in the icon name. */
  function LevelBonus(level: Option<string>, iconName: string): nat {
    if level.Some? && level.value != [] && Contains(iconName, level.value) then 5 else 0
  }

  /** The score of an icon name, given the lower-cased upgrade name, its words and its
      level number: one point per scoring word, then the bonuses. */
  function ScoreWith(lname: string, words: seq<string>, level: Option<string>, iconName: string): nat {
    WordHits(words, iconName) + LevelBonus(level, iconName) + Bonus(lname, iconName)
  }

  /** The score of an icon file for an upgrade name. */
  function IconScore(name: string, file: string): nat {
    var lname := Lower(name);
    ScoreWith(lname, Words(name), FindLevel(lname), IconName(file))
  }

  /** A "level N" in the name whose number occurs in the icon name is worth 5 points. */
  lemma LevelScore(name: string, file: string)
    requires FindLevel(Lower(name)).Some? && Contains(IconName(file), FindLevel(Lower(name)).value)
    ensures IconScore(name, file) >= 5
  {
    FindLevelLeftmost(Lower(name));
  }

  /** The score of one icon, given the lower-cased name, its words and its level number:
      the inner loop over the words, then the bonuses. */
  method ScoreIcon(lname: string, words: seq<string>, level: Option<string>, file: string)
    returns (score: nat)
    ensures score == ScoreWith(lname, words, level, IconName(file))
  {
    var iconName := Lower(StripExtension(file));
    score := 0;
    var w := 0;
    while w < |words|
      invariant 0 <= w <= |words|
      invariant score == WordHits(words[..w], iconName)
    {
      assert words[..w + 1][..w] == words[..w];
      if words[w] != "level" && |words[w]| > 2 && Contains(iconName, words[w]) {
        score := score + 1;
      }
      w := w + 1;
    }
    assert words[..w] == words;
    if level.Some? && level.value != [] && Contains(iconName, level.value) {
      score := score + 5;
    }
    score := score + Bonus(lname, iconName);
  }

  /** The scoring of icon files for one upgrade name, as a function value. */
  function ScoreOf(name: string): string -> nat {
    file => IconScore(name, file)
  }

  /** Each icon's score under `score`, paired with its URL, in input order. */
  function Scored(score: string -> nat, icons: seq<(string, string)>): (r: seq<(nat, string)>)
    ensures |r| == |icons|
  {
    if icons == [] then []
    else
      var n := |icons| - 1;
      Scored(score, icons[..n]) + [(score(icons[n].0), icons[n].1)]
  }

  /** The pair for each icon is its score and its URL. */
  lemma {:induction false} ScoredAt(score: string -> nat, icons: seq<(string, string)>, j: nat)
    requires j < |icons|
    ensures Scored(score, icons)[j] == (score(icons[j].0), icons[j].1)
  {
    var n := |icons| - 1;
    if j < n {
      ScoredAt(score, icons[..n], j);
    }
  }

  /** The best score the search has seen after the pairs `s`: 0 to begin with. */
  function BestScore(s: seq<(nat, string)>): nat {
    if s == [] then 0
    else
      var n := |s| - 1;
      if s[n].0 > BestScore(s[..n]) then s[n].0 else BestScore(s[..n])
  }

  /** The URL the search holds after the pairs `s`: a pair replaces the one held only when
      it scores strictly more than every pair before it. */
  function BestUrl(s: seq<(nat, string)>): Option<string> {
    if s == [] then None
    else
      var n := |s| - 1;
      if s[n].0 > BestScore(s[..n]) then Some(s[n].1) else BestUrl(s[..n])
  }

  /** The best score bounds every score, and is reached by some pair when positive. */
  lemma {:induction false} BestScoreBound(s: seq<(nat, string)>)
    ensures forall j :: 0 <= j < |s| ==> s[j].0 <= BestScore(s)
    ensures BestScore(s) > 0 ==> exists j :: 0 <= j < |s| && s[j].0 == BestScore(s)
  {
    if s != [] {
      var p := s[..|s| - 1];
      BestScoreBound(p);
      assert forall j :: 0 <= j < |p| ==> s[j] == p[j];
    }
  }

  /** The search keeps the URL of the first pair with the highest score, provided that
      score is positive, and nothing when no pair scores. */
  lemma {:induction false} BestUrlSpec(s: seq<(nat, string)>)
    ensures BestUrl(s).None? <==> forall j :: 0 <= j < |s| ==> s[j].0 == 0
    ensures BestUrl(s).Some? ==>
              exists i :: 0 <= i < |s| && BestUrl(s).value == s[i].1 && s[i].0 == BestScore(s) > 0 &&
                (forall j :: 0 <= j < |s| ==> s[j].0 <= s[i].0) &&
                (forall j :: 0 <= j < i ==> s[j].0 < s[i].0)
  {
    BestScoreBound(s);
    if s != [] {
      var n := |s| - 1;
      var p := s[..n];
      BestUrlSpec(p);
      BestScoreBound(p);
      assert forall j :: 0 <= j < n ==> s[j] == p[j];
    }
  }

  /** `_find_matching_icon(upgrade_name, all_icons)`: the URL the search holds after
      scoring every icon. */
  method FindMatchingIcon(name: string, icons: seq<(string, string)>) returns (best: Option<string>)
    ensures best == BestUrl(Scored(ScoreOf(name), icons))
  {
    var lname := Lower(name);
    var words := Words(name);
    best := None;
    var bestScore := 0;
    var level := FindLevel(lname);
    var i := 0;
    while i < |icons|
      invariant 0 <= i <= |icons|
      invariant bestScore == BestScore(Scored(ScoreOf(name), icons[..i]))
      invariant best == BestUrl(Scored(ScoreOf(name), icons[..i]))
    {
      var score := ScoreIcon(lname, words, level, icons[i].0);
      assert icons[..i + 1][..i] == icons[..i];
      ghost var s := Scored(ScoreOf(name), icons[..i + 1]);
      assert s[..i] == Scored(ScoreOf(name), icons[..i]) && s[i] == (score, icons[i].1);
      if score > bestScore {
        bestScore := score;
        best := Some(icons[i].1);
      }
      i := i + 1;
    }
    assert icons[..i] == icons;
  }
}
