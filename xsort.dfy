/** Ordering a row's items by position.

    Every repacking operation sorts the row's items with `sort((a, b) => a.x - b.x)`.
    JavaScript's sort is stable, and the filtered list it sorts is in array order, so items
    with equal `x` keep their array order. The chart's array holds references in increasing
    order (new items are appended and removal keeps the order), so the result is the list
    ordered by the key `(x, reference)`; `SortByXOrdered` and `KeyOrderedUnique` prove it. */
module XSort {
  import opened Rects

  /** Stable insertion: `r` goes before the first element whose `x` is not below its own. */
  function InsertByX(recs: seq<Rect>, r: nat, s: seq<nat>): (t: seq<nat>)
    requires r < |recs| && InBounds(recs, s)
    ensures InBounds(recs, t) && |t| == |s| + 1
  {
    if s == [] then [r]
    else if recs[r].x <= recs[s[0]].x then [r] + s
    else
      assert s == [s[0]] + s[1..];
      [s[0]] + InsertByX(recs, r, s[1..])
  }

  /** The stable sort of the items `s` by `x`. */
  function SortByX(recs: seq<Rect>, s: seq<nat>): (t: seq<nat>)
    requires InBounds(recs, s)
    ensures InBounds(recs, t) && |t| == |s|
  {
    if s == [] then []
    else
      assert s == [s[0]] + s[1..];
      InsertByX(recs, s[0], SortByX(recs, s[1..]))
  }

  /** Insertion adds `r` and keeps every other element. */
  lemma {:induction false} InsertByXPerm(recs: seq<Rect>, r: nat, s: seq<nat>)
    requires r < |recs| && InBounds(recs, s)
    ensures multiset(InsertByX(recs, r, s)) == multiset(s) + multiset{r}
  {
    if s != [] && recs[r].x > recs[s[0]].x {
      InsertByXPerm(recs, r, s[1..]);
      assert s == [s[0]] + s[1..];
    }
  }

  /** The sort is a permutation of its input. */
  lemma {:induction false} SortByXPerm(recs: seq<Rect>, s: seq<nat>)
    requires InBounds(recs, s)
    ensures multiset(SortByX(recs, s)) == multiset(s)
  {
    if s != [] {
      SortByXPerm(recs, s[1..]);
      InsertByXPerm(recs, s[0], SortByX(recs, s[1..]));
      assert s == [s[0]] + s[1..];
    }
  }

  /** The sort holds exactly the items it was given. */
  lemma SortByXMembers(recs: seq<Rect>, s: seq<nat>)
    requires InBounds(recs, s)
    ensures forall k :: k in SortByX(recs, s) <==> k in s
  {
    var t := SortByX(recs, s);
    SortByXPerm(recs, s);
    forall k ensures k in t <==> k in s {
      assert k in t <==> k in multiset(t);
      assert k in s <==> k in multiset(s);
    }
  }

  /** `a` comes before `b`: smaller `x`, or equal `x` and the older reference. */
  predicate KeyBefore(recs: seq<Rect>, a: nat, b: nat)
    requires a < |recs| && b < |recs|
  {
    recs[a].x < recs[b].x || (recs[a].x == recs[b].x && a < b)
  }

  predicate KeyOrdered(recs: seq<Rect>, s: seq<nat>)
    requires InBounds(recs, s)
  {
    forall i, j :: 0 <= i < j < |s| ==> KeyBefore(recs, s[i], s[j])
  }

  lemma {:induction false} InsertKeyOrdered(recs: seq<Rect>, r: nat, s: seq<nat>)
    requires r < |recs| && InBounds(recs, s) && KeyOrdered(recs, s)
    requires forall k :: k in s ==> r < k
    ensures KeyOrdered(recs, InsertByX(recs, r, s))
  {
    if s == [] {
    } else if recs[r].x <= recs[s[0]].x {
      FrontKeyOrdered(recs, r, s);
    } else {
      var u := InsertByX(recs, r, s[1..]);
      forall k | k in s[1..] ensures r < k {
        assert k in s;
      }
      assert KeyOrdered(recs, s[1..]) by {
        forall i, j | 0 <= i < j < |s[1..]| ensures KeyBefore(recs, s[1..][i], s[1..][j]) {
          assert s[1..][i] == s[i + 1] && s[1..][j] == s[j + 1];
        }
      }
      InsertKeyOrdered(recs, r, s[1..]);
      HeadBeforeInserted(recs, r, s);
      var t := [s[0]] + u;
      forall i, j | 0 <= i < j < |t| ensures KeyBefore(recs, t[i], t[j]) {
        if i == 0 {
          assert t[j] == u[j - 1] && u[j - 1] in u;
        } else {
          assert t[i] == u[i - 1] && t[j] == u[j - 1];
        }
      }
    }
  }

  /** An item no later than the head of a key-ordered list, and older than all of its
      items, can go in front. */
  lemma FrontKeyOrdered(recs: seq<Rect>, r: nat, s: seq<nat>)
    requires r < |recs| && InBounds(recs, s) && KeyOrdered(recs, s) && s != []
    requires forall k :: k in s ==> r < k
    requires recs[r].x <= recs[s[0]].x
    ensures KeyOrdered(recs, [r] + s)
  {
    var t := [r] + s;
    forall i, j | 0 <= i < j < |t| ensures KeyBefore(recs, t[i], t[j]) {
      if i == 0 {
        assert t[j] == s[j - 1] && s[j - 1] in s;
        if j > 1 {
          assert KeyBefore(recs, s[0], s[j - 1]);
        }
      } else {
        assert t[i] == s[i - 1] && t[j] == s[j - 1];
      }
    }
  }

  /** When the inserted item goes after the head, the head stays before every item of the
      rest with the item inserted. */
  lemma HeadBeforeInserted(recs: seq<Rect>, r: nat, s: seq<nat>)
    requires r < |recs| && InBounds(recs, s) && KeyOrdered(recs, s) && s != []
    requires recs[r].x > recs[s[0]].x
    ensures forall k :: k in InsertByX(recs, r, s[1..]) ==> k < |recs| && KeyBefore(recs, s[0], k)
  {
    var u := InsertByX(recs, r, s[1..]);
    InsertByXPerm(recs, r, s[1..]);
    forall k | k in u ensures k < |recs| && KeyBefore(recs, s[0], k) {
      assert k in multiset(u);
      assert k == r || k in multiset(s[1..]);
      if k != r {
        assert k in s[1..];
        var m :| 0 <= m < |s[1..]| && s[1..][m] == k;
        assert s[m + 1] == k;
      }
    }
  }

  /** Sorting a list of references in increasing order gives the `(x, reference)` order. */
  lemma {:induction false} SortByXOrdered(recs: seq<Rect>, s: seq<nat>)
    requires InBounds(recs, s) && Increasing(s)
    ensures KeyOrdered(recs, SortByX(recs, s))
  {
    if s != [] {
      assert Increasing(s[1..]) by {
        forall i, j | 0 <= i < j < |s[1..]| ensures s[1..][i] < s[1..][j] {
          assert s[1..][i] == s[i + 1] && s[1..][j] == s[j + 1];
        }
      }
      SortByXOrdered(recs, s[1..]);
      var t := SortByX(recs, s[1..]);
      SortByXPerm(recs, s[1..]);
      forall k | k in t ensures s[0] < k {
        assert k in multiset(t);
        assert k in multiset(s[1..]);
        var m :| 0 <= m < |s[1..]| && s[1..][m] == k;
        assert s[m + 1] == k;
      }
      InsertKeyOrdered(recs, s[0], t);
    }
  }

  /** There is only one `(x, reference)`-ordered arrangement of a collection of items. */
  lemma {:induction false} KeyOrderedUnique(recs: seq<Rect>, a: seq<nat>, b: seq<nat>)
    requires InBounds(recs, a) && InBounds(recs, b)
    requires KeyOrdered(recs, a) && KeyOrdered(recs, b) && multiset(a) == multiset(b)
    ensures a == b
  {
    assert |a| == |multiset(a)| == |multiset(b)| == |b|;
    if a != [] {
      SameHead(recs, a, b);
      TailMultiset(a, b);
      KeyOrderedTail(recs, a);
      KeyOrderedTail(recs, b);
      KeyOrderedUnique(recs, a[1..], b[1..]);
      assert a == [a[0]] + a[1..] && b == [b[0]] + b[1..];
    }
  }

  lemma SameHead(recs: seq<Rect>, a: seq<nat>, b: seq<nat>)
    requires InBounds(recs, a) && InBounds(recs, b) && |a| > 0 && |b| > 0
    requires KeyOrdered(recs, a) && KeyOrdered(recs, b) && multiset(a) == multiset(b)
    ensures a[0] == b[0]
  {
    assert b[0] in multiset(a) && a[0] in multiset(b);
    var i :| 0 <= i < |a| && a[i] == b[0];
    var j :| 0 <= j < |b| && b[j] == a[0];
    HeadFirst(recs, a, i);
    HeadFirst(recs, b, j);
  }

  /** The head of an ordered arrangement comes before each of its other items. */
  lemma HeadFirst(recs: seq<Rect>, a: seq<nat>, k: nat)
    requires InBounds(recs, a) && KeyOrdered(recs, a) && k < |a|
    ensures k == 0 || KeyBefore(recs, a[0], a[k])
  {
  }

  lemma TailMultiset(a: seq<nat>, b: seq<nat>)
    requires |a| > 0 && |b| > 0 && a[0] == b[0] && multiset(a) == multiset(b)
    ensures multiset(a[1..]) == multiset(b[1..])
  {
    assert a == [a[0]] + a[1..] && b == [b[0]] + b[1..];
    assert multiset(a[1..]) == multiset(a) - multiset{a[0]};
    assert multiset(b[1..]) == multiset(b) - multiset{a[0]};
  }

  lemma KeyOrderedTail(recs: seq<Rect>, a: seq<nat>)
    requires InBounds(recs, a) && |a| > 0 && KeyOrdered(recs, a)
    ensures KeyOrdered(recs, a[1..])
  {
    forall i, j | 0 <= i < j < |a[1..]| ensures KeyBefore(recs, a[1..][i], a[1..][j]) {
      assert a[1..][i] == a[i + 1] && a[1..][j] == a[j + 1];
    }
  }

  /** A `(x, reference)`-ordered arrangement of the items is what the stable sort returns. */
  lemma SortByXIsKeyOrder(recs: seq<Rect>, s: seq<nat>, t: seq<nat>)
    requires InBounds(recs, s) && InBounds(recs, t) && Increasing(s)
    requires KeyOrdered(recs, t) && multiset(t) == multiset(s)
    ensures SortByX(recs, s) == t
  {
    SortByXOrdered(recs, s);
    SortByXPerm(recs, s);
    KeyOrderedUnique(recs, SortByX(recs, s), t);
  }

  /** The sort reads only the `x` of the items it orders. */
  lemma {:induction false} SortByXSameX(recs: seq<Rect>, recs': seq<Rect>, s: seq<nat>)
    requires InBounds(recs, s) && InBounds(recs', s)
    requires forall i :: 0 <= i < |s| ==> recs[s[i]].x == recs'[s[i]].x
    ensures SortByX(recs, s) == SortByX(recs', s)
  {
    if s != [] {
      SortByXSameX(recs, recs', s[1..]);
      var t := SortByX(recs, s[1..]);
      SortByXMembers(recs, s[1..]);
      forall k | k in t ensures recs[k].x == recs'[k].x {
        var m :| 0 <= m < |s[1..]| && s[1..][m] == k;
        assert s[m + 1] == k;
      }
      InsertSameX(recs, recs', s[0], t);
    }
  }

  lemma {:induction false} InsertSameX(recs: seq<Rect>, recs': seq<Rect>, r: nat, t: seq<nat>)
    requires r < |recs| && r < |recs'| && InBounds(recs, t) && InBounds(recs', t)
    requires recs[r].x == recs'[r].x && forall k :: k in t ==> recs[k].x == recs'[k].x
    ensures InsertByX(recs, r, t) == InsertByX(recs', r, t)
  {
    if t != [] {
      assert t[0] in t;
      InsertSameX(recs, recs', r, t[1..]);
    }
  }
}
