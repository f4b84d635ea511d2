/** `ht_sort`: the items are sorted by key or by value with the `compar`
    order and the buckets are rebuilt. */
module HashSorting {
  import opened Base
  import opened Util
  import opened Sorting
  import opened HashTables
  import opened HashUpdates

  // compar, ht_sort

  function Sign(x: int): (r: int)
    ensures r == -1 || r == 0 || r == 1
    ensures (r < 0 <==> x < 0) && (r > 0 <==> x > 0)
  {
    if x > 0 then 1 else if x < 0 then -1 else 0
  }

  /** `strcmp`'s sign: byte-wise lexicographic order, where a string that
      ends first (meets its NUL) is the smaller. */
  function StrCmp(a: string, b: string): (r: int)
    ensures r == -1 || r == 0 || r == 1
    ensures r == 0 <==> a == b
  {
    if a == [] && b == [] then 0
    else if a == [] then -1
    else if b == [] then 1
    else if a[0] < b[0] then -1
    else if a[0] > b[0] then 1
    else
      var r := StrCmp(a[1..], b[1..]);
      assert r == 0 <==> a == b by {
        assert a == [a[0]] + a[1..] && b == [b[0]] + b[1..];
      }
      r
  }

  lemma {:induction false} StrCmpFlip(a: string, b: string)
    ensures StrCmp(b, a) == -StrCmp(a, b)
  {
    if a != [] && b != [] && a[0] == b[0] {
      StrCmpFlip(a[1..], b[1..]);
    }
  }

  lemma {:induction false} StrCmpTransitive(a: string, b: string, c: string)
    requires StrCmp(a, b) <= 0 && StrCmp(b, c) <= 0
    ensures StrCmp(a, c) <= 0
  {
    if a != [] && b != [] && c != [] && a[0] == b[0] && b[0] == c[0] {
      StrCmpTransitive(a[1..], b[1..], c[1..]);
    }
  }

  /** The key comparison of `compar`: numeric for integer keys, `strcmp` for
      string keys. A table holds one kind of key; mixed pairs are ordered
      integers first only so that the relation is total. */
  function KeyCmp(a: Key, b: Key): (r: int)
    ensures r == -1 || r == 0 || r == 1
    ensures r == 0 <==> a == b
  {
    match (a, b)
    case (IntKey(x), IntKey(y)) => Sign(x - y)
    case (StrKey(x), StrKey(y)) => StrCmp(x, y)
    case (IntKey(_), StrKey(_)) => -1
    case (StrKey(_), IntKey(_)) => 1
  }

  lemma KeyCmpFlip(a: Key, b: Key)
    ensures KeyCmp(b, a) == -KeyCmp(a, b)
  {
    if a.StrKey? && b.StrKey? {
      StrCmpFlip(a.s, b.s);
    }
  }

  lemma KeyCmpTransitive(a: Key, b: Key, c: Key)
    requires KeyCmp(a, b) <= 0 && KeyCmp(b, c) <= 0
    ensures KeyCmp(a, c) <= 0
  {
    if a.StrKey? && b.StrKey? && c.StrKey? {
      StrCmpTransitive(a.s, b.s, c.s);
    }
  }

  /** `compar`: dead items after live ones; live items by value or by key,
      times `dir` (1 ascending, -1 descending). */
  function Compar(a: Item, b: Item, byKey: bool, dir: int): int
  {
    if !a.usable then (if b.usable then 1 else 0)
    else if !b.usable then -1
    else if !byKey then dir * Sign(a.value - b.value)
    else dir * KeyCmp(a.key, b.key)
  }

  function Direction(ascending: bool): int
  {
    if ascending then 1 else -1
  }

  /** The order `qsort` is asked to produce: `a` may precede `b`. */
  function Order(byKey: bool, ascending: bool): (Item, Item) -> bool
  {
    (a: Item, b: Item) => Compar(a, b, byKey, Direction(ascending)) <= 0
  }

  lemma ComparFlip(a: Item, b: Item, byKey: bool, dir: int)
    requires dir == 1 || dir == -1
    ensures Compar(b, a, byKey, dir) == -Compar(a, b, byKey, dir)
  {
    KeyCmpFlip(a.key, b.key);
    assert Sign(b.value - a.value) == -Sign(a.value - b.value);
  }

  lemma ComparTransitive(a: Item, b: Item, c: Item, byKey: bool, dir: int)
    requires dir == 1 || dir == -1
    requires Compar(a, b, byKey, dir) <= 0 && Compar(b, c, byKey, dir) <= 0
    ensures Compar(a, c, byKey, dir) <= 0
  {
    if a.usable && b.usable && c.usable && byKey {
      if dir == 1 {
        KeyCmpTransitive(a.key, b.key, c.key);
      } else {
        KeyCmpFlip(a.key, b.key);
        KeyCmpFlip(b.key, c.key);
        KeyCmpFlip(a.key, c.key);
        KeyCmpTransitive(c.key, b.key, a.key);
      }
    }
  }

  /** `compar` is a total preorder, as `qsort` requires. */
  lemma OrderIsPreorder(byKey: bool, ascending: bool)
    ensures Total(Order(byKey, ascending)) && Transitive(Order(byKey, ascending))
  {
    var le, dir := Order(byKey, ascending), Direction(ascending);
    forall a: Item, b: Item
      ensures le(a, b) || le(b, a)
    {
      ComparFlip(a, b, byKey, dir);
    }
    forall a: Item, b: Item, c: Item | le(a, b) && le(b, c)
      ensures le(a, c)
    {
      ComparTransitive(a, b, c, byKey, dir);
    }
  }

  /** The live items, in order. */
  function Live(items: seq<Item>): (r: seq<Item>)
    ensures |r| == CountUsable(items)
    ensures forall i :: 0 <= i < |r| ==> r[i].usable
  {
    if items == [] then []
    else
      var last := items[|items| - 1];
      Live(items[..|items| - 1]) + (if last.usable then [last] else [])
  }

  lemma {:induction false} LiveCount(items: seq<Item>, x: Item)
    ensures multiset(Live(items))[x] == if x.usable then multiset(items)[x] else 0
  {
    if items != [] {
      var p, y := items[..|items| - 1], items[|items| - 1];
      assert items == p + [y];
      LiveCount(p, x);
    }
  }

  /** No dead item precedes a live one. */
  predicate LiveBeforeDead(s: seq<Item>)
  {
    forall i, j :: 0 <= i < j < |s| && s[j].usable ==> s[i].usable
  }

  /** A sequence where no dead item precedes a live one starts with all its
      live items. */
  lemma {:induction false} LivePrefix(s: seq<Item>)
    requires LiveBeforeDead(s)
    ensures Live(s) == s[..|Live(s)|]
  {
    if s == [] {
    } else if s[|s| - 1].usable {
      LiveLast(s);
    } else {
      var p := s[..|s| - 1];
      LiveBeforeDeadPrefix(s);
      LivePrefix(p);
      DeadLast(s);
    }
  }

  lemma LiveBeforeDeadPrefix(s: seq<Item>)
    requires LiveBeforeDead(s) && s != []
    ensures LiveBeforeDead(s[..|s| - 1])
  {
    var p := s[..|s| - 1];
    forall i, j | 0 <= i < j < |p| && p[j].usable
      ensures p[i].usable
    {
      assert s[i] == p[i] && s[j] == p[j];
    }
  }

  /** When the last item is live, every item is. */
  lemma LiveLast(s: seq<Item>)
    requires LiveBeforeDead(s) && s != [] && s[|s| - 1].usable
    ensures Live(s) == s
  {
    assert forall i :: 0 <= i < |s| ==> s[i].usable by {
      forall i | 0 <= i < |s|
        ensures s[i].usable
      {
        if i < |s| - 1 {
          assert s[|s| - 1].usable;
        }
      }
    }
    AllLive(s);
  }

  lemma DeadLast(s: seq<Item>)
    requires s != [] && !s[|s| - 1].usable
    requires var p := s[..|s| - 1]; Live(p) == p[..|Live(p)|]
    ensures Live(s) == s[..|Live(s)|]
  {
    var p := s[..|s| - 1];
    assert Live(s) == Live(p);
    assert p[..|Live(p)|] == s[..|Live(p)|];
  }

  lemma {:induction false} AllLive(s: seq<Item>)
    requires forall i :: 0 <= i < |s| ==> s[i].usable
    ensures Live(s) == s
  {
    if s != [] {
      var p := s[..|s| - 1];
      AllLive(p);
      assert s == p + [s[|s| - 1]];
    }
  }

  /** An item occurring twice is counted at least twice. */
  lemma TwoCopies(s: seq<Item>, i: int, j: int)
    requires 0 <= i < j < |s| && s[i] == s[j]
    ensures multiset(s)[s[i]] >= 2
  {
    assert s == s[..j] + s[j..];
    assert s[i] in s[..j];
    assert s[j..][0] == s[j];
  }

  /** With distinct keys, no item occurs twice. */
  lemma {:induction false} OneCopy(s: seq<Item>, i: int)
    requires forall a, b :: 0 <= a < b < |s| ==> s[a].key != s[b].key
    requires 0 <= i < |s|
    ensures multiset(s)[s[i]] == 1
  {
    var p, y := s[..|s| - 1], s[|s| - 1];
    assert s == p + [y];
    if i < |s| - 1 {
      assert p[i] == s[i];
      OneCopy(p, i);
      assert y != s[i];
    }
  }

  /** A rearrangement of items with distinct keys has distinct keys. */
  lemma PermDistinct(a: seq<Item>, b: seq<Item>)
    requires multiset(a) == multiset(b)
    requires forall i, j :: 0 <= i < j < |b| ==> b[i].key != b[j].key
    ensures forall i, j :: 0 <= i < j < |a| ==> a[i].key != a[j].key
  {
    forall i, j | 0 <= i < j < |a|
      ensures a[i].key != a[j].key
    {
      assert a[i] in multiset(b) && a[j] in multiset(b);
      var p :| 0 <= p < |b| && b[p] == a[i];
      var q :| 0 <= q < |b| && b[q] == a[j];
      if a[i].key == a[j].key {
        TwoCopies(a, i, j);
        OneCopy(b, p);
        assert false;
      }
    }
  }

  /** The live items of a table have pairwise distinct keys. */
  lemma {:induction false} LiveDistinct(items: seq<Item>)
    requires LiveKeysDistinct(items)
    ensures forall i, j :: 0 <= i < j < |Live(items)| ==> Live(items)[i].key != Live(items)[j].key
  {
    if items != [] {
      var last := |items| - 1;
      var p, y := items[..last], items[last];
      DistinctPrefix(items, last);
      LiveDistinct(p);
      if y.usable {
        assert items == p + [y];
        LastKeyFresh(p, y);
        var l := Live(p);
        var r := l + [y];
        assert Live(items) == r;
        forall i, j | 0 <= i < j < |r|
          ensures r[i].key != r[j].key
        {
          assert r[i] == l[i];
          if j < |l| {
            assert r[j] == l[j];
          } else {
            assert r[j] == y;
          }
        }
      } else {
        assert Live(items) == Live(p);
      }
    }
  }

  /** A live last item's key differs from every earlier live key. */
  lemma LastKeyFresh(p: seq<Item>, y: Item)
    requires LiveKeysDistinct(p + [y]) && y.usable
    ensures forall i :: 0 <= i < |Live(p)| ==> Live(p)[i].key != y.key
  {
    var items := p + [y];
    var l := Live(p);
    forall i | 0 <= i < |l|
      ensures l[i].key != y.key
    {
      LiveCount(p, l[i]);
      assert l[i] in multiset(l);
      var m :| 0 <= m < |p| && p[m] == l[i];
      assert items[m] == p[m] && items[|p|] == y;
    }
  }

  /** Two item sequences with distinct live keys and the same live items
      describe the same map. */
  lemma SameLiveSameContents(a: seq<Item>, b: seq<Item>)
    requires LiveKeysDistinct(a) && LiveKeysDistinct(b)
    requires forall x: Item :: x.usable ==> (x in a <==> x in b)
    ensures ToMap(Entries(a)) == ToMap(Entries(b))
  {
    var ma, mb := ToMap(Entries(a)), ToMap(Entries(b));
    forall k | k in ma
      ensures k in mb && mb[k] == ma[k]
    {
      ContentsHasLive(a, k);
      var i :| 0 <= i < |a| && a[i].usable && a[i].key == k;
      LiveInContents(a, i);
      var j :| 0 <= j < |b| && b[j] == a[i];
      LiveInContents(b, j);
    }
    forall k | k in mb
      ensures k in ma
    {
      ContentsHasLive(b, k);
      var j :| 0 <= j < |b| && b[j].usable && b[j].key == k;
      var i :| 0 <= i < |a| && a[i] == b[j];
      LiveInContents(a, i);
    }
  }

  /** Sorted by `compar`, no dead item precedes a live one. */
  lemma LiveFirst(s: seq<Item>, byKey: bool, ascending: bool)
    requires SortedBy(s, Order(byKey, ascending))
    ensures LiveBeforeDead(s)
  {
    forall i, j | 0 <= i < j < |s| && s[j].usable
      ensures s[i].usable
    {
      assert Order(byKey, ascending)(s[i], s[j]);
    }
  }

  /** After `qsort` with `compar`, the first `ind_usable` items are exactly
      the live items, rearranged. */
  lemma SortedPrefix(items: seq<Item>, s: seq<Item>)
    requires multiset(s) == multiset(items) && LiveBeforeDead(s)
    ensures CountUsable(items) <= |s|
    ensures multiset(s[..CountUsable(items)]) == multiset(Live(items))
    ensures forall i :: 0 <= i < CountUsable(items) ==> s[i].usable
  {
    LivePrefix(s);
    SameLive(s, items);
    var n := CountUsable(items);
    assert |Live(s)| == n by {
      assert |Live(s)| == |multiset(Live(s))|;
      assert |Live(items)| == |multiset(Live(items))|;
    }
    assert s[..n] == Live(s);
  }

  lemma SameLive(a: seq<Item>, b: seq<Item>)
    requires multiset(a) == multiset(b)
    ensures multiset(Live(a)) == multiset(Live(b))
  {
    forall x: Item
      ensures multiset(Live(a))[x] == multiset(Live(b))[x]
    {
      LiveCount(a, x);
      LiveCount(b, x);
    }
  }

  /** The sorted live items are stored items with distinct keys, the same
      live items as before. */
  lemma SortedItemsOk(ktype: KType, items: seq<Item>, w: seq<Item>)
    requires ItemsOk(ktype, items)
    requires multiset(w) == multiset(Live(items))
    requires forall i :: 0 <= i < |w| ==> w[i].usable
    ensures ItemsOk(ktype, w)
    ensures forall i, j :: 0 <= i < j < |w| ==> w[i].key != w[j].key
    ensures ToMap(Entries(w)) == ToMap(Entries(items))
  {
    SameItems(items, w);
    forall i | 0 <= i < |w|
      ensures ItemOk(ktype, w[i])
    {
      assert w[i] in items;
      var m :| 0 <= m < |items| && items[m] == w[i];
    }
    LiveDistinct(items);
    PermDistinct(w, Live(items));
    SameLiveSameContents(w, items);
  }

  lemma SameItems(items: seq<Item>, w: seq<Item>)
    requires multiset(w) == multiset(Live(items))
    ensures forall x: Item :: x in w <==> x.usable && x in items
  {
    forall x: Item
      ensures x in w <==> x.usable && x in items
    {
      LiveCount(items, x);
      assert x in w <==> x in multiset(w);
    }
  }

  /** Iteration order after `ht_sort`: keys strictly in the requested
      direction, or values in the requested direction with ties allowed. */
  predicate InOrder(w: seq<Item>, byKey: bool, ascending: bool)
  {
    forall i, j :: 0 <= i < j < |w| ==>
      if byKey then KeyCmp(w[i].key, w[j].key) == -Direction(ascending)
      else if ascending then w[i].value <= w[j].value
      else w[i].value >= w[j].value
  }

  /** What `compar` being satisfied means for live items with distinct keys. */
  lemma SortedOrder(w: seq<Item>, byKey: bool, ascending: bool)
    requires SortedBy(w, Order(byKey, ascending))
    requires forall i :: 0 <= i < |w| ==> w[i].usable
    requires forall i, j :: 0 <= i < j < |w| ==> w[i].key != w[j].key
    ensures InOrder(w, byKey, ascending)
  {
    forall i, j | 0 <= i < j < |w|
      ensures if byKey then KeyCmp(w[i].key, w[j].key) == -Direction(ascending)
        else if ascending then w[i].value <= w[j].value
        else w[i].value >= w[j].value
    {
      assert Order(byKey, ascending)(w[i], w[j]);
    }
  }

  /** The items `ht_sort` keeps: `qsort` with `compar`, cut to the live count. */
  function SortedItems(items: seq<Item>, byKey: bool, ascending: bool): seq<Item>
    requires CountUsable(items) <= |items|
  {
    SortBy(items, Order(byKey, ascending))[..CountUsable(items)]
  }

  /** The kept items are the live items, rearranged into the requested order. */
  lemma SortedItemsFacts(ktype: KType, items: seq<Item>, byKey: bool, ascending: bool)
    requires ItemsOk(ktype, items)
    ensures var w := SortedItems(items, byKey, ascending);
      |w| == CountUsable(items) == CountUsable(w) &&
      multiset(w) == multiset(Live(items)) &&
      ItemsOk(ktype, w) && ToMap(Entries(w)) == ToMap(Entries(items)) &&
      InOrder(w, byKey, ascending)
  {
    var le := Order(byKey, ascending);
    var s := SortBy(items, le);
    OrderIsPreorder(byKey, ascending);
    SortBySorted(items, le);
    LiveFirst(s, byKey, ascending);
    SortedPrefix(items, s);
    var w := s[..CountUsable(items)];
    SortedItemsOk(ktype, items, w);
    AllLive(w);
    SortedByPrefix(s, CountUsable(items), le);
    SortedOrder(w, byKey, ascending);
  }

  /** `ht_sort`: `qsort` the items with `compar`, rehash, and cut the item
      array to the live count. Deleted items are gone afterwards; the map is
      unchanged; iteration runs strictly by key, or by value with ties in an
      unspecified order, in the requested direction. The cursor is left as it
      was. */
  method Sort(t: Table, byKey: bool, ascending: bool) returns (r: Table)
    requires Inv(t)
    ensures Inv(r) && r.ktype == t.ktype && r.next == t.next
    ensures |r.indices| == |t.indices| && r.deleted == 0
    ensures r.usable == t.usable && |r.items| == t.usable
    ensures multiset(r.items) == multiset(Live(t.items))
    ensures Contents(r) == Contents(t)
    ensures InOrder(r.items, byKey, ascending)
  {
    var w := SortedItems(t.items, byKey, ascending);
    SortedItemsFacts(t.ktype, t.items, byKey, ascending);
    r := Rehash(t.(items := w), |t.indices|);
  }
}
