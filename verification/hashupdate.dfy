/** The operations of src/hashtable.c that change a table: `rehash`,
    `ht_new`, `ht_insert` and `ht_delete`, with the lookups `ht_get` and
    `ht_count`. Each returns the updated `HashTables.Table`. */
module HashUpdates {
  import opened Base
  import opened Util
  import opened Sorting
  import opened HashTables

  // ---------------------------------------------------------------------
  // rehash, ht_new

  /** `rehash` into `cap` buckets: every bucket is cleared, the tombstone
      count is reset, and each live item is placed, in item order, at the
      end of its probe path. Only the buckets and `deleted` change. */
  method Rehash(t: Table, cap: int) returns (r: Table)
    requires ItemsOk(t.ktype, t.items)
    requires CountUsable(t.items) < cap
    ensures r == t.(indices := r.indices, deleted := 0)
    ensures |r.indices| == cap
    ensures BucketsOk(r.indices, r.items, |r.items|)
    ensures CountNonEmpty(r.indices) == CountUsable(r.items)
  {
    var items := t.items;
    var idx := seq(cap, _ => EMPTY);
    assert CountNonEmpty(idx) == 0 by {
      assert forall b :: 0 <= b < |idx| ==> idx[b] == EMPTY;
      NoneOccupied(idx);
    }
    var i := 0;
    while i < |items|
      invariant 0 <= i <= |items|
      invariant |idx| == cap
      invariant BucketsOk(idx, items, i)
      invariant CountNonEmpty(idx) == CountUsable(items[..i])
    {
      idx := RehashStep(t, idx, i);
      i := i + 1;
    }
    assert items[..i] == items;
    r := t.(indices := idx, deleted := 0);
  }

  /** One iteration of `rehash`: place item `i` if it is live. */
  method RehashStep(t: Table, idx: seq<int>, i: int) returns (idx': seq<int>)
    requires ItemsOk(t.ktype, t.items) && CountUsable(t.items) < |idx|
    requires 0 <= i < |t.items|
    requires BucketsOk(idx, t.items, i) && CountNonEmpty(idx) == CountUsable(t.items[..i])
    ensures |idx'| == |idx|
    ensures BucketsOk(idx', t.items, i + 1) && CountNonEmpty(idx') == CountUsable(t.items[..i + 1])
  {
    var items := t.items;
    var x := items[i];
    CountUsableStep(items, i);
    if x.usable {
      CountUsablePrefix(items, i + 1);
      assert CountNonEmpty(idx) < |idx|;
      EmptyExists(idx);
      var u := t.(indices := idx);
      var slot := Search(u, x.hash, x.key, false);
      SearchRehash(u, i, slot);
      PassedReachable(u, x.hash, x.key, false, slot);
      PlaceItem(idx, items, i, slot);
      CountNonEmptyUpdate(idx, slot, i);
      idx' := idx[slot := i];
    } else {
      SkipDead(idx, items, i);
      idx' := idx;
    }
  }

  lemma CountUsableStep(items: seq<Item>, i: int)
    requires 0 <= i < |items|
    ensures CountUsable(items[..i + 1]) == CountUsable(items[..i]) + (if items[i].usable then 1 else 0)
  {
    assert items[..i + 1][..i] == items[..i];
  }

  /** A dead item needs no bucket. */
  lemma SkipDead(idx: seq<int>, items: seq<Item>, i: int)
    requires BucketsOk(idx, items, i) && 0 <= i < |items| && !items[i].usable
    ensures BucketsOk(idx, items, i + 1)
  {
    forall j | 0 <= j < i + 1 && j < |items| && items[j].usable
      ensures HasBucket(idx, j)
    {
      assert j < i;
    }
  }

  /** During `rehash`, item `i` has not been placed, so probing for it
      stops on an EMPTY bucket. */
  lemma SearchRehash(t: Table, i: int, slot: int)
    requires ItemsOk(t.ktype, t.items) && BucketsOk(t.indices, t.items, i)
    requires 0 <= i < |t.items| && t.items[i].usable
    requires 0 <= slot < |t.indices|
    requires !Passes(t, t.items[i].hash, t.items[i].key, false, slot)
    ensures t.indices[slot] == EMPTY
  {
    var x := t.indices[slot];
    if 0 <= x {
      assert x < i;
      MatchIsEquality(t.ktype, t.items[i].key, t.items[x]);
    }
  }

  lemma {:induction false} NoneOccupied(idx: seq<int>)
    requires forall b :: 0 <= b < |idx| ==> idx[b] == EMPTY
    ensures CountNonEmpty(idx) == 0
  {
    if idx != [] {
      NoneOccupied(idx[..|idx| - 1]);
    }
  }

  /** `ht_new`: eight EMPTY buckets and no items. */
  function New(ktype: KType): (t: Table)
    ensures Inv(t) && t.ktype == ktype
    ensures Contents(t) == map[] && Entries(t.items) == []
    ensures |t.indices| == DEFAULT_CAP
  {
    var idx := seq(DEFAULT_CAP, _ => EMPTY);
    NoneOccupied(idx);
    Table(ktype, idx, [], 0, 0, 0)
  }

  // ---------------------------------------------------------------------
  // More about the abstraction

  lemma DistinctPrefix(items: seq<Item>, n: int)
    requires LiveKeysDistinct(items) && 0 <= n <= |items|
    ensures LiveKeysDistinct(items[..n])
  {
    var p := items[..n];
    forall a, b | 0 <= a < b < |p| && p[a].usable && p[b].usable
      ensures p[a].key != p[b].key
    {
      assert p[a] == items[a] && p[b] == items[b];
    }
  }

  lemma {:induction false} WithoutAppend(a: seq<(Key, int)>, b: seq<(Key, int)>, k: Key)
    ensures Without(a + b, k) == Without(a, k) + Without(b, k)
    decreases |b|
  {
    if b == [] {
      assert a + b == a;
    } else {
      var p, e := b[..|b| - 1], b[|b| - 1];
      assert (a + b)[..|a + b| - 1] == a + p;
      WithoutAppend(a, p, k);
    }
  }

  /** With no live item keyed `k`, dropping `k` entries changes nothing. */
  lemma {:induction false} WithoutAbsent(items: seq<Item>, k: Key)
    requires forall i :: 0 <= i < |items| && items[i].usable ==> items[i].key != k
    ensures Without(Entries(items), k) == Entries(items)
  {
    if items != [] {
      var last := |items| - 1;
      var p, x := items[..last], items[last];
      assert items == p + [x];
      EntriesSnoc(p, x);
      WithoutAbsent(p, k);
      var tail := if x.usable then [(x.key, x.value)] else [];
      WithoutAppend(Entries(p), tail, k);
      assert Without(tail, k) == tail by {
        if x.usable {
          assert Without(tail, k) == Without([], k) + [(x.key, x.value)];
        }
      }
    }
  }

  /** Marking live item `i` deleted drops exactly its entry from the
      iteration sequence. */
  lemma {:induction false} EntriesKill(items: seq<Item>, i: int)
    requires LiveKeysDistinct(items) && 0 <= i < |items| && items[i].usable
    ensures Entries(items[i := items[i].(usable := false)]) == Without(Entries(items), items[i].key)
  {
    var last := |items| - 1;
    if i == last {
      EntriesKillLast(items);
    } else {
      var p, x, k := items[..last], items[last], items[i].key;
      var dead := items[i].(usable := false);
      var tail := if x.usable then [(x.key, x.value)] else [];
      assert items == p + [x];
      assert items[i := dead] == p[i := dead] + [x];
      assert p[i] == items[i];
      assert x.usable ==> x.key != k;
      DistinctPrefix(items, last);
      EntriesKill(p, i);
      calc {
        Entries(items[i := dead]);
        { EntriesSnoc(p[i := dead], x); }
        Entries(p[i := dead]) + tail;
        Without(Entries(p), k) + tail;
        { KeepOther(tail, k); }
        Without(Entries(p), k) + Without(tail, k);
        { WithoutAppend(Entries(p), tail, k); }
        Without(Entries(p) + tail, k);
        { EntriesSnoc(p, x); }
        Without(Entries(items), k);
      }
    }
  }

  lemma KeepOther(tail: seq<(Key, int)>, k: Key)
    requires |tail| <= 1 && (tail != [] ==> tail[0].0 != k)
    ensures Without(tail, k) == tail
  {
    if tail != [] {
      assert tail[..0] == [];
    }
  }

  lemma EntriesKillLast(items: seq<Item>)
    requires LiveKeysDistinct(items) && 0 < |items| && items[|items| - 1].usable
    ensures var i := |items| - 1;
      Entries(items[i := items[i].(usable := false)]) == Without(Entries(items), items[i].key)
  {
    var last := |items| - 1;
    var p, x := items[..last], items[last];
    var dead := x.(usable := false);
    assert items == p + [x];
    assert items[last := dead] == p + [dead];
    forall j | 0 <= j < |p| && p[j].usable
      ensures p[j].key != x.key
    {
      assert p[j] == items[j];
    }
    calc {
      Without(Entries(items), x.key);
      { EntriesSnoc(p, x); }
      Without(Entries(p) + [(x.key, x.value)], x.key);
      { WithoutAppend(Entries(p), [(x.key, x.value)], x.key); }
      Without(Entries(p), x.key) + Without([(x.key, x.value)], x.key);
      { assert Without([(x.key, x.value)], x.key) == []; }
      Without(Entries(p), x.key);
      { WithoutAbsent(p, x.key); }
      Entries(p);
      { EntriesSnoc(p, dead); }
      Entries(items[last := dead]);
    }
  }

  /** Live keys are distinct, so the map has one key per live item. */
  lemma {:induction false} ContentsSize(items: seq<Item>)
    requires LiveKeysDistinct(items)
    ensures |ToMap(Entries(items))| == CountUsable(items)
  {
    if items != [] {
      var last := |items| - 1;
      var p, x := items[..last], items[last];
      assert items == p + [x];
      EntriesSnoc(p, x);
      DistinctPrefix(items, last);
      ContentsSize(p);
      if x.usable {
        ToMapSnoc(Entries(p), (x.key, x.value));
        forall j | 0 <= j < |p| && p[j].usable
          ensures p[j].key != x.key
        {
          assert p[j] == items[j];
        }
        AbsentKey(p, x.key);
        assert |ToMap(Entries(p))[x.key := x.value]| == |ToMap(Entries(p))| + 1;
      } else {
        assert Entries(items) == Entries(p);
      }
      assert CountUsable(items) == CountUsable(p) + (if x.usable then 1 else 0);
    }
  }

  // ---------------------------------------------------------------------
  // ht_insert, ht_delete, ht_get, ht_count

  /** Appending a stored item with an absent key keeps the items valid. */
  lemma AppendItemOk(ktype: KType, items: seq<Item>, x: Item)
    requires ItemsOk(ktype, items) && ItemOk(ktype, x)
    requires x.key !in ToMap(Entries(items))
    ensures forall i :: 0 <= i < |items| && items[i].usable ==> items[i].key != x.key
    ensures ItemsOk(ktype, items + [x])
  {
    forall i | 0 <= i < |items| && items[i].usable
      ensures items[i].key != x.key
    {
      LiveInContents(items, i);
    }
    var w := items + [x];
    forall a, b | 0 <= a < b < |w| && w[a].usable && w[b].usable
      ensures w[a].key != w[b].key
    {
      assert w[a] == items[a];
      if b < |items| {
        assert w[b] == items[b];
      }
    }
  }

  /** Marking an item deleted keeps the items valid. */
  lemma KillItemOk(ktype: KType, items: seq<Item>, i: int)
    requires ItemsOk(ktype, items) && 0 <= i < |items|
    ensures ItemsOk(ktype, items[i := items[i].(usable := false)])
  {
    var w := items[i := items[i].(usable := false)];
    forall a, b | 0 <= a < b < |w| && w[a].usable && w[b].usable
      ensures w[a].key != w[b].key
    {
      assert w[a] == items[a] && w[b] == items[b];
    }
  }

  /** The second half of `ht_insert` for an absent key: claim the first
      EMPTY or tombstone bucket on the key's probe path and append the item. */
  method AddNew(u: Table, key: Key, value: int) returns (r: Table)
    requires ItemsOk(u.ktype, u.items) && BucketsOk(u.indices, u.items, |u.items|)
    requires KeyOk(u.ktype, key) && IsInt64(value)
    requires key !in Contents(u)
    requires CountNonEmpty(u.indices) < |u.indices|
    ensures r == u.(indices := r.indices, items := u.items + [Item(key, value, Hash(key), true)], usable := u.usable + 1)
    ensures |r.indices| == |u.indices|
    ensures ItemsOk(r.ktype, r.items) && BucketsOk(r.indices, r.items, |r.items|)
    ensures CountNonEmpty(r.indices) <= CountNonEmpty(u.indices) + 1
  {
    var h := Hash(key);
    var x := Item(key, value, h, true);
    var items := u.items + [x];
    AppendItemOk(u.ktype, u.items, x);
    EmptyExists(u.indices);
    var slot := Search(u, h, key, true);
    SearchMisses(u, key, true, slot);
    PassedReachable(u, h, key, true, slot);
    BucketsExtend(u.indices, u.items, x);
    PlaceItem(u.indices, items, |u.items|, slot);
    CountNonEmptyUpdate(u.indices, slot, |u.items|);
    r := u.(indices := u.indices[slot := |u.items|], items := items, usable := u.usable + 1);
  }

  /** `ht_insert`. An existing key keeps its value, which is returned, and
      nothing changes. A new key is appended to the iteration order; first,
      if the table would be more than half full counting tombstones, the
      buckets are doubled and rehashed. */
  method Insert(t: Table, key: Key, value: int) returns (r: Table, v: int)
    requires Inv(t) && KeyOk(t.ktype, key) && IsInt64(value)
    ensures Inv(r) && r.ktype == t.ktype && r.next == t.next
    ensures key in Contents(t) ==> r == t && v == Contents(t)[key]
    ensures key !in Contents(t) ==>
      v == value && Entries(r.items) == Entries(t.items) + [(key, value)] &&
      Contents(r) == Contents(t)[key := value] && r.usable == t.usable + 1
    ensures |r.indices| == |t.indices| || |r.indices| == 2 * |t.indices|
  {
    InvHasEmpty(t);
    var slot := Search(t, Hash(key), key, false);
    SearchFinds(t, key, slot);
    if t.indices[slot] != EMPTY {
      return t, t.items[t.indices[slot]].value;
    }
    r := InsertNew(t, key, value);
    v := value;
  }

  /** `ht_insert` once the key is known to be absent: grow the buckets if
      needed, then append. */
  method InsertNew(t: Table, key: Key, value: int) returns (r: Table)
    requires Inv(t) && KeyOk(t.ktype, key) && IsInt64(value)
    requires key !in Contents(t)
    ensures Inv(r) && r.ktype == t.ktype && r.next == t.next
    ensures Entries(r.items) == Entries(t.items) + [(key, value)]
    ensures Contents(r) == Contents(t)[key := value] && r.usable == t.usable + 1
    ensures |r.indices| == |t.indices| || |r.indices| == 2 * |t.indices|
  {
    var u := t;
    if 2 * (t.usable + t.deleted + 1) > |t.indices| {
      u := Rehash(t, 2 * |t.indices|);
    }
    assert CountNonEmpty(u.indices) <= u.usable + u.deleted;
    assert 2 * (u.usable + u.deleted + 1) <= |u.indices|;
    r := AddNew(u, key, value);
    EntriesSnoc(t.items, Item(key, value, Hash(key), true));
    ToMapSnoc(Entries(t.items), (key, value));
  }

  /** `ht_delete`: false, with nothing changed, for an absent key; otherwise
      the key's bucket becomes a tombstone and its item stops being live. */
  method Delete(t: Table, key: Key) returns (found: bool, r: Table)
    requires Inv(t) && KeyOk(t.ktype, key)
    ensures Inv(r) && found == (key in Contents(t))
    ensures !found ==> r == t
    ensures found ==>
      Entries(r.items) == Without(Entries(t.items), key) && Contents(r) == Contents(t) - {key} &&
      r.usable == t.usable - 1 && r.deleted == t.deleted + 1 &&
      |r.items| == |t.items| && |r.indices| == |t.indices| && r.ktype == t.ktype && r.next == t.next
  {
    InvHasEmpty(t);
    var slot := Search(t, Hash(key), key, false);
    SearchFinds(t, key, slot);
    if t.indices[slot] == EMPTY {
      return false, t;
    }
    var i := t.indices[slot];
    var dead := t.items[i].(usable := false);
    var items := t.items[i := dead];
    KillItem(t.indices, t.items, slot);
    CountUsableUpdate(t.items, i, dead);
    CountNonEmptyUpdate(t.indices, slot, DELETED);
    EntriesKill(t.items, i);
    ToMapWithout(Entries(t.items), key);
    KillItemOk(t.ktype, t.items, i);
    found := true;
    r := t.(indices := t.indices[slot := DELETED], items := items, usable := t.usable - 1, deleted := t.deleted + 1);
  }

  /** `ht_get`: the key's value, or `None` (NULL) when it is absent. */
  method Get(t: Table, key: Key) returns (r: Option<int>)
    requires Inv(t) && KeyOk(t.ktype, key)
    ensures r == if key in Contents(t) then Some(Contents(t)[key]) else None
  {
    InvHasEmpty(t);
    var slot := Search(t, Hash(key), key, false);
    SearchFinds(t, key, slot);
    r := if t.indices[slot] == EMPTY then None else Some(t.items[t.indices[slot]].value);
  }

  /** A write through the pointer that `ht_insert` or `ht_get` returns for
      a stored key, as callers do to accumulate into a value: the key's
      value becomes `value`, and its place in the iteration order, the
      other entries and the buckets stay as they are. */
  method SetValue(t: Table, key: Key, value: int) returns (r: Table)
    requires Inv(t) && KeyOk(t.ktype, key) && IsInt64(value)
    requires key in Contents(t)
    ensures Inv(r) && r.ktype == t.ktype && r.next == t.next && r.indices == t.indices
    ensures Entries(r.items) == Assign(Entries(t.items), key, value)
    ensures Contents(r) == Contents(t)[key := value]
  {
    InvHasEmpty(t);
    var slot := Search(t, Hash(key), key, false);
    SearchFinds(t, key, slot);
    var i := t.indices[slot];
    var items := t.items[i := t.items[i].(value := value)];
    SetValueOk(t, i, value);
    EntriesSetValue(t.items, i, value);
    ToMapAssign(Entries(t.items), key, value);
    r := t.(items := items);
  }

  /** Changing a live item's value keeps the invariant: keys, hashes and
      liveness are untouched. */
  lemma SetValueOk(t: Table, i: int, value: int)
    requires Inv(t) && 0 <= i < |t.items| && t.items[i].usable && IsInt64(value)
    ensures Inv(t.(items := t.items[i := t.items[i].(value := value)]))
  {
    var items := t.items[i := t.items[i].(value := value)];
    assert ItemsOk(t.ktype, items) by {
      assert forall j :: 0 <= j < |items| ==> ItemOk(t.ktype, items[j]) by {
        forall j | 0 <= j < |items| ensures ItemOk(t.ktype, items[j]) {
          assert ItemOk(t.ktype, t.items[j]);
        }
      }
      forall a, b | 0 <= a < b < |items| && items[a].usable && items[b].usable
        ensures items[a].key != items[b].key
      {
        assert items[a].key == t.items[a].key && items[b].key == t.items[b].key;
      }
    }
    SameShapeBuckets(t.indices, t.items, items);
    CountUsableUpdate(t.items, i, items[i]);
  }

  /** The buckets depend on the items only through their keys' hashes and
      their liveness. */
  lemma SameShapeBuckets(idx: seq<int>, a: seq<Item>, b: seq<Item>)
    requires BucketsOk(idx, a, |a|) && |a| == |b|
    requires forall j :: 0 <= j < |a| ==> a[j].hash == b[j].hash && a[j].usable == b[j].usable
    ensures BucketsOk(idx, b, |b|)
  {
    assert IndexRange(idx, b, |b|) by {
      forall c | 0 <= c < |idx| ensures DELETED <= idx[c] < |b| && (0 <= idx[c] ==> b[idx[c]].usable) {
        assert DELETED <= idx[c] < |a| && (0 <= idx[c] ==> a[idx[c]].usable);
      }
    }
    assert AllPlaced(idx, b, |b|) by {
      forall j | 0 <= j < |b| && b[j].usable ensures HasBucket(idx, j) {
        assert a[j].usable;
      }
    }
    assert AllReachable(idx, b) by {
      forall c | 0 <= c < |idx| && 0 <= idx[c] < |b|
        ensures Reachable(idx, Home(b[idx[c]].hash, |idx|), c)
      {
        assert a[idx[c]].hash == b[idx[c]].hash;
        assert Reachable(idx, Home(a[idx[c]].hash, |idx|), c);
      }
    }
  }

  /** `ht_count`: the number of live keys. */
  function Count(t: Table): (n: int)
    requires Inv(t)
    ensures n == |Entries(t.items)| == |Contents(t)|
  {
    ContentsSize(t.items);
    t.usable
  }

}
