/** The insertion-ordered hash table of src/hashtable.c: open addressing with
    linear probing over a bucket array, whose buckets hold an index into a
    dense item array, `EMPTY` or the tombstone `DELETED`. Items are appended
    in insertion order; deleting one only clears its `usable` flag.

    The C struct is modelled as an immutable `Table`; every operation returns
    the updated table. The abstraction is `Entries`, the live (key, value)
    pairs in item order, and `Contents`, the map they describe. */
module HashTables {
  import opened Base
  import opened Util
  import opened Sorting

  const DEFAULT_CAP: int := 8
  const EMPTY: int := -1
  const DELETED: int := -2
  /** `key.s` is a 32-byte array: at most 31 bytes of a string key are kept. */
  const KEY_BYTES: int := 31

  const FNV_OFFSET: bv64 := 14695981039346656037
  const FNV_PRIME: bv64 := 1099511628211

  /** `enum ht_ktype`. */
  datatype KType = HtInt | HtStr

  /** The key union; each table holds keys of a single kind. */
  datatype Key = IntKey(n: int) | StrKey(s: string)

  datatype Item = Item(key: Key, value: int, hash: int, usable: bool)

  /** `struct hashtable`. `|indices|` is `ind_cap`, `|items|` is
      `item_next`, `usable` is `ind_usable`, `deleted` is `ind_deleted` and
      `next` is the iteration cursor. The item array's spare capacity is not
      modelled. */
  datatype Table = Table(
    ktype: KType,
    indices: seq<int>,
    items: seq<Item>,
    usable: int,
    deleted: int,
    next: int)

  /** A key the table can store: a 64-bit integer for an integer table, a
      C string short enough to be kept whole for a string table. */
  predicate KeyOk(ktype: KType, key: Key)
  {
    match key
    case IntKey(n) => ktype == HtInt && IsInt64(n)
    case StrKey(s) => ktype == HtStr && (forall i :: 0 <= i < |s| ==> s[i] != '\0') && |s| <= KEY_BYTES
  }

  // ---------------------------------------------------------------------
  // Hashing (gethash, keysmatch)

  /** A character taken as the unsigned byte it stands for. */
  function Byte(c: char): bv64
  {
    ((c as int) % 256) as bv64
  }

  /** FNV-1a: for each byte, xor it in, then multiply by the prime modulo 2^64. */
  function Fnv(h: bv64, s: string): bv64
    decreases |s|
  {
    if s == [] then h else Fnv((h ^ Byte(s[0])) * FNV_PRIME, s[1..])
  }

  /** `gethash`: an integer key reinterpreted as unsigned, or FNV-1a over at
      most the first 31 bytes of a string key. */
  function Hash(key: Key): (h: int)
    ensures 0 <= h < UINT64_MOD
  {
    match key
    case IntKey(n) => n % UINT64_MOD
    case StrKey(s) => Fnv(FNV_OFFSET, if |s| <= KEY_BYTES then s else s[..KEY_BYTES]) as int
  }

  /** `keysmatch`: the hashes agree and, for a string table, so do the
      strings. For an integer table equal hashes are taken as equal keys. */
  predicate KeysMatch(h: int, ktype: KType, key: Key, item: Item)
  {
    h == item.hash && (ktype == HtInt || key == item.key)
  }

  /** For storable keys whose hashes are computed by `Hash`, matching is key
      equality: reinterpreting a 64-bit integer as unsigned loses nothing. */
  lemma MatchIsEquality(ktype: KType, key: Key, item: Item)
    requires KeyOk(ktype, key) && KeyOk(ktype, item.key)
    requires item.hash == Hash(item.key)
    ensures KeysMatch(Hash(key), ktype, key, item) <==> key == item.key
  {
    if ktype == HtInt && Hash(key) == item.hash {
      var a, b := key.n, item.key.n;
      assert a % UINT64_MOD == b % UINT64_MOD;
      assert (if a < 0 then a + UINT64_MOD else a) == a % UINT64_MOD;
      assert (if b < 0 then b + UINT64_MOD else b) == b % UINT64_MOD;
    }
  }

  // ---------------------------------------------------------------------
  // Probing geometry

  /** The bucket a hash starts probing from (`hash % ind_cap`). */
  function Home(h: int, cap: int): (r: int)
    ensures 0 < cap ==> 0 <= r < cap
  {
    if 0 < cap then h % cap else 0
  }

  /** Number of `(slot + 1) % cap` steps from bucket `a` to bucket `b`. */
  function Dist(a: int, b: int, cap: int): (d: int)
    ensures 0 <= a < cap && 0 <= b < cap ==> 0 <= d < cap && (d == 0 <==> a == b)
  {
    if a <= b then b - a else b - a + cap
  }

  lemma DistInjective(a: int, b: int, c: int, cap: int)
    requires 0 <= a < cap && 0 <= b < cap && 0 <= c < cap
    requires Dist(a, b, cap) == Dist(a, c, cap)
    ensures b == c
  {
  }

  /** One probe step adds one to the distance, unless it wraps onto home. */
  lemma DistStep(a: int, b: int, cap: int)
    requires 0 <= a < cap && 0 <= b < cap
    requires Dist(a, b, cap) < cap - 1
    ensures Dist(a, (b + 1) % cap, cap) == Dist(a, b, cap) + 1
  {
    if b + 1 == cap {
      assert (b + 1) % cap == 0;
    } else {
      assert (b + 1) % cap == b + 1;
    }
  }

  // ---------------------------------------------------------------------
  // Counting

  function CountNonEmpty(idx: seq<int>): (n: nat)
    ensures n <= |idx|
  {
    if idx == [] then 0 else CountNonEmpty(idx[..|idx| - 1]) + (if idx[|idx| - 1] != EMPTY then 1 else 0)
  }

  function CountUsable(items: seq<Item>): (n: nat)
    ensures n <= |items|
  {
    if items == [] then 0 else CountUsable(items[..|items| - 1]) + (if items[|items| - 1].usable then 1 else 0)
  }

  /** A bucket array with fewer occupied buckets than buckets has an EMPTY one. */
  lemma {:induction false} EmptyExists(idx: seq<int>)
    requires CountNonEmpty(idx) < |idx|
    ensures exists b :: 0 <= b < |idx| && idx[b] == EMPTY
  {
    var last := |idx| - 1;
    if idx[last] != EMPTY {
      EmptyExists(idx[..last]);
      var b :| 0 <= b < last && idx[..last][b] == EMPTY;
      assert idx[b] == EMPTY;
    }
  }

  /** Overwriting one bucket changes the count by at most that bucket. */
  lemma {:induction false} CountNonEmptyUpdate(idx: seq<int>, s: int, v: int)
    requires 0 <= s < |idx|
    ensures CountNonEmpty(idx[s := v]) ==
      CountNonEmpty(idx) - (if idx[s] != EMPTY then 1 else 0) + (if v != EMPTY then 1 else 0)
  {
    var last := |idx| - 1;
    var u := idx[s := v];
    assert u[..last] == if s == last then idx[..last] else idx[..last][s := v];
    if s < last {
      CountNonEmptyUpdate(idx[..last], s, v);
    }
  }

  lemma {:induction false} CountUsableUpdate(items: seq<Item>, i: int, x: Item)
    requires 0 <= i < |items|
    ensures CountUsable(items[i := x]) ==
      CountUsable(items) - (if items[i].usable then 1 else 0) + (if x.usable then 1 else 0)
  {
    var last := |items| - 1;
    var u := items[i := x];
    assert u[..last] == if i == last then items[..last] else items[..last][i := x];
    if i < last {
      CountUsableUpdate(items[..last], i, x);
    }
  }

  lemma {:induction false} CountUsablePrefix(items: seq<Item>, i: int)
    requires 0 <= i <= |items|
    ensures CountUsable(items[..i]) <= CountUsable(items)
    decreases |items|
  {
    if i < |items| {
      var last := |items| - 1;
      assert items[..last][..i] == items[..i];
      CountUsablePrefix(items[..last], i);
      assert CountUsable(items[..last]) <= CountUsable(items);
    } else {
      assert items[..i] == items;
    }
  }

  // ---------------------------------------------------------------------
  // Abstraction: live entries in item order, and the map they describe

  /** The live (key, value) pairs, in item-array order: what iteration yields. */
  function Entries(items: seq<Item>): (es: seq<(Key, int)>)
    ensures |es| == CountUsable(items)
  {
    if items == [] then []
    else
      var last := items[|items| - 1];
      Entries(items[..|items| - 1]) + (if last.usable then [(last.key, last.value)] else [])
  }

  /** The map a sequence of entries describes; a later entry overrides. */
  function ToMap(es: seq<(Key, int)>): map<Key, int>
  {
    if es == [] then map[] else ToMap(es[..|es| - 1])[es[|es| - 1].0 := es[|es| - 1].1]
  }

  /** The key-value map the table stores. */
  function Contents(t: Table): map<Key, int>
  {
    ToMap(Entries(t.items))
  }

  /** The entries without any whose key is `k`. */
  function Without(es: seq<(Key, int)>, k: Key): (r: seq<(Key, int)>)
    ensures |r| <= |es|
  {
    if es == [] then []
    else Without(es[..|es| - 1], k) + (if es[|es| - 1].0 == k then [] else [es[|es| - 1]])
  }

  /** Dropping every `k` entry removes exactly `k` from the map. */
  lemma {:induction false} ToMapWithout(es: seq<(Key, int)>, k: Key)
    ensures ToMap(Without(es, k)) == ToMap(es) - {k}
  {
    if es != [] {
      var p, e := es[..|es| - 1], es[|es| - 1];
      ToMapWithout(p, k);
      var w := Without(p, k);
      if e.0 != k {
        assert Without(es, k) == w + [e];
        ToMapSnoc(w, e);
        assert ToMap(es) == ToMap(p)[e.0 := e.1];
      } else {
        assert Without(es, k) == w;
        assert ToMap(es) == ToMap(p)[k := e.1];
      }
    }
  }

  lemma ToMapSnoc(es: seq<(Key, int)>, e: (Key, int))
    ensures ToMap(es + [e]) == ToMap(es)[e.0 := e.1]
  {
    assert (es + [e])[..|es|] == es;
  }

  lemma EntriesSnoc(items: seq<Item>, x: Item)
    ensures Entries(items + [x]) == Entries(items) + (if x.usable then [(x.key, x.value)] else [])
  {
    assert (items + [x])[..|items|] == items;
  }

  lemma {:induction false} EntriesAppend(a: seq<Item>, b: seq<Item>)
    ensures Entries(a + b) == Entries(a) + Entries(b)
    decreases |b|
  {
    if b != [] {
      var p, x := b[..|b| - 1], b[|b| - 1];
      assert a + b == (a + p) + [x];
      assert b == p + [x];
      EntriesAppend(a, p);
      EntriesSnoc(a + p, x);
      EntriesSnoc(p, x);
    } else {
      assert a + b == a;
    }
  }

  /** No two live items share a key. */
  predicate LiveKeysDistinct(items: seq<Item>)
  {
    forall i, j :: 0 <= i < j < |items| && items[i].usable && items[j].usable ==> items[i].key != items[j].key
  }

  /** A key the map holds belongs to some live item. */
  lemma {:induction false} ContentsHasLive(items: seq<Item>, k: Key)
    requires k in ToMap(Entries(items))
    ensures exists i :: 0 <= i < |items| && items[i].usable && items[i].key == k
  {
    var last := |items| - 1;
    var x := items[last];
    EntriesSnoc(items[..last], x);
    assert items[..last] + [x] == items;
    if x.usable && x.key == k {
    } else {
      if x.usable {
        ToMapSnoc(Entries(items[..last]), (x.key, x.value));
      } else {
        assert Entries(items) == Entries(items[..last]);
      }
      assert k in ToMap(Entries(items[..last]));
      ContentsHasLive(items[..last], k);
      var i :| 0 <= i < last && items[..last][i].usable && items[..last][i].key == k;
      assert items[i] == items[..last][i];
    }
  }

  /** Every live item's key maps to that item's value. */
  lemma {:induction false} LiveInContents(items: seq<Item>, i: int)
    requires LiveKeysDistinct(items)
    requires 0 <= i < |items| && items[i].usable
    ensures items[i].key in ToMap(Entries(items))
    ensures ToMap(Entries(items))[items[i].key] == items[i].value
  {
    var last := |items| - 1;
    var x := items[last];
    var p := items[..last];
    EntriesSnoc(p, x);
    assert p + [x] == items;
    if x.usable {
      ToMapSnoc(Entries(p), (x.key, x.value));
    } else {
      assert Entries(items) == Entries(p);
    }
    if i < last {
      assert p[i] == items[i];
      assert LiveKeysDistinct(p) by {
        forall a, b | 0 <= a < b < |p| && p[a].usable && p[b].usable
          ensures p[a].key != p[b].key
        {
          assert p[a] == items[a] && p[b] == items[b];
        }
      }
      LiveInContents(p, i);
      assert x.usable ==> x.key != items[i].key;
    }
  }

  /** A key no live item has is not in the map. */
  lemma AbsentKey(items: seq<Item>, k: Key)
    requires forall i :: 0 <= i < |items| && items[i].usable ==> items[i].key != k
    ensures k !in ToMap(Entries(items))
  {
    if k in ToMap(Entries(items)) {
      ContentsHasLive(items, k);
    }
  }

  /** The entries with every value of key `k` replaced by `v`. */
  function Assign(es: seq<(Key, int)>, k: Key, v: int): (r: seq<(Key, int)>)
    ensures |r| == |es|
  {
    if es == [] then []
    else
      var e := es[|es| - 1];
      Assign(es[..|es| - 1], k, v) + [if e.0 == k then (k, v) else e]
  }

  lemma AssignSnoc(es: seq<(Key, int)>, e: (Key, int), k: Key, v: int)
    ensures Assign(es + [e], k, v) == Assign(es, k, v) + [if e.0 == k then (k, v) else e]
  {
    assert (es + [e])[..|es|] == es;
  }

  /** Assigning to a key replaces its value in the map and leaves the map
      alone when the key is absent. */
  lemma {:induction false} ToMapAssign(es: seq<(Key, int)>, k: Key, v: int)
    ensures ToMap(Assign(es, k, v)) == if k in ToMap(es) then ToMap(es)[k := v] else ToMap(es)
  {
    if es != [] {
      var p, e := es[..|es| - 1], es[|es| - 1];
      ToMapAssign(p, k, v);
      var e' := if e.0 == k then (k, v) else e;
      ToMapSnoc(Assign(p, k, v), e');
      assert ToMap(es) == ToMap(p)[e.0 := e.1];
    }
  }

  /** Assigning to a key no entry has changes nothing. */
  lemma {:induction false} AssignAbsent(es: seq<(Key, int)>, k: Key, v: int)
    requires k !in ToMap(es)
    ensures Assign(es, k, v) == es
  {
    if es != [] {
      var p, e := es[..|es| - 1], es[|es| - 1];
      assert ToMap(es) == ToMap(p)[e.0 := e.1];
      AssignAbsent(p, k, v);
      assert p + [e] == es;
    }
  }

  /** Writing a live item's value assigns it in the entries. */
  lemma {:induction false} EntriesSetValue(items: seq<Item>, i: int, v: int)
    requires LiveKeysDistinct(items) && 0 <= i < |items| && items[i].usable
    ensures Entries(items[i := items[i].(value := v)]) == Assign(Entries(items), items[i].key, v)
    decreases |items|
  {
    var k := items[i].key;
    var last := |items| - 1;
    var p, x := items[..last], items[last];
    var u := items[i := items[i].(value := v)];
    var ex := if x.usable then [(x.key, x.value)] else [];
    EntriesSnoc(p, x);
    assert p + [x] == items;
    assert LiveKeysDistinct(p) by {
      forall a, b | 0 <= a < b < |p| && p[a].usable && p[b].usable
        ensures p[a].key != p[b].key
      {
        assert p[a] == items[a] && p[b] == items[b];
      }
    }
    if i < last {
      var q := p[i := p[i].(value := v)];
      assert u == q + [x];
      EntriesSnoc(q, x);
      EntriesSetValue(p, i, v);
      if x.usable {
        assert x.key != k;
        AssignSnoc(Entries(p), (x.key, x.value), k, v);
      } else {
        assert Entries(items) == Entries(p);
      }
    } else {
      var y := u[last];
      assert u == p + [y];
      EntriesSnoc(p, y);
      AbsentKey(p, k);
      AssignAbsent(Entries(p), k, v);
      AssignSnoc(Entries(p), (x.key, x.value), k, v);
    }
  }

  // ---------------------------------------------------------------------
  // The table invariant

  /** An item as the table stores it: a storable key, the key's hash, a
      64-bit value. */
  predicate ItemOk(ktype: KType, x: Item)
  {
    KeyOk(ktype, x.key) && x.hash == Hash(x.key) && IsInt64(x.value)
  }

  predicate ItemsOk(ktype: KType, items: seq<Item>)
  {
    (forall i :: 0 <= i < |items| ==> ItemOk(ktype, items[i])) && LiveKeysDistinct(items)
  }

  /** Every bucket is EMPTY, DELETED or the index of a live item below `n`. */
  predicate IndexRange(idx: seq<int>, items: seq<Item>, n: int)
  {
    n <= |items| &&
    forall b :: 0 <= b < |idx| ==> DELETED <= idx[b] < n && (0 <= idx[b] ==> items[idx[b]].usable)
  }

  /** No two buckets hold the same item. */
  predicate Injective(idx: seq<int>)
  {
    forall b, c :: 0 <= b < c < |idx| && 0 <= idx[b] ==> idx[b] != idx[c]
  }

  predicate HasBucket(idx: seq<int>, i: int)
  {
    exists b :: 0 <= b < |idx| && idx[b] == i
  }

  /** Every live item among the first `n` has a bucket. */
  predicate AllPlaced(idx: seq<int>, items: seq<Item>, n: int)
  {
    forall i :: 0 <= i < n && i < |items| && items[i].usable ==> HasBucket(idx, i)
  }

  /** No EMPTY bucket lies on the probe path from `home` to just before `b`. */
  predicate Reachable(idx: seq<int>, home: int, b: int)
  {
    forall p :: 0 <= p < |idx| && Dist(home, p, |idx|) < Dist(home, b, |idx|) ==> idx[p] != EMPTY
  }

  /** The probe invariant: every item is reachable from its home bucket. */
  predicate AllReachable(idx: seq<int>, items: seq<Item>)
  {
    forall b :: 0 <= b < |idx| && 0 <= idx[b] < |items| ==> Reachable(idx, Home(items[idx[b]].hash, |idx|), b)
  }

  /** The buckets index exactly the live items among the first `n`, each
      where probing from its home bucket will find it. */
  predicate BucketsOk(idx: seq<int>, items: seq<Item>, n: int)
  {
    0 < |idx| && IndexRange(idx, items, n) && Injective(idx) && AllPlaced(idx, items, n) && AllReachable(idx, items)
  }

  /** The invariant every operation keeps. `deleted` may over-count the
      tombstones, since reusing one does not decrement it; the load bound
      keeps fewer than half the buckets occupied, so an EMPTY one exists and
      every probe stops. */
  predicate Inv(t: Table)
  {
    |t.indices| >= DEFAULT_CAP &&
    ItemsOk(t.ktype, t.items) &&
    BucketsOk(t.indices, t.items, |t.items|) &&
    t.usable == CountUsable(t.items) &&
    0 <= t.deleted &&
    CountNonEmpty(t.indices) <= t.usable + t.deleted &&
    2 * (t.usable + t.deleted) <= |t.indices|
  }

  lemma InvHasEmpty(t: Table)
    requires Inv(t)
    ensures exists e :: 0 <= e < |t.indices| && t.indices[e] == EMPTY
  {
    EmptyExists(t.indices);
  }

  // ---------------------------------------------------------------------
  // search

  /** Whether probing moves on past bucket `p`: it is occupied, it is not a
      tombstone the caller asked for, and it does not index a matching item.
      A tombstone never matches. */
  predicate Passes(t: Table, h: int, key: Key, returnDeleted: bool, p: int)
    requires 0 <= p < |t.indices|
  {
    var x := t.indices[p];
    x != EMPTY && !(returnDeleted && x == DELETED) && !(0 <= x < |t.items| && KeysMatch(h, t.ktype, key, t.items[x]))
  }

  /** Probing went past every bucket before `slot` on the path from home. */
  predicate PassedBefore(t: Table, h: int, key: Key, returnDeleted: bool, slot: int)
  {
    var cap := |t.indices|;
    forall p :: 0 <= p < cap && Dist(Home(h, cap), p, cap) < Dist(Home(h, cap), slot, cap) ==>
      Passes(t, h, key, returnDeleted, p)
  }

  /** `search`: linear probing from `hash % ind_cap` to the first bucket that
      is EMPTY, a tombstone (when `returnDeleted`), or indexes a matching
      item. */
  method Search(t: Table, h: int, key: Key, returnDeleted: bool) returns (slot: int)
    requires 0 < |t.indices|
    requires exists e :: 0 <= e < |t.indices| && t.indices[e] == EMPTY
    ensures 0 <= slot < |t.indices|
    ensures !Passes(t, h, key, returnDeleted, slot)
    ensures PassedBefore(t, h, key, returnDeleted, slot)
  {
    var cap := |t.indices|;
    var home := Home(h, cap);
    ghost var e :| 0 <= e < cap && t.indices[e] == EMPTY;
    slot := home;
    while t.indices[slot] != EMPTY && !(returnDeleted && t.indices[slot] == DELETED)
      invariant 0 <= slot < cap
      invariant Dist(home, slot, cap) <= Dist(home, e, cap)
      invariant PassedBefore(t, h, key, returnDeleted, slot)
      decreases Dist(home, e, cap) - Dist(home, slot, cap)
    {
      var x := t.indices[slot];
      if 0 <= x < |t.items| && KeysMatch(h, t.ktype, key, t.items[x]) {
        return;
      }
      assert slot != e;
      DistStep(home, slot, cap);
      var next := (slot + 1) % cap;
      forall p | 0 <= p < cap && Dist(home, p, cap) < Dist(home, next, cap)
        ensures Passes(t, h, key, returnDeleted, p)
      {
        if Dist(home, p, cap) == Dist(home, slot, cap) {
          DistInjective(home, p, slot, cap);
        }
      }
      slot := next;
    }
  }

  /** A completed lookup (`returnDeleted` false) stops on the key's bucket
      when the key is stored and on an EMPTY bucket when it is not. */
  lemma SearchFinds(t: Table, key: Key, slot: int)
    requires Inv(t) && KeyOk(t.ktype, key)
    requires 0 <= slot < |t.indices|
    requires !Passes(t, Hash(key), key, false, slot) && PassedBefore(t, Hash(key), key, false, slot)
    ensures t.indices[slot] == EMPTY <==> key !in Contents(t)
    ensures t.indices[slot] != EMPTY ==>
      0 <= t.indices[slot] < |t.items| && t.items[t.indices[slot]].key == key &&
      key in Contents(t) && Contents(t)[key] == t.items[t.indices[slot]].value
  {
    var idx, items, cap := t.indices, t.items, |t.indices|;
    var x := idx[slot];
    if 0 <= x {
      MatchIsEquality(t.ktype, key, items[x]);
      LiveInContents(items, x);
    } else if key in Contents(t) {
      ContentsHasLive(items, key);
      var i :| 0 <= i < |items| && items[i].usable && items[i].key == key;
      assert HasBucket(idx, i);
      var b :| 0 <= b < cap && idx[b] == i;
      var home := Home(Hash(key), cap);
      assert Reachable(idx, home, b);
      if Dist(home, b, cap) < Dist(home, slot, cap) {
        assert Passes(t, Hash(key), key, false, b);
        MatchIsEquality(t.ktype, key, items[i]);
        assert false;
      } else if Dist(home, b, cap) == Dist(home, slot, cap) {
        DistInjective(home, b, slot, cap);
        assert false;
      } else {
        assert false;
      }
    }
  }

  /** When no live item has the key, probing can stop only on an EMPTY
      bucket or, when asked for, a tombstone. */
  lemma SearchMisses(t: Table, key: Key, returnDeleted: bool, slot: int)
    requires ItemsOk(t.ktype, t.items) && KeyOk(t.ktype, key)
    requires forall b :: 0 <= b < |t.indices| ==> t.indices[b] < |t.items|
    requires forall i :: 0 <= i < |t.items| && t.items[i].usable ==> t.items[i].key != key
    requires forall b :: 0 <= b < |t.indices| && 0 <= t.indices[b] ==> t.items[t.indices[b]].usable
    requires 0 <= slot < |t.indices| && !Passes(t, Hash(key), key, returnDeleted, slot)
    ensures t.indices[slot] == EMPTY || (returnDeleted && t.indices[slot] == DELETED)
  {
    var x := t.indices[slot];
    if 0 <= x {
      MatchIsEquality(t.ktype, key, t.items[x]);
    }
  }

  // ---------------------------------------------------------------------
  // Keeping the bucket invariant

  /** Probing passed every bucket before `slot`, so none of them is EMPTY. */
  lemma PassedReachable(t: Table, h: int, key: Key, returnDeleted: bool, slot: int)
    requires PassedBefore(t, h, key, returnDeleted, slot)
    ensures Reachable(t.indices, Home(h, |t.indices|), slot)
  {
  }

  /** Overwriting a bucket with a non-EMPTY value keeps every probe path
      clear of EMPTY buckets. */
  lemma ReachableAfter(idx: seq<int>, home: int, b: int, s: int, v: int)
    requires Reachable(idx, home, b) && 0 <= s < |idx| && v != EMPTY
    ensures Reachable(idx[s := v], home, b)
  {
  }

  /** Placing live item `n` in a free bucket that probing from its home
      reaches extends the invariant to the first `n + 1` items. */
  lemma PlaceItem(idx: seq<int>, items: seq<Item>, n: int, s: int)
    requires BucketsOk(idx, items, n)
    requires 0 <= n < |items| && items[n].usable
    requires 0 <= s < |idx| && idx[s] < 0
    requires Reachable(idx, Home(items[n].hash, |idx|), s)
    ensures BucketsOk(idx[s := n], items, n + 1)
  {
    var u := idx[s := n];
    forall b | 0 <= b < |u| && 0 <= u[b] < |items|
      ensures Reachable(u, Home(items[u[b]].hash, |u|), b)
    {
      ReachableAfter(idx, Home(items[u[b]].hash, |u|), b, s, n);
    }
    forall i | 0 <= i < n + 1 && i < |items| && items[i].usable
      ensures HasBucket(u, i)
    {
      if i < n {
        assert HasBucket(idx, i);
        var b :| 0 <= b < |idx| && idx[b] == i;
        assert u[b] == i;
      } else {
        assert u[s] == i;
      }
    }
  }

  /** Appending an item leaves the buckets of the earlier ones valid. */
  lemma BucketsExtend(idx: seq<int>, items: seq<Item>, x: Item)
    requires BucketsOk(idx, items, |items|)
    ensures BucketsOk(idx, items + [x], |items|)
  {
    var w := items + [x];
    forall b | 0 <= b < |idx| && 0 <= idx[b] < |w|
      ensures Reachable(idx, Home(w[idx[b]].hash, |idx|), b)
    {
      assert w[idx[b]] == items[idx[b]];
    }
    forall i | 0 <= i < |items| && i < |w| && w[i].usable
      ensures HasBucket(idx, i)
    {
      assert w[i] == items[i];
    }
  }

  /** Turning item `idx[s]` into a tombstone: the bucket becomes DELETED and
      the item is no longer live. */
  lemma KillItem(idx: seq<int>, items: seq<Item>, s: int)
    requires BucketsOk(idx, items, |items|)
    requires 0 <= s < |idx| && 0 <= idx[s]
    ensures var i := idx[s];
      BucketsOk(idx[s := DELETED], items[i := items[i].(usable := false)], |items|)
  {
    var i := idx[s];
    var u, w := idx[s := DELETED], items[i := items[i].(usable := false)];
    forall b | 0 <= b < |u|
      ensures DELETED <= u[b] < |w| && (0 <= u[b] ==> w[u[b]].usable)
    {
      if b != s && 0 <= u[b] {
        assert u[b] != i by {
          if b < s { assert idx[b] != idx[s]; } else { assert idx[s] != idx[b]; }
        }
      }
    }
    forall b | 0 <= b < |u| && 0 <= u[b] < |w|
      ensures Reachable(u, Home(w[u[b]].hash, |u|), b)
    {
      assert w[u[b]].hash == items[idx[b]].hash;
      ReachableAfter(idx, Home(items[idx[b]].hash, |idx|), b, s, DELETED);
    }
    forall j | 0 <= j < |w| && w[j].usable
      ensures HasBucket(u, j)
    {
      assert j != i && items[j].usable;
      assert HasBucket(idx, j);
      var b :| 0 <= b < |idx| && idx[b] == j;
      assert u[b] == j;
    }
  }
}
