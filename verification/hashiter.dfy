/** Iteration over a table in item order (`ht_resetiter`, `ht_next`,
    `ht_foreach`) and the aggregates built on it (`ht_sum`, `ht_max`,
    `ht_min`). */
module HashIteration {
  import opened Base
  import opened Util
  import opened Sorting
  import opened HashTables
  import opened HashUpdates

  // ht_resetiter, ht_next, ht_foreach

  /** The entries of the items from position `n` on. */
  lemma EntriesFrom(items: seq<Item>, n: int)
    requires 0 <= n < |items|
    ensures Entries(items[n..]) ==
      (if items[n].usable then [(items[n].key, items[n].value)] else []) + Entries(items[n + 1..])
  {
    assert items[n..] == [items[n]] + items[n + 1..];
    EntriesAppend([items[n]], items[n + 1..]);
    assert [items[n]] == [] + [items[n]];
    EntriesSnoc([], items[n]);
  }

  /** What is left to iterate: the live entries from the cursor on. */
  function Remaining(t: Table): seq<(Key, int)>
    requires 0 <= t.next <= |t.items|
  {
    Entries(t.items[t.next..])
  }

  /** `ht_resetiter`: the whole of `Entries` is left to iterate. */
  function ResetIter(t: Table): (r: Table)
    ensures r.items == t.items && 0 <= r.next <= |r.items|
    ensures Remaining(r) == Entries(t.items)
  {
    assert t.items[0..] == t.items;
    t.(next := 0)
  }

  /** `ht_next`: skip dead items from the cursor; at the end return `None`
      (NULL), otherwise the item's key and value, with the cursor moved past
      it. Only the cursor changes. */
  function Next(t: Table): (r: (Option<(Key, int)>, Table))
    requires 0 <= t.next <= |t.items|
    ensures r.1 == t.(next := r.1.next) && t.next <= r.1.next <= |t.items|
    ensures r.0 == None ==> Remaining(t) == [] && r.1.next == |t.items|
    ensures r.0 != None ==> t.next < r.1.next && Remaining(t) == [r.0.value] + Remaining(r.1)
    decreases |t.items| - t.next
  {
    if t.next < |t.items| && !t.items[t.next].usable then
      EntriesFrom(t.items, t.next);
      Next(t.(next := t.next + 1))
    else if t.next == |t.items| then
      (None, t)
    else
      EntriesFrom(t.items, t.next);
      var x := t.items[t.next];
      (Some((x.key, x.value)), t.(next := t.next + 1))
  }

  /** The entries a `ht_foreach` loop body sees, from the current cursor. */
  function Collect(t: Table): seq<(Key, int)>
    requires 0 <= t.next <= |t.items|
    decreases |t.items| - t.next
  {
    var r := Next(t);
    match r.0
    case None => []
    case Some(e) => [e] + Collect(r.1)
  }

  lemma {:induction false} CollectRemaining(t: Table)
    requires 0 <= t.next <= |t.items|
    ensures Collect(t) == Remaining(t)
    decreases |t.items| - t.next
  {
    var r := Next(t);
    if r.0 != None {
      CollectRemaining(r.1);
    }
  }

  /** `ht_foreach` visits every live entry once, in insertion (item) order. */
  lemma ForeachYieldsEntries(t: Table)
    ensures Collect(ResetIter(t)) == Entries(t.items)
  {
    CollectRemaining(ResetIter(t));
  }

  // ---------------------------------------------------------------------
  // ht_sum, ht_max, ht_min (MK_AGG)

  /** The sum of the values of a sequence of entries. */
  function SumOf(es: seq<(Key, int)>): int
  {
    if es == [] then 0 else SumOf(es[..|es| - 1]) + es[|es| - 1].1
  }

  lemma SumOfSnoc(es: seq<(Key, int)>, e: (Key, int))
    ensures SumOf(es + [e]) == SumOf(es) + e.1
  {
    assert (es + [e])[..|es|] == es;
  }

  /** `ht_sum`: the live values added up in item order with `util_add`.
      C leaves signed overflow undefined, so every running total must fit. */
  method Sum(t: Table) returns (r: int)
    requires forall n :: 0 <= n <= |t.items| ==> IsInt64(SumOf(Entries(t.items[..n])))
    ensures r == SumOf(Entries(t.items))
  {
    r := 0;
    var i := 0;
    while i < |t.items|
      invariant 0 <= i <= |t.items|
      invariant r == SumOf(Entries(t.items[..i]))
    {
      var x := t.items[i];
      assert t.items[..i + 1] == t.items[..i] + [x];
      EntriesSnoc(t.items[..i], x);
      if x.usable {
        SumOfSnoc(Entries(t.items[..i]), (x.key, x.value));
        r := Add(r, x.value);
      } else {
        assert Entries(t.items[..i + 1]) == Entries(t.items[..i]);
      }
      i := i + 1;
    }
    assert t.items[..i] == t.items;
  }

  /** Whether `v` is the value of one of the entries. */
  predicate HasValue(es: seq<(Key, int)>, v: int)
  {
    exists i :: 0 <= i < |es| && es[i].1 == v
  }

  /** `r` is what `ht_max` returns for entries `es`. */
  predicate IsMaxOf(es: seq<(Key, int)>, r: int)
  {
    (forall i :: 0 <= i < |es| ==> es[i].1 <= r) &&
    (if es == [] then r == INT64_MIN else HasValue(es, r))
  }

  /** `r` is what `ht_min` returns for entries `es`. */
  predicate IsMinOf(es: seq<(Key, int)>, r: int)
  {
    (forall i :: 0 <= i < |es| ==> r <= es[i].1) &&
    (if es == [] then r == INT64_MAX else HasValue(es, r))
  }

  lemma MaxSnoc(es: seq<(Key, int)>, e: (Key, int), r: int)
    requires IsMaxOf(es, r) && IsInt64(e.1)
    ensures IsMaxOf(es + [e], Max(r, e.1))
  {
    var es', m := es + [e], Max(r, e.1);
    if m == e.1 {
      assert es'[|es|].1 == m;
    } else {
      var j :| 0 <= j < |es| && es[j].1 == m;
      assert es'[j].1 == m;
    }
    assert forall i :: 0 <= i < |es| ==> es'[i] == es[i];
  }

  lemma MinSnoc(es: seq<(Key, int)>, e: (Key, int), r: int)
    requires IsMinOf(es, r) && IsInt64(e.1)
    ensures IsMinOf(es + [e], Min(r, e.1))
  {
    var es', m := es + [e], Min(r, e.1);
    if m == e.1 {
      assert es'[|es|].1 == m;
    } else {
      var j :| 0 <= j < |es| && es[j].1 == m;
      assert es'[j].1 == m;
    }
    assert forall i :: 0 <= i < |es| ==> es'[i] == es[i];
  }

  lemma MaxPrefix(items: seq<Item>, i: int, r: int)
    requires 0 <= i < |items| && IsInt64(items[i].value)
    requires IsMaxOf(Entries(items[..i]), r)
    ensures IsMaxOf(Entries(items[..i + 1]), if items[i].usable then Max(r, items[i].value) else r)
  {
    var x := items[i];
    assert items[..i + 1] == items[..i] + [x];
    EntriesSnoc(items[..i], x);
    if x.usable {
      MaxSnoc(Entries(items[..i]), (x.key, x.value), r);
    } else {
      assert Entries(items[..i + 1]) == Entries(items[..i]);
    }
  }

  /** `ht_max`: the largest live value, INT64_MIN for an empty table. */
  method MaxValue(t: Table) returns (r: int)
    requires forall i :: 0 <= i < |t.items| ==> IsInt64(t.items[i].value)
    ensures forall i :: 0 <= i < |Entries(t.items)| ==> Entries(t.items)[i].1 <= r
    ensures if Entries(t.items) == [] then r == INT64_MIN else HasValue(Entries(t.items), r)
  {
    r := INT64_MIN;
    var i := 0;
    while i < |t.items|
      invariant 0 <= i <= |t.items|
      invariant IsMaxOf(Entries(t.items[..i]), r)
    {
      var x := t.items[i];
      MaxPrefix(t.items, i, r);
      if x.usable {
        r := Max(r, x.value);
      }
      i := i + 1;
    }
    assert t.items[..i] == t.items;
  }

  lemma MinPrefix(items: seq<Item>, i: int, r: int)
    requires 0 <= i < |items| && IsInt64(items[i].value)
    requires IsMinOf(Entries(items[..i]), r)
    ensures IsMinOf(Entries(items[..i + 1]), if items[i].usable then Min(r, items[i].value) else r)
  {
    var x := items[i];
    assert items[..i + 1] == items[..i] + [x];
    EntriesSnoc(items[..i], x);
    if x.usable {
      MinSnoc(Entries(items[..i]), (x.key, x.value), r);
    } else {
      assert Entries(items[..i + 1]) == Entries(items[..i]);
    }
  }

  /** `ht_min`: the smallest live value, INT64_MAX for an empty table. */
  method MinValue(t: Table) returns (r: int)
    requires forall i :: 0 <= i < |t.items| ==> IsInt64(t.items[i].value)
    ensures forall i :: 0 <= i < |Entries(t.items)| ==> r <= Entries(t.items)[i].1
    ensures if Entries(t.items) == [] then r == INT64_MAX else HasValue(Entries(t.items), r)
  {
    r := INT64_MAX;
    var i := 0;
    while i < |t.items|
      invariant 0 <= i <= |t.items|
      invariant IsMinOf(Entries(t.items[..i]), r)
    {
      var x := t.items[i];
      MinPrefix(t.items, i, r);
      if x.usable {
        r := Min(r, x.value);
      }
      i := i + 1;
    }
    assert t.items[..i] == t.items;
  }

}
