/** The record tree of src/recordtree.c: the active slice of the record list
    grouped into years, months and days. All nodes except the root live in
    one array, day nodes first, then month nodes, then year nodes; each
    node's children are contiguous, a day node's children being a run of the
    slice's records. Node positions are indices here where the C code keeps
    pointers. */
module RecordTrees {
  import opened Base
  import opened Dates
  import opened Records
  import RecordLists
  import HashTables
  import HashUpdates
  import HashSorting

  /** A tree node: its id (day, month or year number), its number of
      children, and the index of its first child (a slice index for a day
      node, a node-array index otherwise). */
  datatype Node = Node(id: int, chlen: int, first: int)

  /** `st_nodes`, `st_uniquedates` and `st_root`. */
  datatype Tree = Tree(nodes: seq<Node>, days: int, root: Node)

  // ---------------------------------------------------------------------
  // Runs of equal keys

  predicate NonDecreasing(xs: seq<int>)
  {
    forall i, j :: 0 <= i < j < |xs| ==> xs[i] <= xs[j]
  }

  predicate Increasing(xs: seq<int>)
  {
    forall i, j :: 0 <= i < j < |xs| ==> xs[i] < xs[j]
  }

  /** The key of each maximal run of equal keys, in order: adjacent repeats
      collapsed. */
  function Distinct(xs: seq<int>): (r: seq<int>)
    ensures |r| <= |xs|
    ensures r == [] <==> xs == []
    ensures r != [] ==> r[|r| - 1] == xs[|xs| - 1]
  {
    if xs == [] then []
    else if |xs| >= 2 && xs[|xs| - 2] == xs[|xs| - 1] then Distinct(xs[..|xs| - 1])
    else Distinct(xs[..|xs| - 1]) + [xs[|xs| - 1]]
  }

  /** One more key either extends the last run or starts a new one. */
  lemma DistinctSnoc(xs: seq<int>, x: int)
    ensures Distinct(xs + [x]) ==
      if xs != [] && xs[|xs| - 1] == x then Distinct(xs) else Distinct(xs) + [x]
  {
    assert (xs + [x])[..|xs|] == xs;
  }

  /** The runs of a prefix are a prefix of the runs. */
  lemma {:induction false} DistinctPrefix(xs: seq<int>, i: int)
    requires 0 <= i <= |xs|
    ensures Distinct(xs[..i]) <= Distinct(xs)
  {
    if i < |xs| {
      var p := xs[..|xs| - 1];
      assert p[..i] == xs[..i];
      DistinctPrefix(p, i);
      assert Distinct(p) <= Distinct(xs);
    } else {
      assert xs[..i] == xs;
    }
  }

  /** Every key belongs to some run and every run's key is a key. */
  lemma {:induction false} DistinctMembers(xs: seq<int>)
    ensures forall x :: x in Distinct(xs) <==> x in xs
  {
    if xs != [] {
      var p := xs[..|xs| - 1];
      DistinctMembers(p);
      assert xs == p + [xs[|xs| - 1]];
    }
  }

  /** Sorted keys have strictly increasing run keys. */
  lemma {:induction false} DistinctIncreasing(xs: seq<int>)
    requires NonDecreasing(xs)
    ensures Increasing(Distinct(xs))
  {
    if xs != [] {
      var p := xs[..|xs| - 1];
      var x := xs[|xs| - 1];
      DistinctIncreasing(p);
      var q := Distinct(p);
      if !(|xs| >= 2 && xs[|xs| - 2] == x) && q != [] {
        var r := q + [x];
        assert q[|q| - 1] == xs[|xs| - 2] < x;
        forall i, j | 0 <= i < j < |r|
          ensures r[i] < r[j]
        {
          if j < |q| {
            assert r[i] == q[i] && r[j] == q[j];
          } else if i < |q| - 1 {
            assert r[i] == q[i] < q[|q| - 1];
          }
        }
      }
    }
  }

  ghost predicate SameMembers(a: seq<int>, b: seq<int>)
  {
    forall x :: x in a <==> x in b
  }

  /** Increasing sequences with the same members end alike. */
  lemma SameLast(a: seq<int>, b: seq<int>)
    requires Increasing(a) && Increasing(b) && SameMembers(a, b) && a != []
    ensures b != [] && a[|a| - 1] == b[|b| - 1]
  {
    var x := a[|a| - 1];
    assert x in a;
    var i :| 0 <= i < |b| && b[i] == x;
    var y := b[|b| - 1];
    assert y in b;
    var j :| 0 <= j < |a| && a[j] == y;
    assert x <= y && y <= x;
  }

  /** A member other than the common last one stays a member once the last
      elements are dropped. */
  lemma InitMember(a: seq<int>, b: seq<int>, z: int)
    requires Increasing(a) && Increasing(b) && SameMembers(a, b) && a != [] && b != []
    requires a[|a| - 1] == b[|b| - 1] && z in a[..|a| - 1]
    ensures z in b[..|b| - 1]
  {
    var i :| 0 <= i < |a| - 1 && a[..|a| - 1][i] == z;
    assert a[i] == z && z in a;
    var j :| 0 <= j < |b| && b[j] == z;
    assert j < |b| - 1;
    assert b[..|b| - 1][j] == z;
  }

  /** Two strictly increasing sequences with the same members are equal. */
  lemma {:induction false} IncreasingUnique(a: seq<int>, b: seq<int>)
    requires Increasing(a) && Increasing(b)
    requires forall x :: x in a <==> x in b
    ensures a == b
    decreases |a|
  {
    assert SameMembers(a, b) && SameMembers(b, a);
    if a != [] {
      SameLast(a, b);
      var p, q := a[..|a| - 1], b[..|b| - 1];
      forall z
        ensures z in p <==> z in q
      {
        if z in p {
          InitMember(a, b, z);
        }
        if z in q {
          InitMember(b, a, z);
        }
      }
      IncreasingUnique(p, q);
      assert a == p + [a[|a| - 1]] && b == q + [b[|b| - 1]];
    } else if b != [] {
      SameLast(b, a);
    }
  }

  /** A strictly increasing sequence has as many members as elements. */
  lemma {:induction false} IncreasingCard(xs: seq<int>)
    requires Increasing(xs)
    ensures |set x | x in xs| == |xs|
  {
    if xs != [] {
      var p, y := xs[..|xs| - 1], xs[|xs| - 1];
      IncreasingCard(p);
      assert xs == p + [y];
      assert y !in p;
      assert (set x | x in xs) == (set x | x in p) + {y};
    }
  }

  /** The same count for the integer keys of the elements. */
  lemma {:induction false} IncreasingKeyCard(xs: seq<int>)
    requires Increasing(xs)
    ensures |KeysOf(xs)| == |xs|
  {
    if xs != [] {
      var p, y := xs[..|xs| - 1], xs[|xs| - 1];
      IncreasingKeyCard(p);
      assert xs == p + [y];
      assert y !in p;
      assert KeysOf(xs) == KeysOf(p) + {HashTables.IntKey(y)};
    }
  }

  /** The hash-table keys of some integers. */
  function KeysOf(xs: seq<int>): set<HashTables.Key>
  {
    set x | x in xs :: HashTables.IntKey(x)
  }

  /** Appending a run of one key after a different key adds exactly that
      key. */
  lemma {:induction false} DistinctRun(xs: seq<int>, i: int, j: int)
    requires 0 <= i < j <= |xs|
    requires forall p :: i <= p < j ==> xs[p] == xs[i]
    requires i > 0 ==> xs[i - 1] != xs[i]
    ensures Distinct(xs[..j]) == Distinct(xs[..i]) + [xs[i]]
  {
    var p := xs[..j - 1];
    assert xs[..j] == p + [xs[j - 1]];
    DistinctSnoc(p, xs[j - 1]);
    if j == i + 1 {
      assert p == xs[..i];
    } else {
      DistinctRun(xs, i, j - 1);
      assert p[|p| - 1] == xs[j - 2] == xs[i] == xs[j - 1];
    }
  }

  // ---------------------------------------------------------------------
  // Nodes covering runs

  /** One past a node's last child. */
  function End(n: Node): int
  {
    n.first + n.chlen
  }

  /** `nodes` cut `keys` into its maximal runs, in order: node `j` covers
      the positions from `nodes[j].first - base` up to `End(nodes[j]) - base`,
      whose keys all equal `rep[j]`; the nodes follow one another without a
      gap from `base` to `base + |keys|`, each covers at least one key, and
      neighbouring runs have different keys. */
  predicate Spans(keys: seq<int>, base: int, nodes: seq<Node>, rep: seq<int>)
  {
    && |nodes| == |rep|
    && (nodes == [] <==> keys == [])
    && (forall j :: 0 <= j < |nodes| ==> nodes[j].chlen >= 1)
    && (nodes != [] ==> nodes[0].first == base && End(nodes[|nodes| - 1]) == base + |keys|)
    && (forall j :: 0 <= j < |nodes| - 1 ==> nodes[j + 1].first == End(nodes[j]))
    && (forall j, i :: 0 <= j < |nodes| && 0 <= i < |keys| && nodes[j].first <= base + i < End(nodes[j]) ==>
          keys[i] == rep[j])
    && (forall j :: 0 <= j < |rep| - 1 ==> rep[j] != rep[j + 1])
  }

  /** The last key belongs to the last run. */
  lemma SpansLast(keys: seq<int>, base: int, nodes: seq<Node>, rep: seq<int>)
    requires Spans(keys, base, nodes, rep) && keys != []
    ensures keys[|keys| - 1] == rep[|rep| - 1]
  {
    var last := nodes[|nodes| - 1];
    assert last.first <= base + |keys| - 1 < End(last);
  }

  /** A key equal to the last one lengthens the last run by one. */
  lemma SpansGrow(keys: seq<int>, base: int, nodes: seq<Node>, rep: seq<int>, x: int)
    requires Spans(keys, base, nodes, rep) && keys != [] && keys[|keys| - 1] == x
    ensures var last := nodes[|nodes| - 1];
      Spans(keys + [x], base, nodes[|nodes| - 1 := last.(chlen := last.chlen + 1)], rep)
  {
    SpansLast(keys, base, nodes, rep);
    var last := nodes[|nodes| - 1];
    var ks, ns := keys + [x], nodes[|nodes| - 1 := last.(chlen := last.chlen + 1)];
    forall j, i | 0 <= j < |ns| && 0 <= i < |ks| && ns[j].first <= base + i < End(ns[j])
      ensures ks[i] == rep[j]
    {
      if i < |keys| {
        assert ks[i] == keys[i];
        if j == |ns| - 1 {
          assert nodes[j].first <= base + i < End(nodes[j]);
        } else {
          assert ns[j] == nodes[j];
        }
      } else if j < |ns| - 1 {
        SpansOrdered(keys, base, nodes, rep, j);
        assert false;
      }
    }
  }

  /** A key different from the last one starts a run of its own. */
  lemma SpansStart(keys: seq<int>, base: int, nodes: seq<Node>, rep: seq<int>, x: int, id: int)
    requires Spans(keys, base, nodes, rep) && (keys == [] || keys[|keys| - 1] != x)
    ensures Spans(keys + [x], base, nodes + [Node(id, 1, base + |keys|)], rep + [x])
  {
    if keys != [] {
      SpansLast(keys, base, nodes, rep);
    }
    var ks, ns, rs := keys + [x], nodes + [Node(id, 1, base + |keys|)], rep + [x];
    forall j, i | 0 <= j < |ns| && 0 <= i < |ks| && ns[j].first <= base + i < End(ns[j])
      ensures ks[i] == rs[j]
    {
      if j < |nodes| {
        assert ns[j] == nodes[j] && rs[j] == rep[j];
        assert End(nodes[j]) <= base + |keys| by {
          SpansOrdered(keys, base, nodes, rep, j);
        }
        assert ks[i] == keys[i];
      }
    }
  }

  /** Every node ends no later than the last one starts, or is the last. */
  lemma {:induction false} SpansOrdered(keys: seq<int>, base: int, nodes: seq<Node>, rep: seq<int>, j: int)
    requires Spans(keys, base, nodes, rep) && 0 <= j < |nodes|
    ensures j < |nodes| - 1 ==> End(nodes[j]) <= nodes[|nodes| - 1].first
    ensures End(nodes[j]) <= base + |keys|
    ensures base <= nodes[j].first
    decreases |nodes| - j
  {
    if j < |nodes| - 1 {
      SpansOrdered(keys, base, nodes, rep, j + 1);
    }
    if j > 0 {
      SpansAfter(keys, base, nodes, rep, j);
    }
  }

  lemma {:induction false} SpansAfter(keys: seq<int>, base: int, nodes: seq<Node>, rep: seq<int>, j: int)
    requires Spans(keys, base, nodes, rep) && 0 <= j < |nodes|
    ensures base <= nodes[j].first
  {
    if j > 0 {
      SpansAfter(keys, base, nodes, rep, j - 1);
    }
  }

  /** A whole run of one key, after a different key, becomes one node. */
  lemma SpansRun(keys: seq<int>, base: int, nodes: seq<Node>, rep: seq<int>, i: int, j: int, id: int)
    requires 0 <= i < j <= |keys| && Spans(keys[..i], base, nodes, rep)
    requires forall p :: i <= p < j ==> keys[p] == keys[i]
    requires i > 0 ==> keys[i - 1] != keys[i]
    ensures Spans(keys[..j], base, nodes + [Node(id, j - i, base + i)], rep + [keys[i]])
  {
    var ks, ns, rs := keys[..j], nodes + [Node(id, j - i, base + i)], rep + [keys[i]];
    if i > 0 {
      SpansLast(keys[..i], base, nodes, rep);
    }
    forall a, b | 0 <= a < |ns| && 0 <= b < |ks| && ns[a].first <= base + b < End(ns[a])
      ensures ks[b] == rs[a]
    {
      if a < |nodes| {
        assert ns[a] == nodes[a] && rs[a] == rep[a];
        SpansOrdered(keys[..i], base, nodes, rep, a);
        assert keys[..i][b] == ks[b];
      }
    }
  }

  // ---------------------------------------------------------------------
  // Dates, months and years as keys

  /** A valid date's components are its decimal digit groups. */
  lemma DateParts(dt: int)
    requires IsDate(dt)
    ensures 10000 <= dt < 100000000
    ensures GetY(dt) == dt / 10000 == dt / 100 / 100
    ensures GetM(dt) == dt / 100 % 100 && GetD(dt) == dt % 100
  {
    ValidIsPacked(dt);
  }

  /** Two valid dates share year and month exactly when they share
      `dt / 100`. */
  lemma SameMonth(a: int, b: int)
    requires IsDate(a) && IsDate(b)
    ensures GetY(a) == GetY(b) && GetM(a) == GetM(b) <==> a / 100 == b / 100
  {
    DateParts(a);
    DateParts(b);
  }

  /** The next coarser key of each key: year-month of a date, year of a
      year-month. */
  function Parent(xs: seq<int>): (r: seq<int>)
    ensures |r| == |xs|
  {
    seq(|xs|, i requires 0 <= i < |xs| => xs[i] / 100)
  }

  lemma ParentSnoc(xs: seq<int>, x: int)
    ensures Parent(xs + [x]) == Parent(xs) + [x / 100]
  {
  }

  lemma ParentSorted(xs: seq<int>)
    requires NonDecreasing(xs)
    ensures NonDecreasing(Parent(xs))
  {
    forall i, j | 0 <= i < j < |xs|
      ensures xs[i] / 100 <= xs[j] / 100
    {
      assert xs[i] <= xs[j];
    }
  }

  /** The table keys `dt / d` for the dates of `ds`. */
  function KeysBy(ds: seq<int>, d: int): set<HashTables.Key>
    requires d > 0
  {
    set x | x in ds :: HashTables.IntKey(x / d)
  }

  /** A run of the date `dt` adds the one key `dt / d`. */
  lemma KeysStep(ds: seq<int>, i: int, j: int, d: int)
    requires 0 <= i < j <= |ds| && d > 0
    requires forall p :: i <= p < j ==> ds[p] == ds[i]
    ensures KeysBy(ds[..j], d) == KeysBy(ds[..i], d) + {HashTables.IntKey(ds[i] / d)}
  {
    forall x | x in ds[..j]
      ensures x in ds[..i] || x == ds[i]
    {
      var p :| 0 <= p < j && ds[..j][p] == x;
      if p < i {
        assert ds[..i][p] == x;
      }
    }
    assert ds[..j][i] == ds[i];
    forall x | x in ds[..i]
      ensures x in ds[..j]
    {
      var p :| 0 <= p < i && ds[..i][p] == x;
      assert ds[..j][p] == x;
    }
  }

  /** The dates of a slice, in order. */
  function DatesOf(s: seq<Record>): (r: seq<int>)
    ensures |r| == |s|
  {
    seq(|s|, i requires 0 <= i < |s| => s[i].dt)
  }

  /** What the three counting tables of `rt_init` hold once the slice up to
      `i` has been scanned. */
  predicate Counted(ds: seq<int>, i: int, dc: HashTables.Table, mc: HashTables.Table, yc: HashTables.Table)
    requires 0 <= i <= |ds|
  {
    && HashTables.Inv(dc) && HashTables.Inv(mc) && HashTables.Inv(yc)
    && dc.ktype == HashTables.HtInt && mc.ktype == HashTables.HtInt && yc.ktype == HashTables.HtInt
    && HashTables.Contents(dc).Keys == KeysBy(ds[..i], 1)
    && HashTables.Contents(mc).Keys == KeysBy(ds[..i], 100)
    && HashTables.Contents(yc).Keys == KeysBy(ds[..i], 10000)
  }

  /** `ht_insert` of a key, present or not, adds it to the key set. */
  method AddKey(t: HashTables.Table, key: HashTables.Key) returns (r: HashTables.Table)
    requires HashTables.Inv(t) && HashTables.KeyOk(t.ktype, key)
    ensures HashTables.Inv(r) && r.ktype == t.ktype
    ensures HashTables.Contents(r).Keys == HashTables.Contents(t).Keys + {key}
  {
    var v;
    r, v := HashUpdates.Insert(t, key, 0);
  }

  /** The first loop of `rt_init`: for each run of equal dates in the slice,
      insert the date, its year-month `dt / 100` and its year `dt / 10000`
      into three integer tables. Afterwards each table's keys are exactly
      the distinct keys of its kind in the slice. */
  method CountKeys(s: seq<Record>) returns (dc: HashTables.Table, mc: HashTables.Table, yc: HashTables.Table)
    requires forall i :: 0 <= i < |s| ==> IsDate(s[i].dt)
    ensures Counted(DatesOf(s), |s|, dc, mc, yc)
  {
    ghost var ds := DatesOf(s);
    dc, mc, yc := HashUpdates.New(HashTables.HtInt), HashUpdates.New(HashTables.HtInt), HashUpdates.New(HashTables.HtInt);
    var i := 0;
    while i < |s|
      invariant 0 <= i <= |s| && Counted(ds, i, dc, mc, yc)
      decreases |s| - i
    {
      var j := RunEnd(s, i);
      dc, mc, yc := CountRun(s, i, j, dc, mc, yc);
      i := j;
    }
    assert ds[..|s|] == ds;
  }

  /** The inner scan: past every record dated like the one at `i`. */
  method RunEnd(s: seq<Record>, i: int) returns (j: int)
    requires 0 <= i < |s|
    ensures i < j <= |s| && (j < |s| ==> s[j].dt != s[i].dt)
    ensures forall p :: i <= p < j ==> s[p].dt == s[i].dt
  {
    var dt := s[i].dt;
    j := i;
    while j < |s| && dt == s[j].dt
      invariant i <= j <= |s|
      invariant forall p :: i <= p < j ==> s[p].dt == dt
      decreases |s| - j
    {
      j := j + 1;
    }
  }

  /** Insert one run's date, year-month and year. */
  method CountRun(s: seq<Record>, i: int, j: int, dc: HashTables.Table, mc: HashTables.Table, yc: HashTables.Table)
    returns (dc': HashTables.Table, mc': HashTables.Table, yc': HashTables.Table)
    requires 0 <= i < j <= |s| && Counted(DatesOf(s), i, dc, mc, yc) && IsDate(s[i].dt)
    requires forall p :: i <= p < j ==> s[p].dt == s[i].dt
    ensures Counted(DatesOf(s), j, dc', mc', yc')
  {
    ghost var ds := DatesOf(s);
    var dt := s[i].dt;
    DateParts(dt);
    KeysStep(ds, i, j, 1);
    KeysStep(ds, i, j, 100);
    KeysStep(ds, i, j, 10000);
    dc' := AddKey(dc, HashTables.IntKey(dt));
    mc' := AddKey(mc, HashTables.IntKey(dt / 100));
    yc' := AddKey(yc, HashTables.IntKey(dt / 10000));
  }

  // ---------------------------------------------------------------------
  // The sorted date table

  /** Items that are a rearrangement of live items are all live. */
  lemma AllUsable(items: seq<HashTables.Item>, live: seq<HashTables.Item>)
    requires multiset(items) == multiset(live)
    requires forall i :: 0 <= i < |live| ==> live[i].usable
    ensures forall i :: 0 <= i < |items| ==> items[i].usable
  {
    forall i | 0 <= i < |items|
      ensures items[i].usable
    {
      assert items[i] in multiset(live);
    }
  }

  /** Without dead items the entries are the items' keys and values. */
  lemma {:induction false} EntriesOfLive(items: seq<HashTables.Item>)
    requires forall i :: 0 <= i < |items| ==> items[i].usable
    ensures var es := HashTables.Entries(items);
      |es| == |items| && forall k :: 0 <= k < |es| ==> es[k].0 == items[k].key
  {
    if items != [] {
      var p := items[..|items| - 1];
      EntriesOfLive(p);
      assert forall k :: 0 <= k < |p| ==> p[k] == items[k];
    }
  }

  /** The integers a table sorted ascending by key yields, in order. */
  function KeyInts(items: seq<HashTables.Item>): (r: seq<int>)
    ensures |r| == |items|
  {
    seq(|items|, k requires 0 <= k < |items| => if items[k].key.IntKey? then items[k].key.n else 0)
  }

  /** The integer keys of an integer table's items. */
  lemma IntKeys(r: HashTables.Table)
    requires HashTables.Inv(r) && r.ktype == HashTables.HtInt
    ensures forall k :: 0 <= k < |r.items| ==> r.items[k].key == HashTables.IntKey(KeyInts(r.items)[k])
  {
    forall k | 0 <= k < |r.items|
      ensures r.items[k].key == HashTables.IntKey(KeyInts(r.items)[k])
    {
      assert HashTables.ItemOk(HashTables.HtInt, r.items[k]);
    }
  }

  /** The live keys of a table holding exactly the keys of `ds` are the
      members of `ds`. */
  lemma KeyIntsMembers(r: HashTables.Table, ds: seq<int>)
    requires HashTables.Inv(r) && r.ktype == HashTables.HtInt
    requires forall i :: 0 <= i < |r.items| ==> r.items[i].usable
    requires HashTables.Contents(r).Keys == KeysBy(ds, 1)
    ensures forall x :: x in KeyInts(r.items) <==> x in ds
  {
    var items, e := r.items, KeyInts(r.items);
    IntKeys(r);
    forall x
      ensures x in e <==> x in ds
    {
      if x in e {
        var k :| 0 <= k < |e| && e[k] == x;
        HashTables.LiveInContents(items, k);
        assert HashTables.IntKey(x) in KeysBy(ds, 1);
      }
      if x in ds {
        assert HashTables.IntKey(x / 1) in KeysBy(ds, 1);
        HashTables.ContentsHasLive(items, HashTables.IntKey(x));
        var i :| 0 <= i < |items| && items[i].usable && items[i].key == HashTables.IntKey(x);
        assert e[i] == x;
      }
    }
  }

  /** Integer keys in ascending key order are increasing integers. */
  lemma KeyIntsIncreasing(items: seq<HashTables.Item>)
    requires forall k :: 0 <= k < |items| ==> items[k].key == HashTables.IntKey(KeyInts(items)[k])
    requires HashSorting.InOrder(items, true, true)
    ensures Increasing(KeyInts(items))
  {
    var e := KeyInts(items);
    forall i, j | 0 <= i < j < |e|
      ensures e[i] < e[j]
    {
      assert HashSorting.KeyCmp(items[i].key, items[j].key) == -1;
    }
  }

  /** After `ht_sort(dcounter, true, true)` the table's items, all live, are
      the distinct dates in ascending order. */
  lemma SortedDates(r: HashTables.Table, ds: seq<int>)
    requires HashTables.Inv(r) && r.ktype == HashTables.HtInt
    requires forall i :: 0 <= i < |r.items| ==> r.items[i].usable
    requires HashSorting.InOrder(r.items, true, true)
    requires HashTables.Contents(r).Keys == KeysBy(ds, 1)
    requires NonDecreasing(ds)
    ensures var es := HashTables.Entries(r.items);
      |es| == |Distinct(ds)| && forall k :: 0 <= k < |es| ==> es[k].0 == HashTables.IntKey(Distinct(ds)[k])
  {
    var items, e := r.items, KeyInts(r.items);
    IntKeys(r);
    KeyIntsIncreasing(items);
    KeyIntsMembers(r, ds);
    DistinctMembers(ds);
    DistinctIncreasing(ds);
    IncreasingUnique(e, Distinct(ds));
    EntriesOfLive(items);
  }

  // ---------------------------------------------------------------------
  // Day, month and year nodes

  /** One day node per date, with the day as id. */
  predicate DaysPlaced(ds: seq<int>, dn: seq<Node>)
  {
    |dn| == |ds| && forall k :: 0 <= k < |ds| ==> dn[k].id == GetD(ds[k])
  }

  /** Month nodes covering the runs of equal year-month `M` among the day
      nodes, with the month as id. */
  predicate MonthsPlaced(ds: seq<int>, M: seq<int>, mn: seq<Node>)
  {
    Spans(Parent(ds), 0, mn, M) && forall j :: 0 <= j < |mn| ==> mn[j].id == M[j] % 100
  }

  /** Year nodes covering the runs of equal year `Y` among the year-months
      `M`, whose nodes sit from `base` on in the node array, with the year as
      id. */
  predicate YearsPlaced(M: seq<int>, Y: seq<int>, base: int, yn: seq<Node>)
  {
    Spans(Parent(M), base, yn, Y) && forall j :: 0 <= j < |yn| ==> yn[j].id == Y[j]
  }

  /** The nodes `rt_init` has made for the ascending distinct dates `ds`,
      whose distinct year-months are `M` and distinct years `Y`. */
  predicate Placed(ds: seq<int>, M: seq<int>, Y: seq<int>, base: int, dn: seq<Node>, mn: seq<Node>, yn: seq<Node>)
  {
    DaysPlaced(ds, dn) && MonthsPlaced(ds, M, mn) && YearsPlaced(M, Y, base, yn)
  }

  /** The last node with one more child. */
  function GrowLast(ns: seq<Node>): (r: seq<Node>)
    requires ns != []
    ensures |r| == |ns| && r[..|ns| - 1] == ns[..|ns| - 1]
    ensures r[|ns| - 1] == ns[|ns| - 1].(chlen := ns[|ns| - 1].chlen + 1)
  {
    ns[|ns| - 1 := ns[|ns| - 1].(chlen := ns[|ns| - 1].chlen + 1)]
  }

  lemma DaysSnoc(ds: seq<int>, dn: seq<Node>, dt: int)
    requires DaysPlaced(ds, dn)
    ensures DaysPlaced(ds + [dt], dn + [Node(GetD(dt), 0, 0)])
  {
    var ds', dn' := ds + [dt], dn + [Node(GetD(dt), 0, 0)];
    assert forall k :: 0 <= k < |ds| ==> ds'[k] == ds[k] && dn'[k] == dn[k];
  }

  /** A date in the same year-month as the previous one joins its month. */
  lemma MonthsGrow(ds: seq<int>, M: seq<int>, mn: seq<Node>, dt: int)
    requires MonthsPlaced(ds, M, mn) && ds != [] && ds[|ds| - 1] / 100 == dt / 100
    ensures MonthsPlaced(ds + [dt], M, GrowLast(mn))
  {
    ParentSnoc(ds, dt);
    SpansGrow(Parent(ds), 0, mn, M, dt / 100);
  }

  /** A date in a new year-month starts a month node. */
  lemma MonthsStart(ds: seq<int>, M: seq<int>, mn: seq<Node>, dt: int)
    requires MonthsPlaced(ds, M, mn) && (ds == [] || ds[|ds| - 1] / 100 != dt / 100)
    ensures MonthsPlaced(ds + [dt], M + [dt / 100], mn + [Node(dt / 100 % 100, 1, |ds|)])
  {
    ParentSnoc(ds, dt);
    SpansStart(Parent(ds), 0, mn, M, dt / 100, dt / 100 % 100);
    var M', mn' := M + [dt / 100], mn + [Node(dt / 100 % 100, 1, |ds|)];
    assert forall j :: 0 <= j < |mn| ==> mn'[j] == mn[j] && M'[j] == M[j];
  }

  /** A month of the same year as the previous month joins its year. */
  lemma YearsGrow(M: seq<int>, Y: seq<int>, base: int, yn: seq<Node>, x: int)
    requires YearsPlaced(M, Y, base, yn) && M != [] && M[|M| - 1] / 100 == x / 100
    ensures YearsPlaced(M + [x], Y, base, GrowLast(yn))
  {
    ParentSnoc(M, x);
    SpansGrow(Parent(M), base, yn, Y, x / 100);
  }

  /** A month of a new year starts a year node. */
  lemma YearsStart(M: seq<int>, Y: seq<int>, base: int, yn: seq<Node>, x: int)
    requires YearsPlaced(M, Y, base, yn) && (M == [] || M[|M| - 1] / 100 != x / 100)
    ensures YearsPlaced(M + [x], Y + [x / 100], base, yn + [Node(x / 100, 1, base + |M|)])
  {
    ParentSnoc(M, x);
    SpansStart(Parent(M), base, yn, Y, x / 100, x / 100);
    var Y', yn' := Y + [x / 100], yn + [Node(x / 100, 1, base + |M|)];
    assert forall j :: 0 <= j < |yn| ==> yn'[j] == yn[j] && Y'[j] == Y[j];
  }

  /** The last year-month of the month runs is the last date's. */
  lemma LastMonth(ds: seq<int>, M: seq<int>, mn: seq<Node>)
    requires MonthsPlaced(ds, M, mn) && ds != []
    ensures |M| == |mn| && M != [] && M[|M| - 1] == ds[|ds| - 1] / 100
  {
    SpansLast(Parent(ds), 0, mn, M);
  }

  /** The three outcomes of one date, on all levels at once. */
  lemma PlaceSameMonth(ds: seq<int>, M: seq<int>, Y: seq<int>, base: int, dn: seq<Node>, mn: seq<Node>, yn: seq<Node>, dt: int)
    requires Placed(ds, M, Y, base, dn, mn, yn) && ds != [] && ds[|ds| - 1] / 100 == dt / 100
    ensures Placed(ds + [dt], M, Y, base, dn + [Node(GetD(dt), 0, 0)], GrowLast(mn), yn)
  {
    DaysSnoc(ds, dn, dt);
    MonthsGrow(ds, M, mn, dt);
  }

  lemma PlaceSameYear(ds: seq<int>, M: seq<int>, Y: seq<int>, base: int, dn: seq<Node>, mn: seq<Node>, yn: seq<Node>, dt: int)
    requires Placed(ds, M, Y, base, dn, mn, yn) && ds != [] && ds[|ds| - 1] / 100 != dt / 100
    requires ds[|ds| - 1] / 100 / 100 == dt / 100 / 100
    ensures Placed(ds + [dt], M + [dt / 100], Y, base, dn + [Node(GetD(dt), 0, 0)],
      mn + [Node(dt / 100 % 100, 1, |ds|)], GrowLast(yn))
  {
    LastMonth(ds, M, mn);
    DaysSnoc(ds, dn, dt);
    MonthsStart(ds, M, mn, dt);
    YearsGrow(M, Y, base, yn, dt / 100);
  }

  lemma PlaceNewYear(ds: seq<int>, M: seq<int>, Y: seq<int>, base: int, dn: seq<Node>, mn: seq<Node>, yn: seq<Node>, dt: int)
    requires Placed(ds, M, Y, base, dn, mn, yn)
    requires ds == [] || ds[|ds| - 1] / 100 / 100 != dt / 100 / 100
    ensures Placed(ds + [dt], M + [dt / 100], Y + [dt / 100 / 100], base, dn + [Node(GetD(dt), 0, 0)],
      mn + [Node(dt / 100 % 100, 1, |ds|)], yn + [Node(dt / 100 / 100, 1, base + |mn|)])
  {
    if ds != [] {
      LastMonth(ds, M, mn);
    } else {
      assert |M| == |mn| == 0;
    }
    DaysSnoc(ds, dn, dt);
    MonthsStart(ds, M, mn, dt);
    YearsStart(M, Y, base, yn, dt / 100);
  }

  /** One pass of the `ht_foreach` loop in `rt_init`: a day node for `dt`;
      then, unless year and month equal the previous date's, a new month
      node, and a new year node unless the year is the previous one. */
  method Place(ghost ds: seq<int>, ghost M: seq<int>, ghost Y: seq<int>, base: int,
               dn: seq<Node>, mn: seq<Node>, yn: seq<Node>, prevy: int, prevm: int, dt: int)
    returns (dn': seq<Node>, mn': seq<Node>, yn': seq<Node>)
    requires Placed(ds, M, Y, base, dn, mn, yn) && IsDate(dt)
    requires ds == [] ==> prevy == -1 && prevm == -1
    requires ds != [] ==> IsDate(ds[|ds| - 1]) && prevy == GetY(ds[|ds| - 1]) && prevm == GetM(ds[|ds| - 1])
    ensures Placed(ds + [dt], NextReps(ds, M, dt), NextReps(M, Y, dt / 100), base, dn', mn', yn')
  {
    var y, m, d := GetY(dt), GetM(dt), GetD(dt);
    SameYearMonth(ds, prevy, prevm, dt);
    if ds != [] {
      LastMonth(ds, M, mn);
    }
    dn' := dn + [Node(d, 0, 0)];
    if y == prevy && m == prevm {
      PlaceSameMonth(ds, M, Y, base, dn, mn, yn, dt);
      mn' := GrowLast(mn);
      yn' := yn;
    } else if y == prevy {
      PlaceSameYear(ds, M, Y, base, dn, mn, yn, dt);
      mn' := mn + [Node(m, 1, |dn|)];
      yn' := GrowLast(yn);
    } else {
      PlaceNewYear(ds, M, Y, base, dn, mn, yn, dt);
      mn' := mn + [Node(m, 1, |dn|)];
      yn' := yn + [Node(y, 1, base + |mn|)];
    }
  }

  /** The distinct coarser keys after one more key `x` whose coarser key
      is `x / 100`, given those of `xs` are `R`. */
  ghost function NextReps(xs: seq<int>, R: seq<int>, x: int): seq<int>
  {
    if xs != [] && xs[|xs| - 1] / 100 == x / 100 then R else R + [x / 100]
  }

  /** `NextReps` follows `Distinct` of the parents. */
  lemma NextRepsDistinct(xs: seq<int>, x: int)
    ensures NextReps(xs, Distinct(Parent(xs)), x) == Distinct(Parent(xs + [x]))
  {
    var P := Parent(xs);
    ParentSnoc(xs, x);
    if xs != [] {
      assert P[|P| - 1] == xs[|xs| - 1] / 100;
    }
    DistinctSnoc(P, x / 100);
  }

  /** The C comparisons with the previous date's components, as key
      comparisons. */
  lemma SameYearMonth(ds: seq<int>, prevy: int, prevm: int, dt: int)
    requires IsDate(dt)
    requires ds == [] ==> prevy == -1 && prevm == -1
    requires ds != [] ==> IsDate(ds[|ds| - 1]) && prevy == GetY(ds[|ds| - 1]) && prevm == GetM(ds[|ds| - 1])
    ensures GetY(dt) == prevy <==> ds != [] && ds[|ds| - 1] / 100 / 100 == dt / 100 / 100
    ensures GetY(dt) == prevy && GetM(dt) == prevm <==> ds != [] && ds[|ds| - 1] / 100 == dt / 100
    ensures GetD(dt) == dt % 100 && GetM(dt) == dt / 100 % 100 && GetY(dt) == dt / 100 / 100
  {
    DateParts(dt);
    if ds != [] {
      SameMonth(ds[|ds| - 1], dt);
      DateParts(ds[|ds| - 1]);
    }
  }

  /** The representatives two levels up move in step with one more date. */
  lemma RepsStep(ds: seq<int>, dt: int)
    ensures var M := Distinct(Parent(ds));
      var M' := NextReps(ds, M, dt);
      M' == Distinct(Parent(ds + [dt])) && NextReps(M, Distinct(Parent(M)), dt / 100) == Distinct(Parent(M'))
  {
    var M := Distinct(Parent(ds));
    NextRepsDistinct(ds, dt);
    if ds != [] && ds[|ds| - 1] / 100 == dt / 100 {
      assert Parent(ds)[|ds| - 1] == ds[|ds| - 1] / 100;
      assert M[|M| - 1] == dt / 100;
    } else {
      NextRepsDistinct(M, dt / 100);
    }
  }

  /** The dates every loop pass of `Layout` has placed. */
  predicate Laid(D: seq<int>, k: int, base: int, dn: seq<Node>, mn: seq<Node>, yn: seq<Node>)
    requires 0 <= k <= |D|
  {
    var M := Distinct(Parent(D[..k]));
    Placed(D[..k], M, Distinct(Parent(M)), base, dn, mn, yn)
  }

  /** One pass of the loop of `Layout`, for the date `D[k]`. */
  method LayoutStep(ghost D: seq<int>, ghost k: int, base: int, dn: seq<Node>, mn: seq<Node>, yn: seq<Node>,
                    prevy: int, prevm: int, dt: int)
    returns (dn': seq<Node>, mn': seq<Node>, yn': seq<Node>)
    requires 0 <= k < |D| && D[k] == dt && forall i :: 0 <= i <= k ==> IsDate(D[i])
    requires Laid(D, k, base, dn, mn, yn)
    requires k == 0 ==> prevy == -1 && prevm == -1
    requires k > 0 ==> prevy == GetY(D[k - 1]) && prevm == GetM(D[k - 1])
    ensures Laid(D, k + 1, base, dn', mn', yn')
  {
    ghost var ds := D[..k];
    ghost var M := Distinct(Parent(ds));
    assert ds != [] ==> ds[|ds| - 1] == D[k - 1];
    dn', mn', yn' := Place(ds, M, Distinct(Parent(M)), base, dn, mn, yn, prevy, prevm, dt);
    RepsStep(ds, dt);
    TakeSnoc(D, k);
  }

  lemma TakeSnoc(D: seq<int>, k: int)
    requires 0 <= k < |D|
    ensures D[..k + 1] == D[..k] + [D[k]]
  {
  }

  /** The `ht_foreach` loop of `rt_init` over the date table sorted
      ascending, whose entries in iteration order are the dates `D`: the
      loop lays out the day, month and year nodes for them. The loop runs
      over `Entries`, the sequence `ht_next` yields (`Collect` in the hash
      table model). */
  method Layout(t: HashTables.Table, ghost D: seq<int>, base: int) returns (dn: seq<Node>, mn: seq<Node>, yn: seq<Node>)
    requires |HashTables.Entries(t.items)| == |D|
    requires forall k :: 0 <= k < |D| ==> HashTables.Entries(t.items)[k].0 == HashTables.IntKey(D[k]) && IsDate(D[k])
    ensures var M := Distinct(Parent(D));
      DaysPlaced(D, dn) && MonthsPlaced(D, M, mn) && YearsPlaced(M, Distinct(Parent(M)), base, yn)
  {
    var es := HashTables.Entries(t.items);
    var prevy, prevm := -1, -1;
    dn, mn, yn := [], [], [];
    var k := 0;
    assert D[..0] == [];
    while k < |es|
      invariant 0 <= k <= |D| && Laid(D, k, base, dn, mn, yn)
      invariant k == 0 ==> prevy == -1 && prevm == -1
      invariant k > 0 ==> prevy == GetY(D[k - 1]) && prevm == GetM(D[k - 1])
    {
      var dt := es[k].0.n;
      dn, mn, yn := LayoutStep(D, k, base, dn, mn, yn, prevy, prevm, dt);
      prevy, prevm := GetY(dt), GetM(dt);
      k := k + 1;
    }
    LaidAll(D, base, dn, mn, yn);
  }

  // ---------------------------------------------------------------------
  // Records attached to day nodes

  /** After the runs of `ds` up to `i`: the day nodes before `k` span them,
      the rest are as the layout left them, and every id is kept. */
  predicate Attached(ds: seq<int>, D: seq<int>, i: int, k: int, dn: seq<Node>, cur: seq<Node>)
  {
    && 0 <= i <= |ds| && 0 <= k <= |D| == |dn| == |cur|
    && Distinct(ds[..i]) == D[..k]
    && Spans(ds[..i], 0, cur[..k], D[..k])
    && (forall p :: 0 <= p < |cur| ==> cur[p].id == dn[p].id)
    && (0 < i < |ds| ==> ds[i - 1] != ds[i])
  }

  /** The run from `i` to `j` is the `k`-th run. */
  lemma RunRep(ds: seq<int>, D: seq<int>, i: int, j: int, k: int)
    requires D == Distinct(ds) && 0 <= i < j <= |ds| && 0 <= k <= |D| && Distinct(ds[..i]) == D[..k]
    requires forall p :: i <= p < j ==> ds[p] == ds[i]
    requires i > 0 ==> ds[i - 1] != ds[i]
    ensures k < |D| && D[k] == ds[i] && Distinct(ds[..j]) == D[..k + 1]
  {
    DistinctRun(ds, i, j);
    DistinctPrefix(ds, j);
    assert Distinct(ds[..j])[k] == ds[i];
  }

  /** Day node `k` spanning the run from `i` to `j`. */
  lemma SpansStep(ds: seq<int>, D: seq<int>, i: int, j: int, k: int, cur: seq<Node>)
    requires 0 <= i < j <= |ds| && 0 <= k < |D| == |cur| && D[k] == ds[i]
    requires Spans(ds[..i], 0, cur[..k], D[..k])
    requires forall p :: i <= p < j ==> ds[p] == ds[i]
    requires i > 0 ==> ds[i - 1] != ds[i]
    ensures var cur' := cur[k := cur[k].(chlen := j - i, first := i)];
      Spans(ds[..j], 0, cur'[..k + 1], D[..k + 1])
  {
    SpansRun(ds, 0, cur[..k], D[..k], i, j, cur[k].id);
    var cur' := cur[k := cur[k].(chlen := j - i, first := i)];
    assert cur'[..k + 1] == cur[..k] + [Node(cur[k].id, j - i, 0 + i)];
    assert D[..k + 1] == D[..k] + [ds[i]];
  }

  /** The loop body of the last loop of `rt_init`: the run of equal dates
      from `i` to `j` becomes the children of day node `k`. */
  method AttachRun(ghost ds: seq<int>, ghost D: seq<int>, i: int, j: int, k: int, ghost dn: seq<Node>, cur: seq<Node>)
    returns (cur': seq<Node>)
    requires D == Distinct(ds) && Attached(ds, D, i, k, dn, cur)
    requires i < j <= |ds| && (j < |ds| ==> ds[j] != ds[i])
    requires forall p :: i <= p < j ==> ds[p] == ds[i]
    ensures Attached(ds, D, j, k + 1, dn, cur')
  {
    RunRep(ds, D, i, j, k);
    SpansStep(ds, D, i, j, k, cur);
    cur' := cur[k := cur[k].(chlen := j - i, first := i)];
  }

  /** The last loop of `rt_init`: day node `k` gets the `k`-th run of equal
      dates of the slice as its records, `first` being the run's start
      within the slice. */
  method Attach(s: seq<Record>, ghost D: seq<int>, dn: seq<Node>) returns (cur: seq<Node>)
    requires D == Distinct(DatesOf(s)) && |dn| == |D|
    ensures |cur| == |dn| && (forall p :: 0 <= p < |cur| ==> cur[p].id == dn[p].id)
    ensures Spans(DatesOf(s), 0, cur, D)
  {
    ghost var ds := DatesOf(s);
    cur := dn;
    var k, i := 0, 0;
    AttachStart(ds, D, dn);
    while i < |s|
      invariant Attached(ds, D, i, k, dn, cur)
      decreases |s| - i
    {
      var j := RunEnd(s, i);
      cur := AttachRun(ds, D, i, j, k, dn, cur);
      i, k := j, k + 1;
    }
    AttachDone(ds, D, k, dn, cur);
  }

  lemma AttachStart(ds: seq<int>, D: seq<int>, dn: seq<Node>)
    requires |dn| == |D|
    ensures Attached(ds, D, 0, 0, dn, dn)
  {
    assert ds[..0] == [] && D[..0] == [] && dn[..0] == [];
  }

  lemma AttachDone(ds: seq<int>, D: seq<int>, k: int, dn: seq<Node>, cur: seq<Node>)
    requires D == Distinct(ds) && Attached(ds, D, |ds|, k, dn, cur)
    ensures Spans(ds, 0, cur, D)
  {
    assert ds[..|ds|] == ds;
    assert k == |D| && cur[..k] == cur && D[..k] == D;
  }

  // ---------------------------------------------------------------------
  // rt_init

  /** The tree `rt_init` builds over the slice dates `ds`: day nodes for
      the distinct dates `D` spanning the records, month nodes for the
      distinct year-months `M` spanning the day nodes, year nodes for the
      distinct years `Y` spanning the month nodes, laid out in that order,
      and a root over the year nodes. */
  predicate Built(t: Tree, ds: seq<int>)
  {
    var D := Distinct(ds);
    var M := Distinct(Parent(D));
    Levels(t, ds, D, M, Distinct(Parent(M)))
  }

  /** The layout of `Built`, with the distinct dates `D`, year-months `M`
      and years `Y` named. */
  predicate Levels(t: Tree, ds: seq<int>, D: seq<int>, M: seq<int>, Y: seq<int>)
  {
    && |t.nodes| == |D| + |M| + |Y| && t.days == |D|
    && Spans(ds, 0, t.nodes[..|D|], D)
    && DaysPlaced(D, t.nodes[..|D|])
    && MonthsPlaced(D, M, t.nodes[|D|..|D| + |M|])
    && YearsPlaced(M, Y, |D|, t.nodes[|D| + |M|..])
    && t.root == Node(0, |Y|, |D| + |M|)
  }

  /** Two sequences with the same members have the same keys. */
  lemma SameKeys(a: seq<int>, b: seq<int>, d: int)
    requires d > 0 && forall x :: x in a <==> x in b
    ensures KeysBy(a, d) == KeysBy(b, d)
  {
  }

  /** The year of a date is the year of its year-month. */
  lemma YearKeys(xs: seq<int>)
    ensures KeysBy(xs, 10000) == KeysBy(Parent(xs), 100)
  {
    forall k | k in KeysBy(xs, 10000)
      ensures k in KeysBy(Parent(xs), 100)
    {
      var x :| x in xs && k == HashTables.IntKey(x / 10000);
      var i :| 0 <= i < |xs| && xs[i] == x;
      assert Parent(xs)[i] / 100 == x / 10000;
    }
    forall k | k in KeysBy(Parent(xs), 100)
      ensures k in KeysBy(xs, 10000)
    {
      var y :| y in Parent(xs) && k == HashTables.IntKey(y / 100);
      var i :| 0 <= i < |xs| && Parent(xs)[i] == y;
      assert xs[i] / 10000 == y / 100;
    }
  }

  /** The keys `dt / 100` of ascending values number as many as the runs
      of equal `dt / 100`. */
  lemma LevelCount(xs: seq<int>)
    requires NonDecreasing(xs)
    ensures Increasing(Distinct(Parent(xs)))
    ensures |KeysBy(xs, 100)| == |Distinct(Parent(xs))|
  {
    var P := Parent(xs);
    var R := Distinct(P);
    ParentSorted(xs);
    DistinctIncreasing(P);
    DistinctMembers(P);
    IncreasingKeyCard(R);
    forall k | k in KeysBy(xs, 100)
      ensures k in KeysOf(R)
    {
      var x :| x in xs && k == HashTables.IntKey(x / 100);
      var i :| 0 <= i < |xs| && xs[i] == x;
      assert P[i] in R;
    }
    forall k | k in KeysOf(R)
      ensures k in KeysBy(xs, 100)
    {
      var y :| y in R && k == HashTables.IntKey(y);
      var i :| 0 <= i < |P| && P[i] == y;
      assert xs[i] in xs;
    }
    assert KeysBy(xs, 100) == KeysOf(R);
  }

  /** The three counting tables have as many keys as there are distinct
      dates, year-months and years. */
  lemma LevelSizes(ds: seq<int>)
    requires NonDecreasing(ds)
    ensures var D := Distinct(ds);
      var M := Distinct(Parent(D));
      Increasing(D) && |KeysBy(ds, 100)| == |M| && |KeysBy(ds, 10000)| == |Distinct(Parent(M))|
  {
    var D := Distinct(ds);
    DistinctIncreasing(ds);
    DistinctMembers(ds);
    SameKeys(ds, D, 100);
    SameKeys(ds, D, 10000);
    LevelCount(D);
    var M := Distinct(Parent(D));
    YearKeys(D);
    DistinctMembers(Parent(D));
    SameKeys(Parent(D), M, 100);
    LevelCount(M);
  }

  /** The counting half of `rt_init`: the three tables' sizes are the
      numbers of distinct dates, year-months and years, and the date table,
      sorted ascending by key, yields the distinct dates in order. */
  method CountAndSort(s: seq<Record>) returns (sorted: HashTables.Table, nd: int, nm: int, ny: int)
    requires NonDecreasing(DatesOf(s)) && forall i :: 0 <= i < |s| ==> IsDate(s[i].dt)
    ensures var D := Distinct(DatesOf(s));
      var M := Distinct(Parent(D));
      nd == |D| && nm == |M| && ny == |Distinct(Parent(M))|
    ensures var D := Distinct(DatesOf(s));
      var es := HashTables.Entries(sorted.items);
      |es| == |D| && forall k :: 0 <= k < |D| ==> es[k].0 == HashTables.IntKey(D[k])
  {
    ghost var ds := DatesOf(s);
    var dc, mc, yc := CountKeys(s);
    assert ds[..|s|] == ds;
    nd, nm, ny := HashUpdates.Count(dc), HashUpdates.Count(mc), HashUpdates.Count(yc);
    sorted := HashSorting.Sort(dc, true, true);
    AllUsable(sorted.items, HashSorting.Live(dc.items));
    SortedDates(sorted, ds);
    LevelSizes(ds);
  }

  /** `rt_init` over the slice `s`: count the distinct dates, year-months
      and years, sort the dates, lay out the nodes and attach the records. */
  method InitSlice(s: seq<Record>) returns (t: Tree)
    requires NonDecreasing(DatesOf(s)) && forall i :: 0 <= i < |s| ==> IsDate(s[i].dt)
    ensures Built(t, DatesOf(s))
  {
    ghost var D := Distinct(DatesOf(s));
    ghost var M := Distinct(Parent(D));
    var dn, mn, yn, nd, nm, ny := LaySlice(s);
    var days := Attach(s, D, dn);
    t := Tree(days + mn + yn, nd, Node(0, ny, nd + nm));
    DaysKept(D, dn, days);
    Assemble(DatesOf(s), D, M, Distinct(Parent(M)), days, mn, yn, t);
  }

  /** The first two parts of `rt_init`: the counts and the three levels of
      nodes, before any record is attached. */
  method LaySlice(s: seq<Record>) returns (dn: seq<Node>, mn: seq<Node>, yn: seq<Node>, nd: int, nm: int, ny: int)
    requires NonDecreasing(DatesOf(s)) && forall i :: 0 <= i < |s| ==> IsDate(s[i].dt)
    ensures var D := Distinct(DatesOf(s));
      var M := Distinct(Parent(D));
      var Y := Distinct(Parent(M));
      && nd == |D| && nm == |M| && ny == |Y|
      && DaysPlaced(D, dn) && MonthsPlaced(D, M, mn) && YearsPlaced(M, Y, nd, yn)
  {
    ghost var D := Distinct(DatesOf(s));
    var sorted;
    sorted, nd, nm, ny := CountAndSort(s);
    DatesValid(s, D);
    dn, mn, yn := Layout(sorted, D, nd);
  }

  /** Every distinct date of a slice of valid dates is valid. */
  lemma DatesValid(s: seq<Record>, D: seq<int>)
    requires D == Distinct(DatesOf(s)) && forall i :: 0 <= i < |s| ==> IsDate(s[i].dt)
    ensures forall k :: 0 <= k < |D| ==> IsDate(D[k])
  {
    DistinctMembers(DatesOf(s));
    forall k | 0 <= k < |D|
      ensures IsDate(D[k])
    {
      assert D[k] in D;
      var i :| 0 <= i < |s| && DatesOf(s)[i] == D[k];
    }
  }

  /** The layout of all the dates, level by level. */
  lemma LaidAll(D: seq<int>, base: int, dn: seq<Node>, mn: seq<Node>, yn: seq<Node>)
    requires Laid(D, |D|, base, dn, mn, yn)
    ensures var M := Distinct(Parent(D));
      DaysPlaced(D, dn) && MonthsPlaced(D, M, mn) && YearsPlaced(M, Distinct(Parent(M)), base, yn)
  {
    assert D[..|D|] == D;
  }

  /** The three parts of a concatenation. */
  lemma Parts(a: seq<Node>, b: seq<Node>, c: seq<Node>)
    ensures (a + b + c)[..|a|] == a && (a + b + c)[|a|..|a| + |b|] == b && (a + b + c)[|a| + |b|..] == c
  {
  }

  /** Attaching records keeps the day ids. */
  lemma DaysKept(D: seq<int>, dn: seq<Node>, days: seq<Node>)
    requires DaysPlaced(D, dn)
    requires |days| == |dn| && forall p :: 0 <= p < |days| ==> days[p].id == dn[p].id
    ensures DaysPlaced(D, days)
  {
  }

  /** The node array `rt_init` hands over, from the three levels. */
  lemma Assemble(ds: seq<int>, D: seq<int>, M: seq<int>, Y: seq<int>,
                  days: seq<Node>, mn: seq<Node>, yn: seq<Node>, t: Tree)
    requires D == Distinct(ds) && M == Distinct(Parent(D)) && Y == Distinct(Parent(M))
    requires DaysPlaced(D, days) && MonthsPlaced(D, M, mn) && YearsPlaced(M, Y, |D|, yn)
    requires Spans(ds, 0, days, D)
    requires t == Tree(days + mn + yn, |D|, Node(0, |Y|, |D| + |M|))
    ensures Built(t, ds)
  {
    Parts(days, mn, yn);
    assert |days| == |D| && |mn| == |M|;
    assert Levels(t, ds, D, M, Y);
  }

  /** `rt_init` on an initialized record list with a non-empty active
      slice builds the tree of the slice's records. */
  method Init(rl: RecordLists.RecordList) returns (t: Tree)
    requires RecordLists.Inv(rl) && rl.start < rl.stop
    ensures Built(t, DatesOf(rl.records[rl.start..rl.stop]))
  {
    var s := rl.records[rl.start..rl.stop];
    forall i | 0 <= i < |s|
      ensures IsDate(s[i].dt)
    {
      assert Valid(rl.records[rl.start + i]);
    }
    assert NonDecreasing(DatesOf(s)) by {
      forall i, j | 0 <= i < j < |s|
        ensures s[i].dt <= s[j].dt
      {
        assert rl.records[rl.start + i].dt <= rl.records[rl.start + j].dt;
      }
    }
    t := InitSlice(s);
  }

  // ---------------------------------------------------------------------
  // What the built tree promises

  /** The children of a sequence of nodes, counted. */
  function ChildTotal(nodes: seq<Node>): int
  {
    if nodes == [] then 0 else ChildTotal(nodes[..|nodes| - 1]) + nodes[|nodes| - 1].chlen
  }

  /** Chained nodes have as many children as their first and last node
      enclose. */
  lemma {:induction false} ChainTotal(nodes: seq<Node>, n: int)
    requires 0 < n <= |nodes|
    requires forall j :: 0 <= j < |nodes| - 1 ==> nodes[j + 1].first == End(nodes[j])
    ensures ChildTotal(nodes[..n]) == End(nodes[n - 1]) - nodes[0].first
  {
    assert nodes[..n][..n - 1] == nodes[..n - 1];
    if n > 1 {
      ChainTotal(nodes, n - 1);
    }
  }

  /** Nodes spanning a sequence of keys have exactly that many children. */
  lemma SpansTotal(keys: seq<int>, base: int, nodes: seq<Node>, rep: seq<int>)
    requires Spans(keys, base, nodes, rep)
    ensures ChildTotal(nodes) == |keys|
  {
    if nodes != [] {
      ChainTotal(nodes, |nodes|);
      assert nodes[..|nodes|] == nodes;
    }
  }

  /** The distinct values of `x / d` over the members of `xs`: the
      distinct dates (`d` = 1), year-months (100) or years (10000). */
  function Tally(xs: seq<int>, d: int): set<int>
    requires d > 0
  {
    set x | x in xs :: x / d
  }

  /** Strictly increasing values are as many as their tally. */
  lemma IncreasingTally(xs: seq<int>)
    requires Increasing(xs)
    ensures |Tally(xs, 1)| == |xs|
  {
    IncreasingCard(xs);
    assert Tally(xs, 1) == set x | x in xs;
  }

  /** Sequences with the same members have the same tally. */
  lemma SameTally(a: seq<int>, b: seq<int>, d: int)
    requires d > 0 && forall x :: x in a <==> x in b
    ensures Tally(a, d) == Tally(b, d)
  {
  }

  /** The year-months of sorted values number as many as the runs of
      their parents. */
  lemma TallyCard(xs: seq<int>)
    requires NonDecreasing(xs)
    ensures |Tally(xs, 100)| == |Distinct(Parent(xs))|
    ensures forall y :: y in Distinct(Parent(xs)) <==> y in Tally(xs, 100)
  {
    var P := Parent(xs);
    var R := Distinct(P);
    ParentSorted(xs);
    DistinctIncreasing(P);
    DistinctMembers(P);
    IncreasingTally(R);
    forall y | y in Tally(xs, 100)
      ensures y in R
    {
      var x :| x in xs && y == x / 100;
      var i :| 0 <= i < |xs| && xs[i] == x;
      assert P[i] in R;
    }
    forall y | y in R
      ensures y in Tally(xs, 100)
    {
      var i :| 0 <= i < |P| && P[i] == y;
      assert xs[i] in xs;
    }
    assert Tally(xs, 100) == Tally(R, 1);
  }

  /** The years of the dates are the years of their year-months. */
  lemma YearTally(ds: seq<int>, M: seq<int>)
    requires forall y :: y in M <==> y in Tally(ds, 100)
    ensures Tally(ds, 10000) == Tally(M, 100)
  {
    forall z | z in Tally(ds, 10000)
      ensures z in Tally(M, 100)
    {
      var x :| x in ds && z == x / 10000;
      assert x / 100 in Tally(ds, 100);
      assert x / 100 / 100 == z;
    }
    forall z | z in Tally(M, 100)
      ensures z in Tally(ds, 10000)
    {
      var y :| y in M && z == y / 100;
      var x :| x in ds && y == x / 100;
      assert x / 10000 == z;
    }
  }

  /** As many distinct dates as day nodes. */
  lemma DayTally(ds: seq<int>)
    requires NonDecreasing(ds)
    ensures |Tally(ds, 1)| == |Distinct(ds)|
  {
    DistinctIncreasing(ds);
    DistinctMembers(ds);
    IncreasingTally(Distinct(ds));
    SameTally(ds, Distinct(ds), 1);
  }

  /** As many distinct year-months and years as month and year nodes. */
  lemma UpperTally(ds: seq<int>)
    requires NonDecreasing(ds)
    ensures var M := Distinct(Parent(Distinct(ds)));
      |Tally(ds, 100)| == |M| && |Tally(ds, 10000)| == |Distinct(Parent(M))|
  {
    var D := Distinct(ds);
    DistinctIncreasing(ds);
    DistinctMembers(ds);
    SameTally(ds, D, 100);
    SameTally(ds, D, 10000);
    TallyCard(D);
    var M := Distinct(Parent(D));
    YearTally(D, M);
    ParentSorted(D);
    DistinctIncreasing(Parent(D));
    TallyCard(M);
  }

  /** `rt_init` makes one node per distinct date, per distinct year-month
      and per distinct year of the slice, and the root's children are all
      the year nodes, at the end of the array. */
  lemma NodeCount(t: Tree, ds: seq<int>)
    requires Built(t, ds) && NonDecreasing(ds)
    ensures |t.nodes| == |Tally(ds, 1)| + |Tally(ds, 100)| + |Tally(ds, 10000)|
    ensures End(t.root) == |t.nodes|
  {
    DayTally(ds);
    UpperTally(ds);
  }

  /** The day nodes' children are the slice's records, every one once. */
  lemma DayTotal(t: Tree, ds: seq<int>)
    requires Built(t, ds)
    ensures ChildTotal(t.nodes[..t.days]) == |ds|
  {
    SpansTotal(ds, 0, t.nodes[..t.days], Distinct(ds));
  }
}
