/** The record list (src/recordlist.c, inc/recordlist.h): records kept in
    date order with an active slice `[start, stop)`. The C singleton becomes
    a value; every operation returns the new list. */
module RecordLists {
  import opened Base
  import opened Text
  import opened Records

  /** `st_records`, `st_count`, the active slice and the allocated room,
      which `rl_init` makes one larger than the number of lines read. The
      slice bounds are integers: an insertion can push `start` past
      `stop`. */
  datatype RecordList = RecordList(records: seq<Record>, start: int, stop: int, cap: nat)

  predicate Sorted(s: seq<Record>)
  {
    forall i, j :: 0 <= i < j < |s| ==> s[i].dt <= s[j].dt
  }

  /** What every operation keeps: sorted valid records within the
      allocation, both slice bounds within the list. */
  predicate Inv(rl: RecordList)
  {
    && Sorted(rl.records)
    && (forall i :: 0 <= i < |rl.records| ==> Valid(rl.records[i]))
    && |rl.records| <= rl.cap
    && 0 <= rl.start <= |rl.records| && 0 <= rl.stop <= |rl.records|
  }

  // ---------------------------------------------------------------------
  // Getters

  /** `rl_get`: no record for an index outside the list. */
  function Get(rl: RecordList, index: int): (r: Option<Record>)
    ensures r.None? <==> index < 0 || index >= |rl.records|
    ensures r.Some? ==> r.value == rl.records[index]
  {
    if index < 0 || index >= |rl.records| then None else Some(rl.records[index])
  }

  /** `rl_slicecount`: negative when the slice bounds have crossed. */
  function SliceCount(rl: RecordList): int
  {
    rl.stop - rl.start
  }

  // ---------------------------------------------------------------------
  // Searching

  /** The number of leading records dated at most `dt`; on a sorted list
      this is the position just after the last such record. */
  function UpperBound(s: seq<Record>, dt: int): (k: nat)
    requires Sorted(s)
    ensures k <= |s|
    ensures forall i :: 0 <= i < k ==> s[i].dt <= dt
    ensures forall i :: k <= i < |s| ==> s[i].dt > dt
    decreases |s|
  {
    if s == [] then 0
    else if s[|s| - 1].dt <= dt then |s|
    else UpperBound(s[..|s| - 1], dt)
  }

  /** The partition point is unique. */
  lemma UpperBoundUnique(s: seq<Record>, dt: int, k: int)
    requires Sorted(s) && 0 <= k <= |s|
    requires forall i :: 0 <= i < k ==> s[i].dt <= dt
    requires forall i :: k <= i < |s| ==> s[i].dt > dt
    ensures k == UpperBound(s, dt)
  {
    var u := UpperBound(s, dt);
    assert k < |s| ==> s[k].dt > dt;
    assert u < |s| ==> s[u].dt > dt;
  }

  /** `rl_bsr`: binary search for the rightmost insertion point of `dt`,
      the first index whose date is later than `dt`. */
  method Bsr(s: seq<Record>, dt: int) returns (l: int)
    requires Sorted(s)
    ensures 0 <= l <= |s|
    ensures forall i :: 0 <= i < l ==> s[i].dt <= dt
    ensures forall i :: l <= i < |s| ==> s[i].dt > dt
  {
    l := 0;
    var r := |s|;
    while l < r
      invariant 0 <= l <= r <= |s|
      invariant forall i :: 0 <= i < l ==> s[i].dt <= dt
      invariant forall i :: r <= i < |s| ==> s[i].dt > dt
      decreases r - l
    {
      var m := (l + r) / 2;
      if dt >= s[m].dt {
        l := m + 1;
      } else {
        r := m;
      }
    }
  }

  /** `rl_bsl`: the search for `dt - 1`, which on integer dates is the
      first index whose date is not earlier than `dt`. */
  method Bsl(s: seq<Record>, dt: int) returns (l: int)
    requires Sorted(s)
    ensures 0 <= l <= |s|
    ensures forall i :: 0 <= i < l ==> s[i].dt < dt
    ensures forall i :: l <= i < |s| ==> s[i].dt >= dt
  {
    l := Bsr(s, dt - 1);
  }

  /** Both searches compute the same point as the reference definition. */
  method BsrIsUpperBound(s: seq<Record>, dt: int) returns (l: int, u: int)
    requires Sorted(s)
    ensures l == u == UpperBound(s, dt)
    ensures 0 <= u <= |s|
  {
    l := Bsr(s, dt);
    UpperBoundUnique(s, dt, l);
    u := UpperBound(s, dt);
  }

  // ---------------------------------------------------------------------
  // Insertion and deletion

  /** `rl_insert`: the record goes in after every record of the same date;
      `start` moves up when the insertion point is at or below it, `stop`
      only when the point is strictly below it. Returns the new record's
      index. The list must have room, which `rl_init` leaves for one. */
  function Insert(rl: RecordList, rec: Record): (res: (int, RecordList))
    requires Sorted(rl.records) && |rl.records| < rl.cap
    ensures var (k, r) := res;
            && 0 <= k <= |rl.records|
            && |r.records| == |rl.records| + 1
            && r.records[k] == rec
            && r.records[..k] + r.records[k + 1..] == rl.records
            && (forall i :: 0 <= i < k ==> rl.records[i].dt <= rec.dt)
            && (forall i :: k <= i < |rl.records| ==> rl.records[i].dt > rec.dt)
            && Sorted(r.records)
            && r.cap == rl.cap
  {
    var k := UpperBound(rl.records, rec.dt);
    var s := rl.records[..k] + [rec] + rl.records[k..];
    assert s[..k] + s[k + 1..] == rl.records by {
      assert s[..k] == rl.records[..k];
      assert s[k + 1..] == rl.records[k..];
    }
    InsertSorted(rl.records, k, rec);
    (k, RecordList(s, rl.start + (if k <= rl.start then 1 else 0),
                      rl.stop + (if k < rl.stop then 1 else 0), rl.cap))
  }

  /** Placing a record at its upper bound keeps a list sorted. */
  lemma InsertSorted(s0: seq<Record>, k: int, rec: Record)
    requires Sorted(s0) && 0 <= k <= |s0|
    requires forall i :: 0 <= i < k ==> s0[i].dt <= rec.dt
    requires forall i :: k <= i < |s0| ==> s0[i].dt > rec.dt
    ensures Sorted(s0[..k] + [rec] + s0[k..])
  {
    var s := s0[..k] + [rec] + s0[k..];
    forall i, j | 0 <= i < j < |s| ensures s[i].dt <= s[j].dt {
      if j < k {
        assert s[i] == s0[i] && s[j] == s0[j];
      } else if i > k {
        assert s[i] == s0[i - 1] && s[j] == s0[j - 1];
      } else if i == k {
        assert s[j] == s0[j - 1];
      } else if j == k {
        assert s[i] == s0[i];
      } else {
        assert s[i] == s0[i] && s[j] == s0[j - 1];
      }
    }
  }

  /** How `rl_insert` moves the slice: `start` by one iff the insertion
      point is at or below it, `stop` by one iff the point is below it. */
  lemma InsertSlice(rl: RecordList, rec: Record)
    requires Sorted(rl.records) && |rl.records| < rl.cap
    ensures var (k, r) := Insert(rl, rec);
            && (r.start == rl.start + 1 <==> k <= rl.start)
            && (r.start == rl.start <==> k > rl.start)
            && (r.stop == rl.stop + 1 <==> k < rl.stop)
            && (r.stop == rl.stop <==> k >= rl.stop)
  {
  }

  /** An ordered slice stays ordered after an insertion, except when it was
      empty with both bounds at the insertion point: then `start` ends one
      above `stop`. */
  lemma InsertIntoEmptySlice(rl: RecordList, rec: Record)
    requires Sorted(rl.records) && |rl.records| < rl.cap
    requires rl.start <= rl.stop
    ensures var (k, r) := Insert(rl, rec);
            (r.start <= r.stop <==> !(rl.start == rl.stop == k))
    ensures var (k, r) := Insert(rl, rec);
            rl.start == rl.stop == k ==> r.start == r.stop + 1
  {
  }

  /** The list invariant survives an insertion of a valid record. */
  lemma InsertInv(rl: RecordList, rec: Record)
    requires Inv(rl) && |rl.records| < rl.cap && Valid(rec)
    ensures Inv(Insert(rl, rec).1)
  {
    var (k, r) := Insert(rl, rec);
    forall i | 0 <= i < |r.records| ensures Valid(r.records[i]) {
      if i < k {
        assert r.records[i] == (r.records[..k] + r.records[k + 1..])[i];
      } else if i > k {
        assert r.records[i] == (r.records[..k] + r.records[k + 1..])[i - 1];
      }
    }
  }

  /** `rl_delete`: false and no change for an index outside the list;
      otherwise exactly that record goes, and each slice bound drops by one
      iff the index is strictly below it. */
  function Delete(rl: RecordList, index: int): (res: (bool, RecordList))
    ensures res.0 <==> 0 <= index < |rl.records|
    ensures !res.0 ==> res.1 == rl
    ensures res.0 ==> && |res.1.records| == |rl.records| - 1
                      && res.1.records == rl.records[..index] + rl.records[index + 1..]
                      && (res.1.start == rl.start - 1 <==> index < rl.start)
                      && (res.1.start == rl.start <==> index >= rl.start)
                      && (res.1.stop == rl.stop - 1 <==> index < rl.stop)
                      && (res.1.stop == rl.stop <==> index >= rl.stop)
                      && res.1.cap == rl.cap
  {
    if index < 0 || index >= |rl.records| then (false, rl)
    else
      (true, RecordList(rl.records[..index] + rl.records[index + 1..],
                        rl.start - (if index < rl.start then 1 else 0),
                        rl.stop - (if index < rl.stop then 1 else 0), rl.cap))
  }

  /** The list invariant survives a deletion. */
  lemma DeleteInv(rl: RecordList, index: int)
    requires Inv(rl)
    ensures Inv(Delete(rl, index).1)
  {
    var (ok, r) := Delete(rl, index);
    if ok {
      forall i, j | 0 <= i < j < |r.records| ensures r.records[i].dt <= r.records[j].dt {
        var i' := if i < index then i else i + 1;
        var j' := if j < index then j else j + 1;
        assert r.records[i] == rl.records[i'] && r.records[j] == rl.records[j'];
      }
      forall i | 0 <= i < |r.records| ensures Valid(r.records[i]) {
        if i >= index { assert r.records[i] == rl.records[i + 1]; }
      }
    }
  }

  /** Deleting the record just inserted restores the list's records and
      slice, unless the insertion went into an empty slice at its bounds. */
  lemma DeleteUndoesInsert(rl: RecordList, rec: Record)
    requires Sorted(rl.records) && |rl.records| < rl.cap
    requires !(rl.start == rl.stop == Insert(rl, rec).0)
    ensures var (k, r) := Insert(rl, rec);
            Delete(r, k) == (true, rl)
  {
    var (k, r) := Insert(rl, rec);
    var (ok, d) := Delete(r, k);
    assert d.records == rl.records;
  }

  // ---------------------------------------------------------------------
  // Slicing

  /** `rl_resetslice`: the whole list, returning its length. */
  function ResetSlice(rl: RecordList): (res: (int, RecordList))
    ensures res.1.records == rl.records && res.1.cap == rl.cap
    ensures res.1.start == 0 && res.1.stop == |rl.records| && res.0 == SliceCount(res.1)
  {
    (|rl.records|, rl.(start := 0, stop := |rl.records|))
  }

  /** `rl_slice`: the slice becomes exactly the records dated from `dt0`
      through `dt1`, and the result is its length; for `dt0 > dt1` the
      bounds cross and the slice holds nothing. */
  function Slice(rl: RecordList, dt0: int, dt1: int): (res: (int, RecordList))
    requires Sorted(rl.records)
    ensures res.1.records == rl.records && res.1.cap == rl.cap
    ensures 0 <= res.1.start <= |rl.records| && 0 <= res.1.stop <= |rl.records|
    ensures forall i :: 0 <= i < |rl.records| ==>
              (res.1.start <= i < res.1.stop <==> dt0 <= rl.records[i].dt <= dt1)
    ensures res.0 == SliceCount(res.1)
    ensures dt0 <= dt1 ==> res.0 >= 0
  {
    var start := UpperBound(rl.records, dt0 - 1);
    var stop := UpperBound(rl.records, dt1);
    assert dt0 <= dt1 ==> start <= stop by {
      assert stop < |rl.records| ==> rl.records[stop].dt > dt1;
    }
    (stop - start, rl.(start := start, stop := stop))
  }

  /** The searches `rl_slice` runs give the bounds `Slice` uses. */
  method SliceBySearch(rl: RecordList, dt0: int, dt1: int) returns (n: int, r: RecordList)
    requires Sorted(rl.records)
    ensures (n, r) == Slice(rl, dt0, dt1)
  {
    var start := Bsl(rl.records, dt0);
    var stop := Bsr(rl.records, dt1);
    UpperBoundUnique(rl.records, dt0 - 1, start);
    UpperBoundUnique(rl.records, dt1, stop);
    r := rl.(start := start, stop := stop);
    n := stop - start;
  }

  // ---------------------------------------------------------------------
  // Filtering

  /** Which text field `rl_filtercat` and `rl_filterdesc` look at. */
  datatype Field = Cat | Desc

  function FieldOf(rec: Record, field: Field): string
  {
    match field
    case Cat => rec.cat
    case Desc => rec.desc
  }

  /** The patterns as the filter searches for them: split at every `delim`
      of the original text, each piece lowercased. */
  function Patterns(patterns: string, delim: char): (r: seq<string>)
    ensures |r| == |Split(patterns, delim)| >= 1
    ensures forall k :: 0 <= k < |r| ==> r[k] == LowerStr(Split(patterns, delim)[k])
  {
    var parts := Split(patterns, delim);
    seq(|parts|, k requires 0 <= k < |parts| => LowerStr(parts[k]))
  }

  /** A record survives when some pattern occurs in its lowercased field. */
  predicate Matches(rec: Record, pats: seq<string>, field: Field)
  {
    exists k :: 0 <= k < |pats| && IsSubstring(pats[k], LowerStr(FieldOf(rec, field)))
  }

  /** The records of `s` that `keep` accepts, in their original order. */
  function KeptBy(s: seq<Record>, keep: Record -> bool): (r: seq<Record>)
    ensures |r| <= |s|
    decreases |s|
  {
    if s == [] then []
    else (if keep(s[0]) then [s[0]] else []) + KeptBy(s[1..], keep)
  }

  function Matcher(pats: seq<string>, field: Field): Record -> bool
  {
    rec => Matches(rec, pats, field)
  }

  /** The records of `s` that match, in their original order. */
  function Kept(s: seq<Record>, pats: seq<string>, field: Field): (r: seq<Record>)
    ensures |r| <= |s|
  {
    KeptBy(s, Matcher(pats, field))
  }

  lemma {:induction false} KeptByMembers(s: seq<Record>, keep: Record -> bool)
    ensures forall x :: x in KeptBy(s, keep) <==> x in s && keep(x)
    decreases |s|
  {
    if s != [] {
      KeptByMembers(s[1..], keep);
      assert s == [s[0]] + s[1..];
    }
  }

  /** Exactly the matching records are kept. */
  lemma KeptMembers(s: seq<Record>, pats: seq<string>, field: Field)
    ensures forall x :: x in Kept(s, pats, field) <==> x in s && Matches(x, pats, field)
  {
    KeptByMembers(s, Matcher(pats, field));
  }

  lemma {:induction false} KeptByAppend(a: seq<Record>, b: seq<Record>, keep: Record -> bool)
    ensures KeptBy(a + b, keep) == KeptBy(a, keep) + KeptBy(b, keep)
    decreases |a|
  {
    if a == [] {
      assert a + b == b;
    } else {
      var head := if keep(a[0]) then [a[0]] else [];
      var ka, kb := KeptBy(a[1..], keep), KeptBy(b, keep);
      calc {
        KeptBy(a + b, keep);
        { assert (a + b)[0] == a[0] && (a + b)[1..] == a[1..] + b; }
        head + KeptBy(a[1..] + b, keep);
        { KeptByAppend(a[1..], b, keep); }
        head + (ka + kb);
        (head + ka) + kb;
      }
    }
  }

  /** Filtering distributes over concatenation, so survivors keep their
      relative order. */
  lemma KeptAppend(a: seq<Record>, b: seq<Record>, pats: seq<string>, field: Field)
    ensures Kept(a + b, pats, field) == Kept(a, pats, field) + Kept(b, pats, field)
  {
    KeptByAppend(a, b, Matcher(pats, field));
  }

  lemma {:induction false} KeptBySorted(s: seq<Record>, keep: Record -> bool)
    requires Sorted(s)
    ensures Sorted(KeptBy(s, keep))
    decreases |s|
  {
    if s != [] {
      KeptBySorted(s[1..], keep);
      KeptByMembers(s[1..], keep);
      var rest := KeptBy(s[1..], keep);
      forall j | 0 <= j < |rest| ensures s[0].dt <= rest[j].dt {
        assert rest[j] in s[1..];
      }
    }
  }

  /** A sorted list filtered is sorted. */
  lemma KeptSorted(s: seq<Record>, pats: seq<string>, field: Field)
    requires Sorted(s)
    ensures Sorted(Kept(s, pats, field))
  {
    KeptBySorted(s, Matcher(pats, field));
  }

  lemma {:induction false} KeptByIdempotent(s: seq<Record>, keep: Record -> bool)
    ensures KeptBy(KeptBy(s, keep), keep) == KeptBy(s, keep)
    decreases |s|
  {
    if s != [] {
      KeptByIdempotent(s[1..], keep);
      var rest := KeptBy(s[1..], keep);
      if keep(s[0]) {
        assert ([s[0]] + rest)[1..] == rest;
        assert KeptBy([s[0]] + rest, keep) == [s[0]] + KeptBy(rest, keep);
      } else {
        assert [] + rest == rest;
      }
    }
  }

  /** Filtering twice with the same patterns removes nothing more. */
  lemma KeptIdempotent(s: seq<Record>, pats: seq<string>, field: Field)
    ensures Kept(Kept(s, pats, field), pats, field) == Kept(s, pats, field)
  {
    KeptByIdempotent(s, Matcher(pats, field));
  }

  lemma {:induction false} KeptByAll(s: seq<Record>, keep: Record -> bool)
    requires forall i :: 0 <= i < |s| ==> keep(s[i])
    ensures KeptBy(s, keep) == s
    decreases |s|
  {
    if s != [] {
      KeptByAll(s[1..], keep);
      assert [s[0]] + s[1..] == s;
    }
  }

  /** When every record matches, nothing is removed. */
  lemma KeptAll(s: seq<Record>, pats: seq<string>, field: Field)
    requires forall i :: 0 <= i < |s| ==> Matches(s[i], pats, field)
    ensures Kept(s, pats, field) == s
  {
    KeptByAll(s, Matcher(pats, field));
  }

  /** A record list whose patterns contain an empty piece (an empty pattern
      text, or two delimiters in a row) keeps every record. */
  lemma EmptyPatternKeepsAll(s: seq<Record>, pats: seq<string>, field: Field)
    requires exists k :: 0 <= k < |pats| && pats[k] == []
    ensures Kept(s, pats, field) == s
  {
    var k :| 0 <= k < |pats| && pats[k] == [];
    forall i | 0 <= i < |s| ensures Matches(s[i], pats, field) {
      EmptyIsSubstring(LowerStr(FieldOf(s[i], field)));
    }
    KeptAll(s, pats, field);
  }

  /** The empty pattern text is one empty pattern. */
  lemma EmptyPatternText(delim: char)
    ensures Patterns("", delim) == [""]
  {
  }

  lemma KeptStep(s: seq<Record>, i: int, stop: int, pats: seq<string>, field: Field)
    requires 0 <= i < stop <= |s|
    ensures Kept(s[i..stop], pats, field)
         == (if Matches(s[i], pats, field) then [s[i]] else []) + Kept(s[i + 1..stop], pats, field)
  {
    assert s[i..stop][1..] == s[i + 1..stop];
    assert Matcher(pats, field)(s[i]) == Matches(s[i], pats, field);
  }

  lemma FilterKeep(s: seq<Record>, i: int, stop: int, k: seq<Record>)
    requires 0 <= i < stop <= |s|
    ensures s[..i + 1] + k + s[stop..] == s[..i] + ([s[i]] + k) + s[stop..]
  {
    assert s[..i + 1] == s[..i] + [s[i]];
  }

  lemma FilterDrop(s: seq<Record>, i: int, stop: int, k: seq<Record>)
    requires 0 <= i < stop <= |s|
    ensures var t := s[..i + 1] + k + s[stop..];
            t[..i] + t[i + 1..] == s[..i] + k + s[stop..]
  {
    var t := s[..i + 1] + k + s[stop..];
    assert t[..i] == s[..i];
    assert t[i + 1..] == k + s[stop..];
  }

  /** `rl_filtercat` / `rl_filterdesc`: scanning the slice from its top
      down, delete every record whose lowercased field contains none of the
      lowercased patterns. Records outside the slice stay, the survivors
      keep their order, and the result is the new slice length. */
  method Filter(rl: RecordList, patterns: string, delim: char, field: Field)
    returns (n: int, r: RecordList)
    requires 0 <= rl.start && rl.stop <= |rl.records|
    ensures var pats := Patterns(patterns, delim);
            rl.start < rl.stop ==>
              && r.records == rl.records[..rl.start] + Kept(rl.records[rl.start..rl.stop], pats, field)
                              + rl.records[rl.stop..]
              && r.stop == rl.start + |Kept(rl.records[rl.start..rl.stop], pats, field)|
    ensures rl.start >= rl.stop ==> r == rl
    ensures r.start == rl.start && r.cap == rl.cap
    ensures n == SliceCount(r)
  {
    var pats := Patterns(patterns, delim);
    r := rl;
    if rl.start < rl.stop {
      var s := rl.records;
      var i := rl.stop - 1;
      while i >= rl.start
        invariant rl.start - 1 <= i < rl.stop
        invariant r.records == s[..i + 1] + Kept(s[i + 1..rl.stop], pats, field) + s[rl.stop..]
        invariant r.stop == i + 1 + |Kept(s[i + 1..rl.stop], pats, field)|
        invariant r.start == rl.start && r.cap == rl.cap
        decreases i
      {
        KeptStep(s, i, rl.stop, pats, field);
        assert r.records[i] == s[i];
        if Matches(r.records[i], pats, field) {
          FilterKeep(s, i, rl.stop, Kept(s[i + 1..rl.stop], pats, field));
        } else {
          FilterDrop(s, i, rl.stop, Kept(s[i + 1..rl.stop], pats, field));
          r := Delete(r, i).1;
        }
        i := i - 1;
      }
      assert s[rl.start..rl.stop] == s[i + 1..rl.stop];
    }
    n := r.stop - r.start;
  }

  /** Filtering keeps the list invariant. */
  lemma FilterInv(rl: RecordList, pats: seq<string>, field: Field)
    requires Inv(rl) && rl.start < rl.stop
    ensures var k := Kept(rl.records[rl.start..rl.stop], pats, field);
            Inv(rl.(records := rl.records[..rl.start] + k + rl.records[rl.stop..],
                    stop := rl.start + |k|))
  {
    var s := rl.records;
    var a, mid, b := s[..rl.start], s[rl.start..rl.stop], s[rl.stop..];
    assert s == a + mid + b;
    var k := Kept(mid, pats, field);
    KeptMembers(mid, pats, field);
    FilterSorted(a, mid, b, pats, field);
    FilterValid(a, mid, b, k);
  }

  lemma FilterSorted(a: seq<Record>, mid: seq<Record>, b: seq<Record>, pats: seq<string>, field: Field)
    requires Sorted(a + mid + b)
    ensures Sorted(a + Kept(mid, pats, field) + b)
  {
    var k := Kept(mid, pats, field);
    KeptMembers(mid, pats, field);
    SortedParts(a, mid, b);
    KeptSorted(mid, pats, field);
    forall i, j | 0 <= i < |a| && 0 <= j < |k| ensures a[i].dt <= k[j].dt {
      assert k[j] in mid;
    }
    forall i, j | 0 <= i < |k| && 0 <= j < |b| ensures k[i].dt <= b[j].dt {
      assert k[i] in mid;
    }
    SortedConcat(a, k, b);
  }

  lemma FilterValid(a: seq<Record>, mid: seq<Record>, b: seq<Record>, k: seq<Record>)
    requires forall i :: 0 <= i < |a + mid + b| ==> Valid((a + mid + b)[i])
    requires forall x :: x in k ==> x in mid
    ensures forall i :: 0 <= i < |a + k + b| ==> Valid((a + k + b)[i])
  {
    var s, t := a + mid + b, a + k + b;
    forall i | 0 <= i < |t| ensures Valid(t[i]) {
      if i < |a| {
        assert t[i] == s[i];
      } else if i < |a| + |k| {
        assert t[i] == k[i - |a|] && k[i - |a|] in mid;
        var q :| 0 <= q < |mid| && mid[q] == t[i];
        assert s[|a| + q] == t[i];
      } else {
        assert t[i] == s[i - |k| + |mid|];
      }
    }
  }

  /** The parts of a sorted list are sorted and in order. */
  lemma SortedParts(a: seq<Record>, m: seq<Record>, b: seq<Record>)
    requires Sorted(a + m + b)
    ensures Sorted(a) && Sorted(m) && Sorted(b)
    ensures forall i, j :: 0 <= i < |a| && 0 <= j < |m| ==> a[i].dt <= m[j].dt
    ensures forall i, j :: 0 <= i < |m| && 0 <= j < |b| ==> m[i].dt <= b[j].dt
    ensures forall i, j :: 0 <= i < |a| && 0 <= j < |b| ==> a[i].dt <= b[j].dt
  {
    SortedSplit(a + m, b);
    SortedSplit(a, m);
    forall i, j | 0 <= i < |a| && 0 <= j < |b| ensures a[i].dt <= b[j].dt {
      assert (a + m)[i] == a[i];
    }
    forall i, j | 0 <= i < |m| && 0 <= j < |b| ensures m[i].dt <= b[j].dt {
      assert (a + m)[|a| + i] == m[i];
    }
  }

  /** The two halves of a sorted list are sorted and in order. */
  lemma SortedSplit(x: seq<Record>, y: seq<Record>)
    requires Sorted(x + y)
    ensures Sorted(x) && Sorted(y)
    ensures forall i, j :: 0 <= i < |x| && 0 <= j < |y| ==> x[i].dt <= y[j].dt
  {
    var t := x + y;
    forall i, j | 0 <= i < j < |x| ensures x[i].dt <= x[j].dt {
      assert t[i] == x[i] && t[j] == x[j];
    }
    forall i, j | 0 <= i < j < |y| ensures y[i].dt <= y[j].dt {
      assert t[|x| + i] == y[i] && t[|x| + j] == y[j];
    }
    forall i, j | 0 <= i < |x| && 0 <= j < |y| ensures x[i].dt <= y[j].dt {
      assert t[i] == x[i] && t[|x| + j] == y[j];
    }
  }

  /** Sorted parts in order make a sorted whole. */
  lemma SortedConcat(a: seq<Record>, m: seq<Record>, b: seq<Record>)
    requires Sorted(a) && Sorted(m) && Sorted(b)
    requires forall i, j :: 0 <= i < |a| && 0 <= j < |m| ==> a[i].dt <= m[j].dt
    requires forall i, j :: 0 <= i < |m| && 0 <= j < |b| ==> m[i].dt <= b[j].dt
    requires forall i, j :: 0 <= i < |a| && 0 <= j < |b| ==> a[i].dt <= b[j].dt
    ensures Sorted(a + m + b)
  {
    var t := a + m + b;
    forall i, j | 0 <= i < j < |t| ensures t[i].dt <= t[j].dt {
      if j < |a| {
        assert t[i] == a[i] && t[j] == a[j];
      } else if j < |a| + |m| {
        if i < |a| { assert t[i] == a[i] && t[j] == m[j - |a|]; }
        else { assert t[i] == m[i - |a|] && t[j] == m[j - |a|]; }
      } else {
        if i < |a| { assert t[i] == a[i]; }
        else if i < |a| + |m| { assert t[i] == m[i - |a|]; }
        else { assert t[i] == b[i - |a| - |m|]; }
        assert t[j] == b[j - |a| - |m|];
      }
    }
  }
}
