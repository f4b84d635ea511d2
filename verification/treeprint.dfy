/** The tree view `rt_print` writes for a record tree: a line per year
    (`%04d`), per month (its three-letter name) and per day (the day with its
    English ordinal suffix), then a line per record showing its index within
    the day, a rule of U+2500 glyphs, its amount and its category and
    description. Box-drawing glyphs are single characters here, so lengths
    are the character lengths the layout is designed around; lines are
    modelled without their trailing newline. */
module TreePrint {
  import opened Base
  import opened Text
  import opened Dates
  import opened Records
  import Util
  import opened RecordTrees

  // ---------------------------------------------------------------------
  // Glyphs and fields

  /** The least number of rule glyphs in a record's index-and-amount field. */
  const VFMT_MINDD: int := 2
  /** Records are shown numbered from one. */
  const FIRST_DIND: int := 1

  /** BOX DRAWINGS LIGHT HORIZONTAL, the rule glyph. */
  const DD: char := '─'
  const TEE: string := ['├', DD, DD, ' ']
  const ELL: string := ['└', DD, DD, ' ']
  const BAR: string := ['│', ' ', ' ', ' ']
  const BLANK: string := [' ', ' ', ' ', ' ']

  /** The connector in front of a child: the last child gets a corner. */
  function Branch(isfinal: bool): string
  {
    if isfinal then ELL else TEE
  }

  /** What the lines below a child carry in that child's column: a bar
      while later siblings follow, blank after the last one. */
  function Column(isfinal: bool): string
  {
    if isfinal then BLANK else BAR
  }

  /** The day-number suffix chosen by `print_day`, on C's truncating `%`
      and `/`. */
  function Suffix(id: int): (r: string)
    ensures r in {"th", "st", "nd", "rd"}
  {
    var ones := CMod(id, 10);
    if ones > 3 || CMod(CDiv(id, 10), 10) == 1 then "th"
    else if ones == 1 then "st"
    else if ones == 2 then "nd"
    else "rd"
  }

  /** The English ordinal suffix: "th" for 11 to 13 past a hundred,
      otherwise by the last digit. */
  function EnglishSuffix(n: nat): string
  {
    if 11 <= n % 100 <= 13 then "th"
    else if n % 10 == 1 then "st"
    else if n % 10 == 2 then "nd"
    else if n % 10 == 3 then "rd"
    else "th"
  }

  /** The suffix is the English one except for a last digit of 0 outside
      the teens, which gets "rd": the 20th and the 30th of a month print as
      "20rd" and "30rd". */
  lemma SuffixEnglish(n: nat)
    ensures Suffix(n) == EnglishSuffix(n) <==> !(n % 10 == 0 && n / 10 % 10 != 1)
  {
    var ones, tens := n % 10, n / 10 % 10;
    assert CMod(n, 10) == ones && CMod(CDiv(n, 10), 10) == tens by {
      assert CDiv(n, 10) == n / 10;
    }
    assert 11 <= n % 100 <= 13 <==> tens == 1 && 1 <= ones <= 3 by {
      assert n % 100 == 10 * tens + ones by {
        assert n / 100 == n / 10 / 10;
      }
    }
  }

  /** Among the days of a month exactly the 20th and the 30th differ. */
  lemma SuffixDays(d: int)
    requires IsD(d)
    ensures Suffix(d) != EnglishSuffix(d) <==> d == 20 || d == 30
  {
    SuffixEnglish(d);
  }

  /** The suffix `print_day` evidently intends: a last digit of 0 also
      takes "th", so the 20th and the 30th print as "20th" and "30th". */
  function DaySuffix(id: int): (r: string)
    ensures r in {"th", "st", "nd", "rd"}
  {
    var ones := CMod(id, 10);
    if ones > 3 || ones == 0 || CMod(CDiv(id, 10), 10) == 1 then "th"
    else if ones == 1 then "st"
    else if ones == 2 then "nd"
    else "rd"
  }

  /** The corrected suffix is the English ordinal suffix for every
      non-negative number, and differs from the code's only where the
      code's is wrong. */
  lemma DaySuffixEnglish(n: nat)
    ensures DaySuffix(n) == EnglishSuffix(n)
    ensures DaySuffix(n) != Suffix(n) <==> n % 10 == 0 && n / 10 % 10 != 1
  {
    var ones, tens := n % 10, n / 10 % 10;
    assert CMod(n, 10) == ones && CMod(CDiv(n, 10), 10) == tens by {
      assert CDiv(n, 10) == n / 10;
    }
    assert 11 <= n % 100 <= 13 <==> tens == 1 && 1 <= ones <= 3 by {
      assert n % 100 == 10 * tens + ones by {
        assert n / 100 == n / 10 / 10;
      }
    }
  }

  /** The amount as `print_vfmt` shows it: the cents text followed by a
      space when not negative; with the minus sign turned into an opening
      parenthesis and a closing one added when negative. */
  function AmtField(amt: int): (r: string)
  {
    var c := Util.CentsText(amt);
    if amt >= 0 then c + " " else "(" + c[1..] + ")"
  }

  /** A negative amount is its magnitude in parentheses, whose closing
      parenthesis takes the place of a positive amount's trailing space. */
  lemma AmtFieldSigns(x: int)
    requires x > 0
    ensures AmtField(x) == Util.CentsText(x) + " "
    ensures AmtField(-x) == "(" + Util.CentsText(x) + ")"
    ensures |AmtField(x)| == |Util.CentsText(x)| + 1
    ensures |AmtField(-x)| == |Util.CentsText(-x)| + 1
  {
    var c, n := Util.CentsText(x), Util.CentsText(-x);
    assert n == "-" + c by {
      assert Abs(-x) == Abs(x);
    }
    assert n[1..] == c;
  }

  /** Either way the field is one character longer than the cents text. */
  lemma AmtFieldLength(x: int)
    ensures |AmtField(x)| == |Util.CentsText(x)| + 1
  {
  }

  /** `amtbuf` holds the field and its terminating NUL for every 64-bit
      amount. */
  lemma AmtFieldFits(x: int)
    requires IsInt64(x)
    ensures |AmtField(x)| + 1 <= |"(92,233,720,368,547,758.08)"| + 1
  {
    Util.CentsTextBound(x);
  }

  /** `n` rule glyphs, none when `n` is not positive. */
  function Rule(n: int): (r: string)
    ensures |r| == if n > 0 then n else 0
    ensures forall i :: 0 <= i < |r| ==> r[i] == DD
  {
    seq(if n > 0 then n else 0, _ => DD)
  }

  /** `print_vfmt`: the index, a space, rule glyphs up to the width `w`, a
      space and the amount field. */
  function Vfmt(dind: int, amt: int, w: int): string
  {
    var d, a := IntToString(dind), AmtField(amt);
    d + " " + Rule(w - (|d| + 2 + |a|)) + " " + a
  }

  /** A record line below the year column `yp` and the month column `mp`. */
  function RecLine(r: Record, yp: string, mp: string, isfinal: bool, dind: int, w: int): string
  {
    yp + mp + Branch(isfinal) + Vfmt(dind, r.amt, w) + " " + r.cat
      + (if r.desc != "" then ": " + r.desc else "")
  }

  // ---------------------------------------------------------------------
  // The shape of a built tree

  /** Nodes `lo` up to `hi` follow one another without a gap and cover the
      child positions from `a` up to `b`. */
  predicate Chained(nodes: seq<Node>, lo: int, hi: int, a: int, b: int)
  {
    && 0 <= lo <= hi <= |nodes|
    && (lo == hi ==> a == b)
    && (lo < hi ==> nodes[lo].first == a && End(nodes[hi - 1]) == b)
    && forall i :: lo <= i < hi - 1 ==> Follows(nodes, i)
  }

  /** Node `i + 1`'s children begin where node `i`'s end. The shape
      predicates quantify over facts like this one, named, so that a proof
      meets them only where it names them. */
  predicate Follows(nodes: seq<Node>, i: int)
  {
    0 <= i && i + 1 < |nodes| && nodes[i + 1].first == End(nodes[i])
  }

  /** Every node from `lo` up to `hi` has children, all between `a` and
      `b`. */
  predicate Within(nodes: seq<Node>, lo: int, hi: int, a: int, b: int)
  {
    && 0 <= lo <= hi <= |nodes|
    && forall j :: lo <= j < hi ==> Inside(nodes, j, a, b)
  }

  predicate Inside(nodes: seq<Node>, j: int, a: int, b: int)
  {
    0 <= j < |nodes| && 1 <= nodes[j].chlen && a <= nodes[j].first && End(nodes[j]) <= b
  }

  predicate RealMonth(nodes: seq<Node>, j: int)
  {
    0 <= j < |nodes| && IsM(nodes[j].id)
  }

  /** Nodes `lo` up to `hi` form one level over the positions `a` up to
      `b`; stated as a single fact, so that proofs hand it on whole. */
  predicate Level(nodes: seq<Node>, lo: int, hi: int, a: int, b: int)
  {
    (Within(nodes, lo, hi, a, b) && Chained(nodes, lo, hi, a, b)) == true
  }

  /** What printing relies on in a tree over `n` records: the day nodes
      first, chained over the records; the month nodes next, chained over
      the day nodes and named by real months; the year nodes last, chained
      over the month nodes and forming the root's children.
      */
  predicate Shaped(t: Tree, n: int)
  {
    var d, y := t.days, t.root.first;
    && 0 <= d <= y && End(t.root) == |t.nodes|
    && Level(t.nodes, 0, d, 0, n)
    && Level(t.nodes, d, y, 0, d)
    && Level(t.nodes, y, |t.nodes|, d, y)
    && forall j :: d <= j < y ==> RealMonth(t.nodes, j)
  }

  /** `Spans` and `MonthsPlaced` as single facts, so that a proof hands
      them on whole rather than conjunct by conjunct. */
  predicate Spanned(keys: seq<int>, base: int, nodes: seq<Node>, rep: seq<int>)
  {
    Spans(keys, base, nodes, rep) == true
  }

  predicate MonthsNamed(D: seq<int>, M: seq<int>, mn: seq<Node>)
  {
    MonthsPlaced(D, M, mn) == true
  }

  /** A level laid out as `Spans` describes, sitting from `lo` up to `hi`
      in the node array, is chained over the positions it covers. */
  lemma LevelShape(nodes: seq<Node>, lo: int, hi: int, keys: seq<int>, base: int, rep: seq<int>)
    requires 0 <= lo <= hi <= |nodes| && Spanned(keys, base, nodes[lo..hi], rep)
    ensures Level(nodes, lo, hi, base, base + |keys|)
  {
    var level, b := nodes[lo..hi], base + |keys|;
    forall j | lo <= j < hi
      ensures Inside(nodes, j, base, b)
    {
      assert nodes[j] == level[j - lo];
      SpansOrdered(keys, base, level, rep, j - lo);
    }
    forall i | lo <= i < hi - 1
      ensures Follows(nodes, i)
    {
      assert nodes[i] == level[i - lo] && nodes[i + 1] == level[i + 1 - lo];
    }
    if lo < hi {
      assert nodes[lo] == level[0] && nodes[hi - 1] == level[|level| - 1];
    }
  }

  /** The facts of `Levels` that printing builds on. */
  lemma LevelsFacts(t: Tree, ds: seq<int>, D: seq<int>, M: seq<int>, Y: seq<int>)
    requires Levels(t, ds, D, M, Y)
    ensures |t.nodes| == |D| + |M| + |Y| && t.days == |D| && t.root == Node(0, |Y|, |D| + |M|)
    ensures Spanned(ds, 0, t.nodes[..|D|], D)
    ensures Spanned(Parent(D), 0, t.nodes[|D|..|D| + |M|], M)
    ensures Spanned(Parent(M), |D|, t.nodes[|D| + |M|..], Y)
    ensures MonthsNamed(D, M, t.nodes[|D|..|D| + |M|])
  {
  }

  /** The day nodes, at the front of the node array, are chained over the
      records. */
  lemma DayLevel(t: Tree, ds: seq<int>, D: seq<int>)
    requires t.days == |D| <= |t.nodes| && Spanned(ds, 0, t.nodes[..|D|], D)
    ensures Level(t.nodes, 0, t.days, 0, |ds|)
  {
    assert t.nodes[..|D|] == t.nodes[0..|D|];
    LevelShape(t.nodes, 0, |D|, ds, 0, D);
  }

  /** The month nodes, after the day nodes, are chained over them. */
  lemma MonthLevel(t: Tree, D: seq<int>, M: seq<int>)
    requires t.days == |D| && t.root.first == |D| + |M| <= |t.nodes|
    requires Spanned(Parent(D), 0, t.nodes[|D|..|D| + |M|], M)
    ensures Level(t.nodes, t.days, t.root.first, 0, t.days)
  {
    LevelShape(t.nodes, |D|, |D| + |M|, Parent(D), 0, M);
  }

  /** The year nodes, at the end, are chained over the month nodes. */
  lemma YearLevel(t: Tree, D: seq<int>, M: seq<int>, Y: seq<int>)
    requires t.days == |D| && t.root.first == |D| + |M| && |t.nodes| == |D| + |M| + |Y|
    requires Spanned(Parent(M), |D|, t.nodes[|D| + |M|..], Y)
    ensures Level(t.nodes, t.root.first, |t.nodes|, t.days, t.root.first)
  {
    assert t.nodes[|D| + |M|..] == t.nodes[|D| + |M|..|t.nodes|];
    LevelShape(t.nodes, |D| + |M|, |t.nodes|, Parent(M), |D|, Y);
  }

  /** The month nodes, named after year-months that end in a real month,
      name real months. */
  lemma MonthsReal(t: Tree, D: seq<int>, M: seq<int>)
    requires t.days == |D| && t.root.first == |D| + |M| <= |t.nodes|
    requires MonthsNamed(D, M, t.nodes[|D|..|D| + |M|])
    requires forall j :: 0 <= j < |M| ==> IsM(M[j] % 100)
    ensures forall j :: t.days <= j < t.root.first ==> RealMonth(t.nodes, j)
  {
    var d := |D|;
    var mn := t.nodes[d..d + |M|];
    forall j | d <= j < d + |M|
      ensures RealMonth(t.nodes, j)
    {
      assert t.nodes[j] == mn[j - d] && mn[j - d].id == M[j - d] % 100;
    }
  }

  /** The year-months of valid dates end in a real month. */
  lemma YearMonthsReal(D: seq<int>, M: seq<int>)
    requires M == Distinct(Parent(D)) && forall k :: 0 <= k < |D| ==> IsDate(D[k])
    ensures forall j :: 0 <= j < |M| ==> IsM(M[j] % 100)
  {
    DistinctMembers(Parent(D));
    forall j | 0 <= j < |M|
      ensures IsM(M[j] % 100)
    {
      assert M[j] in M;
      var i :| 0 <= i < |D| && Parent(D)[i] == M[j];
      MonthOfDate(D, i);
    }
  }

  lemma MonthOfDate(D: seq<int>, i: int)
    requires (forall k :: 0 <= k < |D| ==> IsDate(D[k])) && 0 <= i < |D|
    ensures IsM(D[i] / 100 % 100)
  {
    var dt := D[i];
    assert IsDate(dt);
    assert dt >= 10000;
    assert GetM(dt) == dt / 100 % 100;
  }

  /** Every tree `rt_init` builds over valid dates has the printable
      shape. */
  lemma BuiltShaped(t: Tree, ds: seq<int>)
    requires Built(t, ds) && forall i :: 0 <= i < |ds| ==> IsDate(ds[i])
    ensures Shaped(t, |ds|)
  {
    var D := Distinct(ds);
    var M := Distinct(Parent(D));
    var Y := Distinct(Parent(M));
    assert Levels(t, ds, D, M, Y);
    LevelsFacts(t, ds, D, M, Y);
    DistinctDates(ds, D);
    YearMonthsReal(D, M);
    MonthsReal(t, D, M);
    DayLevel(t, ds, D);
    MonthLevel(t, D, M);
    YearLevel(t, D, M, Y);
  }

  /** The distinct dates of valid dates are valid. */
  lemma DistinctDates(ds: seq<int>, D: seq<int>)
    requires D == Distinct(ds) && forall i :: 0 <= i < |ds| ==> IsDate(ds[i])
    ensures forall k :: 0 <= k < |D| ==> IsDate(D[k])
  {
    DistinctMembers(ds);
    forall k | 0 <= k < |D|
      ensures IsDate(D[k])
    {
      assert D[k] in D;
    }
  }

  // ---------------------------------------------------------------------
  // Line counts

  /** Lines for the day nodes `lo` up to `hi`: one per day and one per
      record. Nodes outside the array count for nothing. */
  function DayCount(t: Tree, lo: int, hi: int): int
    decreases hi - lo
  {
    if lo < 0 || hi > |t.nodes| || hi <= lo then 0
    else 1 + t.nodes[lo].chlen + DayCount(t, lo + 1, hi)
  }

  /** Lines for the month nodes `lo` up to `hi`: one per month and those
      of its days. */
  function MonthCount(t: Tree, lo: int, hi: int): int
    decreases hi - lo
  {
    if lo < 0 || hi > |t.nodes| || hi <= lo then 0
    else 1 + DayCount(t, t.nodes[lo].first, End(t.nodes[lo])) + MonthCount(t, lo + 1, hi)
  }

  /** Lines for the year nodes `lo` up to `hi`: one per year and those of
      its months. */
  function YearCount(t: Tree, lo: int, hi: int): int
    decreases hi - lo
  {
    if lo < 0 || hi > |t.nodes| || hi <= lo then 0
    else 1 + MonthCount(t, t.nodes[lo].first, End(t.nodes[lo])) + YearCount(t, lo + 1, hi)
  }

  /** A chain without its first node is a chain from where that node
      ends. */
  lemma ChainTail(nodes: seq<Node>, lo: int, hi: int, a: int, b: int)
    requires Chained(nodes, lo, hi, a, b) && lo < hi
    ensures Chained(nodes, lo + 1, hi, End(nodes[lo]), b)
  {
    if lo + 1 < hi {
      assert Follows(nodes, lo);
    }
  }

  /** A chain of nodes with children covers a range that is not empty
      unless the chain is. */
  lemma {:induction false} ChainBounds(nodes: seq<Node>, lo: int, hi: int, a: int, b: int, c: int, d: int)
    requires Chained(nodes, lo, hi, a, b) && Within(nodes, lo, hi, c, d)
    ensures a <= b && (lo < hi ==> a < b)
    decreases hi - lo
  {
    if lo < hi {
      assert Inside(nodes, lo, c, d);
      ChainTail(nodes, lo, hi, a, b);
      ChainBounds(nodes, lo + 1, hi, End(nodes[lo]), b, c, d);
    }
  }

  lemma {:induction false} DaySplit(t: Tree, a: int, b: int, c: int)
    requires 0 <= a <= b <= c <= |t.nodes|
    ensures DayCount(t, a, c) == DayCount(t, a, b) + DayCount(t, b, c)
    decreases b - a
  {
    if a < b {
      DaySplit(t, a + 1, b, c);
    }
  }

  /** Day nodes chained over the records `a` up to `b` take a line each
      and a line per record. */
  lemma {:induction false} DayChain(t: Tree, lo: int, hi: int, a: int, b: int)
    requires Chained(t.nodes, lo, hi, a, b)
    ensures DayCount(t, lo, hi) == (hi - lo) + (b - a)
    decreases hi - lo
  {
    if lo < hi {
      ChainTail(t.nodes, lo, hi, a, b);
      DayChain(t, lo + 1, hi, End(t.nodes[lo]), b);
    }
  }

  lemma {:induction false} MonthSplit(t: Tree, a: int, b: int, c: int)
    requires 0 <= a <= b <= c <= |t.nodes|
    ensures MonthCount(t, a, c) == MonthCount(t, a, b) + MonthCount(t, b, c)
    decreases b - a
  {
    if a < b {
      MonthSplit(t, a + 1, b, c);
    }
  }

  /** Month nodes chained over the day nodes `a` up to `b` take a line
      each and the lines of those days. */
  lemma {:induction false} MonthChain(t: Tree, lo: int, hi: int, a: int, b: int, c: int, d: int)
    requires Chained(t.nodes, lo, hi, a, b) && Within(t.nodes, lo, hi, c, d) && 0 <= c && d <= |t.nodes|
    ensures MonthCount(t, lo, hi) == (hi - lo) + DayCount(t, a, b)
    decreases hi - lo
  {
    if lo < hi {
      var e := End(t.nodes[lo]);
      assert Inside(t.nodes, lo, c, d) && Inside(t.nodes, hi - 1, c, d);
      ChainTail(t.nodes, lo, hi, a, b);
      ChainBounds(t.nodes, lo + 1, hi, e, b, c, d);
      MonthChain(t, lo + 1, hi, e, b, c, d);
      DaySplit(t, a, e, b);
    }
  }

  /** Year nodes chained over the month nodes `a` up to `b` take a line
      each and the lines of those months. */
  lemma {:induction false} YearChain(t: Tree, lo: int, hi: int, a: int, b: int, c: int, d: int)
    requires Chained(t.nodes, lo, hi, a, b) && Within(t.nodes, lo, hi, c, d) && 0 <= c && d <= |t.nodes|
    ensures YearCount(t, lo, hi) == (hi - lo) + MonthCount(t, a, b)
    decreases hi - lo
  {
    if lo < hi {
      var e := End(t.nodes[lo]);
      assert Inside(t.nodes, lo, c, d) && Inside(t.nodes, hi - 1, c, d);
      ChainTail(t.nodes, lo, hi, a, b);
      ChainBounds(t.nodes, lo + 1, hi, e, b, c, d);
      YearChain(t, lo + 1, hi, e, b, c, d);
      MonthSplit(t, a, e, b);
    }
  }

  // ---------------------------------------------------------------------
  // Single nodes of a shaped tree

  /** A day node has records, all among the `n`. */
  lemma DayNode(t: Tree, n: int, k: int)
    requires Shaped(t, n) && 0 <= k < t.days
    ensures t.days <= t.root.first <= |t.nodes|
    ensures 1 <= t.nodes[k].chlen && 0 <= t.nodes[k].first && End(t.nodes[k]) <= n
  {
    assert Level(t.nodes, 0, t.days, 0, n);
    assert Inside(t.nodes, k, 0, n);
  }

  /** A month node names a real month and has days, all day nodes. */
  lemma MonthNode(t: Tree, n: int, j: int)
    requires Shaped(t, n) && t.days <= j < t.root.first
    ensures t.root.first <= |t.nodes|
    ensures IsM(t.nodes[j].id)
    ensures 1 <= t.nodes[j].chlen && 0 <= t.nodes[j].first && End(t.nodes[j]) <= t.days
  {
    assert Level(t.nodes, t.days, t.root.first, 0, t.days);
    assert Inside(t.nodes, j, 0, t.days) && RealMonth(t.nodes, j);
  }

  /** A year node has months, all month nodes. */
  lemma YearNode(t: Tree, n: int, y: int)
    requires Shaped(t, n) && t.root.first <= y < |t.nodes|
    ensures 0 <= t.days
    ensures 1 <= t.nodes[y].chlen && t.days <= t.nodes[y].first && End(t.nodes[y]) <= t.root.first
  {
    assert Level(t.nodes, t.root.first, |t.nodes|, t.days, t.root.first);
    assert Inside(t.nodes, y, t.days, t.root.first);
  }

  /** The root's children are the year nodes. */
  lemma RootNode(t: Tree, n: int)
    requires Shaped(t, n)
    ensures 0 <= t.days <= t.root.first <= |t.nodes| && End(t.root) == |t.nodes|
  {
    assert Level(t.nodes, t.root.first, |t.nodes|, t.days, t.root.first);
  }

  // ---------------------------------------------------------------------
  // Lines

  /** A line of the tree view, before it is rendered as text: a year; a
      month by name, last of its year or not; a day below a month that is
      last or not, itself last of its month or not; a record below such a
      month and day, last of its day or not, with its index. */
  datatype Line =
    | YearLine(id: int)
    | MonthLine(last: bool, name: string)
    | DayLine(mlast: bool, last: bool, id: int)
    | RecordLine(mlast: bool, dlast: bool, last: bool, dind: int, rec: Record)

  /** The text of a line: the month's and the day's columns are bars while
      later siblings follow; the connector is a corner on the last child. */
  function Render(l: Line, w: int): string
  {
    match l
    case YearLine(id) => PrintfZeroPad(id, 4)
    case MonthLine(last, name) => Branch(last) + name
    case DayLine(mlast, last, id) => Column(mlast) + Branch(last) + IntToString(id) + Suffix(id)
    case RecordLine(mlast, dlast, last, dind, r) => RecLine(r, Column(mlast), Column(dlast), last, dind, w)
  }

  /** A day line ends in the suffix `print_day` chooses, so the 20th and
      the 30th show as "20rd" and "30rd". */
  lemma DayLineSuffix(mlast: bool, last: bool, id: int, w: int)
    ensures var t := Render(DayLine(mlast, last, id), w);
            |t| >= 2 && t[|t| - 2..] == Suffix(id)
    ensures Render(DayLine(false, false, 20), w)[|Render(DayLine(false, false, 20), w)| - 2..] == "rd"
  {
    var sfx := Suffix(id);
    assert |sfx| == 2;
    var t := Render(DayLine(mlast, last, id), w);
    var p := Column(mlast) + Branch(last) + IntToString(id);
    assert t == p + sfx;
    assert t[|t| - 2..] == sfx;
    var t20 := Render(DayLine(false, false, 20), w);
    var p20 := Column(false) + Branch(false) + IntToString(20);
    assert Suffix(20) == "rd" by {
      assert CMod(20, 10) == 0 && CDiv(20, 10) == 2 && CMod(2, 10) == 2;
    }
    assert t20 == p20 + "rd";
    assert t20[|t20| - 2..] == "rd";
  }

  /** `print_rec` for the records of day node `k` from its `i`th on: the
      last record gets the corner, and records are numbered from one. */
  function RecLines(t: Tree, s: seq<Record>, ml: bool, dl: bool, k: int, i: int): (r: seq<Line>)
    requires Shaped(t, |s|) && 0 <= k < t.days && 0 <= i <= t.nodes[k].chlen
    ensures |r| == t.nodes[k].chlen - i
    decreases t.nodes[k].chlen - i
  {
    DayNode(t, |s|, k);
    var d := t.nodes[k];
    if i == d.chlen then []
    else [RecordLine(ml, dl, i == d.chlen - 1, i + FIRST_DIND, s[d.first + i])] + RecLines(t, s, ml, dl, k, i + 1)
  }

  /** `print_day`: the day's line, then its records. */
  function DayLines(t: Tree, s: seq<Record>, ml: bool, k: int, last: bool): (r: seq<Line>)
    requires Shaped(t, |s|) && 0 <= k < t.days
    ensures |r| == 1 + t.nodes[k].chlen
  {
    DayNode(t, |s|, k);
    [DayLine(ml, last, t.nodes[k].id)] + RecLines(t, s, ml, last, k, 0)
  }

  /** The days of month node `j` from day node `k` on. */
  function DaysLines(t: Tree, s: seq<Record>, ml: bool, j: int, k: int): (r: seq<Line>)
    requires Shaped(t, |s|) && t.days <= j < t.root.first
    requires t.nodes[j].first <= k <= End(t.nodes[j])
    ensures |r| == DayCount(t, k, End(t.nodes[j]))
    decreases End(t.nodes[j]) - k
  {
    MonthNode(t, |s|, j);
    var e := End(t.nodes[j]);
    if k == e then []
    else DayLines(t, s, ml, k, k == e - 1) + DaysLines(t, s, ml, j, k + 1)
  }

  /** `print_month`: the month's line, then its days. */
  function MonthLines(t: Tree, s: seq<Record>, j: int, last: bool): (r: seq<Line>)
    requires Shaped(t, |s|) && t.days <= j < t.root.first
    ensures |r| == 1 + DayCount(t, t.nodes[j].first, End(t.nodes[j]))
  {
    MonthNode(t, |s|, j);
    [MonthLine(last, Mmm(t.nodes[j].id))] + DaysLines(t, s, last, j, t.nodes[j].first)
  }

  /** The months of year node `y` from month node `j` on. */
  function MonthsLines(t: Tree, s: seq<Record>, y: int, j: int): (r: seq<Line>)
    requires Shaped(t, |s|) && t.root.first <= y < |t.nodes|
    requires t.nodes[y].first <= j <= End(t.nodes[y])
    ensures |r| == MonthCount(t, j, End(t.nodes[y]))
    decreases End(t.nodes[y]) - j
  {
    YearNode(t, |s|, y);
    var e := End(t.nodes[y]);
    if j == e then []
    else MonthLines(t, s, j, j == e - 1) + MonthsLines(t, s, y, j + 1)
  }

  /** `print_year`: the year's line, then its months. */
  function YearLines(t: Tree, s: seq<Record>, y: int): (r: seq<Line>)
    requires Shaped(t, |s|) && t.root.first <= y < |t.nodes|
    ensures |r| == 1 + MonthCount(t, t.nodes[y].first, End(t.nodes[y]))
  {
    YearNode(t, |s|, y);
    [YearLine(t.nodes[y].id)] + MonthsLines(t, s, y, t.nodes[y].first)
  }

  /** The years from year node `y` on. */
  function YearsLines(t: Tree, s: seq<Record>, y: int): (r: seq<Line>)
    requires Shaped(t, |s|) && t.root.first <= y <= |t.nodes|
    ensures |r| == YearCount(t, y, |t.nodes|)
    decreases |t.nodes| - y
  {
    if y == |t.nodes| then []
    else YearLines(t, s, y) + YearsLines(t, s, y + 1)
  }

  /** The lines `rt_print` writes for the tree over the records `s`: those
      of the root's children, the year nodes. */
  function Print(t: Tree, s: seq<Record>): seq<Line>
    requires Shaped(t, |s|)
  {
    RootNode(t, |s|);
    YearsLines(t, s, t.root.first)
  }

  // ---------------------------------------------------------------------
  // How many lines

  /** A line per remaining record of the day, each showing that record. */
  lemma {:induction false} RecLinesShow(t: Tree, s: seq<Record>, ml: bool, dl: bool, k: int, i: int)
    requires Shaped(t, |s|) && 0 <= k < t.days && 0 <= i <= t.nodes[k].chlen
    ensures |RecLines(t, s, ml, dl, k, i)| == t.nodes[k].chlen - i
    ensures forall m :: 0 <= m < t.nodes[k].chlen - i ==>
      && 0 <= t.nodes[k].first + i + m < |s|
      && RecLines(t, s, ml, dl, k, i)[m]
         == RecordLine(ml, dl, i + m == t.nodes[k].chlen - 1, i + m + FIRST_DIND, s[t.nodes[k].first + i + m])
    decreases t.nodes[k].chlen - i
  {
    DayNode(t, |s|, k);
    if i < t.nodes[k].chlen {
      RecLinesShow(t, s, ml, dl, k, i + 1);
    }
  }

  /** One line per node and one per record. */
  lemma LineCount(t: Tree, s: seq<Record>)
    requires Shaped(t, |s|)
    ensures |Print(t, s)| == |t.nodes| + |s|
  {
    var d, y := t.days, t.root.first;
    assert Level(t.nodes, 0, d, 0, |s|);
    assert Level(t.nodes, d, y, 0, d);
    assert Level(t.nodes, y, |t.nodes|, d, y);
    DayChain(t, 0, d, 0, |s|);
    MonthChain(t, d, y, 0, d, 0, d);
    YearChain(t, y, |t.nodes|, d, y, d, y);
  }

  // ---------------------------------------------------------------------
  // Which records are shown

  /** The records the record lines show, in order. */
  function Shown(ls: seq<Line>): seq<Record>
  {
    if ls == [] then [] else (if ls[0].RecordLine? then [ls[0].rec] else []) + Shown(ls[1..])
  }

  lemma {:induction false} ShownAppend(a: seq<Line>, b: seq<Line>)
    ensures Shown(a + b) == Shown(a) + Shown(b)
  {
    if a == [] {
      assert a + b == b;
    } else {
      assert (a + b)[0] == a[0] && (a + b)[1..] == a[1..] + b;
      ShownAppend(a[1..], b);
    }
  }

  /** Where the children of node `k` of a level ending at `hi` begin; at
      the end of the level, `b`, where its last node's children end. */
  function From(nodes: seq<Node>, hi: int, b: int, k: int): int
  {
    if 0 <= k < hi <= |nodes| then nodes[k].first else b
  }

  /** In a chain each node's children end where the next node's begin,
      and the first node's begin at the chain's start. */
  lemma ChainNext(nodes: seq<Node>, lo: int, hi: int, a: int, b: int, k: int)
    requires Chained(nodes, lo, hi, a, b) && lo <= k < hi
    ensures End(nodes[k]) == From(nodes, hi, b, k + 1)
  {
    if k + 1 < hi {
      assert Follows(nodes, k);
    }
  }

  lemma ChainFirst(nodes: seq<Node>, lo: int, hi: int, a: int, b: int)
    requires Chained(nodes, lo, hi, a, b)
    ensures From(nodes, hi, b, lo) == a
  {
  }

  /** Lines showing adjacent slices of the records show, together, the
      slice they make up. */
  lemma ShownJoin(a: seq<Line>, b: seq<Line>, s: seq<Record>, x: int, y: int, z: int)
    requires 0 <= x <= y <= z <= |s| && Shown(a) == s[x..y] && Shown(b) == s[y..z]
    ensures Shown(a + b) == s[x..z]
  {
    ShownAppend(a, b);
    assert s[x..z] == s[x..y] + s[y..z];
  }

  /** The first record of day node `k`; `n` past the last day. */
  function RecStart(t: Tree, n: int, k: int): int
  {
    From(t.nodes, t.days, n, k)
  }

  /** The first day node of month node `j`; `t.days` past the last month. */
  function DayStart(t: Tree, j: int): int
  {
    From(t.nodes, t.root.first, t.days, j)
  }

  /** The first month node of year node `y`; `t.root.first` past the last
      year. */
  function MonthStart(t: Tree, y: int): int
  {
    From(t.nodes, |t.nodes|, t.root.first, y)
  }

  lemma DayNext(t: Tree, n: int, k: int)
    requires Shaped(t, n) && 0 <= k < t.days
    ensures t.days <= |t.nodes|
    ensures t.nodes[k].first == RecStart(t, n, k) && End(t.nodes[k]) == RecStart(t, n, k + 1)
  {
    assert Level(t.nodes, 0, t.days, 0, n);
    ChainNext(t.nodes, 0, t.days, 0, n, k);
  }

  lemma MonthNext(t: Tree, n: int, j: int)
    requires Shaped(t, n) && t.days <= j < t.root.first
    ensures t.root.first <= |t.nodes|
    ensures t.nodes[j].first == DayStart(t, j) && End(t.nodes[j]) == DayStart(t, j + 1)
  {
    assert Level(t.nodes, t.days, t.root.first, 0, t.days);
    ChainNext(t.nodes, t.days, t.root.first, 0, t.days, j);
  }

  lemma YearNext(t: Tree, n: int, y: int)
    requires Shaped(t, n) && t.root.first <= y < |t.nodes|
    ensures t.nodes[y].first == MonthStart(t, y) && End(t.nodes[y]) == MonthStart(t, y + 1)
  {
    assert Level(t.nodes, t.root.first, |t.nodes|, t.days, t.root.first);
    ChainNext(t.nodes, t.root.first, |t.nodes|, t.days, t.root.first, y);
  }

  /** Where the children of a node, or the end of its level, lie. */
  lemma RecBound(t: Tree, n: int, k: int)
    requires Shaped(t, n) && 0 <= k <= t.days
    ensures 0 <= RecStart(t, n, k) <= n
  {
    if k < t.days {
      DayNode(t, n, k);
    } else {
      assert Level(t.nodes, 0, t.days, 0, n);
      ChainBounds(t.nodes, 0, t.days, 0, n, 0, n);
    }
  }

  lemma DayBound(t: Tree, n: int, j: int)
    requires Shaped(t, n) && t.days <= j <= t.root.first
    ensures 0 <= DayStart(t, j) <= t.days
  {
    if j < t.root.first {
      MonthNode(t, n, j);
    }
  }

  lemma MonthBound(t: Tree, n: int, y: int)
    requires Shaped(t, n) && t.root.first <= y <= |t.nodes|
    ensures t.days <= MonthStart(t, y) <= t.root.first
  {
    if y < |t.nodes| {
      YearNode(t, n, y);
    }
  }

  /** Later day nodes start at later records. */
  lemma {:induction false} RecMono(t: Tree, n: int, k1: int, k2: int)
    requires Shaped(t, n) && 0 <= k1 <= k2 <= t.days
    ensures 0 <= RecStart(t, n, k1) <= RecStart(t, n, k2) <= n
    decreases k2 - k1
  {
    if k1 < k2 {
      DayNode(t, n, k1);
      DayNext(t, n, k1);
      RecMono(t, n, k1 + 1, k2);
    } else {
      RecBound(t, n, k2);
    }
  }

  /** Later month nodes start at later day nodes. */
  lemma {:induction false} DayMono(t: Tree, n: int, j1: int, j2: int)
    requires Shaped(t, n) && t.days <= j1 <= j2 <= t.root.first
    ensures 0 <= DayStart(t, j1) <= DayStart(t, j2) <= t.days
    decreases j2 - j1
  {
    if j1 < j2 {
      MonthNode(t, n, j1);
      MonthNext(t, n, j1);
      DayMono(t, n, j1 + 1, j2);
    } else {
      DayBound(t, n, j2);
    }
  }

  /** Later month nodes start at later records. */
  lemma MonthRecMono(t: Tree, n: int, j1: int, j2: int)
    requires Shaped(t, n) && t.days <= j1 <= j2 <= t.root.first
    ensures 0 <= RecStart(t, n, DayStart(t, j1)) <= RecStart(t, n, DayStart(t, j2)) <= n
  {
    DayMono(t, n, j1, j2);
    RecMono(t, n, DayStart(t, j1), DayStart(t, j2));
  }

  /** Past the last node of each level is the end of the level below. */
  lemma Ends(t: Tree, n: int)
    ensures MonthStart(t, |t.nodes|) == t.root.first
    ensures DayStart(t, t.root.first) == t.days
    ensures RecStart(t, n, t.days) == n
  {
  }

  /** Each level starts where the one below it does. */
  lemma Starts(t: Tree, n: int)
    requires Shaped(t, n)
    ensures 0 <= t.days <= t.root.first <= |t.nodes|
    ensures MonthStart(t, t.root.first) == t.days && DayStart(t, t.days) == 0 && RecStart(t, n, 0) == 0
  {
    assert Level(t.nodes, 0, t.days, 0, n);
    assert Level(t.nodes, t.days, t.root.first, 0, t.days);
    assert Level(t.nodes, t.root.first, |t.nodes|, t.days, t.root.first);
    ChainFirst(t.nodes, 0, t.days, 0, n);
    ChainFirst(t.nodes, t.days, t.root.first, 0, t.days);
    ChainFirst(t.nodes, t.root.first, |t.nodes|, t.days, t.root.first);
  }

  /** The record lines of a day show its records from the `i`th on. */
  lemma {:induction false} RecLinesShown(t: Tree, s: seq<Record>, ml: bool, dl: bool, k: int, i: int)
    requires Shaped(t, |s|) && 0 <= k < t.days && 0 <= i <= t.nodes[k].chlen
    ensures 0 <= t.nodes[k].first + i <= End(t.nodes[k]) <= |s|
    ensures Shown(RecLines(t, s, ml, dl, k, i)) == s[t.nodes[k].first + i..End(t.nodes[k])]
    decreases t.nodes[k].chlen - i
  {
    DayNode(t, |s|, k);
    var d := t.nodes[k];
    if i < d.chlen {
      var x := RecordLine(ml, dl, i == d.chlen - 1, i + FIRST_DIND, s[d.first + i]);
      RecLinesShown(t, s, ml, dl, k, i + 1);
      ShownAppend([x], RecLines(t, s, ml, dl, k, i + 1));
      assert Shown([x]) == [s[d.first + i]];
      assert s[d.first + i..End(d)] == [s[d.first + i]] + s[d.first + i + 1..End(d)];
    }
  }

  /** A day's lines show its records. */
  lemma DayShown(t: Tree, s: seq<Record>, ml: bool, k: int, last: bool)
    requires Shaped(t, |s|) && 0 <= k < t.days
    ensures t.days <= |t.nodes| && 0 <= RecStart(t, |s|, k) <= RecStart(t, |s|, k + 1) <= |s|
    ensures Shown(DayLines(t, s, ml, k, last)) == s[RecStart(t, |s|, k)..RecStart(t, |s|, k + 1)]
  {
    DayNode(t, |s|, k);
    DayNext(t, |s|, k);
    RecLinesShown(t, s, ml, last, k, 0);
    ShownAppend([DayLine(ml, last, t.nodes[k].id)], RecLines(t, s, ml, last, k, 0));
  }

  /** The days of a month from day node `k` on show the records from the
      first of `k` to the last of the month's last day. */
  lemma {:induction false} DaysLinesShown(t: Tree, s: seq<Record>, ml: bool, j: int, k: int)
    requires Shaped(t, |s|) && t.days <= j < t.root.first
    requires t.nodes[j].first <= k <= End(t.nodes[j])
    ensures 0 <= k <= End(t.nodes[j]) <= t.days <= |t.nodes|
    ensures 0 <= RecStart(t, |s|, k) <= RecStart(t, |s|, End(t.nodes[j])) <= |s|
    ensures Shown(DaysLines(t, s, ml, j, k)) == s[RecStart(t, |s|, k)..RecStart(t, |s|, End(t.nodes[j]))]
    decreases End(t.nodes[j]) - k
  {
    MonthNode(t, |s|, j);
    var e := End(t.nodes[j]);
    if k < e {
      DaysLinesShown(t, s, ml, j, k + 1);
      DayShown(t, s, ml, k, k == e - 1);
      ShownJoin(DayLines(t, s, ml, k, k == e - 1), DaysLines(t, s, ml, j, k + 1),
        s, RecStart(t, |s|, k), RecStart(t, |s|, k + 1), RecStart(t, |s|, e));
    } else if e < t.days {
      DayShown(t, s, ml, e, true);
    }
  }

  /** A month's lines show the records of its days. */
  lemma MonthShown(t: Tree, s: seq<Record>, j: int, last: bool)
    requires Shaped(t, |s|) && t.days <= j < t.root.first
    ensures t.days <= t.root.first <= |t.nodes|
    ensures 0 <= DayStart(t, j) <= DayStart(t, j + 1) <= t.days
    ensures 0 <= RecStart(t, |s|, DayStart(t, j)) <= RecStart(t, |s|, DayStart(t, j + 1)) <= |s|
    ensures Shown(MonthLines(t, s, j, last)) == s[RecStart(t, |s|, DayStart(t, j))..RecStart(t, |s|, DayStart(t, j + 1))]
  {
    MonthNode(t, |s|, j);
    MonthNext(t, |s|, j);
    var m := t.nodes[j];
    DaysLinesShown(t, s, last, j, m.first);
    ShownAppend([MonthLine(last, Mmm(m.id))], DaysLines(t, s, last, j, m.first));
  }

  /** The months of a year from month node `j` on show the records of
      their days. */
  lemma {:induction false} MonthsLinesShown(t: Tree, s: seq<Record>, y: int, j: int)
    requires Shaped(t, |s|) && t.root.first <= y < |t.nodes|
    requires t.nodes[y].first <= j <= End(t.nodes[y])
    ensures 0 <= RecStart(t, |s|, DayStart(t, j)) <= RecStart(t, |s|, DayStart(t, End(t.nodes[y]))) <= |s|
    ensures Shown(MonthsLines(t, s, y, j))
      == s[RecStart(t, |s|, DayStart(t, j))..RecStart(t, |s|, DayStart(t, End(t.nodes[y])))]
    decreases End(t.nodes[y]) - j
  {
    YearNode(t, |s|, y);
    var e := End(t.nodes[y]);
    MonthRecMono(t, |s|, j, e);
    if j < e {
      MonthsLinesShown(t, s, y, j + 1);
      MonthShown(t, s, j, j == e - 1);
      assert MonthsLines(t, s, y, j) == MonthLines(t, s, j, j == e - 1) + MonthsLines(t, s, y, j + 1);
      ShownJoin(MonthLines(t, s, j, j == e - 1), MonthsLines(t, s, y, j + 1),
        s, RecStart(t, |s|, DayStart(t, j)), RecStart(t, |s|, DayStart(t, j + 1)), RecStart(t, |s|, DayStart(t, e)));
    }
  }

  /** A year's lines show the records of its months. */
  lemma YearShown(t: Tree, s: seq<Record>, y: int)
    requires Shaped(t, |s|) && t.root.first <= y < |t.nodes|
    ensures 0 <= RecStart(t, |s|, DayStart(t, MonthStart(t, y)))
      <= RecStart(t, |s|, DayStart(t, MonthStart(t, y + 1))) <= |s|
    ensures Shown(YearLines(t, s, y))
      == s[RecStart(t, |s|, DayStart(t, MonthStart(t, y)))..RecStart(t, |s|, DayStart(t, MonthStart(t, y + 1)))]
  {
    YearNode(t, |s|, y);
    YearNext(t, |s|, y);
    var n := t.nodes[y];
    MonthsLinesShown(t, s, y, n.first);
    ShownAppend([YearLine(n.id)], MonthsLines(t, s, y, n.first));
  }

  /** Year node `y`'s lines, put before those of the years after it, show
      the records from its first on. */
  lemma YearsStep(t: Tree, s: seq<Record>, y: int)
    requires Shaped(t, |s|) && t.root.first <= y < |t.nodes|
    requires 0 <= RecStart(t, |s|, DayStart(t, MonthStart(t, y + 1))) <= |s|
    requires Shown(YearsLines(t, s, y + 1)) == s[RecStart(t, |s|, DayStart(t, MonthStart(t, y + 1)))..]
    ensures 0 <= RecStart(t, |s|, DayStart(t, MonthStart(t, y))) <= |s|
    ensures Shown(YearsLines(t, s, y)) == s[RecStart(t, |s|, DayStart(t, MonthStart(t, y)))..]
  {
    YearShown(t, s, y);
    ShownJoin(YearLines(t, s, y), YearsLines(t, s, y + 1), s,
      RecStart(t, |s|, DayStart(t, MonthStart(t, y))), RecStart(t, |s|, DayStart(t, MonthStart(t, y + 1))), |s|);
  }

  /** The years from year node `y` on show the records of their months,
      up to the last record. */
  lemma {:induction false} YearsLinesShown(t: Tree, s: seq<Record>, y: int)
    requires Shaped(t, |s|) && t.root.first <= y <= |t.nodes|
    ensures 0 <= RecStart(t, |s|, DayStart(t, MonthStart(t, y))) <= |s|
    ensures Shown(YearsLines(t, s, y)) == s[RecStart(t, |s|, DayStart(t, MonthStart(t, y)))..]
    decreases |t.nodes| - y
  {
    if y < |t.nodes| {
      YearsLinesShown(t, s, y + 1);
      YearsStep(t, s, y);
    } else {
      Ends(t, |s|);
    }
  }

  /** Every record is shown once, in the order of the list. */
  lemma PrintShown(t: Tree, s: seq<Record>)
    requires Shaped(t, |s|)
    ensures Shown(Print(t, s)) == s
  {
    Starts(t, |s|);
    YearsLinesShown(t, s, t.root.first);
  }

  /** A tree built over records with valid, ordered dates prints one line
      per distinct year, year-month and date and one per record, and shows
      every record once, in the order of the list. */
  lemma BuiltPrint(t: Tree, s: seq<Record>)
    requires Built(t, DatesOf(s)) && NonDecreasing(DatesOf(s))
    requires forall i :: 0 <= i < |s| ==> IsDate(s[i].dt)
    ensures Shaped(t, |s|)
    ensures |Print(t, s)| == |Tally(DatesOf(s), 1)| + |Tally(DatesOf(s), 100)| + |Tally(DatesOf(s), 10000)| + |s|
    ensures Shown(Print(t, s)) == s
  {
    var ds := DatesOf(s);
    forall i | 0 <= i < |ds|
      ensures IsDate(ds[i])
    {
      assert ds[i] == s[i].dt;
    }
    BuiltShaped(t, ds);
    NodeCount(t, ds);
    LineCount(t, s);
    PrintShown(t, s);
  }

  // ---------------------------------------------------------------------
  // The width of the index-and-amount field

  /** With records there is a first day node, and it holds the first
      record. */
  lemma FirstDay(t: Tree, n: int)
    requires Shaped(t, n) && n > 0
    ensures 0 < t.days <= |t.nodes| && t.nodes[0].first == 0 && 1 <= t.nodes[0].chlen <= n
  {
    assert Level(t.nodes, 0, t.days, 0, n);
    assert Inside(t.nodes, 0, 0, n);
  }

  /** Record `i` of day node `k` is one of the records. */
  predicate At(t: Tree, s: seq<Record>, k: int, i: int)
  {
    0 <= k < t.days && k < |t.nodes| && 0 <= i < t.nodes[k].chlen && 0 <= t.nodes[k].first + i < |s|
  }

  function AmtAt(t: Tree, s: seq<Record>, k: int, i: int): int
    requires At(t, s, k, i)
  {
    s[t.nodes[k].first + i].amt
  }

  /** The field is `w` characters wide whenever the index and the amount
      leave room for the rule's least glyphs, and then its rule holds at
      least that many; otherwise it is as wide as its parts. */
  lemma VfmtLength(dind: int, amt: int, w: int)
    ensures var d, a := IntToString(dind), AmtField(amt);
      |Vfmt(dind, amt, w)| == if |d| + 2 + |a| <= w then w else |d| + 2 + |a|
    ensures |IntToString(dind)| + |AmtField(amt)| + VFMT_MINDD + 2 <= w ==>
      forall j :: |IntToString(dind)| + 1 <= j < |IntToString(dind)| + 1 + VFMT_MINDD ==> Vfmt(dind, amt, w)[j] == DD
  {
    var d, a := IntToString(dind), AmtField(amt);
    var v := Vfmt(dind, amt, w);
    var r := Rule(w - (|d| + 2 + |a|));
    assert v == d + " " + r + " " + a;
    forall j | |d| + 1 <= j < |d| + 1 + |r|
      ensures v[j] == DD
    {
      assert v[j] == r[j - |d| - 1];
    }
  }

  /** The length of the longest record index text `rt_print` allows for:
      that of the largest index of any day. */
  method IndexWidth(t: Tree, s: seq<Record>) returns (len: int)
    requires Shaped(t, |s|) && IsInt64(|s|)
    ensures forall k, i :: At(t, s, k, i) ==> |IntToString(i + FIRST_DIND)| <= len
    ensures |s| > 0 ==> exists k, i :: At(t, s, k, i) && |IntToString(i + FIRST_DIND)| == len
    ensures |s| == 0 ==> len == 1
  {
    RootNode(t, |s|);
    var max := 0;
    ghost var mk := 0;
    for k := 0 to t.days
      invariant 0 <= max && (max == 0 || max < |s|) && (k == 0 ==> max == 0)
      invariant forall k' :: 0 <= k' < k ==> t.nodes[k'].chlen - 1 <= max
      invariant k > 0 ==> 0 <= mk < k && t.nodes[mk].chlen - 1 == max
    {
      DayNode(t, |s|, k);
      var last := t.nodes[k].chlen - 1;
      max := Util.Max(max, last);
      if max == last {
        mk := k;
      } else {
        assert k > 0;
      }
    }
    len := Util.Digits(max + FIRST_DIND, false);
    forall k, i | At(t, s, k, i)
      ensures |IntToString(i + FIRST_DIND)| <= len
    {
      Util.DigitsIsTextLength(i + FIRST_DIND);
      DigitCountMonotone(i + FIRST_DIND, max + FIRST_DIND);
    }
    if |s| > 0 {
      FirstDay(t, |s|);
      DayNode(t, |s|, mk);
      Util.DigitsIsTextLength(max + FIRST_DIND);
      assert At(t, s, mk, max);
    }
  }

  /** The largest and the smallest amount of the records, both taken from
      zero on, as the scan in `rt_print` finds them. */
  method Extremes(t: Tree, s: seq<Record>) returns (max: int, min: int)
    requires Shaped(t, |s|) && forall p :: 0 <= p < |s| ==> IsInt64(s[p].amt)
    ensures IsInt64(min) && min <= 0 <= max && IsInt64(max)
    ensures forall k, i :: At(t, s, k, i) ==> min <= AmtAt(t, s, k, i) <= max
    ensures max != 0 ==> exists k, i :: At(t, s, k, i) && AmtAt(t, s, k, i) == max
    ensures min != 0 ==> exists k, i :: At(t, s, k, i) && AmtAt(t, s, k, i) == min
  {
    RootNode(t, |s|);
    max, min := 0, 0;
    ghost var xk, xi, nk, ni := 0, 0, 0, 0;
    for k := 0 to t.days
      invariant IsInt64(min) && min <= 0 <= max && IsInt64(max)
      invariant forall k', i' :: At(t, s, k', i') && k' < k ==> min <= AmtAt(t, s, k', i') <= max
      invariant max != 0 ==> At(t, s, xk, xi) && AmtAt(t, s, xk, xi) == max
      invariant min != 0 ==> At(t, s, nk, ni) && AmtAt(t, s, nk, ni) == min
    {
      DayNode(t, |s|, k);
      for i := 0 to t.nodes[k].chlen
        invariant IsInt64(min) && min <= 0 <= max && IsInt64(max)
        invariant forall k', i' :: At(t, s, k', i') && (k' < k || (k' == k && i' < i)) ==> min <= AmtAt(t, s, k', i') <= max
        invariant max != 0 ==> At(t, s, xk, xi) && AmtAt(t, s, xk, xi) == max
        invariant min != 0 ==> At(t, s, nk, ni) && AmtAt(t, s, nk, ni) == min
      {
        assert At(t, s, k, i);
        var amt := s[t.nodes[k].first + i].amt;
        if amt > max {
          xk, xi := k, i;
        }
        if amt < min {
          nk, ni := k, i;
        }
        max := Util.Max(max, amt);
        min := Util.Min(min, amt);
      }
    }
  }

  /** The length of the longest amount field `rt_print` allows for: one
      more than the longer of the texts of the largest and the smallest
      amount. */
  method AmountWidth(t: Tree, s: seq<Record>) returns (len: int)
    requires Shaped(t, |s|) && forall p :: 0 <= p < |s| ==> IsInt64(s[p].amt)
    ensures forall k, i :: At(t, s, k, i) ==> |AmtField(AmtAt(t, s, k, i))| <= len
    ensures |s| > 0 ==> exists k, i :: At(t, s, k, i) && |AmtField(AmtAt(t, s, k, i))| == len
    ensures |s| == 0 ==> len == 5
  {
    var max, min := Extremes(t, s);
    var a := Util.FmtCentsLen(max);
    var b := Util.FmtCentsLen(min);
    len := 1 + Util.Max(a, b);
    forall k, i | At(t, s, k, i)
      ensures |AmtField(AmtAt(t, s, k, i))| <= len
    {
      var amt := AmtAt(t, s, k, i);
      AmtFieldLength(amt);
      if amt >= 0 {
        Util.CentsTextMonotone(amt, max);
      } else {
        Util.CentsTextMonotone(amt, min);
      }
    }
    Util.CentsTextLength(0);
    Util.CentsTextMonotone(0, max);
    Util.CentsTextMonotone(0, min);
    if |s| > 0 {
      FirstDay(t, |s|);
      assert At(t, s, 0, 0);
      if a >= b && max != 0 {
        ghost var k, i :| At(t, s, k, i) && AmtAt(t, s, k, i) == max;
        AmtFieldLength(max);
      } else if a >= b {
        AmtFieldLength(0);
      } else {
        ghost var k, i :| At(t, s, k, i) && AmtAt(t, s, k, i) == min;
        AmtFieldLength(min);
      }
    }
  }

  /** `vfmtclen` of `rt_print`: the longest index text and the longest
      amount field, with the rule's least glyphs and the two spaces between
      them. Every record's field is then exactly `w` characters wide, so the
      amounts line up. */
  method Width(t: Tree, s: seq<Record>) returns (w: int, dindlen: int, amtlen: int)
    requires Shaped(t, |s|) && IsInt64(|s|) && forall p :: 0 <= p < |s| ==> IsInt64(s[p].amt)
    ensures w == dindlen + amtlen + VFMT_MINDD + 2
    ensures forall k, i :: At(t, s, k, i) ==>
      |IntToString(i + FIRST_DIND)| <= dindlen && |AmtField(AmtAt(t, s, k, i))| <= amtlen
    ensures |s| > 0 ==> exists k, i :: At(t, s, k, i) && |IntToString(i + FIRST_DIND)| == dindlen
    ensures |s| > 0 ==> exists k, i :: At(t, s, k, i) && |AmtField(AmtAt(t, s, k, i))| == amtlen
    ensures forall k, i :: At(t, s, k, i) ==> |Vfmt(i + FIRST_DIND, AmtAt(t, s, k, i), w)| == w
  {
    dindlen := IndexWidth(t, s);
    amtlen := AmountWidth(t, s);
    w := dindlen + amtlen + VFMT_MINDD + 2;
    forall k, i | At(t, s, k, i)
      ensures |Vfmt(i + FIRST_DIND, AmtAt(t, s, k, i), w)| == w
    {
      VfmtLength(i + FIRST_DIND, AmtAt(t, s, k, i), w);
    }
  }

  /** `rt_print`: the text of every line of the tree view, rendered at the
      field width `Width` computes, and the number of lines written. */
  method PrintTree(t: Tree, s: seq<Record>) returns (w: int, out: seq<string>, lines: int)
    requires Shaped(t, |s|) && IsInt64(|s|) && forall p :: 0 <= p < |s| ==> IsInt64(s[p].amt)
    ensures forall k, i :: At(t, s, k, i) ==> |Vfmt(i + FIRST_DIND, AmtAt(t, s, k, i), w)| == w
    ensures lines == |out| == |Print(t, s)| == |t.nodes| + |s|
    ensures forall i :: 0 <= i < |out| ==> out[i] == Render(Print(t, s)[i], w)
  {
    var dindlen, amtlen;
    w, dindlen, amtlen := Width(t, s);
    var ls := Print(t, s);
    LineCount(t, s);
    out := seq(|ls|, i requires 0 <= i < |ls| => Render(ls[i], w));
    lines := |out|;
  }
}
