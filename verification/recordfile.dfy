/** Loading the record list from its file (`rl_init` in src/recordlist.c).
    The file is its text; the two passes of `rl_init` become a scan of the
    line widths and a parse of the lines as `fgets` delivers them. */
module RecordFiles {
  import opened Base
  import opened Text
  import opened Records
  import opened RecordLists
  import opened Dates
  import Util

  const NL: char := '\n'

  /** `RL_MAXCOUNT`: half of `PTRDIFF_MAX`. */
  const MAXCOUNT: int := 0x3FFF_FFFF_FFFF_FFFF

  /** Where the first line of `s` ends: the first newline, or the end. */
  function LineEnd(s: string): (k: nat)
    ensures k <= |s|
    ensures k < |s| ==> s[k] == NL
    decreases |s|
  {
    if s == [] || s[0] == NL then 0 else 1 + LineEnd(s[1..])
  }

  /** A line holds no newline. */
  lemma {:induction false} LineEndFirst(s: string)
    ensures forall i :: 0 <= i < LineEnd(s) ==> s[i] != NL
    decreases |s|
  {
    if s != [] && s[0] != NL {
      LineEndFirst(s[1..]);
      assert forall i :: 1 <= i < LineEnd(s) ==> s[i] == s[1..][i - 1];
    }
  }

  /** The lines of the file without their newlines; a last line without a
      newline counts, an empty text after the last newline does not. */
  function Lines(s: string): (r: seq<string>)
    decreases |s|
  {
    if s == [] then []
    else
      var k := LineEnd(s);
      [s[..k]] + (if k < |s| then Lines(s[k + 1..]) else [])
  }

  /** Splitting off the first line. */
  lemma LinesCons(s: string)
    requires s != []
    ensures var k := LineEnd(s);
            Lines(s) == [s[..k]] + (if k < |s| then Lines(s[k + 1..]) else [])
  {
  }

  /** Whether the text ends inside a line, without a final newline. */
  predicate Open(s: string)
  {
    s != [] && s[|s| - 1] != NL
  }

  /** What the first pass of `rl_init` finds. */
  datatype Scan = Long(line: nat) | TooMany | Fits(lines: nat)

  /** The first pass, from line `j` on: a line wider than `REC_STRLEN` stops
      it with that line's 1-based number; a newline that takes the count
      past `RL_MAXCOUNT`, or an unterminated last line after `RL_MAXCOUNT`
      terminated ones, is too many. */
  function ScanFrom(lines: seq<string>, open: bool, j: nat): Scan
    requires j <= |lines|
    decreases |lines| - j
  {
    if j == |lines| then Fits(j)
    else if |lines[j]| > STRLEN then Long(j + 1)
    else if j == |lines| - 1 && open then (if j < MAXCOUNT then Fits(j + 1) else TooMany)
    else if j + 1 > MAXCOUNT then TooMany
    else ScanFrom(lines, open, j + 1)
  }

  /** The scan of a whole file. */
  function ScanFile(s: string): Scan
  {
    ScanFrom(Lines(s), Open(s), 0)
  }

  /** The scan's three outcomes, in terms of the lines: the reported line
      is the first wide one, a count is the number of lines (all narrow),
      and too many means more than `RL_MAXCOUNT` of them. */
  lemma {:induction false} ScanFacts(lines: seq<string>, open: bool, j: nat)
    requires j <= |lines|
    requires forall i :: 0 <= i < j ==> |lines[i]| <= STRLEN
    ensures var r := ScanFrom(lines, open, j);
            r.Long? ==> && j < r.line <= |lines| && |lines[r.line - 1]| > STRLEN
                        && forall i :: 0 <= i < r.line - 1 ==> |lines[i]| <= STRLEN
    ensures var r := ScanFrom(lines, open, j);
            r.Fits? ==> r.lines == |lines| && forall i :: 0 <= i < |lines| ==> |lines[i]| <= STRLEN
    ensures ScanFrom(lines, open, j).TooMany? ==> |lines| > MAXCOUNT
    decreases |lines| - j
  {
    if j < |lines| && |lines[j]| <= STRLEN && !(j == |lines| - 1 && open) && j + 1 <= MAXCOUNT {
      ScanFacts(lines, open, j + 1);
    }
  }

  /** A file whose lines all fit, and whose line count is below
      `RL_MAXCOUNT`, scans to that count. */
  lemma {:induction false} ScanNarrow(lines: seq<string>, open: bool, j: nat)
    requires j <= |lines| < MAXCOUNT
    requires forall i :: 0 <= i < |lines| ==> |lines[i]| <= STRLEN
    ensures ScanFrom(lines, open, j) == Fits(|lines|)
    decreases |lines| - j
  {
    if j < |lines| {
      ScanNarrow(lines, open, j + 1);
    }
  }

  /** The length of what one `fgets` with room for `max` characters reads:
      up to and including the newline, at most `max`. */
  function ChunkLen(s: string, max: nat): (c: nat)
    requires s != [] && max >= 1
    ensures 1 <= c <= max && c <= |s|
  {
    var k := LineEnd(s);
    var upto := if k < |s| then k + 1 else k;
    if upto < max then upto else max
  }

  /** The successive `fgets` results over the whole file. */
  function Chunks(s: string, max: nat): (r: seq<string>)
    requires max >= 1
    ensures forall j :: 0 <= j < |r| ==> 1 <= |r[j]| <= max
    decreases |s|
  {
    if s == [] then []
    else
      var c := ChunkLen(s, max);
      [s[..c]] + Chunks(s[c..], max)
  }

  /** The buffer `rl_init` hands to `rec_fromstr`: the chunk with a final
      newline removed. */
  function Strip(chunk: string): (r: string)
    requires |chunk| >= 1
    ensures |r| <= |chunk| && r <= chunk
  {
    if chunk[|chunk| - 1] == NL then chunk[..|chunk| - 1] else chunk
  }

  /** Every line yields at least one chunk. */
  lemma {:induction false} ChunksCover(s: string, max: nat)
    requires max >= 1
    ensures |Chunks(s, max)| >= |Lines(s)|
    decreases |s|
  {
    if s != [] {
      var k := LineEnd(s);
      var c := ChunkLen(s, max);
      ChunksCover(s[c..], max);
      assert |Chunks(s, max)| == 1 + |Chunks(s[c..], max)| by { ChunksCons(s, max); }
      if k < |s| {
        assert |Lines(s)| == 1 + |Lines(s[k + 1..])| by { LinesCons(s); }
        if c < k + 1 {
          LineEndDrop(s, c);
          LinesMonotone(s[c..], k - c);
          DropDrop(s, c, k - c + 1);
        }
      } else {
        assert |Lines(s)| == 1 by { LinesCons(s); }
      }
    }
  }

  /** Dropping twice is dropping the sum. */
  lemma DropDrop(s: string, a: nat, b: nat)
    requires a + b <= |s|
    ensures s[a..][b..] == s[a + b..]
  {
  }

  /** Dropping the start of a line moves its end back by as much. */
  lemma {:induction false} LineEndDrop(s: string, c: nat)
    requires c <= LineEnd(s)
    ensures LineEnd(s[c..]) == LineEnd(s) - c
    decreases c
  {
    if c > 0 {
      assert s != [] && s[0] != NL;
      LineEndDrop(s[1..], c - 1);
      assert s[1..][c - 1..] == s[c..];
    }
  }

  /** Dropping part of a first line does not lose the following lines. */
  lemma LinesMonotone(s: string, k: nat)
    requires k == LineEnd(s) && k < |s|
    ensures |Lines(s)| >= 1 + |Lines(s[k + 1..])|
  {
    var rest := Lines(s[k + 1..]);
    assert Lines(s) == [s[..k]] + rest by { LinesCons(s); }
  }

  /** The outcome of `rl_init`: the installed list, the 1-based number of a
      line that is too wide or does not parse, or too many lines. */
  datatype Loaded = Loaded(rl: RecordList) | BadLine(line: nat) | TooManyLines

  /** The value `rl_init` returns for each outcome. */
  function ReturnCode(r: Loaded): int
  {
    match r
    case Loaded(_) => 0
    case BadLine(n) => n
    case TooManyLines => INT64_MAX
  }

  /** The second pass over the buffers: all records, or the 1-based
      number of the first buffer that does not parse. */
  datatype Parsed = Parsed(recs: seq<Record>) | Failed(line: nat)

  /** What `rec_fromstr` makes of each buffer. */
  function Parses(bufs: seq<string>): (r: seq<Option<Record>>)
    requires forall j :: 0 <= j < |bufs| ==> IsCString(bufs[j]) && |bufs[j]| <= STRLEN
    ensures |r| == |bufs| && forall j :: 0 <= j < |bufs| ==> r[j] == FromStr(bufs[j])
  {
    seq(|bufs|, j requires 0 <= j < |bufs| => FromStr(bufs[j]))
  }

  /** Collect the parse results in order from `i`, stopping at the first
      failure. */
  function ParseFrom(opts: seq<Option<Record>>, i: nat): (r: Parsed)
    requires i <= |opts|
    ensures r.Failed? ==> i < r.line <= |opts|
    ensures r.Parsed? ==> |r.recs| == |opts| - i
    decreases |opts| - i
  {
    if i == |opts| then Parsed([])
    else
      match opts[i]
      case None => Failed(i + 1)
      case Some(rec) =>
        var rest := ParseFrom(opts, i + 1);
        if rest.Failed? then rest else Parsed([rec] + rest.recs)
  }

  /** A failure names the first result that is missing. */
  lemma {:induction false} ParseFromFailed(opts: seq<Option<Record>>, i: nat)
    requires i <= |opts|
    ensures var r := ParseFrom(opts, i);
            r.Failed? ==> && opts[r.line - 1].None?
                          && forall j :: i <= j < r.line - 1 ==> opts[j].Some?
    decreases |opts| - i
  {
    if i < |opts| && opts[i].Some? {
      ParseFromFailed(opts, i + 1);
    }
  }

  /** Success holds each result's record, in order. */
  lemma {:induction false} ParseFromParsed(opts: seq<Option<Record>>, i: nat)
    requires i <= |opts|
    ensures var r := ParseFrom(opts, i);
            r.Parsed? ==> forall j :: i <= j < |opts| ==> opts[j] == Some(r.recs[j - i])
    decreases |opts| - i
  {
    if i < |opts| && opts[i].Some? {
      ParseFromParsed(opts, i + 1);
      var rest := ParseFrom(opts, i + 1);
      if rest.Parsed? {
        var r := ParseFrom(opts, i);
        assert r.recs == [opts[i].value] + rest.recs;
        forall j | i <= j < |opts| ensures opts[j] == Some(r.recs[j - i]) {
          if j > i { assert r.recs[j - i] == rest.recs[j - i - 1]; }
        }
      }
    }
  }

  /** The whole pass from the first buffer. */
  lemma ParseAll(opts: seq<Option<Record>>)
    ensures var r := ParseFrom(opts, 0);
            r.Parsed? ==> |r.recs| == |opts| && forall j :: 0 <= j < |opts| ==> opts[j] == Some(r.recs[j])
    ensures var r := ParseFrom(opts, 0);
            r.Failed? ==> && 1 <= r.line <= |opts| && opts[r.line - 1].None?
                          && forall j :: 0 <= j < r.line - 1 ==> opts[j].Some?
  {
    ParseFromFailed(opts, 0);
    ParseFromParsed(opts, 0);
    var r := ParseFrom(opts, 0);
    if r.Parsed? {
      forall j | 0 <= j < |opts| ensures opts[j] == Some(r.recs[j]) {
        assert opts[j] == Some(r.recs[j - 0]);
      }
    }
  }

  /** Install parsed records with the slice over all of them and room for
      one more. */
  function Install(r: Parsed): (res: Loaded)
  {
    match r
    case Parsed(recs) => Loaded(RecordList(recs, 0, |recs|, |recs| + 1))
    case Failed(n) => BadLine(n)
  }

  lemma SubCString(s: string, a: nat, b: nat)
    requires IsCString(s) && a <= b <= |s|
    ensures IsCString(s[a..b])
  {
    assert forall i :: 0 <= i < b - a ==> s[a..b][i] == s[a + i];
  }

  lemma {:induction false} LinesCString(s: string)
    requires IsCString(s)
    ensures forall j :: 0 <= j < |Lines(s)| ==> IsCString(Lines(s)[j])
    decreases |s|
  {
    if s != [] {
      var k := LineEnd(s);
      LinesCons(s);
      SubCString(s, 0, k);
      if k < |s| {
        SubCString(s, k + 1, |s|);
        LinesCString(s[k + 1..]);
      }
    }
  }

  /** `rl_init` as intended: a wide line stops it with that line's number,
      a line that does not parse stops it with that line's number, and
      otherwise every line becomes a record, in file order, with the slice
      over the whole list and room for one insertion. */
  function Init(s: string): (r: Loaded)
    requires IsCString(s)
    ensures var lines := Lines(s);
            r.Loaded? ==> && |r.rl.records| == |lines|
                          && (forall j :: 0 <= j < |lines| ==>
                                IsCString(lines[j]) && |lines[j]| <= STRLEN
                                && FromStr(lines[j]) == Some(r.rl.records[j]))
                          && r.rl.start == 0 && r.rl.stop == |lines| && r.rl.cap == |lines| + 1
    ensures var lines := Lines(s);
            r.BadLine? ==> && 1 <= r.line <= |lines|
                           && (forall j :: 0 <= j < r.line - 1 ==> |lines[j]| <= STRLEN)
                           && (|lines[r.line - 1]| > STRLEN
                               || (&& (forall j :: 0 <= j < |lines| ==> IsCString(lines[j]) && |lines[j]| <= STRLEN)
                                   && IsCString(lines[r.line - 1]) && FromStr(lines[r.line - 1]).None?
                                   && forall j :: 0 <= j < r.line - 1 ==> FromStr(lines[j]).Some?))
    ensures r.TooManyLines? ==> |Lines(s)| > MAXCOUNT
  {
    var lines := Lines(s);
    LinesCString(s);
    ScanFacts(lines, Open(s), 0);
    match ScanFrom(lines, Open(s), 0)
    case Long(n) => BadLine(n)
    case TooMany => TooManyLines
    case Fits(n) => InstallLines(lines)
  }

  /** The second pass over lines that all fit. */
  function InstallLines(lines: seq<string>): (r: Loaded)
    requires forall j :: 0 <= j < |lines| ==> IsCString(lines[j]) && |lines[j]| <= STRLEN
    ensures r.Loaded? ==> && |r.rl.records| == |lines|
                          && (forall j :: 0 <= j < |lines| ==> FromStr(lines[j]) == Some(r.rl.records[j]))
                          && r.rl.start == 0 && r.rl.stop == |lines| && r.rl.cap == |lines| + 1
    ensures r.BadLine? ==> && 1 <= r.line <= |lines| && FromStr(lines[r.line - 1]).None?
                           && forall j :: 0 <= j < r.line - 1 ==> FromStr(lines[j]).Some?
    ensures !r.TooManyLines?
  {
    var opts := Parses(lines);
    ParseAll(opts);
    Install(ParseFrom(opts, 0))
  }

  /** The lines as `rl_init` actually reads them: `fgets` into a buffer of
      `REC_STRLEN + 1` bytes, so at most `REC_STRLEN` characters a call. */
  function ReadBuffers(s: string, lines: nat): (r: seq<string>)
    requires IsCString(s) && lines <= |Chunks(s, STRLEN)|
    ensures |r| == lines
    ensures forall j :: 0 <= j < |r| ==> IsCString(r[j]) && |r[j]| <= STRLEN
  {
    var chunks := Chunks(s, STRLEN);
    ChunksCString(s, STRLEN);
    seq(lines, j requires 0 <= j < lines => Strip(chunks[j]))
  }

  lemma {:induction false} ChunksCString(s: string, max: nat)
    requires IsCString(s) && max >= 1
    ensures forall j :: 0 <= j < |Chunks(s, max)| ==> IsCString(Chunks(s, max)[j])
    decreases |s|
  {
    if s != [] {
      var c := ChunkLen(s, max);
      SubCString(s, 0, c);
      SubCString(s, c, |s|);
      ChunksCString(s[c..], max);
    }
  }

  /** `rl_init` as written: the width scan admits lines of `REC_STRLEN`
      characters, but the read buffer leaves no room for such a line's
      newline, which the next read then returns as an empty line. */
  function InitAsWritten(s: string): (r: Loaded)
    requires IsCString(s)
    ensures r.TooManyLines? ==> |Lines(s)| > MAXCOUNT
  {
    ScanFacts(Lines(s), Open(s), 0);
    match ScanFile(s)
    case Long(n) => BadLine(n)
    case TooMany => TooManyLines
    case Fits(n) =>
      ChunksCover(s, STRLEN);
      Install(ParseFrom(Parses(ReadBuffers(s, n)), 0))
  }

  /** Conversely, a file of narrow lines that all parse is installed
      whole, one record per line in file order. */
  lemma InitAccepts(s: string, recs: seq<Record>)
    requires IsCString(s) && |Lines(s)| == |recs| < MAXCOUNT
    requires forall j :: 0 <= j < |recs| ==> && |Lines(s)[j]| <= STRLEN && IsCString(Lines(s)[j])
                                             && FromStr(Lines(s)[j]) == Some(recs[j])
    ensures Init(s) == Loaded(RecordList(recs, 0, |recs|, |recs| + 1))
  {
    var i := Init(s);
    var lines := Lines(s);
    assert !i.BadLine? && !i.TooManyLines?;
    forall j | 0 <= j < |recs| ensures i.rl.records[j] == recs[j] {
      assert FromStr(lines[j]) == Some(recs[j]);
    }
    assert i.rl.records == recs;
  }

  // ---------------------------------------------------------------------
  // Lines of exactly `REC_STRLEN` characters

  /** A line without newline followed by one ends at that newline. */
  lemma {:induction false} LineEndAfter(a: string, b: string)
    requires NL !in a
    ensures LineEnd(a + [NL] + b) == |a|
    decreases |a|
  {
    if a != [] {
      assert (a + [NL] + b)[1..] == a[1..] + [NL] + b;
      LineEndAfter(a[1..], b);
    }
  }

  lemma LinesAfter(a: string, b: string)
    requires NL !in a
    ensures Lines(a + [NL] + b) == [a] + Lines(b)
  {
    var s := a + [NL] + b;
    LineEndAfter(a, b);
    LinesCons(s);
    assert s[..|a|] == a && s[|a| + 1..] == b;
  }

  /** The reads, once stripped, are the lines. */
  predicate ReadsAs(chunks: seq<string>, lines: seq<string>)
  {
    && |chunks| == |lines|
    && forall j :: 0 <= j < |lines| ==> |chunks[j]| >= 1 && Strip(chunks[j]) == lines[j]
  }

  /** Every line is shorter than `max`. */
  predicate Narrow(lines: seq<string>, max: nat)
  {
    forall j :: 0 <= j < |lines| ==> |lines[j]| < max
  }

  /** When every line is shorter than what one read can hold, the reads
      return exactly the lines, each with its newline, if any, removed. */
  lemma {:induction false} ReadsLines(s: string, max: nat)
    requires max >= 1 && Narrow(Lines(s), max)
    ensures ReadsAs(Chunks(s, max), Lines(s))
    decreases |s|
  {
    if s != [] {
      var k := LineEnd(s);
      NarrowFirst(s, max);
      if k < |s| {
        ReadsLines(s[k + 1..], max);
        ReadsLinesStep(s, max);
      } else {
        ReadsLastLine(s, max);
      }
    }
  }

  /** The first line of narrow lines is narrow, and so are the others. */
  lemma NarrowFirst(s: string, max: nat)
    requires s != [] && Narrow(Lines(s), max)
    ensures LineEnd(s) < max
    ensures LineEnd(s) < |s| ==> Narrow(Lines(s[LineEnd(s) + 1..]), max)
  {
    var k := LineEnd(s);
    LinesCons(s);
    assert Lines(s)[0] == s[..k];
    if k < |s| {
      TailIndex(Lines(s), s[..k], Lines(s[k + 1..]));
    }
  }

  /** A last line without newline is read whole by one call. */
  lemma ReadsLastLine(s: string, max: nat)
    requires max >= 1 && s != [] && LineEnd(s) == |s| < max
    ensures ReadsAs(Chunks(s, max), Lines(s))
  {
    LinesCons(s);
    ChunksCons(s, max);
    LineEndFirst(s);
    assert s[..|s|] == s && s[|s|..] == [];
    assert Lines(s) == [s] && Chunks(s, max) == [s];
  }

  /** One line of `ReadsLines`: the first read is the first line and its
      newline, and the remaining reads are those of the remaining text. */
  lemma ReadsLinesStep(s: string, max: nat)
    requires max >= 1 && s != [] && LineEnd(s) < |s| && LineEnd(s) < max
    requires ReadsAs(Chunks(s[LineEnd(s) + 1..], max), Lines(s[LineEnd(s) + 1..]))
    ensures ReadsAs(Chunks(s, max), Lines(s))
  {
    var k := LineEnd(s);
    var rest := s[k + 1..];
    var first := s[..k + 1];
    assert Lines(s) == [s[..k]] + Lines(rest) by { LinesCons(s); }
    assert Chunks(s, max) == [first] + Chunks(rest, max) by {
      ChunksCons(s, max);
      assert ChunkLen(s, max) == k + 1;
    }
    assert Strip(first) == s[..k] by {
      assert first[k] == NL && first[..k] == s[..k];
    }
    StripShift(Chunks(s, max), Lines(s), first, s[..k], Chunks(rest, max), Lines(rest));
  }

  /** Splitting off the first read. */
  lemma ChunksCons(s: string, max: nat)
    requires s != [] && max >= 1
    ensures var c := ChunkLen(s, max);
            Chunks(s, max) == [s[..c]] + Chunks(s[c..], max)
  {
  }

  lemma StripShift(chunks: seq<string>, lines: seq<string>, c0: string, l0: string,
                   cr: seq<string>, lr: seq<string>)
    requires chunks == [c0] + cr && lines == [l0] + lr
    requires |c0| >= 1 && Strip(c0) == l0 && ReadsAs(cr, lr)
    ensures ReadsAs(chunks, lines)
  {
    forall j | 0 <= j < |lines| ensures |chunks[j]| >= 1 && Strip(chunks[j]) == lines[j] {
      if j > 0 {
        assert chunks[j] == cr[j - 1] && lines[j] == lr[j - 1];
      }
    }
  }

  lemma TailIndex<T>(a: seq<T>, x: T, rest: seq<T>)
    requires a == [x] + rest
    ensures forall j :: 0 <= j < |rest| ==> a[j + 1] == rest[j]
  {
  }

  /** With the larger buffer of `REC_STRLEN + 2` bytes, room for
      `REC_STRLEN` characters and the newline, the reads of a file that
      passes the width scan are exactly its lines, so `Init` is what
      `rl_init` then computes. */
  lemma RoomyBufferReadsLines(s: string)
    requires forall j :: 0 <= j < |Lines(s)| ==> |Lines(s)[j]| <= STRLEN
    ensures |Chunks(s, STRLEN + 1)| == |Lines(s)|
    ensures forall j :: 0 <= j < |Lines(s)| ==> Strip(Chunks(s, STRLEN + 1)[j]) == Lines(s)[j]
  {
    ReadsLines(s, STRLEN + 1);
  }

  /** As written, `rl_init` agrees with `Init` on every file with no line
      of exactly `REC_STRLEN` characters: a wider line stops both at the
      same line, and narrower lines are read whole. */
  lemma AsWrittenAgrees(s: string)
    requires IsCString(s)
    requires forall j :: 0 <= j < |Lines(s)| ==> |Lines(s)[j]| != STRLEN
    ensures InitAsWritten(s) == Init(s)
  {
    var lines := Lines(s);
    ScanFacts(lines, Open(s), 0);
    if ScanFile(s).Fits? {
      assert forall j :: 0 <= j < |lines| ==> |lines[j]| < STRLEN;
      ReadsLines(s, STRLEN);
      ChunksCover(s, STRLEN);
      LinesCString(s);
      var bufs := ReadBuffers(s, |lines|);
      assert bufs == lines;
    }
  }

  /** A record whose serialisation can be widened to exactly `REC_STRLEN`
      characters by zero-padding its amount: positive amount, full
      category and full description, no newline anywhere. */
  predicate WideRecord(r: Record)
  {
    Valid(r) && r.amt > 0 && |r.cat| == CATLEN && |r.desc| == DESCLEN
    && NL !in r.cat && NL !in r.desc
  }

  /** The line of such a record with its amount padded to 21 digits. */
  function WideLine(r: Record): (line: string)
    requires WideRecord(r)
    ensures |line| == STRLEN
  {
    AmountLength(r.amt);
    ToIso(r.dt) + [TAB] + ZeroPad(r.amt, 21) + [TAB] + r.cat + [TAB] + r.desc
  }

  /** That line parses back to the record. */
  lemma WideLineParses(r: Record)
    requires WideRecord(r)
    ensures IsCString(WideLine(r)) && NL !in WideLine(r)
    ensures FromStr(WideLine(r)) == Some(r)
  {
    var iso, amount := ToIso(r.dt), ZeroPad(r.amt, 21);
    IsoText(r.dt);
    PaddedAmount(r.amt);
    FieldsText(iso, amount, r.cat, r.desc);
    assert WideLine(r) == iso + [TAB] + amount + [TAB] + r.cat + [TAB] + r.desc;
    FromStrFields(iso, amount, r.cat, r.desc);
    InitOfValid(r);
  }

  /** The ISO date of a valid date: no TAB, NUL or newline, and it reads back. */
  lemma IsoText(dt: int)
    requires IsDate(dt)
    ensures TAB !in ToIso(dt) && NL !in ToIso(dt) && IsCString(ToIso(dt))
    ensures IsIso(ToIso(dt)) && FromIso(ToIso(dt)) == dt
  {
    NoTabInIso(dt);
    ToIsoThenFromIso(dt);
    var iso := ToIso(dt);
    forall i | 0 <= i < |iso| ensures iso[i] != NL {
      assert IsDigit(iso[i]) || iso[i] == '-';
    }
  }

  /** A positive amount padded to 21 digits: digits only, and it reads back. */
  lemma PaddedAmount(amt: int)
    requires 0 < amt <= AMT_MAX
    ensures var amount := ZeroPad(amt, 21);
            && TAB !in amount && NL !in amount && IsCString(amount)
            && Util.Stoi(amount) == (amt, true)
  {
    var amount := ZeroPad(amt, 21);
    AmountLength(amt);
    assert |amount| == 21;
    assert forall i :: 0 <= i < |amount| ==> IsDigit(amount[i]);
    ParseDigits(amount);
    ZeroPadValue(amt, 21);
  }

  /** Four TAB-joined fields free of NUL and newline make a line free of both. */
  lemma FieldsText(a: string, b: string, c: string, d: string)
    requires IsCString(a) && IsCString(b) && IsCString(c) && IsCString(d)
    requires NL !in a && NL !in b && NL !in c && NL !in d
    ensures IsCString(a + [TAB] + b + [TAB] + c + [TAB] + d)
    ensures NL !in a + [TAB] + b + [TAB] + c + [TAB] + d
  {
    ConcatCString(a, [TAB]);
    ConcatCString(a + [TAB], b);
    ConcatCString(a + [TAB] + b, [TAB]);
    ConcatCString(a + [TAB] + b + [TAB], c);
    ConcatCString(a + [TAB] + b + [TAB] + c, [TAB]);
    ConcatCString(a + [TAB] + b + [TAB] + c + [TAB], d);
  }

  /** The file of two such lines, each with its newline: `rl_init` as
      written reads the first line's newline as an empty second line and
      reports line 2, while both lines parse and `Init` installs them. */
  lemma ExactWidthLineRejected(r: Record)
    requires WideRecord(r)
    ensures var line := WideLine(r);
            var s := line + [NL] + line + [NL];
            && IsCString(s)
            && InitAsWritten(s) == BadLine(2)
            && Init(s).Loaded? && Init(s).rl.records == [r, r]
  {
    var line := WideLine(r);
    WideLineParses(r);
    TwoLines(line);
    var s := line + [NL] + line + [NL];
    InitOfTwo(s, line, r);
    AsWrittenOfTwo(s, line);
  }

  /** The text and lines of a file of two equal lines of `REC_STRLEN`
      characters, each ending in a newline. */
  lemma TwoLines(line: string)
    requires IsCString(line) && NL !in line && |line| == STRLEN
    ensures var s := line + [NL] + line + [NL];
            && IsCString(s) && !Open(s) && Lines(s) == [line, line]
            && ScanFile(s) == Fits(2)
  {
    var s := line + [NL] + line + [NL];
    ConcatCString(line, [NL]);
    ConcatCString(line + [NL], line);
    ConcatCString(line + [NL] + line, [NL]);
    assert Lines(s) == [line, line] by {
      LinesAfter(line, line + [NL]);
      assert s == line + [NL] + (line + [NL]);
      LinesAfter(line, []);
      assert line + [NL] == line + [NL] + [];
    }
    ScanNarrow(Lines(s), false, 0);
  }

  /** `Init` installs both lines. */
  lemma InitOfTwo(s: string, line: string, r: Record)
    requires IsCString(s) && Lines(s) == [line, line]
    requires IsCString(line) && |line| <= STRLEN && FromStr(line) == Some(r)
    ensures Init(s).Loaded? && Init(s).rl.records == [r, r]
  {
    var recs := [r, r];
    assert forall j :: 0 <= j < |recs| ==>
             (|Lines(s)[j]| <= STRLEN && IsCString(Lines(s)[j]) && FromStr(Lines(s)[j]) == Some(recs[j])) by {
      forall j | 0 <= j < |recs|
        ensures |Lines(s)[j]| <= STRLEN && IsCString(Lines(s)[j]) && FromStr(Lines(s)[j]) == Some(recs[j])
      {
        assert Lines(s)[j] == line && recs[j] == r;
      }
    }
    InitAccepts(s, recs);
  }

  /** With room for `REC_STRLEN` characters only, the first read is the
      first line and the second read is its newline alone. */
  lemma TwoChunks(s: string, line: string)
    requires NL !in line && |line| == STRLEN && s == line + [NL] + line + [NL]
    ensures |Chunks(s, STRLEN)| >= 2
    ensures Chunks(s, STRLEN)[0] == line && Chunks(s, STRLEN)[1] == [NL]
  {
    LineEndAfter(line, line + [NL]);
    assert s == line + [NL] + (line + [NL]);
    ChunksCons(s, STRLEN);
    assert ChunkLen(s, STRLEN) == STRLEN;
    assert s[..STRLEN] == line;
    var t := s[STRLEN..];
    assert t == [NL] + (line + [NL]);
    assert LineEnd(t) == 0;
    ChunksCons(t, STRLEN);
    assert ChunkLen(t, STRLEN) == 1;
    assert t[..1] == [NL];
  }

  /** As written, the empty second buffer fails to parse: line 2. */
  lemma AsWrittenOfTwo(s: string, line: string)
    requires IsCString(s) && IsCString(line) && NL !in line && |line| == STRLEN
    requires s == line + [NL] + line + [NL]
    requires ScanFile(s) == Fits(2) && FromStr(line).Some?
    ensures InitAsWritten(s) == BadLine(2)
  {
    TwoChunks(s, line);
    ChunksCover(s, STRLEN);
    var bufs := ReadBuffers(s, 2);
    assert bufs[0] == line && bufs[1] == [];
    assert Count([], TAB) == 0;
    var opts := Parses(bufs);
    assert opts[1] == None;
    assert ParseFrom(opts, 1) == Failed(2);
    assert ParseFrom(opts, 0) == Failed(2);
  }

  /** A record that meets the width conditions. */
  lemma WideRecordExists()
    ensures WideRecord(Record(20200103, 4000, seq(CATLEN, _ => 'a'), seq(DESCLEN, _ => 'a')))
  {
    var cat := seq(CATLEN, _ => 'a');
    assert GetY(20200103) == 2020 && GetM(20200103) == 1 && GetD(20200103) == 3;
    assert Dates.IsDate(20200103);
    assert LowerStr(cat) == cat;
  }
}
