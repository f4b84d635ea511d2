/** A ledger record (src/record.c, inc/record.h): its validating
    constructor, its TAB-separated text form and the parser of that form. */
module Records {
  import opened Base
  import opened Text
  import opened Dates
  import Util

  const TAB: char := '\t'

  /** Amounts are cents with magnitude at most 10^14. */
  const AMT_MAX: int := 100 * 1000 * 1000 * 1000 * 1000
  const AMT_MIN: int := -AMT_MAX

  /** Category and description capacities, without the NUL. The description
      takes what is left of 128 bytes after the amount, the date, the
      category and both NULs. */
  const CATLEN: int := 23
  const DESCLEN: int := 128 - 8 - 4 - CATLEN - 1 - 1

  /** The longest text form: date, sign and 19 digits of an `int64_t` with
      room for the NUL `sizeof` counts, full category and full description,
      plus the separators. */
  const STRLEN: int := 10 + 1 + 21 + 1 + CATLEN + 1 + DESCLEN

  /** `Record`: cents, packed date, category and description. */
  datatype Record = Record(dt: int, amt: int, cat: string, desc: string)

  /** What `rec_init` guarantees about every record it builds. */
  predicate Valid(r: Record)
  {
    && IsDate(r.dt)
    && r.amt != 0 && AMT_MIN <= r.amt <= AMT_MAX
    && 1 <= |r.cat| <= CATLEN && TAB !in r.cat && IsCString(r.cat) && LowerStr(r.cat) == r.cat
    && |r.desc| <= DESCLEN && IsCString(r.desc)
  }

  /** At most the first `n` characters of `s`. */
  function Prefix(s: string, n: nat): (r: string)
    ensures |r| <= n && r <= s
    ensures |s| <= n ==> r == s
  {
    if |s| <= n then s else s[..n]
  }

  /** The reasons `rec_init` refuses its arguments. */
  predicate InitRejects(dt: int, amt: int, cat: string)
  {
    amt == 0 || amt > AMT_MAX || amt < AMT_MIN || |cat| == 0 || TAB in cat || !IsDate(dt)
  }

  /** `rec_init`: None when the amount is zero or out of range, the
      category is empty or holds a TAB anywhere, or the date is invalid;
      otherwise the record with the category cut to 23 characters and
      lowercased, and the description cut to 91 characters. */
  function Init(dt: int, amt: int, cat: string, desc: string): (r: Option<Record>)
    requires IsCString(cat) && IsCString(desc)
    ensures r.None? <==> InitRejects(dt, amt, cat)
    ensures r.Some? ==> Valid(r.value)
    ensures r.Some? ==> r.value.dt == dt && r.value.amt == amt
    ensures r.Some? ==> r.value.cat == LowerStr(Prefix(cat, CATLEN))
                        && r.value.desc == Prefix(desc, DESCLEN)
  {
    if InitRejects(dt, amt, cat) then None
    else
      var c := LowerStr(Prefix(cat, CATLEN));
      LowerIdempotent(Prefix(cat, CATLEN));
      assert TAB !in c by {
        forall i | 0 <= i < |c| ensures c[i] != TAB {
          assert Prefix(cat, CATLEN)[i] == cat[i];
        }
      }
      assert IsCString(c) by {
        forall i | 0 <= i < |c| ensures c[i] != '\0' {
          assert Prefix(cat, CATLEN)[i] == cat[i];
        }
      }
      Some(Record(dt, amt, c, Prefix(desc, DESCLEN)))
  }

  /** Initialising from a valid record's own fields gives the record back:
      the cuts and the lowercasing are idempotent. */
  lemma InitOfValid(r: Record)
    requires Valid(r)
    ensures Init(r.dt, r.amt, r.cat, r.desc) == Some(r)
  {
  }

  /** `rec_tostr`: ISO date, TAB, decimal amount, TAB, category, TAB,
      description. */
  function ToStr(r: Record): (s: string)
    requires Valid(r)
    ensures Count(s, TAB) == 3 + Count(r.desc, TAB)
  {
    var iso := ToIso(r.dt);
    var amt := IntToString(r.amt);
    NoTabInIso(r.dt);
    NoTabInNumber(r.amt);
    FieldsCount(iso, amt, r.cat, r.desc);
    iso + [TAB] + amt + [TAB] + r.cat + [TAB] + r.desc
  }

  /** Three TAB-free fields joined by TABs in front of a fourth. */
  lemma FieldsCount(a: string, b: string, c: string, d: string)
    requires TAB !in a && TAB !in b && TAB !in c
    ensures Count(a + [TAB] + b + [TAB] + c + [TAB] + d, TAB) == 3 + Count(d, TAB)
  {
    CountNone(a, TAB);
    CountNone(b, TAB);
    CountNone(c, TAB);
    assert Count([TAB], TAB) == 1;
    CountAppend(a, [TAB], TAB);
    CountAppend(a + [TAB], b, TAB);
    CountAppend(a + [TAB] + b, [TAB], TAB);
    CountAppend(a + [TAB] + b + [TAB], c, TAB);
    CountAppend(a + [TAB] + b + [TAB] + c, [TAB], TAB);
    CountAppend(a + [TAB] + b + [TAB] + c + [TAB], d, TAB);
  }

  lemma NoTabInIso(dt: int)
    requires IsDate(dt)
    ensures TAB !in ToIso(dt) && IsCString(ToIso(dt))
    ensures forall i :: 0 <= i < |ToIso(dt)| ==> IsDigit(ToIso(dt)[i]) || ToIso(dt)[i] == '-'
  {
    ToIsoThenFromIso(dt);
    IsoChars(ToIso(dt));
  }

  /** An ISO date is made of digits and dashes. */
  lemma IsoChars(s: string)
    requires IsIso(s)
    ensures forall i :: 0 <= i < |s| ==> IsDigit(s[i]) || s[i] == '-'
  {
    forall i | 0 <= i < |s| ensures IsDigit(s[i]) || s[i] == '-' {
      if i < 4 { assert s[0..4][i] == s[i]; }
      else if 5 <= i < 7 { assert s[5..7][i - 5] == s[i]; }
      else if 8 <= i { assert s[8..10][i - 8] == s[i]; }
    }
  }

  lemma NoTabInNumber(x: int)
    ensures TAB !in IntToString(x) && IsCString(IntToString(x))
  {
  }

  /** The fields of a text form: the pieces before the first three TABs and
      everything after the third, TABs included. */
  function Fields(s: string): (r: Option<(string, string, string, string)>)
    ensures r.Some? <==> Count(s, TAB) >= 3
    ensures r.Some? ==> s == r.value.0 + [TAB] + r.value.1 + [TAB] + r.value.2 + [TAB] + r.value.3
    ensures r.Some? ==> TAB !in r.value.0 && TAB !in r.value.1 && TAB !in r.value.2
  {
    var parts := Split(s, TAB);
    SplitCount(s, TAB);
    if |parts| < 4 then None
    else
      SplitJoin(s, TAB);
      JoinFirstThree(parts, TAB);
      Some((parts[0], parts[1], parts[2], Join(parts[3..], TAB)))
  }

  lemma JoinFirstThree(parts: seq<string>, delim: char)
    requires |parts| >= 4
    ensures Join(parts, delim)
         == parts[0] + [delim] + parts[1] + [delim] + parts[2] + [delim] + Join(parts[3..], delim)
  {
    assert parts[1..][1..] == parts[2..];
    assert parts[2..][1..] == parts[3..];
    assert Join(parts[2..], delim) == parts[2] + [delim] + Join(parts[3..], delim);
    assert Join(parts[1..], delim) == parts[1] + [delim] + Join(parts[2..], delim);
  }

  /** `rec_fromstr`: the text must hold at least three TABs; the amount
      must parse completely to a non-zero number, the date must have the
      ISO shape, and the fields must then pass `rec_init`. The text fits the
      copy buffer of `STRLEN + 1` bytes. */
  function FromStr(s: string): (r: Option<Record>)
    requires IsCString(s) && |s| <= STRLEN
    ensures r.Some? ==> Valid(r.value)
    ensures Count(s, TAB) < 3 ==> r.None?
  {
    match Fields(s)
    case None => None
    case Some((date, amount, cat, desc)) =>
      CStringParts(s, date + [TAB] + amount + [TAB] + cat + [TAB], desc);
      CStringParts(date + [TAB] + amount + [TAB] + cat + [TAB], date + [TAB] + amount + [TAB] + cat, [TAB]);
      CStringParts(date + [TAB] + amount + [TAB] + cat, date + [TAB] + amount + [TAB], cat);
      var amt := Util.Stoi(amount).0;
      if amt == 0 || !IsIso(date) then None
      else Init(FromIso(date), amt, cat, desc)
  }

  lemma CStringParts(s: string, a: string, b: string)
    requires s == a + b
    requires IsCString(s)
    ensures IsCString(a) && IsCString(b)
  {
    assert forall i :: 0 <= i < |a| ==> a[i] == s[i];
    assert forall i :: 0 <= i < |b| ==> b[i] == s[|a| + i];
  }

  /** Parsing in terms of the fields: the amount is checked first, then the
      date shape, then `rec_init`; any TAB after the third stays in the
      description. */
  lemma FromStrFields(date: string, amount: string, cat: string, desc: string)
    requires TAB !in date && TAB !in amount && TAB !in cat
    requires var s := date + [TAB] + amount + [TAB] + cat + [TAB] + desc;
             IsCString(s) && |s| <= STRLEN
    ensures IsCString(cat) && IsCString(desc)
    ensures var s := date + [TAB] + amount + [TAB] + cat + [TAB] + desc;
            var amt := Util.Stoi(amount).0;
            FromStr(s) == if amt == 0 || !IsIso(date) then None
                          else Init(FromIso(date), amt, cat, desc)
  {
    var s := date + [TAB] + amount + [TAB] + cat + [TAB] + desc;
    assert s == date + [TAB] + (amount + [TAB] + cat + [TAB] + desc);
    assert amount + [TAB] + cat + [TAB] + desc == amount + [TAB] + (cat + [TAB] + desc);
    SplitAfter(date, TAB, amount + [TAB] + cat + [TAB] + desc);
    SplitAfter(amount, TAB, cat + [TAB] + desc);
    SplitAfter(cat, TAB, desc);
    SplitJoin(desc, TAB);
    var parts := Split(s, TAB);
    assert parts == [date, amount, cat] + Split(desc, TAB);
    assert parts[3..] == Split(desc, TAB);
    CStringParts(s, date + [TAB] + amount + [TAB] + cat + [TAB], desc);
    CStringParts(date + [TAB] + amount + [TAB] + cat + [TAB], date + [TAB] + amount + [TAB] + cat, [TAB]);
    CStringParts(date + [TAB] + amount + [TAB] + cat, date + [TAB] + amount + [TAB], cat);
  }

  /** Parsing the text form of a valid record gives the record back. */
  lemma FromStrOfToStr(r: Record)
    requires Valid(r)
    ensures IsCString(ToStr(r)) && |ToStr(r)| <= STRLEN
    ensures FromStr(ToStr(r)) == Some(r)
  {
    var iso := ToIso(r.dt);
    var amt := IntToString(r.amt);
    NoTabInIso(r.dt);
    NoTabInNumber(r.amt);
    ToIsoThenFromIso(r.dt);
    StoiOfAmount(r.amt);
    ConcatCString(iso, [TAB]);
    ConcatCString(iso + [TAB], amt);
    ConcatCString(iso + [TAB] + amt, [TAB]);
    ConcatCString(iso + [TAB] + amt + [TAB], r.cat);
    ConcatCString(iso + [TAB] + amt + [TAB] + r.cat, [TAB]);
    ConcatCString(iso + [TAB] + amt + [TAB] + r.cat + [TAB], r.desc);
    AmountLength(r.amt);
    FromStrFields(iso, amt, r.cat, r.desc);
    InitOfValid(r);
  }

  lemma StoiOfAmount(x: int)
    requires AMT_MIN <= x <= AMT_MAX
    ensures Util.Stoi(IntToString(x)) == (x, true)
  {
    Util.StoiOfIntToString(x);
  }

  /** A valid amount takes at most 16 characters: a sign and 15 digits. */
  lemma AmountLength(x: int)
    requires AMT_MIN <= x <= AMT_MAX
    ensures |IntToString(x)| <= 16
  {
    assert Pow10(15) == 1_000_000_000_000_000 by {
      assert Pow10(5) == 100_000;
      assert Pow10(10) == 10_000_000_000;
    }
    DigitCountBounds(Abs(x), 15);
  }

  /** Whenever the date field lacks the ISO shape the line is refused. */
  lemma RejectsBadDate(date: string, amount: string, cat: string, desc: string)
    requires TAB !in date && TAB !in amount && TAB !in cat
    requires var s := date + [TAB] + amount + [TAB] + cat + [TAB] + desc;
             IsCString(s) && |s| <= STRLEN
    requires !IsIso(date)
    ensures FromStr(date + [TAB] + amount + [TAB] + cat + [TAB] + desc).None?
  {
    FromStrFields(date, amount, cat, desc);
  }

  /** An amount field that does not parse, or parses to zero, is refused:
      an empty field and "0" alike. */
  lemma RejectsZeroAmount(date: string, amount: string, cat: string, desc: string)
    requires TAB !in date && TAB !in amount && TAB !in cat
    requires var s := date + [TAB] + amount + [TAB] + cat + [TAB] + desc;
             IsCString(s) && |s| <= STRLEN
    requires Util.Stoi(amount).0 == 0
    ensures FromStr(date + [TAB] + amount + [TAB] + cat + [TAB] + desc).None?
  {
    FromStrFields(date, amount, cat, desc);
  }

  /** An empty category is refused. */
  lemma RejectsEmptyCategory(date: string, amount: string, desc: string)
    requires TAB !in date && TAB !in amount
    requires var s := date + [TAB] + amount + [TAB] + [TAB] + desc;
             IsCString(s) && |s| <= STRLEN
    ensures FromStr(date + [TAB] + amount + [TAB] + [TAB] + desc).None?
  {
    assert date + [TAB] + amount + [TAB] + [] + [TAB] + desc == date + [TAB] + amount + [TAB] + [TAB] + desc;
    FromStrFields(date, amount, [], desc);
  }

  /** The first well-formed line of the record tests parses to the record
      `rec_init` builds from its fields, and prints back unchanged. */
  lemma MiscExample()
    ensures Valid(Record(20200103, 4000, "misc", ""))
    ensures FromStr("2020-01-03" + [TAB] + "4000" + [TAB] + "misc" + [TAB])
         == Some(Record(20200103, 4000, "misc", ""))
  {
    MiscText(4000, "4000", "");
    assert "2020-01-03" + [TAB] + "4000" + [TAB] + "misc" + [TAB] + ""
        == "2020-01-03" + [TAB] + "4000" + [TAB] + "misc" + [TAB];
    FromStrOfToStr(Record(20200103, 4000, "misc", ""));
  }

  /** The second: a negative amount and a description. */
  lemma MiscStuffExample()
    ensures Valid(Record(20200103, -4000, "misc", "stuff"))
    ensures FromStr("2020-01-03" + [TAB] + "-4000" + [TAB] + "misc" + [TAB] + "stuff")
         == Some(Record(20200103, -4000, "misc", "stuff"))
  {
    MiscText(-4000, "-4000", "stuff");
    FromStrOfToStr(Record(20200103, -4000, "misc", "stuff"));
  }

  lemma MiscText(amt: int, amount: string, desc: string)
    requires amt == 4000 || amt == -4000
    requires amount == if amt < 0 then "-4000" else "4000"
    requires |desc| <= DESCLEN && IsCString(desc)
    ensures Valid(Record(20200103, amt, "misc", desc))
    ensures ToStr(Record(20200103, amt, "misc", desc)) == "2020-01-03" + [TAB] + amount + [TAB] + "misc" + [TAB] + desc
  {
    var r := Record(20200103, amt, "misc", desc);
    MiscValid(amt, desc);
    IsoOf20200103();
    assert IntToString(amt) == amount by { Text4000(); }
    ToStrFields(r);
  }

  lemma Text4000()
    ensures IntToString(4000) == "4000" && IntToString(-4000) == "-4000"
  {
    assert NatToDigits(4000) == "4000" by {
      assert NatToDigits(4) == "4";
      assert NatToDigits(40) == "40";
      assert NatToDigits(400) == "400";
    }
  }

  /** The serialised record, field by field. */
  lemma ToStrFields(r: Record)
    requires Valid(r)
    ensures ToStr(r) == ToIso(r.dt) + [TAB] + IntToString(r.amt) + [TAB] + r.cat + [TAB] + r.desc
  {
  }

  lemma MiscValid(amt: int, desc: string)
    requires amt != 0 && AMT_MIN <= amt <= AMT_MAX && |desc| <= DESCLEN && IsCString(desc)
    ensures Valid(Record(20200103, amt, "misc", desc))
  {
    assert GetY(20200103) == 2020 && GetM(20200103) == 1 && GetD(20200103) == 3;
    assert IsDate(20200103);
    assert LowerStr("misc") == "misc";
  }

  lemma IsoOf20200103()
    requires IsDate(20200103)
    ensures ToIso(20200103) == "2020-01-03"
  {
    assert GetY(20200103) == 2020 && GetM(20200103) == 1 && GetD(20200103) == 3;
    assert NatToDigits(2020) == "2020" by {
      assert NatToDigits(2) == "2";
      assert NatToDigits(20) == "20";
      assert NatToDigits(202) == "202";
    }
    assert ZeroPad(2020, 4) == "2020" by { assert seq(0, _ => '0') == ""; }
    assert ZeroPad(1, 2) == "01" by { assert seq(1, _ => '0') == "0"; }
    assert ZeroPad(3, 2) == "03" by { assert seq(1, _ => '0') == "0"; }
  }

  /** The test line with only two TABs is refused. */
  lemma TwoTabsExample()
    ensures FromStr("2020-01-03" + [TAB] + "4000" + [TAB] + "misc").None?
  {
    var s := "2020-01-03" + [TAB] + ("4000" + [TAB] + "misc");
    assert s == "2020-01-03" + [TAB] + "4000" + [TAB] + "misc";
    SplitAfter("2020-01-03", TAB, "4000" + [TAB] + "misc");
    SplitAfter("4000", TAB, "misc");
    SplitNone("misc", TAB);
    SplitCount(s, TAB);
  }
}
