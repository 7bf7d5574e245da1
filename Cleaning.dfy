/**
  The cleaning step of the analysis (netflix_analysis.py, lines 21-39): drop
  rows missing `type`, `country` or `date_added`, trim and parse the date,
  drop rows whose date did not parse (reporting how many), and add
  `year_added`. The date parser of pandas is not modelled; it is a
  parameter, any function from the trimmed text to a date or to nothing.
*/
module Cleaning {
  import opened Wrappers
  import opened Text

  datatype Date = Date(year: int, month: int, day: int)

  /** A loaded row: the four columns the analysis reads; a missing cell is None. */
  datatype Row = Row(
    showType: Option<string>,
    country: Option<string>,
    dateAdded: Option<string>,
    listedIn: Option<string>)

  /** A row once its date column has been converted: None stands for NaT. */
  datatype DatedRow = DatedRow(
    showType: string,
    country: string,
    dateAdded: Option<Date>,
    listedIn: Option<string>)

  /** A row of the cleaned table. */
  datatype CleanRow = CleanRow(
    showType: string,
    country: string,
    dateAdded: Date,
    listedIn: Option<string>,
    yearAdded: int)

  /** `pd.to_datetime(..., format='mixed', errors='coerce')` on one value. */
  type Parser = string -> Option<Date>

  /** None of the three key columns is missing. */
  predicate HasKeys(r: Row) {
    r.showType.Some? && r.country.Some? && r.dateAdded.Some?
  }

  /** The date of a keyed row: its text trimmed, then parsed. */
  function ParsedDate(r: Row, parse: Parser): Option<Date>
    requires HasKeys(r)
  {
    parse(Strip(r.dateAdded.value))
  }

  /** A row survives cleaning: its keys are present and its trimmed date parses. */
  predicate Survives(r: Row, parse: Parser) {
    HasKeys(r) && ParsedDate(r, parse).Some?
  }

  /** The cleaned form of a surviving row. */
  function Derive(r: Row, parse: Parser): CleanRow
    requires Survives(r, parse)
  {
    var d := ParsedDate(r, parse).value;
    CleanRow(r.showType.value, r.country.value, d, r.listedIn, d.year)
  }

  /** Reference definition of the cleaned table: survivors in input order. */
  function Cleaned(raw: seq<Row>, parse: Parser): seq<CleanRow> {
    if raw == [] then []
    else
      var init := Cleaned(raw[..|raw| - 1], parse);
      var r := raw[|raw| - 1];
      if Survives(r, parse) then init + [Derive(r, parse)] else init
  }

  /** Rows that pass the key filter but whose trimmed date does not parse. */
  function BadDates(raw: seq<Row>, parse: Parser): nat {
    if raw == [] then 0
    else
      var r := raw[|raw| - 1];
      BadDates(raw[..|raw| - 1], parse)
        + (if HasKeys(r) && ParsedDate(r, parse).None? then 1 else 0)
  }

  // ---- The table after each step of the source ----

  /** Line 21: `dropna(subset=['type', 'country', 'date_added'])`. */
  function KeyRows(rows: seq<Row>): (r: seq<Row>)
    ensures forall i :: 0 <= i < |r| ==> HasKeys(r[i])
  {
    if rows == [] then []
    else
      var init := KeyRows(rows[..|rows| - 1]);
      var x := rows[|rows| - 1];
      if HasKeys(x) then init + [x] else init
  }

  function StripDate(r: Row): Row
    requires HasKeys(r)
  {
    r.(dateAdded := Some(Strip(r.dateAdded.value)))
  }

  /** Line 24: `df['date_added'].str.strip()`. */
  function StripDates(rows: seq<Row>): (r: seq<Row>)
    requires forall i :: 0 <= i < |rows| ==> HasKeys(rows[i])
    ensures |r| == |rows| && forall i :: 0 <= i < |r| ==> HasKeys(r[i])
  {
    if rows == [] then []
    else StripDates(rows[..|rows| - 1]) + [StripDate(rows[|rows| - 1])]
  }

  function ParseDate(r: Row, parse: Parser): DatedRow
    requires HasKeys(r)
  {
    DatedRow(r.showType.value, r.country.value, parse(r.dateAdded.value), r.listedIn)
  }

  /** Lines 25-29: `pd.to_datetime(df['date_added'], ..., errors='coerce')`. */
  function ParseDates(rows: seq<Row>, parse: Parser): (r: seq<DatedRow>)
    requires forall i :: 0 <= i < |rows| ==> HasKeys(rows[i])
    ensures |r| == |rows|
  {
    if rows == [] then []
    else ParseDates(rows[..|rows| - 1], parse) + [ParseDate(rows[|rows| - 1], parse)]
  }

  /** Line 33: `df.dropna(subset=['date_added'])`. */
  function DropUnparsed(rows: seq<DatedRow>): (r: seq<DatedRow>)
    ensures |r| <= |rows|
    ensures forall i :: 0 <= i < |r| ==> r[i].dateAdded.Some?
  {
    if rows == [] then []
    else
      var init := DropUnparsed(rows[..|rows| - 1]);
      var x := rows[|rows| - 1];
      if x.dateAdded.Some? then init + [x] else init
  }

  function AddYear(r: DatedRow): CleanRow
    requires r.dateAdded.Some?
  {
    CleanRow(r.showType, r.country, r.dateAdded.value, r.listedIn, r.dateAdded.value.year)
  }

  /** Line 39: `df['year_added'] = df['date_added'].dt.year`. */
  function AddYears(rows: seq<DatedRow>): (r: seq<CleanRow>)
    requires forall i :: 0 <= i < |rows| ==> rows[i].dateAdded.Some?
    ensures |r| == |rows|
  {
    if rows == [] then []
    else AddYears(rows[..|rows| - 1]) + [AddYear(rows[|rows| - 1])]
  }

  /** The table produced by the five steps, applied one after the other. */
  function Steps(raw: seq<Row>, parse: Parser): seq<CleanRow> {
    AddYears(DropUnparsed(ParseDates(StripDates(KeyRows(raw)), parse)))
  }

  /** Number of rows line 34 computes as dropped. */
  function StepsDropped(raw: seq<Row>, parse: Parser): int {
    var parsed := ParseDates(StripDates(KeyRows(raw)), parse);
    |parsed| - |DropUnparsed(parsed)|
  }

  /**
    Running the steps in sequence gives the reference table, and the count
    computed by line 34 is the number of keyed rows whose date did not parse.
  */
  lemma {:induction false} StepsAgree(raw: seq<Row>, parse: Parser)
    ensures Steps(raw, parse) == Cleaned(raw, parse)
    ensures StepsDropped(raw, parse) == BadDates(raw, parse)
  {
    if raw != [] {
      var init := raw[..|raw| - 1];
      var x := raw[|raw| - 1];
      StepsAgree(init, parse);
      var k0 := KeyRows(init);
      if HasKeys(x) {
        var k1 := k0 + [x];
        assert KeyRows(raw) == k1;
        assert k1[..|k1| - 1] == k0;
        var s0 := StripDates(k0);
        var s1 := s0 + [StripDate(x)];
        assert StripDates(k1) == s1;
        assert s1[..|s1| - 1] == s0;
        var p0 := ParseDates(s0, parse);
        var p := ParseDate(StripDate(x), parse);
        var p1 := p0 + [p];
        assert ParseDates(s1, parse) == p1;
        assert p1[..|p1| - 1] == p0;
        var d0 := DropUnparsed(p0);
        if p.dateAdded.Some? {
          var d1 := d0 + [p];
          assert DropUnparsed(p1) == d1;
          assert d1[..|d1| - 1] == d0;
          assert AddYears(d1) == AddYears(d0) + [AddYear(p)];
        } else {
          assert DropUnparsed(p1) == d0;
        }
      } else {
        assert KeyRows(raw) == k0;
      }
    }
  }

  /**
    Lines 21-39 step by step: each statement of the source is one pass over
    the current table. `dropped` is `initial_count - len(df)`, and `warned`
    says whether the warning of line 36 is printed.
  */
  method Clean(raw: seq<Row>, parse: Parser) returns (df: seq<CleanRow>, dropped: nat, warned: bool)
    ensures df == Cleaned(raw, parse)
    ensures dropped == BadDates(raw, parse)
    ensures warned <==> dropped > 0
  {
    var keyed := DropMissingKeys(raw);
    var stripped := StripDateColumn(keyed);
    var parsed := ParseDateColumn(stripped, parse);
    var initialCount := |parsed|;
    var kept := DropNaT(parsed);
    dropped := initialCount - |kept|;
    warned := dropped > 0;
    df := AddYearColumn(kept);
    StepsAgree(raw, parse);
  }

  /** `df.dropna(subset=['type', 'country', 'date_added'])` */
  method DropMissingKeys(raw: seq<Row>) returns (keyed: seq<Row>)
    ensures keyed == KeyRows(raw)
  {
    keyed := [];
    for i := 0 to |raw|
      invariant keyed == KeyRows(raw[..i])
    {
      assert raw[..i + 1][..i] == raw[..i];
      if HasKeys(raw[i]) {
        keyed := keyed + [raw[i]];
      }
    }
    assert raw[..|raw|] == raw;
  }

  /** `df['date_added'].str.strip()` */
  method StripDateColumn(keyed: seq<Row>) returns (stripped: seq<Row>)
    requires forall i :: 0 <= i < |keyed| ==> HasKeys(keyed[i])
    ensures stripped == StripDates(keyed)
  {
    stripped := [];
    for i := 0 to |keyed|
      invariant stripped == StripDates(keyed[..i])
    {
      assert keyed[..i + 1][..i] == keyed[..i];
      stripped := stripped + [StripDate(keyed[i])];
    }
    assert keyed[..|keyed|] == keyed;
  }

  /** `pd.to_datetime(df['date_added'], format='mixed', errors='coerce')` */
  method ParseDateColumn(stripped: seq<Row>, parse: Parser) returns (parsed: seq<DatedRow>)
    requires forall i :: 0 <= i < |stripped| ==> HasKeys(stripped[i])
    ensures parsed == ParseDates(stripped, parse)
  {
    parsed := [];
    for i := 0 to |stripped|
      invariant parsed == ParseDates(stripped[..i], parse)
    {
      assert stripped[..i + 1][..i] == stripped[..i];
      parsed := parsed + [ParseDate(stripped[i], parse)];
    }
    assert stripped[..|stripped|] == stripped;
  }

  /** `df.dropna(subset=['date_added'])` after the conversion */
  method DropNaT(parsed: seq<DatedRow>) returns (kept: seq<DatedRow>)
    ensures kept == DropUnparsed(parsed)
  {
    kept := [];
    for i := 0 to |parsed|
      invariant kept == DropUnparsed(parsed[..i])
    {
      assert parsed[..i + 1][..i] == parsed[..i];
      if parsed[i].dateAdded.Some? {
        kept := kept + [parsed[i]];
      }
    }
    assert parsed[..|parsed|] == parsed;
  }

  /** `df['year_added'] = df['date_added'].dt.year` */
  method AddYearColumn(kept: seq<DatedRow>) returns (df: seq<CleanRow>)
    requires forall i :: 0 <= i < |kept| ==> kept[i].dateAdded.Some?
    ensures df == AddYears(kept)
  {
    df := [];
    for i := 0 to |kept|
      invariant df == AddYears(kept[..i])
    {
      assert kept[..i + 1][..i] == kept[..i];
      df := df + [AddYear(kept[i])];
    }
    assert kept[..|kept|] == kept;
  }

  // ---- What cleaning guarantees ----

  /**
    The cleaned table is an order-preserving selection of the input: row k
    comes from input row idx[k], the indices increase, and an input row is
    selected exactly when its keys are present and its trimmed date parses,
    whatever its `listed_in`.
  */
  lemma {:induction false} CleanedIsSubsequence(raw: seq<Row>, parse: Parser) returns (idx: seq<nat>)
    ensures |idx| == |Cleaned(raw, parse)|
    ensures forall k :: 0 <= k < |idx| ==> idx[k] < |raw|
    ensures forall k, l :: 0 <= k < l < |idx| ==> idx[k] < idx[l]
    ensures forall k :: 0 <= k < |idx| ==> Selects(raw, parse, idx, k)
    ensures forall i :: 0 <= i < |raw| && Survives(raw[i], parse) ==> i in idx
  {
    if raw == [] {
      idx := [];
    } else {
      var n := |raw| - 1;
      var init := raw[..n];
      var prev := CleanedIsSubsequence(init, parse);
      var c0 := Cleaned(init, parse);
      var keep := Survives(raw[n], parse);
      if keep {
        idx := prev + [n];
        var c1 := c0 + [Derive(raw[n], parse)];
        assert Cleaned(raw, parse) == c1;
        forall k | 0 <= k < |idx| ensures Selects(raw, parse, idx, k) {
          if k < |prev| {
            assert Selects(init, parse, prev, k);
            assert init[prev[k]] == raw[prev[k]];
            assert c1[k] == c0[k];
          }
        }
      } else {
        idx := prev;
        forall k | 0 <= k < |idx| ensures Selects(raw, parse, idx, k) {
          assert Selects(init, parse, prev, k);
          assert init[prev[k]] == raw[prev[k]];
        }
      }
      forall i | 0 <= i < |raw| && Survives(raw[i], parse) ensures i in idx {
        if i < n {
          assert init[i] == raw[i];
          assert i in prev;
          assert prev <= idx;
        } else {
          assert i == n;
          assert idx[|idx| - 1] == n;
        }
      }
    }
  }

  /** Output row k is the derived form of input row idx[k], which survives. */
  predicate Selects(raw: seq<Row>, parse: Parser, idx: seq<nat>, k: nat)
    requires k < |idx|
  {
    idx[k] < |raw| && Survives(raw[idx[k]], parse)
      && k < |Cleaned(raw, parse)| && Cleaned(raw, parse)[k] == Derive(raw[idx[k]], parse)
  }

  /** Every cleaned row's year is the year of its parsed date, and its keys come from the input. */
  lemma CleanedRowsAreDerived(raw: seq<Row>, parse: Parser, k: nat)
    requires k < |Cleaned(raw, parse)|
    ensures var row := Cleaned(raw, parse)[k];
      && row.yearAdded == row.dateAdded.year
      && exists i :: 0 <= i < |raw| && raw[i].showType == Some(row.showType)
           && raw[i].country == Some(row.country) && raw[i].listedIn == row.listedIn
           && HasKeys(raw[i]) && ParsedDate(raw[i], parse) == Some(row.dateAdded)
  {
    var idx := CleanedIsSubsequence(raw, parse);
    assert Selects(raw, parse, idx, k);
  }

  /** The number of rows dropped for bad dates is what separates the keyed rows from the cleaned ones. */
  lemma DroppedIsKeyedMinusCleaned(raw: seq<Row>, parse: Parser)
    ensures BadDates(raw, parse) == |KeyRows(raw)| - |Cleaned(raw, parse)|
  {
    StepsAgree(raw, parse);
  }

  /** Rows missing only `listed_in` are kept, with `listed_in` still missing. */
  lemma MissingGenresAreKept(raw: seq<Row>, parse: Parser, i: nat)
    requires i < |raw| && HasKeys(raw[i]) && raw[i].listedIn.None?
    requires ParsedDate(raw[i], parse).Some?
    ensures exists k :: 0 <= k < |Cleaned(raw, parse)| && Cleaned(raw, parse)[k] == Derive(raw[i], parse)
    ensures Derive(raw[i], parse).listedIn.None?
  {
    var idx := CleanedIsSubsequence(raw, parse);
    var k :| 0 <= k < |idx| && idx[k] == i;
    assert Selects(raw, parse, idx, k);
  }
}
