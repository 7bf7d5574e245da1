/**
  The aggregations the analysis computes on the cleaned table
  (netflix_analysis.py, lines 73-144): the ten most frequent countries,
  the number of titles added per year, the genre by type grid and the ten
  most common genres.
*/
module Aggregates {
  import opened Wrappers
  import opened Text
  import opened Counting
  import opened Ordering
  import opened Cleaning

  // ---- Countries (lines 73-79) ----

  /** One row's countries: `str.split(', ')`. */
  function CountryList(row: CleanRow): (r: seq<string>)
    ensures |r| >= 1
  {
    Split(row.country, ", ")
  }

  function CountryLists(table: seq<CleanRow>): (r: seq<seq<string>>)
    ensures |r| == |table|
  {
    seq(|table|, i requires 0 <= i < |table| => CountryList(table[i]))
  }

  /** `df['country'].str.split(', ').explode()`: one entry per listed country. */
  function ExplodeCountries(table: seq<CleanRow>): seq<string> {
    Flatten(CountryLists(table))
  }

  /** The exploded column has one entry per piece of every row. */
  lemma ExplodedCountriesSize(table: seq<CleanRow>)
    ensures |ExplodeCountries(table)| == Sum(Lengths(CountryLists(table)))
  {
    FlattenLength(CountryLists(table));
  }

  /** A further row adds its own pieces' occurrences to each country's count, and nothing else. */
  lemma CountryRowContribution(table: seq<CleanRow>, row: CleanRow, c: string)
    ensures Count(ExplodeCountries(table + [row]), c)
      == Count(ExplodeCountries(table), c) + Count(CountryList(row), c)
  {
    assert CountryLists(table + [row]) == CountryLists(table) + [CountryList(row)];
    FlattenSnocCount(CountryLists(table), CountryList(row), c);
  }

  /** A row listing the countries `cs` (joined by ", ", none with a comma) adds one to each of them. */
  lemma CountryListOfJoin(cs: seq<string>, row: CleanRow)
    requires |cs| >= 1 && NoDup(cs)
    requires forall k :: 0 <= k < |cs| ==> ',' !in cs[k]
    requires row.country == Join(cs, ", ")
    ensures CountryList(row) == cs
    ensures forall c :: c in cs ==> Count(CountryList(row), c) == 1
    ensures forall c :: c !in cs ==> Count(CountryList(row), c) == 0
  {
    SplitJoin(cs, ", ");
    forall c | c in cs ensures Count(cs, c) == 1 {
      NoDupCount(cs, c);
    }
    forall c | c !in cs ensures Count(cs, c) == 0 {
      CountPositive(cs, c);
    }
  }

  /** "A, B, C" adds exactly one to each of A, B and C; "A" adds one to A only. */
  lemma CountryExamples(table: seq<CleanRow>, row: CleanRow, c: string)
    ensures row.country == "A, B, C" ==>
      Count(ExplodeCountries(table + [row]), c)
        == Count(ExplodeCountries(table), c) + (if c in {"A", "B", "C"} then 1 else 0)
    ensures row.country == "A" ==>
      Count(ExplodeCountries(table + [row]), c)
        == Count(ExplodeCountries(table), c) + (if c == "A" then 1 else 0)
  {
    CountryRowContribution(table, row, c);
    if row.country == "A, B, C" {
      assert Join(["A", "B", "C"], ", ") == "A, B, C";
      CountryListOfJoin(["A", "B", "C"], row);
    } else if row.country == "A" {
      assert Join(["A"], ", ") == "A";
      CountryListOfJoin(["A"], row);
    }
  }

  /**
    `.value_counts().head(10)`. pandas does not define the order of equal
    counts; this model breaks ties by first appearance.
  */
  function TopCountries(table: seq<CleanRow>): seq<(string, nat)> {
    MostCommon(ExplodeCountries(table), 10)
  }

  /**
    At most ten countries, each with its true count in the exploded column,
    none twice, counts non-increasing, and no country left out occurs more
    often than any country kept.
  */
  lemma TopCountriesSpec(table: seq<CleanRow>)
    ensures var r := TopCountries(table); var xs := ExplodeCountries(table);
      && |r| == Min(10, |Distinct(xs)|)
      && (forall i :: 0 <= i < |r| ==> r[i].0 in xs && r[i].1 == Count(xs, r[i].0))
      && (forall i, j :: 0 <= i < j < |r| ==> r[i].0 != r[j].0 && r[i].1 >= r[j].1)
      && (forall c, i :: c in xs && c !in Labels(r) && 0 <= i < |r| ==> Count(xs, c) <= r[i].1)
  {
    var xs := ExplodeCountries(table);
    var r := TopCountries(table);
    MostCommonSpec(xs, 10);
    forall c, i | c in xs && c !in Labels(r) && 0 <= i < |r| ensures Count(xs, c) <= r[i].1 {
      assert Outranks(xs, r[i].0, c);
    }
  }

  // ---- Titles per year (line 106) ----

  /** A count per key, keys in ascending order: a `value_counts().sort_index()` Series. */
  datatype Series<K> = Series(index: seq<K>, values: seq<nat>)

  function Years(table: seq<CleanRow>): (r: seq<int>)
    ensures |r| == |table|
  {
    seq(|table|, i requires 0 <= i < |table| => table[i].yearAdded)
  }

  /** `df['year_added'].value_counts().sort_index()` */
  function YearCounts(table: seq<CleanRow>): Series<int> {
    IntLessIsStrictTotalOrder();
    var years := SortedKeys(Years(table), IntLess);
    Series(years, Counts(Years(table), years))
  }

  /**
    One entry per year that occurs, in strictly ascending order, each with
    the number of rows added that year; the counts add up to the number of
    rows.
  */
  lemma YearCountsSpec(table: seq<CleanRow>)
    ensures var s := YearCounts(table);
      && |s.index| == |s.values|
      && (forall i, j :: 0 <= i < j < |s.index| ==> s.index[i] < s.index[j])
      && (forall y :: y in s.index <==> exists k :: 0 <= k < |table| && table[k].yearAdded == y)
      && (forall i :: 0 <= i < |s.index| ==> s.values[i] == Count(Years(table), s.index[i]) > 0)
      && Sum(s.values) == |table|
  {
    IntLessIsStrictTotalOrder();
    var ys := Years(table);
    var s := YearCounts(table);
    assert StrictlySorted(s.index, IntLess);
    forall y ensures y in s.index <==> exists k :: 0 <= k < |table| && table[k].yearAdded == y {
      if y in ys {
        var k :| 0 <= k < |ys| && ys[k] == y;
      }
      if exists k :: 0 <= k < |table| && table[k].yearAdded == y {
        var k :| 0 <= k < |table| && table[k].yearAdded == y;
        assert ys[k] == y;
      }
    }
    forall i | 0 <= i < |s.index| ensures s.values[i] == Count(ys, s.index[i]) > 0 {
      CountsAt(ys, s.index, i);
      CountPositive(ys, s.index[i]);
    }
    StrictlySortedNoDup(s.index, IntLess);
    SumOfCounts(ys, s.index);
  }

  // ---- Genre by type grid (lines 118-123) ----

  /** The (genre, type) rows one title contributes after `str.split(', ')` and `explode`. */
  function GenreTypeRow(row: CleanRow): (r: seq<(string, string)>)
  {
    match row.listedIn
    case None => []
    case Some(l) =>
      var gs := Split(l, ", ");
      seq(|gs|, k requires 0 <= k < |gs| => (gs[k], row.showType))
  }

  /** `df[['type', 'listed_in']].dropna()`, split and exploded: all (genre, type) rows. */
  function GenreTypePairs(table: seq<CleanRow>): seq<(string, string)> {
    Flatten(seq(|table|, i requires 0 <= i < |table| => GenreTypeRow(table[i])))
  }

  /** A title without `listed_in` contributes no (genre, type) row. */
  lemma MissingGenresContributeNothing(table: seq<CleanRow>, row: CleanRow)
    requires row.listedIn.None?
    ensures GenreTypePairs(table + [row]) == GenreTypePairs(table)
  {
    var rows := seq(|table|, i requires 0 <= i < |table| => GenreTypeRow(table[i]));
    assert seq(|table + [row]|, i requires 0 <= i < |table + [row]| => GenreTypeRow((table + [row])[i]))
      == rows + [[]];
    FlattenAppend(rows, [[]]);
    assert Flatten(rows) + Flatten([[]]) == Flatten(rows);
  }

  /** A dense table: row labels, column labels and one cell per pair of them. */
  datatype Grid = Grid(genres: seq<string>, types: seq<string>, cells: seq<seq<nat>>)

  function Cells(pairs: seq<(string, string)>, genres: seq<string>, types: seq<string>): (r: seq<seq<nat>>)
    ensures |r| == |genres| && forall i :: 0 <= i < |r| ==> |r[i]| == |types|
  {
    seq(|genres|, i requires 0 <= i < |genres| =>
      seq(|types|, j requires 0 <= j < |types| => Count(pairs, (genres[i], types[j]))))
  }

  /**
    `groupby(['listed_in', 'type']).size().unstack(fill_value=0)`: genres
    and types each in ascending string order, a pair never seen filled with 0.
  */
  function GenreTypeGrid(table: seq<CleanRow>): Grid {
    StrLessIsStrictTotalOrder();
    var pairs := GenreTypePairs(table);
    var genres := SortedKeys(Labels(pairs), StrLess);
    var types := SortedKeys(Seconds(pairs), StrLess);
    Grid(genres, types, Cells(pairs, genres, types))
  }

  /** Sum of all cells. */
  function Total(cells: seq<seq<nat>>): nat {
    if cells == [] then 0 else Sum(cells[0]) + Total(cells[1..])
  }

  /** The grid's row and column labels: sorted, and exactly the genres and types observed. */
  lemma GridLabels(table: seq<CleanRow>)
    ensures var g := GenreTypeGrid(table); var pairs := GenreTypePairs(table);
      && StrictlySorted(g.genres, StrLess) && StrictlySorted(g.types, StrLess)
      && (forall x :: x in g.genres <==> exists t :: (x, t) in pairs)
      && (forall t :: t in g.types <==> exists x :: (x, t) in pairs)
  {
    StrLessIsStrictTotalOrder();
    var pairs := GenreTypePairs(table);
    forall x ensures x in Labels(pairs) <==> exists t :: (x, t) in pairs {
      if x in Labels(pairs) {
        var k :| 0 <= k < |pairs| && Labels(pairs)[k] == x;
        assert (x, pairs[k].1) in pairs;
      }
      if exists t :: (x, t) in pairs {
        var t :| (x, t) in pairs;
        var k :| 0 <= k < |pairs| && pairs[k] == (x, t);
        assert Labels(pairs)[k] == x;
      }
    }
    forall t ensures t in Seconds(pairs) <==> exists x :: (x, t) in pairs {
      if t in Seconds(pairs) {
        var k :| 0 <= k < |pairs| && Seconds(pairs)[k] == t;
        assert (pairs[k].0, t) in pairs;
      }
      if exists x :: (x, t) in pairs {
        var x :| (x, t) in pairs;
        var k :| 0 <= k < |pairs| && pairs[k] == (x, t);
        assert Seconds(pairs)[k] == t;
      }
    }
  }

  /** Each cell counts its (genre, type) rows; a pair never observed has 0. */
  lemma GridCells(table: seq<CleanRow>, i: nat, j: nat)
    requires var g := GenreTypeGrid(table); i < |g.genres| && j < |g.types|
    ensures var g := GenreTypeGrid(table); var pairs := GenreTypePairs(table);
      && g.cells[i][j] == Count(pairs, (g.genres[i], g.types[j]))
      && (g.cells[i][j] == 0 <==> (g.genres[i], g.types[j]) !in pairs)
  {
    var g := GenreTypeGrid(table);
    CountPositive(GenreTypePairs(table), (g.genres[i], g.types[j]));
  }

  /** Every (genre, type) row is counted in exactly one cell: the cells add up to the number of rows. */
  lemma GridTotal(table: seq<CleanRow>)
    ensures Total(GenreTypeGrid(table).cells) == |GenreTypePairs(table)|
  {
    StrLessIsStrictTotalOrder();
    var g := GenreTypeGrid(table);
    var pairs := GenreTypePairs(table);
    GridLabels(table);
    StrictlySortedNoDup(g.genres, StrLess);
    StrictlySortedNoDup(g.types, StrLess);
    ProductNoDup(g.genres, g.types);
    forall p | p in pairs ensures p in Product(g.genres, g.types) {
      ProductMember(g.genres, g.types, p);
    }
    SumOfCounts(pairs, Product(g.genres, g.types));
    CellsTotal(pairs, g.genres, g.types);
  }

  /** Every (genre, type) combination, genre-major. */
  function Product(genres: seq<string>, types: seq<string>): seq<(string, string)> {
    if genres == [] then [] else RowKeys(genres[0], types) + Product(genres[1..], types)
  }

  function RowKeys(g: string, types: seq<string>): (r: seq<(string, string)>)
    ensures |r| == |types|
  {
    seq(|types|, j requires 0 <= j < |types| => (g, types[j]))
  }

  lemma {:induction false} ProductMember(genres: seq<string>, types: seq<string>, p: (string, string))
    ensures p in Product(genres, types) <==> p.0 in genres && p.1 in types
  {
    if genres != [] {
      ProductMember(genres[1..], types, p);
      assert p in RowKeys(genres[0], types) <==> p.0 == genres[0] && p.1 in types by {
        if p.0 == genres[0] && p.1 in types {
          var j :| 0 <= j < |types| && types[j] == p.1;
          assert RowKeys(genres[0], types)[j] == p;
        }
      }
      assert p.0 in genres <==> p.0 == genres[0] || p.0 in genres[1..];
    }
  }

  lemma {:induction false} ProductNoDup(genres: seq<string>, types: seq<string>)
    requires NoDup(genres) && NoDup(types)
    ensures NoDup(Product(genres, types))
  {
    if genres != [] {
      ProductNoDup(genres[1..], types);
      var head := RowKeys(genres[0], types);
      forall p | p in head ensures p !in Product(genres[1..], types) {
        ProductMember(genres[1..], types, p);
        assert genres[0] !in genres[1..] by {
          forall k | 0 <= k < |genres[1..]| ensures genres[1..][k] != genres[0] {
            assert genres[1..][k] == genres[k + 1];
          }
        }
      }
      NoDupAppend(head, Product(genres[1..], types));
    }
  }

  lemma {:induction false} CellsTotal(pairs: seq<(string, string)>, genres: seq<string>, types: seq<string>)
    ensures Total(Cells(pairs, genres, types)) == Sum(Counts(pairs, Product(genres, types)))
  {
    if genres != [] {
      var c := Cells(pairs, genres, types);
      var head := RowKeys(genres[0], types);
      assert c[1..] == Cells(pairs, genres[1..], types);
      forall j | 0 <= j < |types| ensures c[0][j] == Counts(pairs, head)[j] {
        CountsAt(pairs, head, j);
      }
      assert c[0] == Counts(pairs, head);
      CellsTotal(pairs, genres[1..], types);
      CountsAppend(pairs, head, Product(genres[1..], types));
      SumAppend(Counts(pairs, head), Counts(pairs, Product(genres[1..], types)));
    }
  }

  // ---- Top genres (lines 139-144) ----

  /** `[i.strip() for i in x.split(',')]` */
  function GenreTokens(l: string): (r: seq<string>)
    ensures |r| >= 1
  {
    var parts := Split(l, ",");
    seq(|parts|, k requires 0 <= k < |parts| => Strip(parts[k]))
  }

  /** `df['listed_in'].dropna().apply(...)`: one token list per title that has genres. */
  function GenreLists(table: seq<CleanRow>): (r: seq<seq<string>>)
    ensures |r| <= |table|
    ensures forall i :: 0 <= i < |r| ==> |r[i]| >= 1
    ensures r == [] <==> forall i :: 0 <= i < |table| ==> table[i].listedIn.None?
  {
    if table == [] then []
    else
      var rest := GenreLists(table[1..]);
      assert forall i :: 1 <= i < |table| ==> table[i] == table[1..][i - 1];
      match table[0].listedIn
      case None => rest
      case Some(l) => [GenreTokens(l)] + rest
  }

  /** `all_genres`: the token lists flattened, in row order. */
  function AllGenres(table: seq<CleanRow>): seq<string> {
    Flatten(GenreLists(table))
  }

  /** Every token of a title's genre list has no surrounding whitespace. */
  lemma GenreTokensStripped(l: string)
    ensures forall k :: 0 <= k < |GenreTokens(l)| ==> IsStripped(GenreTokens(l)[k])
  {
    var parts := Split(l, ",");
    forall k | 0 <= k < |parts| ensures IsStripped(GenreTokens(l)[k]) {
      StripIsStripped(parts[k]);
    }
  }

  lemma {:induction false} GenreListsStripped(table: seq<CleanRow>)
    ensures forall i, k :: 0 <= i < |GenreLists(table)| && 0 <= k < |GenreLists(table)[i]| ==>
      IsStripped(GenreLists(table)[i][k])
  {
    if table != [] {
      GenreListsStripped(table[1..]);
      match table[0].listedIn
      case None =>
      case Some(l) =>
        GenreTokensStripped(l);
        var ls := GenreLists(table);
        assert ls == [GenreTokens(l)] + GenreLists(table[1..]);
        forall i, k | 0 <= i < |ls| && 0 <= k < |ls[i]| ensures IsStripped(ls[i][k]) {
          if i > 0 {
            assert ls[i] == GenreLists(table[1..])[i - 1];
          }
        }
    }
  }

  /** Every genre token has no surrounding whitespace. */
  lemma AllGenresStripped(table: seq<CleanRow>, g: string)
    requires g in AllGenres(table)
    ensures IsStripped(g)
  {
    FlattenMember(GenreLists(table), g);
    var i :| 0 <= i < |GenreLists(table)| && g in GenreLists(table)[i];
    var k :| 0 <= k < |GenreLists(table)[i]| && GenreLists(table)[i][k] == g;
    GenreListsStripped(table);
  }

  /** There are genre tokens exactly when some title has `listed_in`. */
  lemma AllGenresEmpty(table: seq<CleanRow>)
    ensures AllGenres(table) == [] <==> forall i :: 0 <= i < |table| ==> table[i].listedIn.None?
  {
    var ls := GenreLists(table);
    if ls != [] {
      FlattenMember(ls, ls[0][0]);
    }
  }

  /**
    `Counter(all_genres).most_common(10)` followed by `genres, counts =
    zip(*genre_counts)`; the unpacking fails (None) when there are no genres.
  */
  function TopGenres(table: seq<CleanRow>): Option<(seq<string>, seq<nat>)> {
    var mc := MostCommon(AllGenres(table), 10);
    if mc == [] then None else Some((Labels(mc), Seconds(mc)))
  }

  /** The unpacking of line 144 fails exactly when no title has genres. */
  lemma TopGenresFails(table: seq<CleanRow>)
    ensures TopGenres(table).None? <==> forall i :: 0 <= i < |table| ==> table[i].listedIn.None?
  {
    MostCommonShape(AllGenres(table), 10);
    AllGenresEmpty(table);
  }

  /**
    When the unpacking succeeds: at most ten genres, each stripped, each a
    token with its true count, none twice, counts non-increasing, equal
    counts in order of first appearance, and every genre left out ranked
    below every genre kept.
  */
  lemma TopGenresSpec(table: seq<CleanRow>) returns (xs: seq<string>, gs: seq<string>, ns: seq<nat>)
    requires TopGenres(table).Some?
    ensures xs == AllGenres(table) && TopGenres(table) == Some((gs, ns))
    ensures |gs| == |ns| == Min(10, |Distinct(xs)|)
    ensures forall i :: 0 <= i < |gs| ==> IsStripped(gs[i]) && gs[i] in xs && ns[i] == Count(xs, gs[i])
    ensures forall i, j :: 0 <= i < j < |gs| ==> gs[i] != gs[j] && ns[i] >= ns[j]
    ensures forall i, j :: 0 <= i < j < |gs| && ns[i] == ns[j] ==> FirstIndex(xs, gs[i]) < FirstIndex(xs, gs[j])
    ensures forall g, i :: g in xs && g !in gs && 0 <= i < |gs| ==> Outranks(xs, gs[i], g)
  {
    xs := AllGenres(table);
    gs, ns := MostCommonUnzipped(xs, 10);
    forall i | 0 <= i < |gs| ensures IsStripped(gs[i]) {
      AllGenresStripped(table, gs[i]);
    }
  }

  // ---- The two genre splits ----

  /** `pad` prefixed to every string. */
  function Pad(ts: seq<string>, pad: string): (r: seq<string>)
    ensures |r| == |ts|
  {
    seq(|ts|, k requires 0 <= k < |ts| => pad + ts[k])
  }

  lemma {:induction false} JoinPad(ts: seq<string>, sep: string, pad: string)
    requires |ts| >= 1
    ensures pad + Join(ts, sep + pad) == Join(Pad(ts, pad), sep)
  {
    if |ts| > 1 {
      var t := Join(ts[1..], sep + pad);
      JoinPad(ts[1..], sep, pad);
      assert Pad(ts, pad)[1..] == Pad(ts[1..], pad);
      assert ts[0] + (sep + pad) + t == ts[0] + sep + (pad + t);
      assert pad + (ts[0] + sep + (pad + t)) == (pad + ts[0]) + sep + (pad + t);
    }
  }

  /**
    Where the two genre paths agree: when `listed_in` is stripped genres,
    none with a comma, separated exactly by ", ", both the split of line 119
    and the split-and-strip of line 139 give back those genres.
  */
  lemma GenreSplitsAgree(ts: seq<string>)
    requires |ts| >= 1
    requires forall k :: 0 <= k < |ts| ==> ',' !in ts[k] && IsStripped(ts[k])
    ensures Split(Join(ts, ", "), ", ") == ts
    ensures GenreTokens(Join(ts, ", ")) == ts
  {
    SplitJoin(ts, ", ");
    var parts := CommaParts(ts);
    CommaPartsStrip(ts, parts);
  }

  lemma CommaPartsStrip(ts: seq<string>, parts: seq<string>)
    requires |ts| >= 1
    requires forall k :: 0 <= k < |ts| ==> ',' !in ts[k] && IsStripped(ts[k])
    requires parts == [ts[0]] + Pad(ts[1..], " ")
    requires Join(parts, ",") == Join(ts, ", ")
    ensures GenreTokens(Join(ts, ", ")) == ts
  {
    forall k | 0 <= k < |parts| ensures ',' !in parts[k] {
      if k > 0 {
        assert parts[k] == " " + ts[k];
      }
    }
    SplitJoin(parts, ",");
    var g := GenreTokens(Join(ts, ", "));
    assert |g| == |ts|;
    forall k | 0 <= k < |ts| ensures g[k] == ts[k] {
      assert g[k] == Strip(parts[k]);
      if k == 0 {
        StripStripped(ts[0]);
      } else {
        assert parts[k] == " " + ts[k];
        StripLeading(" ", ts[k]);
      }
    }
  }

  /** Joining by ", " is joining by "," with every piece after the first led by a space. */
  lemma CommaParts(ts: seq<string>) returns (parts: seq<string>)
    requires |ts| >= 1
    ensures parts == [ts[0]] + Pad(ts[1..], " ")
    ensures Join(parts, ",") == Join(ts, ", ")
  {
    parts := [ts[0]] + Pad(ts[1..], " ");
    if |ts| > 1 {
      assert "," + " " == ", ";
      JoinPad(ts[1..], ",", " ");
      assert parts[1..] == Pad(ts[1..], " ");
      assert Join(parts, ",") == ts[0] + "," + Join(Pad(ts[1..], " "), ",");
      assert Join(ts, ", ") == ts[0] + "," + (" " + Join(ts[1..], ", "));
    }
  }

  /**
    Where they diverge: a comma not followed by a space separates two genres
    for line 139 but not for line 119.
  */
  lemma GenreSplitsDivergeOnComma(a: string, b: string)
    requires ',' !in a && ',' !in b && IsStripped(a) && IsStripped(b) && b != []
    ensures Split(a + "," + b, ", ") == [a + "," + b]
    ensures GenreTokens(a + "," + b) == [a, b]
  {
    NoCommaSpace(a, b);
    CommaTokens(a, b);
  }

  lemma NoCommaSpace(a: string, b: string)
    requires ',' !in a && ',' !in b && b != [] && !IsSpace(b[0])
    ensures Split(a + "," + b, ", ") == [a + "," + b]
  {
    var s := a + "," + b;
    assert forall k :: 0 <= k < |a| ==> s[k] == a[k];
    assert forall k :: |a| < k < |s| ==> s[k] == b[k - |a| - 1];
    forall k | 0 <= k ensures !OccursAt(s, ", ", k) {
      if k + 2 <= |s| {
        assert s[k..k + 2][0] == s[k] && s[k..k + 2][1] == s[k + 1];
        if k == |a| {
          assert s[k + 1] == b[0];
        }
      }
    }
    SplitWhole(s, ", ");
  }

  lemma CommaTokens(a: string, b: string)
    requires ',' !in a && ',' !in b && IsStripped(a) && IsStripped(b)
    ensures GenreTokens(a + "," + b) == [a, b]
  {
    var s := a + "," + b;
    assert Join([a, b], ",") == s;
    SplitJoin([a, b], ",");
    StripStripped(a);
    StripStripped(b);
    var g := GenreTokens(s);
    assert |g| == 2 && g[0] == a && g[1] == b;
  }

  /** A doubled space after the comma survives the ", " split of line 119 but not the strip of line 139. */
  lemma GenreSplitsDivergeOnSpace(a: string, b: string)
    requires ',' !in a && ',' !in b && IsStripped(a) && IsStripped(b)
    ensures Split(a + ",  " + b, ", ") == [a, " " + b]
    ensures GenreTokens(a + ",  " + b) == [a, b]
  {
    SpaceSurvivesSplit(a, b);
    SpaceStripped(a, b);
  }

  lemma SpaceSurvivesSplit(a: string, b: string)
    requires ',' !in a && ',' !in b
    ensures Split(a + ",  " + b, ", ") == [a, " " + b]
  {
    var pieces := [a, " " + b];
    assert ',' !in pieces[1];
    assert Join(pieces, ", ") == a + ",  " + b;
    SplitJoin(pieces, ", ");
  }

  lemma SpaceStripped(a: string, b: string)
    requires ',' !in a && ',' !in b && IsStripped(a) && IsStripped(b)
    ensures GenreTokens(a + ",  " + b) == [a, b]
  {
    var pieces := [a, "  " + b];
    assert ',' !in pieces[1];
    assert Join(pieces, ",") == a + ",  " + b;
    SplitJoin(pieces, ",");
    StripStripped(a);
    StripLeading("  ", b);
    var g := GenreTokens(a + ",  " + b);
    assert |g| == 2 && g[0] == a && g[1] == b;
  }
}
