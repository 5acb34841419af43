/**
 * The reconciliation in `main` of data_normalized_and_compare.py: page
 * cleaning, join keys, first-wins de-duplication, the left join of the
 * standard table with the result table, and the per-field accuracy counts.
 */
module Reconcile {
  import opened Wrappers
  import opened Strings
  import opened Decimal
  import opened Canon

  /** A CSV row: the cells of the columns it has. */
  type Row = map<string, Cell>

  /** A DataFrame as read from CSV: its column names and its rows. */
  datatype Table = Table(columns: set<string>, rows: seq<Row>)

  function Get(row: Row, column: string): Cell {
    if column in row then row[column] else Absent
  }

  const NameColumn := "PDF名称"
  const PageColumn := "页码"
  const PackageColumn := "封装类型"
  const PackageTypeColumn := "package_type"

  /** LIST_COLUMNS */
  const ListColumns: seq<string> := [
    "Pitch x (el)", "Pitch y (e)", "Number of pins along X", "Number of pins along Y",
    "Package Height (A)", "Standoff (A1)", "Body X (D)", "Body Y (E)",
    "Edge Fillet Radius", "Ball Diameter Normal (b)"
  ]

  /** `cols_check`: COLUMN_MAPPING without its two key entries, in order, as
      (standard column, result column) pairs. */
  const CheckedFields: seq<(string, string)> := [
    (PackageColumn, PackageTypeColumn),
    ("Pitch x (el)", "Pitch x (el)"), ("Pitch y (e)", "Pitch y (e)"),
    ("Number of pins along X", "Number of pins along X"),
    ("Number of pins along Y", "Number of pins along Y"),
    ("Package Height (A)", "Package Height (A)"), ("Standoff (A1)", "Standoff (A1)"),
    ("Body X (D)", "Body X (D)"), ("Body Y (E)", "Body Y (E)"),
    ("Edge Fillet Radius", "Edge Fillet Radius"),
    ("Ball Diameter Normal (b)", "Ball Diameter Normal (b)"),
    (ExcludePinsColumn, ExcludePinsColumn)
  ]

  // ---------------------------------------------------------------------
  // Pages and keys (lines 154-182)
  // ---------------------------------------------------------------------

  /** `pd.to_numeric(..., errors='coerce')` followed by `astype(int)` on one
      cell, given the coercion of a text as `pageOf`. */
  function PageOf(row: Row, pageOf: string -> Option<int>): Option<int> {
    match Get(row, PageColumn)
    case Absent => None
    case Text(t) => pageOf(t)
  }

  /** `clean_name + "_" + clean_page.astype(str)` */
  function JoinKey(name: Cell, page: int): string {
    NormalizeFilename(name) + "_" + IntToString(page)
  }

  /** A row that survived the page cleaning, with its page and key. */
  datatype Keyed = Keyed(key: string, page: int, row: Row)

  /** The rows whose page coerces to a number, keyed, in their order. */
  function KeyedRows(rows: seq<Row>, pageOf: string -> Option<int>): seq<Keyed> {
    if rows == [] then []
    else
      var rest := KeyedRows(rows[1..], pageOf);
      match PageOf(rows[0], pageOf)
      case None => rest
      case Some(p) => [Keyed(JoinKey(Get(rows[0], NameColumn), p), p, rows[0])] + rest
  }

  /** The number of rows whose page coerces to a number. */
  function CountPaged(rows: seq<Row>, pageOf: string -> Option<int>): nat {
    if rows == [] then 0
    else (if PageOf(rows[0], pageOf).Some? then 1 else 0) + CountPaged(rows[1..], pageOf)
  }

  /** Exactly the rows with a page survive, in order; each carries its
      coerced page and the key built from its name and that page. */
  lemma KeyedRowsForm(rows: seq<Row>, pageOf: string -> Option<int>)
    ensures |KeyedRows(rows, pageOf)| == CountPaged(rows, pageOf) <= |rows|
    ensures forall k :: 0 <= k < |KeyedRows(rows, pageOf)| ==>
      var e := KeyedRows(rows, pageOf)[k];
      && e.row in rows
      && PageOf(e.row, pageOf) == Some(e.page)
      && e.key == JoinKey(Get(e.row, NameColumn), e.page)
    ensures forall r :: r in rows && PageOf(r, pageOf).Some? ==>
      exists k :: 0 <= k < |KeyedRows(rows, pageOf)| && KeyedRows(rows, pageOf)[k].row == r
  {
    KeyedRowsEntries(rows, pageOf);
    KeyedRowsCover(rows, pageOf);
    var all := KeyedRows(rows, pageOf);
    forall r | r in rows && PageOf(r, pageOf).Some? ensures exists k :: 0 <= k < |all| && all[k].row == r {
      var e :| e in all && e.row == r;
      var k :| 0 <= k < |all| && all[k] == e;
    }
  }

  lemma {:induction false} KeyedRowsEntries(rows: seq<Row>, pageOf: string -> Option<int>)
    ensures |KeyedRows(rows, pageOf)| == CountPaged(rows, pageOf) <= |rows|
    ensures forall k :: 0 <= k < |KeyedRows(rows, pageOf)| ==>
      var e := KeyedRows(rows, pageOf)[k];
      && e.row in rows
      && PageOf(e.row, pageOf) == Some(e.page)
      && e.key == JoinKey(Get(e.row, NameColumn), e.page)
    decreases |rows|
  {
    if rows != [] {
      KeyedRowsEntries(rows[1..], pageOf);
      var rest := KeyedRows(rows[1..], pageOf);
      assert forall r :: r in rows[1..] ==> r in rows;
      if PageOf(rows[0], pageOf).Some? {
        var all := KeyedRows(rows, pageOf);
        assert all[1..] == rest;
        forall k | 0 < k < |all|
          ensures all[k].row in rows && PageOf(all[k].row, pageOf) == Some(all[k].page)
          ensures all[k].key == JoinKey(Get(all[k].row, NameColumn), all[k].page)
        {
          assert all[k] == rest[k - 1];
        }
      } else {
        assert KeyedRows(rows, pageOf) == rest;
      }
    }
  }

  lemma {:induction false} KeyedRowsCover(rows: seq<Row>, pageOf: string -> Option<int>)
    ensures forall r :: r in rows && PageOf(r, pageOf).Some? ==>
      exists e :: e in KeyedRows(rows, pageOf) && e.row == r
    decreases |rows|
  {
    if rows != [] {
      KeyedRowsCover(rows[1..], pageOf);
      var rest, all := KeyedRows(rows[1..], pageOf), KeyedRows(rows, pageOf);
      assert forall r :: r in rows ==> r == rows[0] || r in rows[1..];
      assert forall e :: e in rest ==> e in all;
      if PageOf(rows[0], pageOf).Some? {
        assert all[0] in all && all[0].row == rows[0];
      }
    }
  }

  /** Splitting `x_y` at underscores gives back `x` and `y` when neither
      holds one. */
  lemma SplitAtUnderscore(x: string, y: string)
    requires '_' !in x && '_' !in y
    ensures Split(x + "_" + y, '_') == [x, y]
  {
    assert x + "_" + y == x + ['_'] + y;
    SplitCons(x, '_', y);
    SplitNone(y, '_');
  }

  /** Keys are equal exactly when the normalised names and the pages are:
      neither a normalised name nor a page holds an underscore. */
  lemma JoinKeyInjective(n1: Cell, p1: int, n2: Cell, p2: int)
    ensures JoinKey(n1, p1) == JoinKey(n2, p2) <==> NormalizeFilename(n1) == NormalizeFilename(n2) && p1 == p2
  {
    if JoinKey(n1, p1) == JoinKey(n2, p2) {
      NormalizeFilenameCharset(n1);
      NormalizeFilenameCharset(n2);
      var x1, y1 := NormalizeFilename(n1), IntToString(p1);
      var x2, y2 := NormalizeFilename(n2), IntToString(p2);
      assert !IsLowerAlnum('_');
      SplitAtUnderscore(x1, y1);
      SplitAtUnderscore(x2, y2);
      assert [x1, y1] == [x2, y2];
      IntToStringInjective(p1, p2);
    }
  }

  // ---------------------------------------------------------------------
  // De-duplication (lines 185-186)
  // ---------------------------------------------------------------------

  /** The first row carrying `key`, if any. */
  function FirstWithKey(rows: seq<Keyed>, key: string): (r: Option<Keyed>)
    ensures r.Some? ==> r.value in rows && r.value.key == key
    ensures r.None? <==> key !in KeySet(rows)
  {
    if rows == [] then None
    else if rows[0].key == key then Some(rows[0])
    else
      assert KeySet(rows) == {rows[0].key} + KeySet(rows[1..]);
      FirstWithKey(rows[1..], key)
  }

  /** The row found is the first carrying the key: no earlier row has it. */
  lemma {:induction false} FirstWithKeyIsFirst(rows: seq<Keyed>, key: string)
    ensures FirstWithKey(rows, key).Some? ==>
      exists j :: 0 <= j < |rows| && rows[j] == FirstWithKey(rows, key).value
        && forall q :: 0 <= q < j ==> rows[q].key != key
  {
    if rows != [] && rows[0].key != key {
      var r := FirstWithKey(rows[1..], key);
      FirstWithKeyIsFirst(rows[1..], key);
      if r.Some? {
        var j :| 0 <= j < |rows[1..]| && rows[1..][j] == r.value && forall q :: 0 <= q < j ==> rows[1..][q].key != key;
        assert rows[j + 1] == r.value;
        forall q | 0 <= q < j + 1 ensures rows[q].key != key {
          if q > 0 {
            assert rows[q] == rows[1..][q - 1];
          }
        }
      }
    }
  }

  function KeySet(rows: seq<Keyed>): set<string> {
    set i | 0 <= i < |rows| :: rows[i].key
  }

  predicate UniqueKeys(rows: seq<Keyed>) {
    forall i, j :: 0 <= i < j < |rows| ==> rows[i].key != rows[j].key
  }

  lemma KeySetCons(rows: seq<Keyed>)
    requires rows != []
    ensures KeySet(rows) == {rows[0].key} + KeySet(rows[1..])
  {
    assert forall i :: 0 < i < |rows| ==> rows[i] == rows[1..][i - 1];
  }

  /** `drop_duplicates(subset=['key'])` scanning the rows not yet seen: it
      keeps, for every key outside `seen`, the first row carrying it. */
  function DedupFrom(rows: seq<Keyed>, seen: set<string>): (r: seq<Keyed>)
    ensures DedupOf(rows, seen, r)
    decreases |rows|
  {
    if rows == [] then []
    else if rows[0].key in seen then
      var rest := DedupFrom(rows[1..], seen);
      DedupSkip(rows, seen, rest);
      rest
    else
      var rest := DedupFrom(rows[1..], seen + {rows[0].key});
      DedupKeep(rows, seen, rest);
      [rows[0]] + rest
  }

  /** The kept rows stay in their input order. */
  lemma {:induction false} DedupInOrder(rows: seq<Keyed>, seen: set<string>)
    ensures IsSubsequence(DedupFrom(rows, seen), rows)
    decreases |rows|
  {
    if rows != [] {
      if rows[0].key in seen {
        DedupInOrder(rows[1..], seen);
      } else {
        var rest := DedupFrom(rows[1..], seen + {rows[0].key});
        DedupInOrder(rows[1..], seen + {rows[0].key});
        assert ([rows[0]] + rest)[1..] == rest;
      }
    }
  }

  /** `r` holds, once each, the keys of `rows` outside `seen`, each with the
      first row of `rows` carrying it. */
  predicate DedupOf(rows: seq<Keyed>, seen: set<string>, r: seq<Keyed>) {
    && UniqueKeys(r)
    && KeySet(r) == KeySet(rows) - seen
    && (forall i :: 0 <= i < |r| ==> FirstWithKey(rows, r[i].key) == Some(r[i]))
    && |r| <= |rows|
  }

  /** A row whose key was already seen is dropped. */
  lemma DedupSkip(rows: seq<Keyed>, seen: set<string>, rest: seq<Keyed>)
    requires rows != [] && rows[0].key in seen
    requires DedupOf(rows[1..], seen, rest)
    ensures DedupOf(rows, seen, rest)
  {
    KeySetCons(rows);
    assert forall i :: 0 <= i < |rest| ==> rest[i].key in KeySet(rest);
  }

  /** A row with a new key is kept in front of what the scan of the rest
      keeps. */
  lemma DedupKeep(rows: seq<Keyed>, seen: set<string>, rest: seq<Keyed>)
    requires rows != [] && rows[0].key !in seen
    requires DedupOf(rows[1..], seen + {rows[0].key}, rest)
    ensures DedupOf(rows, seen, [rows[0]] + rest)
  {
    DedupKeepUnique(rows, seen, rest);
    DedupKeepKeys(rows, seen, rest);
    DedupKeepFirst(rows, seen, rest);
  }

  lemma DedupKeepUnique(rows: seq<Keyed>, seen: set<string>, rest: seq<Keyed>)
    requires rows != [] && rows[0].key !in seen
    requires DedupOf(rows[1..], seen + {rows[0].key}, rest)
    ensures UniqueKeys([rows[0]] + rest)
  {
    var r := [rows[0]] + rest;
    forall i, j | 0 <= i < j < |r| ensures r[i].key != r[j].key {
      assert r[j] == rest[j - 1];
      if i == 0 {
        assert rest[j - 1].key in KeySet(rest);
      } else {
        assert r[i] == rest[i - 1];
      }
    }
  }

  lemma DedupKeepKeys(rows: seq<Keyed>, seen: set<string>, rest: seq<Keyed>)
    requires rows != [] && rows[0].key !in seen
    requires DedupOf(rows[1..], seen + {rows[0].key}, rest)
    ensures KeySet([rows[0]] + rest) == KeySet(rows) - seen
  {
    var r := [rows[0]] + rest;
    KeySetCons(rows);
    KeySetCons(r);
    assert r[1..] == rest;
  }

  lemma DedupKeepFirst(rows: seq<Keyed>, seen: set<string>, rest: seq<Keyed>)
    requires rows != [] && rows[0].key !in seen
    requires DedupOf(rows[1..], seen + {rows[0].key}, rest)
    ensures forall i :: 0 <= i < |rest| + 1 ==> FirstWithKey(rows, ([rows[0]] + rest)[i].key) == Some(([rows[0]] + rest)[i])
  {
    var r := [rows[0]] + rest;
    forall i | 0 <= i < |r| ensures FirstWithKey(rows, r[i].key) == Some(r[i]) {
      if i > 0 {
        assert r[i] == rest[i - 1];
        assert rest[i - 1].key in KeySet(rest);
        assert FirstWithKey(rows[1..], r[i].key) == Some(r[i]);
      }
    }
  }

  /** First-wins de-duplication: every key occurs once, no key is lost, and
      the row kept for a key is the first one carrying it. */
  function Dedup(rows: seq<Keyed>): seq<Keyed> {
    DedupFrom(rows, {})
  }

  // ---------------------------------------------------------------------
  // The left join (lines 204-218)
  // ---------------------------------------------------------------------

  /** A row of `merged`: a standard row and its result row, if any. */
  datatype Pair = Pair(std: Keyed, res: Option<Keyed>)

  /** `pd.merge(df_std, df_res, on='key', how='left')` when the result keys
      are unique, as they are after de-duplication. */
  function LeftJoin(std: seq<Keyed>, res: seq<Keyed>): (r: seq<Pair>)
    requires UniqueKeys(res)
    ensures |r| == |std|
    ensures forall i :: 0 <= i < |r| ==> r[i].std == std[i]
    ensures forall i :: 0 <= i < |r| ==> (r[i].res.Some? <==> std[i].key in KeySet(res))
    ensures forall i :: 0 <= i < |r| && r[i].res.Some? ==>
      r[i].res.value in res && r[i].res.value.key == std[i].key
  {
    seq(|std|, i requires 0 <= i < |std| => Pair(std[i], FirstWithKey(res, std[i].key)))
  }

  /** `merged['PDF名称_res'].notna()`: a result row was found and has a name. */
  predicate IsMatched(p: Pair) {
    p.res.Some? && Get(p.res.value.row, NameColumn) != Absent
  }

  /** `df_compare`: the matched rows of `merged`, in order. */
  function MatchedPairs(ps: seq<Pair>): (r: seq<Pair>)
    ensures |r| <= |ps|
    ensures forall i :: 0 <= i < |r| ==> IsMatched(r[i]) && r[i] in ps
    ensures forall p :: p in ps && IsMatched(p) ==> p in r
  {
    if ps == [] then []
    else
      var rest := MatchedPairs(ps[1..]);
      assert forall p :: p in ps[1..] ==> p in ps;
      if IsMatched(ps[0]) then [ps[0]] + rest else rest
  }

  /** Each matched pair is kept as often as it occurs, and no other pair
      is kept. */
  lemma {:induction false} MatchedPairsCounts(ps: seq<Pair>)
    ensures forall p :: multiset(MatchedPairs(ps))[p] == if IsMatched(p) then multiset(ps)[p] else 0
    decreases |ps|
  {
    if ps != [] {
      MatchedPairsCounts(ps[1..]);
      assert ps == [ps[0]] + ps[1..];
    }
  }

  /** The filter keeps order: it distributes over concatenation, so the
      kept pairs of a prefix come before those of the rest. */
  lemma {:induction false} MatchedPairsConcat(a: seq<Pair>, b: seq<Pair>)
    ensures MatchedPairs(a + b) == MatchedPairs(a) + MatchedPairs(b)
    decreases |a|
  {
    if a != [] {
      assert (a + b)[0] == a[0] && (a + b)[1..] == a[1..] + b;
      MatchedPairsConcat(a[1..], b);
    } else {
      assert a + b == b;
    }
  }

  // ---------------------------------------------------------------------
  // Canonical cells and merged column names (lines 189-201, 229-236)
  // ---------------------------------------------------------------------

  /** A standard-table cell after the formatting at lines 189-199. */
  function StdValue(column: string, c: Cell, fmt: NumberFormat): Canonical {
    if column in ListColumns then Slots(ListSlots(c, fmt))
    else if column == ExcludePinsColumn then Pins(PinSet(c))
    else if column == PackageColumn then Plain(NormalizeText(c))
    else Plain(CellText(c))
  }

  /** A result-table cell after the formatting at lines 189-201. */
  function ResValue(column: string, c: Cell, fmt: NumberFormat): Canonical {
    if column in ListColumns then Slots(ListSlots(c, fmt))
    else if column == ExcludePinsColumn then Pins(PinSet(c))
    else if column == PackageTypeColumn then Plain(NormalizeText(c))
    else Plain(CellText(c))
  }

  /** `str()` of an unformatted cell; a missing one shows as `nan`. */
  function CellText(c: Cell): string {
    match c
    case Absent => "nan"
    case Text(t) => t
  }

  datatype Side = StdSide | ResSide

  /** A column name of `merged`: a name from one frame, or a name both frames
      have with the `_std` or `_res` suffix attached. */
  datatype MergedName = Bare(column: string) | Suffixed(column: string, side: Side)

  /** The columns of df_std at merge time. */
  function StdFrame(t: Table): set<string> {
    t.columns + {"clean_page", "clean_name", "key"}
  }

  /** The columns of df_res at merge time. */
  function ResFrame(t: Table): set<string> {
    t.columns + {"clean_page_raw", "clean_page", "clean_name", "key"}
  }

  /** Whether `merged` has the column: the join key keeps its name, a name in
      one frame only keeps it, and a name in both gets both suffixes. */
  predicate InMerged(m: MergedName, sc: set<string>, rc: set<string>) {
    match m
    case Bare(c) => c == "key" || (c in sc && c !in rc) || (c !in sc && c in rc)
    case Suffixed(c, _) => c in sc && c in rc && c != "key"
  }

  /** `key_std` at lines 232 and 235. */
  function KeyStd(s: string, rc: set<string>): MergedName {
    if s in rc then Suffixed(s, StdSide) else Bare(s)
  }

  /** `key_res` at lines 233 and 236. */
  function KeyRes(r: string, rc: set<string>): MergedName {
    if r in rc then Suffixed(r, ResSide) else Bare(r)
  }

  /** `row.get(m)` on a matched row of `merged`, for a column `merged` has. */
  function MergedValue(m: MergedName, sc: set<string>, p: Pair, fmt: NumberFormat): Canonical
    requires p.res.Some?
  {
    match m
    case Suffixed(c, StdSide) => StdValue(c, Get(p.std.row, c), fmt)
    case Suffixed(c, ResSide) => ResValue(c, Get(p.res.value.row, c), fmt)
    case Bare(c) =>
      if c in sc then StdValue(c, Get(p.std.row, c), fmt) else ResValue(c, Get(p.res.value.row, c), fmt)
  }

  /** The names the pipeline adds to the frames. */
  const DerivedColumns: set<string> := {"clean_page_raw", "clean_page", "clean_name", "key"}

  /** A field whose result column is not a derived name is available exactly
      when the standard table has that column, whether or not the result table
      has it; and then its standard column is available too, given that the
      standard table has it. */
  lemma FieldAvailability(s: string, r: string, std: Table, res: Table)
    requires r !in DerivedColumns && s !in DerivedColumns
    ensures InMerged(KeyRes(r, ResFrame(res)), StdFrame(std), ResFrame(res)) <==> r in std.columns
    ensures s in std.columns ==> InMerged(KeyStd(s, ResFrame(res)), StdFrame(std), ResFrame(res))
  {
  }

  /** With a result column the result table lacks, the field resolves to the
      standard row's own column on both sides when the two names agree. */
  lemma MissingResultColumnSelfCompared(s: string, std: Table, res: Table)
    requires s !in DerivedColumns && s !in res.columns
    ensures KeyStd(s, ResFrame(res)) == KeyRes(s, ResFrame(res)) == Bare(s)
  {
  }

  // ---------------------------------------------------------------------
  // Per-field accuracy (lines 229-249)
  // ---------------------------------------------------------------------

  /** How many of the matched pairs agree on the field: `correct_count`. */
  function CorrectCount(pairs: seq<Pair>, keyStd: MergedName, keyRes: MergedName, column: string, sc: set<string>, fmt: NumberFormat): nat
    requires forall i :: 0 <= i < |pairs| ==> pairs[i].res.Some?
  {
    if pairs == [] then 0
    else
      var last := pairs[|pairs| - 1];
      CorrectCount(pairs[..|pairs| - 1], keyStd, keyRes, column, sc, fmt)
        + (if Matches(MergedValue(keyStd, sc, last, fmt), MergedValue(keyRes, sc, last, fmt), column, fmt) then 1 else 0)
  }

  /** The loop at lines 243-246. */
  method CountCorrect(pairs: seq<Pair>, keyStd: MergedName, keyRes: MergedName, column: string, sc: set<string>, fmt: NumberFormat)
    returns (correct: nat)
    requires forall i :: 0 <= i < |pairs| ==> pairs[i].res.Some?
    ensures correct == CorrectCount(pairs, keyStd, keyRes, column, sc, fmt)
  {
    correct := 0;
    for i := 0 to |pairs|
      invariant correct == CorrectCount(pairs[..i], keyStd, keyRes, column, sc, fmt)
    {
      var row := pairs[i];
      var same := CompareValues(MergedValue(keyStd, sc, row, fmt), MergedValue(keyRes, sc, row, fmt), column, fmt);
      assert pairs[..i + 1][..i] == pairs[..i];
      if same {
        correct := correct + 1;
      }
    }
    assert pairs[..|pairs|] == pairs;
  }

  lemma {:induction false} CorrectCountBound(pairs: seq<Pair>, keyStd: MergedName, keyRes: MergedName, column: string, sc: set<string>, fmt: NumberFormat)
    requires forall i :: 0 <= i < |pairs| ==> pairs[i].res.Some?
    ensures CorrectCount(pairs, keyStd, keyRes, column, sc, fmt) <= |pairs|
    decreases |pairs|
  {
    if pairs != [] {
      CorrectCountBound(pairs[..|pairs| - 1], keyStd, keyRes, column, sc, fmt);
    }
  }

  /** When both sides of a field name the same merged column, every matched
      pair agrees. */
  lemma {:induction false} SelfComparisonAllCorrect(pairs: seq<Pair>, m: MergedName, column: string, sc: set<string>, fmt: NumberFormat)
    requires forall i :: 0 <= i < |pairs| ==> pairs[i].res.Some?
    requires forall i :: 0 <= i < |pairs| ==> MergedValue(m, sc, pairs[i], fmt).Pins? ==> column == ExcludePinsColumn
    ensures CorrectCount(pairs, m, m, column, sc, fmt) == |pairs|
    decreases |pairs|
  {
    if pairs != [] {
      SelfComparisonAllCorrect(pairs[..|pairs| - 1], m, column, sc, fmt);
      MatchesReflexive(MergedValue(m, sc, pairs[|pairs| - 1], fmt), column, fmt);
    }
  }

  /** One printed line of the accuracy table. */
  datatype FieldResult =
    | Unavailable(field: string)
    | Checked(field: string, correct: nat, errors: int)

  /** The line for one (standard, result) field. */
  function FieldLine(field: (string, string), matched: seq<Pair>, sc: set<string>, rc: set<string>, fmt: NumberFormat): FieldResult
    requires forall i :: 0 <= i < |matched| ==> matched[i].res.Some?
  {
    var (s, r) := field;
    var keyStd, keyRes := KeyStd(s, rc), KeyRes(r, rc);
    if !InMerged(keyRes, sc, rc) then Unavailable(s)
    else
      var correct := CorrectCount(matched, keyStd, keyRes, s, sc, fmt);
      Checked(s, correct, |matched| - correct)
  }

  /** The lines for the fields, in order. */
  function FieldLines(fields: seq<(string, string)>, matched: seq<Pair>, sc: set<string>, rc: set<string>, fmt: NumberFormat): (r: seq<FieldResult>)
    requires forall i :: 0 <= i < |matched| ==> matched[i].res.Some?
    ensures |r| == |fields|
  {
    if fields == [] then []
    else FieldLines(fields[..|fields| - 1], matched, sc, rc, fmt) + [FieldLine(fields[|fields| - 1], matched, sc, rc, fmt)]
  }

  // ---------------------------------------------------------------------
  // The whole of main (lines 135-249)
  // ---------------------------------------------------------------------

  /** How `main` ends: an early return, a KeyError on a missing column, or
      the accuracy table. */
  datatype Outcome =
    | EmptyResult
    | MissingColumn(column: string, inResult: bool)
    | NoValidResultRows
    | NoMatches(total: nat)
    | Report(total: nat, matched: nat, fields: seq<FieldResult>)

  /** What `main` does with the two tables. */
  function Reconciliation(std: Table, res: Table, pageOf: string -> Option<int>, fmt: NumberFormat): Outcome {
    if |res.rows| == 0 || res.columns == {} then EmptyResult
    else if PageColumn !in std.columns then MissingColumn(PageColumn, false)
    else if PageColumn !in res.columns then MissingColumn(PageColumn, true)
    else
      var stdPaged, resPaged := KeyedRows(std.rows, pageOf), KeyedRows(res.rows, pageOf);
      if |resPaged| == 0 then NoValidResultRows
      else if NameColumn !in std.columns then MissingColumn(NameColumn, false)
      else if NameColumn !in res.columns then MissingColumn(NameColumn, true)
      else if ExcludePinsColumn !in std.columns then MissingColumn(ExcludePinsColumn, false)
      else if PackageColumn !in std.columns then MissingColumn(PackageColumn, false)
      else
        var stdRows, resRows := Dedup(stdPaged), Dedup(resPaged);
        var matched := MatchedPairs(LeftJoin(stdRows, resRows));
        if |matched| == 0 then NoMatches(|stdRows|)
        else Report(|stdRows|, |matched|, FieldLines(CheckedFields, matched, StdFrame(std), ResFrame(res), fmt))
  }

  /** `main` without the reads and the prints, with its loop over the
      fields. */
  method CompareTables(std: Table, res: Table, pageOf: string -> Option<int>, fmt: NumberFormat)
    returns (outcome: Outcome)
    ensures outcome == Reconciliation(std, res, pageOf, fmt)
  {
    if |res.rows| == 0 || res.columns == {} {
      return EmptyResult;
    }
    if PageColumn !in std.columns {
      return MissingColumn(PageColumn, false);
    }
    if PageColumn !in res.columns {
      return MissingColumn(PageColumn, true);
    }
    var stdPaged := KeyedRows(std.rows, pageOf);
    var resPaged := KeyedRows(res.rows, pageOf);
    if |resPaged| == 0 {
      return NoValidResultRows;
    }
    if NameColumn !in std.columns {
      return MissingColumn(NameColumn, false);
    }
    if NameColumn !in res.columns {
      return MissingColumn(NameColumn, true);
    }
    var stdRows := Dedup(stdPaged);
    var resRows := Dedup(resPaged);
    if ExcludePinsColumn !in std.columns {
      return MissingColumn(ExcludePinsColumn, false);
    }
    if PackageColumn !in std.columns {
      return MissingColumn(PackageColumn, false);
    }
    var matched := MatchedPairs(LeftJoin(stdRows, resRows));
    if |matched| == 0 {
      return NoMatches(|stdRows|);
    }
    var lines := CheckFields(CheckedFields, matched, StdFrame(std), ResFrame(res), fmt);
    return Report(|stdRows|, |matched|, lines);
  }

  /** The loop over `cols_check` at lines 229-249. */
  method CheckFields(fields: seq<(string, string)>, matched: seq<Pair>, sc: set<string>, rc: set<string>, fmt: NumberFormat)
    returns (lines: seq<FieldResult>)
    requires forall i :: 0 <= i < |matched| ==> matched[i].res.Some?
    ensures lines == FieldLines(fields, matched, sc, rc, fmt)
  {
    lines := [];
    for f := 0 to |fields|
      invariant lines == FieldLines(fields[..f], matched, sc, rc, fmt)
    {
      var (s, r) := fields[f];
      var keyStd, keyRes := KeyStd(s, rc), KeyRes(r, rc);
      assert fields[..f + 1][..f] == fields[..f];
      ghost var line := FieldLine(fields[f], matched, sc, rc, fmt);
      assert FieldLines(fields[..f + 1], matched, sc, rc, fmt) == lines + [line];
      if !InMerged(keyRes, sc, rc) {
        lines := lines + [Unavailable(s)];
        continue;
      }
      var correct := CountCorrect(matched, keyStd, keyRes, s, sc, fmt);
      lines := lines + [Checked(s, correct, |matched| - correct)];
    }
    assert fields[..|fields|] == fields;
  }

  // ---------------------------------------------------------------------
  // Properties of the reconciliation
  // ---------------------------------------------------------------------

  /** Every line of the table reports an error count between 0 and the
      number of matched rows, adding up with the correct count to it. */
  lemma {:induction false} FieldLinesBounds(fields: seq<(string, string)>, matched: seq<Pair>, sc: set<string>, rc: set<string>, fmt: NumberFormat)
    requires forall i :: 0 <= i < |matched| ==> matched[i].res.Some?
    ensures forall k :: 0 <= k < |fields| ==>
      var line := FieldLines(fields, matched, sc, rc, fmt)[k];
      && line.field == fields[k].0
      && (line.Checked? ==> 0 <= line.errors <= |matched| && line.correct + line.errors == |matched|)
    decreases |fields|
  {
    if fields != [] {
      var init := fields[..|fields| - 1];
      FieldLinesBounds(init, matched, sc, rc, fmt);
      FieldLineBounds(fields[|fields| - 1], matched, sc, rc, fmt);
      var lines := FieldLines(fields, matched, sc, rc, fmt);
      assert lines == FieldLines(init, matched, sc, rc, fmt) + [FieldLine(fields[|fields| - 1], matched, sc, rc, fmt)];
      assert forall k :: 0 <= k < |init| ==> lines[k] == FieldLines(init, matched, sc, rc, fmt)[k];
    }
  }

  /** One field's line names the field, and a checked line's counts add up
      to the matched rows. */
  lemma FieldLineBounds(field: (string, string), matched: seq<Pair>, sc: set<string>, rc: set<string>, fmt: NumberFormat)
    requires forall i :: 0 <= i < |matched| ==> matched[i].res.Some?
    ensures var line := FieldLine(field, matched, sc, rc, fmt);
      && line.field == field.0
      && (line.Checked? ==> 0 <= line.errors <= |matched| && line.correct + line.errors == |matched|)
  {
    var (s, r) := field;
    CorrectCountBound(matched, KeyStd(s, rc), KeyRes(r, rc), s, sc, fmt);
  }

  /** A report counts at most as many matched rows as there are standard
      rows, at least one, and gives one line per checked field whose error
      count lies between 0 and the matched rows. */
  lemma ReportBounds(std: Table, res: Table, pageOf: string -> Option<int>, fmt: NumberFormat)
    ensures var o := Reconciliation(std, res, pageOf, fmt);
      o.Report? ==>
        && 0 < o.matched <= o.total
        && |o.fields| == |CheckedFields|
        && forall k :: 0 <= k < |o.fields| ==>
          && o.fields[k].field == CheckedFields[k].0
          && (o.fields[k].Checked? ==>
               0 <= o.fields[k].errors <= o.matched && o.fields[k].correct + o.fields[k].errors == o.matched)
  {
    var matched := ReportParts(std, res, pageOf, fmt);
    FieldLinesBounds(CheckedFields, matched, StdFrame(std), ResFrame(res), fmt);
  }

  /** A report is built from its matched pairs, which are at least one and
      at most one per standard row, each with a result row. */
  lemma ReportParts(std: Table, res: Table, pageOf: string -> Option<int>, fmt: NumberFormat) returns (matched: seq<Pair>)
    ensures forall i :: 0 <= i < |matched| ==> matched[i].res.Some?
    ensures var o := Reconciliation(std, res, pageOf, fmt);
      o.Report? ==>
        && 0 < |matched| <= o.total
        && o.matched == |matched|
        && o.fields == FieldLines(CheckedFields, matched, StdFrame(std), ResFrame(res), fmt)
  {
    var stdRows := Dedup(KeyedRows(std.rows, pageOf));
    var resRows := Dedup(KeyedRows(res.rows, pageOf));
    matched := MatchedPairs(LeftJoin(stdRows, resRows));
  }

  /** The joined standard rows have distinct keys of the form `name_page`,
      each the first standard row with its key, and every key of a row with
      a page is kept. */
  lemma StandardRowsKeyed(std: Table, pageOf: string -> Option<int>)
    ensures var rows := Dedup(KeyedRows(std.rows, pageOf));
      && UniqueKeys(rows)
      && KeySet(rows) == KeySet(KeyedRows(std.rows, pageOf))
      && forall k :: 0 <= k < |rows| ==>
        && rows[k].row in std.rows
        && PageOf(rows[k].row, pageOf) == Some(rows[k].page)
        && rows[k].key == JoinKey(Get(rows[k].row, NameColumn), rows[k].page)
        && FirstWithKey(KeyedRows(std.rows, pageOf), rows[k].key) == Some(rows[k])
  {
    var paged := KeyedRows(std.rows, pageOf);
    KeyedRowsForm(std.rows, pageOf);
    var rows := Dedup(paged);
    forall k | 0 <= k < |rows|
      ensures rows[k].row in std.rows && PageOf(rows[k].row, pageOf) == Some(rows[k].page)
      ensures rows[k].key == JoinKey(Get(rows[k].row, NameColumn), rows[k].page)
    {
      DedupKeepsRow(paged, rows, k);
    }
  }

  /** A row kept by de-duplication is one of the rows scanned. */
  lemma DedupKeepsRow(rows: seq<Keyed>, kept: seq<Keyed>, k: nat)
    requires DedupOf(rows, {}, kept) && k < |kept|
    ensures exists j :: 0 <= j < |rows| && rows[j] == kept[k]
  {
    assert FirstWithKey(rows, kept[k].key) == Some(kept[k]);
    assert kept[k] in rows;
  }

  /** The package type is compared only when the standard table also has a
      `package_type` column: with the result column present, the merged
      frame carries it unsuffixed, so `package_type_res` is missing. */
  lemma PackageTypeNeedsStandardColumn(std: Table, res: Table)
    ensures InMerged(KeyRes(PackageTypeColumn, ResFrame(res)), StdFrame(std), ResFrame(res))
      <==> PackageTypeColumn in std.columns
  {
    FieldAvailability(PackageColumn, PackageTypeColumn, std, res);
  }

  /** A list column or Exclude Pins that the standard table has and the result
      table lacks is reported with no errors: both sides resolve to the
      standard row's own cell. */
  lemma MissingResultColumnNoErrors(s: string, std: Table, res: Table, matched: seq<Pair>, fmt: NumberFormat)
    requires s in ListColumns || s == ExcludePinsColumn
    requires s in std.columns && s !in res.columns
    requires forall i :: 0 <= i < |matched| ==> matched[i].res.Some?
    ensures var line := FieldLine((s, s), matched, StdFrame(std), ResFrame(res), fmt);
      line == Checked(s, |matched|, 0)
  {
    var sc, rc := StdFrame(std), ResFrame(res);
    assert s !in DerivedColumns;
    MissingResultColumnSelfCompared(s, std, res);
    FieldAvailability(s, s, std, res);
    SelfComparisonAllCorrect(matched, Bare(s), s, sc, fmt);
  }
}
