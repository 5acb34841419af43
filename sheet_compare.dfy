/**
 * The comparison of a result workbook against a reference workbook in
 * data_compare.py: the two cell comparators and the mismatch tallies of
 * compare_bga_files.
 */
module SheetCompare {
  import opened Wrappers
  import opened Strings
  import opened Sorting

  /** An openpyxl cell value: None, a string, a list, or any other scalar
      (number, date, boolean) given by the text `str()` shows for it. */
  datatype CellValue = NoValue | Str(s: string) | List(items: seq<CellValue>) | Scalar(shown: string)

  /** `", ".join(parts)` */
  function JoinItems(parts: seq<string>): string {
    if parts == [] then ""
    else if |parts| == 1 then parts[0]
    else parts[0] + ", " + JoinItems(parts[1..])
  }

  /** `str(v)` when `quoted` is false, `repr(v)` when it is true. */
  function Render(v: CellValue, quoted: bool): string
    decreases v
  {
    match v
    case NoValue => "None"
    case Str(s) => if quoted then "'" + s + "'" else s
    case Scalar(t) => t
    case List(items) =>
      "[" + JoinItems(seq(|items|, i requires 0 <= i < |items| => Render(items[i], true))) + "]"
  }

  /** `str(v)` */
  function PyStr(v: CellValue): string {
    Render(v, false)
  }

  // ---------------------------------------------------------------------
  // compare_exclude_pins
  // ---------------------------------------------------------------------

  /** `value.startswith('[') and value.endswith(']')` */
  predicate IsBracketed(t: string) {
    StartsWith(t, "[") && EndsWith(t, "]")
  }

  /** `[item.strip().lower() for item in parts if item.strip()]` */
  function Items(parts: seq<string>): seq<string> {
    if parts == [] then []
    else (if Strip(parts[0]) != "" then [Lower(Strip(parts[0]))] else []) + Items(parts[1..])
  }

  /** The items between the brackets of a bracketed text. */
  function BracketItems(t: string): seq<string>
    requires IsBracketed(t)
  {
    assert t[0] == '[' && t[|t| - 1] == ']';
    Items(Split(Strip(t[1..|t| - 1]), ','))
  }

  /** `standardize` inside compare_exclude_pins. */
  function Standardize(v: CellValue): seq<string> {
    var t := Strip(PyStr(v));
    if IsBracketed(t) then Sorted(BracketItems(t)) else [Lower(t)]
  }

  /** compare_exclude_pins */
  function CompareExcludePins(v1: CellValue, v2: CellValue): (same: bool)
    ensures v1.NoValue? && v2.NoValue? ==> same
    ensures v1.NoValue? != v2.NoValue? ==> !same
  {
    if v1.NoValue? && v2.NoValue? then true
    else if v1.NoValue? || v2.NoValue? then false
    else Standardize(v1) == Standardize(v2)
  }

  /** Two bracketed values are equal pin lists exactly when they hold the
      same items with the same multiplicities: order is ignored, duplicates
      are not. */
  lemma ExcludePinsAsMultisets(v1: CellValue, v2: CellValue)
    requires !v1.NoValue? && !v2.NoValue?
    requires IsBracketed(Strip(PyStr(v1))) && IsBracketed(Strip(PyStr(v2)))
    ensures CompareExcludePins(v1, v2) <==>
      multiset(BracketItems(Strip(PyStr(v1)))) == multiset(BracketItems(Strip(PyStr(v2))))
  {
    SortedEqual(BracketItems(Strip(PyStr(v1))), BracketItems(Strip(PyStr(v2))));
  }

  /** The item a non-blank piece gives is non-empty, lower-case and carries
      no surrounding whitespace. */
  lemma ItemShape(p: string)
    requires Strip(p) != ""
    ensures var e := Lower(Strip(p));
      e != [] && Lower(e) == e && e[0] !in Whitespace && e[|e| - 1] !in Whitespace
  {
    var t := Strip(p);
    var i, j := TrimSlice(p, Whitespace);
    LowerEnds(t);
    LowerIdempotent(t);
  }

  lemma LowerIdempotent(t: string)
    ensures Lower(Lower(t)) == Lower(t)
  {
  }

  lemma LowerEnds(t: string)
    requires t != [] && t[0] !in Whitespace && t[|t| - 1] !in Whitespace
    ensures Lower(t)[0] !in Whitespace && Lower(t)[|t| - 1] !in Whitespace
  {
  }

  /** Every item is non-empty, lower-case and carries no surrounding
      whitespace. */
  lemma {:induction false} ItemsShape(parts: seq<string>)
    ensures forall e :: e in Items(parts) ==>
      e != [] && Lower(e) == e && e[0] !in Whitespace && e[|e| - 1] !in Whitespace
    decreases |parts|
  {
    if parts != [] {
      ItemsShape(parts[1..]);
      if Strip(parts[0]) != "" {
        ItemShape(parts[0]);
        var e := Lower(Strip(parts[0]));
        assert Items(parts) == [e] + Items(parts[1..]);
      } else {
        assert Items(parts) == Items(parts[1..]);
      }
    }
  }

  /** Pieces that agree up to letter case and surrounding whitespace give the
      same items, and blank pieces give none. */
  lemma {:induction false} ItemsIgnoreCaseAndSpace(ps: seq<string>, qs: seq<string>)
    requires |ps| == |qs|
    requires forall i :: 0 <= i < |ps| ==> Lower(Strip(ps[i])) == Lower(Strip(qs[i]))
    ensures Items(ps) == Items(qs)
    decreases |ps|
  {
    if ps != [] {
      assert |Strip(ps[0])| == |Lower(Strip(ps[0]))| == |Strip(qs[0])|;
      ItemsIgnoreCaseAndSpace(ps[1..], qs[1..]);
    }
  }

  lemma {:induction false} ItemsConcat(ps: seq<string>, qs: seq<string>)
    ensures Items(ps + qs) == Items(ps) + Items(qs)
    decreases |ps|
  {
    if ps != [] {
      var h := if Strip(ps[0]) != "" then [Lower(Strip(ps[0]))] else [];
      assert (ps + qs)[0] == ps[0] && (ps + qs)[1..] == ps[1..] + qs;
      assert Items(ps + qs) == h + Items(ps[1..] + qs);
      ItemsConcat(ps[1..], qs);
      assert Items(ps) == h + Items(ps[1..]);
    } else {
      assert ps + qs == qs;
    }
  }

  lemma ItemsOfBlank(blank: string)
    requires Strip(blank) == ""
    ensures Items([blank]) == []
  {
    assert [blank][1..] == [];
  }

  /** Inserting a blank piece anywhere leaves the items unchanged. */
  lemma ItemsSkipBlank(x: seq<string>, y: seq<string>, blank: string)
    requires Strip(blank) == ""
    ensures Items(x + [blank] + y) == Items(x + y)
  {
    calc {
      Items(x + [blank] + y);
    == { ItemsConcat(x + [blank], y); }
      Items(x + [blank]) + Items(y);
    == { ItemsConcat(x, [blank]); ItemsOfBlank(blank); }
      Items(x) + Items(y);
    == { ItemsConcat(x, y); }
      Items(x + y);
    }
  }

  /** compare_exclude_pins is symmetric, and reflexive on every value. */
  lemma CompareExcludePinsSymmetricReflexive(v1: CellValue, v2: CellValue)
    ensures CompareExcludePins(v1, v2) == CompareExcludePins(v2, v1)
    ensures CompareExcludePins(v1, v1)
  {
  }

  // ---------------------------------------------------------------------
  // compare_standard_columns
  // ---------------------------------------------------------------------

  /** The characters `str.strip("[]")` removes. */
  const Brackets: set<char> := {'[', ']'}

  /** The tolerance of compare_standard_columns, exactly 1/1000000. */
  const MiddleTolerance: real := 0.000001

  function Abs(x: real): real {
    if x < 0.0 then -x else x
  }

  /** `extract_middle` inside compare_standard_columns. */
  function ExtractMiddle(v: CellValue): Option<string> {
    match v
    case NoValue => None
    case Str(s) =>
      var parts := Split(Trim(s, Brackets), ',');
      if |parts| >= 3 then Some(Strip(parts[1])) else None
    case List(items) => if |items| >= 3 then Some(PyStr(items[1])) else None
    case Scalar(_) => None
  }

  /** A string has a middle slot exactly when it holds at least two commas
      once the brackets at its ends are gone; a list has one exactly when it
      has at least three items; no other value has one. */
  lemma ExtractMiddleCases(v: CellValue)
    ensures v.Str? ==> (ExtractMiddle(v).Some? <==> multiset(Trim(v.s, Brackets))[','] >= 2)
    ensures v.List? ==> (ExtractMiddle(v).Some? <==> |v.items| >= 3)
    ensures v.List? && |v.items| >= 3 ==> ExtractMiddle(v) == Some(PyStr(v.items[1]))
    ensures v.NoValue? || v.Scalar? ==> ExtractMiddle(v) == None
  {
    if v.Str? {
      SplitCount(Trim(v.s, Brackets), ',');
    }
  }

  /** Trimming stops at a kept character on either side. */
  lemma TrimStops(s: string, drop: set<char>, left: nat, right: nat) returns (i: nat, j: nat)
    requires left < right < |s| && s[left] !in drop && s[right] !in drop
    ensures i <= left && right < j <= |s| && Trim(s, drop) == s[i..j]
  {
    i, j := TrimSlice(s, drop);
  }

  /** A slice of `a,b,c` that takes in both commas. */
  lemma SliceAround(a: string, b: string, c: string, i: nat, j: nat)
    requires i <= |a| && |a| + |b| + 2 <= j <= |a| + |b| + |c| + 2
    ensures (a + "," + b + "," + c)[i..j] == a[i..] + [','] + (b + [','] + c[..j - (|a| + |b| + 2)])
  {
    var s := a + "," + b + "," + c;
    var r := a[i..] + [','] + (b + [','] + c[..j - (|a| + |b| + 2)]);
    assert |s[i..j]| == |r|;
    forall k | 0 <= k < |r| ensures s[i..j][k] == r[k] {
      if k < |a| - i {
      } else if k == |a| - i {
      } else if k < |a| - i + 1 + |b| {
        assert r[k] == b[k - (|a| - i + 1)];
      } else if k == |a| - i + 1 + |b| {
      } else {
        assert r[k] == c[k - (|a| - i + 2 + |b|)];
      }
    }
  }

  /** The middle of `a,b,c` is the trimmed `b`, whatever `a` and `c` are. */
  lemma ExtractMiddleOfParts(a: string, b: string, c: string)
    requires ',' !in a && ',' !in b
    ensures ExtractMiddle(Str(a + "," + b + "," + c)) == Some(Strip(b))
  {
    var s := a + "," + b + "," + c;
    assert s[|a|] == ',' && s[|a| + 1 + |b|] == ',';
    var i, j := TrimStops(s, Brackets, |a|, |a| + 1 + |b|);
    SliceAround(a, b, c, i, j);
    var a', c' := a[i..], c[..j - (|a| + |b| + 2)];
    assert ',' !in a' by {
      forall k | 0 <= k < |a'| ensures a'[k] != ',' {
        assert a'[k] == a[i + k];
      }
    }
    SplitTwoCommas(a', b, c');
  }

  /** Splitting `a,b,c` at commas, where `a` and `b` hold none, gives at
      least three parts, the second of them `b`. */
  lemma SplitTwoCommas(a: string, b: string, c: string)
    requires ',' !in a && ',' !in b
    ensures var parts := Split(a + [','] + (b + [','] + c), ',');
      |parts| >= 3 && parts[1] == b
  {
    SplitCons(a, ',', b + [','] + c);
    SplitCons(b, ',', c);
    assert Split(a + [','] + (b + [','] + c), ',') == [a, b] + Split(c, ',');
  }

  /** When both middles are present, they agree within 1/1000000 (bound
      excluded) if float() accepts both, and up to letter case otherwise. */
  predicate MiddlesAgree(m1: Option<string>, m2: Option<string>, parse: string -> Option<real>) {
    if m1.None? || m2.None? then m1 == m2
    else match (parse(m1.value), parse(m2.value))
      case (Some(x), Some(y)) => Abs(x - y) < MiddleTolerance
      case _ => Lower(m1.value) == Lower(m2.value)
  }

  /** compare_standard_columns; `parse` is Python's float(). */
  function CompareStandardColumns(v1: CellValue, v2: CellValue, parse: string -> Option<real>): bool {
    MiddlesAgree(ExtractMiddle(v1), ExtractMiddle(v2), parse)
  }

  /** Only the middle slot counts: changing the first or the third part of
      a comma-separated text never changes the comparison. */
  lemma CompareStandardColumnsMiddleOnly(a1: string, c1: string, a2: string, c2: string, b: string, other: CellValue, parse: string -> Option<real>)
    requires ',' !in a1 && ',' !in a2 && ',' !in b
    ensures CompareStandardColumns(Str(a1 + "," + b + "," + c1), other, parse)
         == CompareStandardColumns(Str(a2 + "," + b + "," + c2), other, parse)
    ensures CompareStandardColumns(other, Str(a1 + "," + b + "," + c1), parse)
         == CompareStandardColumns(other, Str(a2 + "," + b + "," + c2), parse)
  {
    ExtractMiddleOfParts(a1, b, c1);
    ExtractMiddleOfParts(a2, b, c2);
  }

  /** A missing middle matches only a missing middle; two numbers match
      when they differ by less than 1/1000000, so exactly 1/1000000 apart
      (in exact arithmetic) is a mismatch; when either middle is not a
      number, the texts are compared ignoring case. */
  lemma MiddlesAgreeCases(m1: Option<string>, m2: Option<string>, parse: string -> Option<real>)
    ensures m1.None? || m2.None? ==> (MiddlesAgree(m1, m2, parse) <==> m1.None? && m2.None?)
    ensures m1.Some? && m2.Some? && parse(m1.value).Some? && parse(m2.value).Some? ==>
      (MiddlesAgree(m1, m2, parse) <==> Abs(parse(m1.value).value - parse(m2.value).value) < MiddleTolerance)
    ensures m1.Some? && m2.Some? && parse(m1.value) == Some(1.0) && parse(m2.value) == Some(1.000001) ==>
      !MiddlesAgree(m1, m2, parse)
    ensures m1.Some? && m2.Some? && parse(m1.value).None? ==>
      (MiddlesAgree(m1, m2, parse) <==> Lower(m1.value) == Lower(m2.value))
    ensures m1.Some? && m2.Some? && parse(m2.value).None? ==>
      (MiddlesAgree(m1, m2, parse) <==> Lower(m1.value) == Lower(m2.value))
  {
  }

  // ---------------------------------------------------------------------
  // The statistics of compare_bga_files
  // ---------------------------------------------------------------------

  /** The columns compare_bga_files looks at, in its order. */
  const CompareColumns: seq<string> := [
    "Pitch x (el)", "Pitch y (e)", "Number of pins along X", "Number of pins along Y",
    "Package Height (A)", "Standoff (A1)", "Body X (D)", "Body Y (E)",
    "Edge Fillet Radius", "Ball Diameter Normal (b)", "Exclude Pins"
  ]

  predicate Distinct(cs: seq<string>) {
    forall i, j :: 0 <= i < j < |cs| ==> cs[i] != cs[j]
  }

  /** The compared columns that appear among the headers, in list order. */
  function KeepPresent(cs: seq<string>, headers: seq<CellValue>): (r: seq<string>)
    ensures forall c :: c in r <==> c in cs && Str(c) in headers
    ensures Distinct(cs) ==> Distinct(r)
  {
    if cs == [] then []
    else
      var rest := KeepPresent(cs[1..], headers);
      assert Distinct(cs) ==> cs[0] !in cs[1..];
      (if Str(cs[0]) in headers then [cs[0]] else []) + rest
  }

  /** The kept columns stay in list order. */
  lemma {:induction false} KeepPresentInOrder(cs: seq<string>, headers: seq<CellValue>)
    ensures IsSubsequence(KeepPresent(cs, headers), cs)
    decreases |cs|
  {
    if cs != [] {
      var rest := KeepPresent(cs[1..], headers);
      KeepPresentInOrder(cs[1..], headers);
      if Str(cs[0]) in headers {
        assert ([cs[0]] + rest)[1..] == rest;
      } else {
        assert KeepPresent(cs, headers) == [] + rest == rest;
      }
    }
  }

  function PresentColumns(headers: seq<CellValue>): seq<string> {
    KeepPresent(CompareColumns, headers)
  }

  /** The header position `col_indices` ends up with: the last one. */
  function LastIndex(headers: seq<CellValue>, h: CellValue): (k: int)
    ensures -1 <= k < |headers|
    ensures k >= 0 ==> headers[k] == h && forall q :: k < q < |headers| ==> headers[q] != h
    ensures k == -1 <==> h !in headers
  {
    if headers == [] then -1
    else if headers[|headers| - 1] == h then |headers| - 1
    else LastIndex(headers[..|headers| - 1], h)
  }

  type Row = seq<CellValue>

  /** `(row[0], row[1])`: the document name and page, as raw cell values. */
  datatype RowKey = RowKey(name: CellValue, page: CellValue)

  function KeyOf(row: Row): RowKey
    requires |row| >= 2
  {
    RowKey(row[0], row[1])
  }

  /** Every row holds the two key cells. */
  predicate Wide(rows: seq<Row>) {
    forall r :: r in rows ==> |r| >= 2
  }

  /** `ref_data` after the loop at lines 48-51. */
  function RefIndex(rows: seq<Row>): map<RowKey, Row>
    requires Wide(rows)
  {
    if rows == [] then map[]
    else RefIndex(rows[..|rows| - 1])[KeyOf(rows[|rows| - 1]) := rows[|rows| - 1]]
  }

  /** The last row carrying `k`, or -1. */
  function LastWithKey(rows: seq<Row>, k: RowKey): (i: int)
    requires Wide(rows)
    ensures -1 <= i < |rows|
    ensures i >= 0 ==> KeyOf(rows[i]) == k && forall q :: i < q < |rows| ==> KeyOf(rows[q]) != k
    ensures i == -1 ==> forall q :: 0 <= q < |rows| ==> KeyOf(rows[q]) != k
  {
    if rows == [] then -1
    else if KeyOf(rows[|rows| - 1]) == k then |rows| - 1
    else LastWithKey(rows[..|rows| - 1], k)
  }

  /** A key is indexed exactly when some row carries it, and it maps to the
      last such row. */
  lemma {:induction false} RefIndexLastWins(rows: seq<Row>, k: RowKey)
    requires Wide(rows)
    ensures k in RefIndex(rows) <==> LastWithKey(rows, k) >= 0
    ensures k in RefIndex(rows) ==> RefIndex(rows)[k] == rows[LastWithKey(rows, k)]
    decreases |rows|
  {
    if rows != [] {
      var init := rows[..|rows| - 1];
      assert Wide(init) by {
        forall r | r in init ensures r in rows {
        }
      }
      RefIndexLastWins(init, k);
    }
  }

  /** Every indexed row is one of the reference rows. */
  lemma {:induction false} RefIndexRows(rows: seq<Row>)
    requires Wide(rows)
    ensures forall k :: k in RefIndex(rows) ==> RefIndex(rows)[k] in rows
    decreases |rows|
  {
    if rows != [] {
      var init := rows[..|rows| - 1];
      assert Wide(init) by {
        forall r | r in init ensures r in rows {
        }
      }
      RefIndexRows(init);
      forall k | k in RefIndex(rows) ensures RefIndex(rows)[k] in rows {
        if k != KeyOf(rows[|rows| - 1]) {
          assert RefIndex(rows)[k] in init;
        }
      }
    }
  }

  /** The loop at lines 48-51. */
  method BuildRefIndex(rows: seq<Row>) returns (refData: map<RowKey, Row>)
    requires Wide(rows)
    ensures refData == RefIndex(rows)
  {
    refData := map[];
    for i := 0 to |rows|
      invariant Wide(rows[..i])
      invariant refData == RefIndex(rows[..i])
    {
      var row := rows[i];
      assert row in rows;
      assert rows[..i + 1][..i] == rows[..i];
      assert Wide(rows[..i + 1]) by {
        forall r | r in rows[..i + 1] ensures r in rows {
        }
      }
      refData := refData[KeyOf(row) := row];
    }
    assert rows[..|rows|] == rows;
  }

  /** `is_diff` at lines 76-79. */
  predicate IsDiff(column: string, resultVal: CellValue, refVal: CellValue, parse: string -> Option<real>) {
    if column == "Exclude Pins" then !CompareExcludePins(resultVal, refVal)
    else !CompareStandardColumns(resultVal, refVal, parse)
  }

  /** The test compare_bga_files applies to a column, a result cell and a
      reference cell; `parse` is Python's float(). */
  function Comparator(parse: string -> Option<real>): (string, CellValue, CellValue) -> bool {
    (column: string, resultVal: CellValue, refVal: CellValue) => IsDiff(column, resultVal, refVal, parse)
  }

  /** The two sheets of compare_bga_files, once the reference sheet is
      indexed, with the per-cell test. */
  datatype Sheets = Sheets(
    headers: seq<CellValue>,
    columns: seq<string>,
    results: seq<Row>,
    refs: map<RowKey, Row>,
    differs: (string, CellValue, CellValue) -> bool)

  /** One past the rightmost position of a compared column: how wide a row
      must be for lines 72-73 to read every compared cell. */
  function Span(headers: seq<CellValue>, columns: seq<string>): nat
  {
    if columns == [] then 0
    else
      var init := Span(headers, columns[..|columns| - 1]);
      var p := LastIndex(headers, Str(columns[|columns| - 1])) + 1;
      if init < p then p else init
  }

  /** A row as wide as `Span` holds every compared cell. */
  lemma {:induction false} SpanCovers(headers: seq<CellValue>, columns: seq<string>)
    ensures forall c :: c in columns ==> LastIndex(headers, Str(c)) < Span(headers, columns)
    decreases |columns|
  {
    if columns != [] {
      var init := columns[..|columns| - 1];
      SpanCovers(headers, init);
      assert forall c :: c in columns ==> c in init || c == columns[|columns| - 1];
    }
  }

  /** No narrower row would do: some compared column sits at the last
      position `Span` asks for. */
  lemma {:induction false} SpanTight(headers: seq<CellValue>, columns: seq<string>)
    ensures Span(headers, columns) > 0 ==>
      exists c :: c in columns && LastIndex(headers, Str(c)) == Span(headers, columns) - 1
    decreases |columns|
  {
    if columns != [] {
      var init := columns[..|columns| - 1];
      var last := columns[|columns| - 1];
      SpanTight(headers, init);
      if Span(headers, init) < LastIndex(headers, Str(last)) + 1 {
        assert last in columns;
      } else if Span(headers, init) > 0 {
        var c :| c in init && LastIndex(headers, Str(c)) == Span(headers, init) - 1;
        assert c in columns;
      }
    }
  }

  /** The compared columns are distinct headers, every result row holds the
      key cells, and a result row that finds a reference row reaches every
      compared column, as that reference row does. */
  predicate WellFormed(sh: Sheets) {
    && Distinct(sh.columns)
    && (forall c :: c in sh.columns ==> Str(c) in sh.headers)
    && Wide(sh.results)
    && forall r :: r in sh.results && KeyOf(r) in sh.refs ==>
        |r| >= Span(sh.headers, sh.columns) && |sh.refs[KeyOf(r)]| >= Span(sh.headers, sh.columns)
  }

  /** `col_idx - 1` of a compared column. */
  function Position(sh: Sheets, c: string): (p: nat)
    requires WellFormed(sh) && c in sh.columns
    ensures p < Span(sh.headers, sh.columns)
  {
    SpanCovers(sh.headers, sh.columns);
    LastIndex(sh.headers, Str(c))
  }

  /** Result row `i` has a reference row and differs from it in column `c`. */
  predicate Differs(sh: Sheets, i: nat, c: string)
    requires WellFormed(sh) && i < |sh.results| && c in sh.columns
  {
    var row := sh.results[i];
    assert row in sh.results;
    var key := KeyOf(row);
    var p := Position(sh, c);
    key in sh.refs && sh.differs(c, row[p], sh.refs[key][p])
  }

  /** How many of the columns `cs` row `i` differs in. */
  function CountIn(sh: Sheets, i: nat, cs: seq<string>): nat
    requires WellFormed(sh) && i < |sh.results| && forall c :: c in cs ==> c in sh.columns
  {
    if cs == [] then 0
    else CountIn(sh, i, cs[..|cs| - 1]) + (if Differs(sh, i, cs[|cs| - 1]) then 1 else 0)
  }

  /** `row_diff_count` of result row `i`. */
  function RowCount(sh: Sheets, i: nat): nat
    requires WellFormed(sh) && i < |sh.results|
  {
    CountIn(sh, i, sh.columns)
  }

  /** The count of the result row at sheet row number `r`. */
  function RowNumberCount(sh: Sheets, r: nat): nat
    requires WellFormed(sh) && 2 <= r < |sh.results| + 2
  {
    RowCount(sh, r - 2)
  }

  /** How many of the first `n` result rows differ in column `c`. */
  function ColumnCount(sh: Sheets, c: string, n: nat): nat
    requires WellFormed(sh) && n <= |sh.results| && c in sh.columns
  {
    if n == 0 then 0 else ColumnCount(sh, c, n - 1) + (if Differs(sh, n - 1, c) then 1 else 0)
  }

  /** The sum of the row counts of the first `n` result rows. */
  function Total(sh: Sheets, n: nat): nat
    requires WellFormed(sh) && n <= |sh.results|
  {
    if n == 0 then 0 else Total(sh, n - 1) + RowCount(sh, n - 1)
  }

  /** `row_highlights` after the first `n` rows: the rows with a non-zero
      count, under their sheet row numbers, which start at 2. */
  function RowTallies(sh: Sheets, n: nat): map<nat, nat>
    requires WellFormed(sh) && n <= |sh.results|
  {
    map r | 2 <= r < n + 2 && RowNumberCount(sh, r) > 0 :: RowNumberCount(sh, r)
  }

  /** `column_highlights` after the first `n` rows: the columns with a
      non-zero count. */
  function ColumnTallies(sh: Sheets, n: nat): map<string, nat>
    requires WellFormed(sh) && n <= |sh.results|
  {
    map c | c in sh.columns && ColumnCount(sh, c, n) > 0 :: ColumnCount(sh, c, n)
  }

  /** The `columns` entry of the returned statistics: the loop at lines
      96-101 reads every compared column, so each gets an entry, zeros
      included. */
  function ColumnReport(sh: Sheets): map<string, nat>
    requires WellFormed(sh)
  {
    map c | c in sh.columns :: ColumnCount(sh, c, |sh.results|)
  }

  lemma PresentColumnsDistinct(headers: seq<CellValue>)
    ensures Distinct(PresentColumns(headers))
  {
    CompareColumnsDistinct();
  }

  /** The eleven compared headers are pairwise different. */
  lemma CompareColumnsDistinct()
    ensures Distinct(CompareColumns)
  {
    var cs := CompareColumns;
    forall i, j | 0 <= i < j < |cs| ensures cs[i] != cs[j] {
      assert |cs[i]| != |cs[j]| || cs[i][|cs[i]| - 1] != cs[j][|cs[j]| - 1]
        || cs[i][|cs[i]| - 2] != cs[j][|cs[j]| - 2];
    }
  }

  /** compare_bga_files without the workbook reads, the styling and the
      save: the statistics it returns. */
  method CompareBgaFiles(headers: seq<CellValue>, resultRows: seq<Row>, refRows: seq<Row>, parse: string -> Option<real>)
    returns (total: nat, rows: map<nat, nat>, columns: map<string, nat>)
    requires Wide(resultRows) && Wide(refRows)
    requires forall r :: r in resultRows && KeyOf(r) in RefIndex(refRows) ==>
      |r| >= Span(headers, PresentColumns(headers)) && |RefIndex(refRows)[KeyOf(r)]| >= Span(headers, PresentColumns(headers))
    ensures var sh := Sheets(headers, PresentColumns(headers), resultRows, RefIndex(refRows), Comparator(parse));
      && WellFormed(sh)
      && total == Total(sh, |resultRows|)
      && rows == RowTallies(sh, |resultRows|)
      && columns == ColumnReport(sh)
  {
    var cols := PresentColumns(headers);
    PresentColumnsDistinct(headers);
    var refData := BuildRefIndex(refRows);
    var sh := Sheets(headers, cols, resultRows, refData, Comparator(parse));
    assert WellFormed(sh);
    total, rows, columns := TallyRows(sh);
    TalliesNonZero(sh);
    columns := FillZeros(cols, ColumnReport(sh), columns);
  }

  /** The outer loop at lines 60-89. */
  method TallyRows(sh: Sheets) returns (total: nat, rows: map<nat, nat>, columns: map<string, nat>)
    requires WellFormed(sh)
    ensures total == Total(sh, |sh.results|)
    ensures rows == RowTallies(sh, |sh.results|)
    ensures columns == ColumnTallies(sh, |sh.results|)
  {
    total := 0;
    rows := map[];
    columns := map[];
    for i := 0 to |sh.results|
      invariant total == Total(sh, i)
      invariant rows == RowTallies(sh, i)
      invariant columns == ColumnTallies(sh, i)
    {
      var row := sh.results[i];
      assert row in sh.results;
      var key := KeyOf(row);
      TalliesStep(sh, i);
      if key !in sh.refs {
        NoReferenceNoCount(sh, i);
        ColumnTalliesUnchanged(sh, i);
        continue;
      }
      var rowDiffCount;
      rowDiffCount, columns := ScanRow(sh, i, columns);
      if rowDiffCount > 0 {
        total := total + rowDiffCount;
        rows := rows[i + 2 := rowDiffCount];
      }
    }
  }

  /** One step of the inner loop reads in range and tests `Differs`. */
  lemma DiffersAt(sh: Sheets, i: nat, c: string)
    requires WellFormed(sh) && i < |sh.results| && c in sh.columns
    requires KeyOf(sh.results[i]) in sh.refs
    ensures var p := LastIndex(sh.headers, Str(c));
      var refRow := sh.refs[KeyOf(sh.results[i])];
      && 0 <= p < |sh.results[i]| && p < |refRow|
      && (Differs(sh, i, c) <==> sh.differs(c, sh.results[i][p], refRow[p]))
  {
    assert sh.results[i] in sh.results;
    SpanCovers(sh.headers, sh.columns);
  }

  /** One more compared column adds its mismatch to the row's count. */
  lemma CountInStep(sh: Sheets, i: nat, j: nat)
    requires WellFormed(sh) && i < |sh.results| && j < |sh.columns|
    ensures CountIn(sh, i, sh.columns[..j + 1])
      == CountIn(sh, i, sh.columns[..j]) + if Differs(sh, i, sh.columns[j]) then 1 else 0
  {
    assert sh.columns[..j + 1][..j] == sh.columns[..j];
  }

  /** The inner loop at lines 71-84 for result row `i`, which has a
      reference row. */
  method ScanRow(sh: Sheets, i: nat, columns0: map<string, nat>)
    returns (rowDiffCount: nat, columns: map<string, nat>)
    requires WellFormed(sh) && i < |sh.results|
    requires KeyOf(sh.results[i]) in sh.refs
    requires columns0 == ColumnTallies(sh, i)
    ensures rowDiffCount == RowCount(sh, i)
    ensures columns == ColumnTallies(sh, i + 1)
  {
    var row := sh.results[i];
    var refRow := sh.refs[KeyOf(row)];
    var cols := sh.columns;
    PartialStart(sh, i);
    columns := columns0;
    rowDiffCount := 0;
    for j := 0 to |cols|
      invariant rowDiffCount == CountIn(sh, i, cols[..j])
      invariant columns == PartialTallies(sh, i, j)
    {
      var colName := cols[j];
      var colIdx := LastIndex(sh.headers, Str(colName));
      DiffersAt(sh, i, colName);
      var isDiff := sh.differs(colName, row[colIdx], refRow[colIdx]);
      CountInStep(sh, i, j);
      PartialTalliesStep(sh, i, j);
      if isDiff {
        rowDiffCount := rowDiffCount + 1;
        columns := columns[colName := if colName in columns then columns[colName] + 1 else 1];
      }
    }
    assert cols[..|cols|] == cols;
    PartialDone(sh, i);
  }

  /** The entries of `m` that are not zero. */
  function NonZero(m: map<string, nat>): map<string, nat> {
    map c | c in m && m[c] > 0 :: m[c]
  }

  /** The tallies after the outer loop are the non-zero entries of the
      report. */
  lemma TalliesNonZero(sh: Sheets)
    requires WellFormed(sh)
    ensures ColumnTallies(sh, |sh.results|) == NonZero(ColumnReport(sh))
  {
  }

  /** The loop at lines 96-101: reading a defaultdict entry creates it, so
      the non-zero tallies of `counts` grow into all of `counts`. */
  method FillZeros(cols: seq<string>, ghost counts: map<string, nat>, columns0: map<string, nat>)
    returns (columns: map<string, nat>)
    requires forall c :: c in counts <==> c in cols
    requires columns0 == NonZero(counts)
    ensures columns == counts
  {
    columns := columns0;
    for j := 0 to |cols|
      invariant forall c :: c in columns ==> c in counts && columns[c] == counts[c]
      invariant forall c :: c in counts ==> (c in columns <==> c in cols[..j] || counts[c] > 0)
    {
      if cols[j] !in columns {
        columns := columns[cols[j] := 0];
      }
    }
    assert cols[..|cols|] == cols;
  }

  /** A column's count while row `i` is being scanned, after its first `j`
      compared columns. */
  function Partial(sh: Sheets, i: nat, j: nat, c: string): nat
    requires WellFormed(sh) && i < |sh.results| && j <= |sh.columns| && c in sh.columns
  {
    ColumnCount(sh, c, i) + (if c in sh.columns[..j] && Differs(sh, i, c) then 1 else 0)
  }

  /** `column_highlights` at that point. */
  function PartialTallies(sh: Sheets, i: nat, j: nat): map<string, nat>
    requires WellFormed(sh) && i < |sh.results| && j <= |sh.columns|
  {
    map c | c in sh.columns && Partial(sh, i, j, c) > 0 :: Partial(sh, i, j, c)
  }

  lemma PartialStart(sh: Sheets, i: nat)
    requires WellFormed(sh) && i < |sh.results|
    ensures PartialTallies(sh, i, 0) == ColumnTallies(sh, i)
  {
    assert sh.columns[..0] == [];
  }

  lemma OneColumnStep(sh: Sheets, i: nat, j: nat, c: string)
    requires WellFormed(sh) && i < |sh.results| && j < |sh.columns| && c in sh.columns
    ensures Partial(sh, i, j + 1, c) ==
      Partial(sh, i, j, c) + (if c == sh.columns[j] && Differs(sh, i, c) then 1 else 0)
  {
    var cols := sh.columns;
    assert cols[..j + 1] == cols[..j] + [cols[j]];
    if c == cols[j] {
      assert c !in cols[..j] by {
        forall k | 0 <= k < j ensures cols[..j][k] != cols[j] {
          assert cols[..j][k] == cols[k];
        }
      }
    }
  }

  lemma PartialTalliesStep(sh: Sheets, i: nat, j: nat)
    requires WellFormed(sh) && i < |sh.results| && j < |sh.columns|
    ensures var m, c := PartialTallies(sh, i, j), sh.columns[j];
      PartialTallies(sh, i, j + 1) == if Differs(sh, i, c) then m[c := if c in m then m[c] + 1 else 1] else m
  {
    if Differs(sh, i, sh.columns[j]) {
      PartialTalliesCount(sh, i, j);
    } else {
      PartialTalliesSkip(sh, i, j);
    }
  }

  /** A differing column gets one more. */
  lemma PartialTalliesCount(sh: Sheets, i: nat, j: nat)
    requires WellFormed(sh) && i < |sh.results| && j < |sh.columns|
    requires Differs(sh, i, sh.columns[j])
    ensures var m, c := PartialTallies(sh, i, j), sh.columns[j];
      PartialTallies(sh, i, j + 1) == m[c := if c in m then m[c] + 1 else 1]
  {
    var m, c := PartialTallies(sh, i, j), sh.columns[j];
    var m' := PartialTallies(sh, i, j + 1);
    var v := if c in m then m[c] + 1 else 1;
    assert c in m' && m'[c] == v by {
      OneColumnStep(sh, i, j, c);
    }
    forall d | d != c ensures (d in m' <==> d in m) && (d in m ==> m'[d] == m[d]) {
      if d in sh.columns {
        OneColumnStep(sh, i, j, d);
      }
    }
    MapUpdateAt(m, m', c, v);
  }

  /** A map that agrees with `m` off `c` and holds `v` at `c` is `m[c := v]`. */
  lemma MapUpdateAt(m: map<string, nat>, m': map<string, nat>, c: string, v: nat)
    requires c in m' && m'[c] == v
    requires forall d :: d != c ==> (d in m' <==> d in m) && (d in m ==> m'[d] == m[d])
    ensures m' == m[c := v]
  {
    assert m'.Keys == m[c := v].Keys;
  }

  /** A column that does not differ leaves the tallies as they are. */
  lemma PartialTalliesSkip(sh: Sheets, i: nat, j: nat)
    requires WellFormed(sh) && i < |sh.results| && j < |sh.columns|
    requires !Differs(sh, i, sh.columns[j])
    ensures PartialTallies(sh, i, j + 1) == PartialTallies(sh, i, j)
  {
    var m, m' := PartialTallies(sh, i, j), PartialTallies(sh, i, j + 1);
    forall d | d in m' ensures d in m && m'[d] == m[d] {
      OneColumnStep(sh, i, j, d);
    }
    forall d | d in m ensures d in m' {
      OneColumnStep(sh, i, j, d);
    }
    assert m'.Keys == m.Keys;
  }

  lemma PartialDone(sh: Sheets, i: nat)
    requires WellFormed(sh) && i < |sh.results|
    ensures PartialTallies(sh, i, |sh.columns|) == ColumnTallies(sh, i + 1)
  {
    assert sh.columns[..|sh.columns|] == sh.columns;
  }

  /** A result row without a reference row differs in no column. */
  lemma NoReferenceNoCount(sh: Sheets, i: nat)
    requires WellFormed(sh) && i < |sh.results|
    requires |sh.results[i]| >= 2 && KeyOf(sh.results[i]) !in sh.refs
    ensures forall c :: c in sh.columns ==> !Differs(sh, i, c)
    ensures RowCount(sh, i) == 0
  {
    NoDifferenceCount(sh, i, sh.columns);
  }

  lemma ColumnTalliesUnchanged(sh: Sheets, i: nat)
    requires WellFormed(sh) && i < |sh.results|
    requires forall c :: c in sh.columns ==> !Differs(sh, i, c)
    ensures ColumnTallies(sh, i + 1) == ColumnTallies(sh, i)
  {
  }

  lemma {:induction false} NoDifferenceCount(sh: Sheets, i: nat, cs: seq<string>)
    requires WellFormed(sh) && i < |sh.results| && forall c :: c in cs ==> c in sh.columns
    requires forall c :: c in cs ==> !Differs(sh, i, c)
    ensures CountIn(sh, i, cs) == 0
    decreases |cs|
  {
    if cs != [] {
      var init := cs[..|cs| - 1];
      assert forall c :: c in init ==> c in cs;
      assert cs[|cs| - 1] in cs;
      NoDifferenceCount(sh, i, init);
    }
  }

  /** How the row tallies grow when row `i` is added. */
  lemma TalliesStep(sh: Sheets, i: nat)
    requires WellFormed(sh) && i < |sh.results|
    ensures Total(sh, i + 1) == Total(sh, i) + RowCount(sh, i)
    ensures RowTallies(sh, i + 1) ==
      if RowCount(sh, i) > 0 then RowTallies(sh, i)[i + 2 := RowCount(sh, i)] else RowTallies(sh, i)
  {
    var m, m' := RowTallies(sh, i), RowTallies(sh, i + 1);
    var target := if RowCount(sh, i) > 0 then m[i + 2 := RowCount(sh, i)] else m;
    assert RowNumberCount(sh, i + 2) == RowCount(sh, i);
    forall r | r in m' ensures r in target && m'[r] == target[r] {
    }
    forall r | r in target ensures r in m' {
    }
  }
  // Properties of the statistics

  lemma {:induction false} CountInBound(sh: Sheets, i: nat, cs: seq<string>)
    requires WellFormed(sh) && i < |sh.results| && forall c :: c in cs ==> c in sh.columns
    ensures CountIn(sh, i, cs) <= |cs|
    decreases |cs|
  {
    if cs != [] {
      var init := cs[..|cs| - 1];
      assert forall c :: c in init ==> c in cs;
      CountInBound(sh, i, init);
    }
  }

  /** A row's count never exceeds the number of compared columns. */
  lemma RowCountBound(sh: Sheets, i: nat)
    requires WellFormed(sh) && i < |sh.results|
    ensures RowCount(sh, i) <= |sh.columns|
  {
    CountInBound(sh, i, sh.columns);
  }

  /** The sum of the column counts of the columns `cs` over the first `n`
      rows. */
  function ColumnSum(sh: Sheets, cs: seq<string>, n: nat): nat
    requires WellFormed(sh) && n <= |sh.results| && forall c :: c in cs ==> c in sh.columns
  {
    if cs == [] then 0
    else ColumnSum(sh, cs[..|cs| - 1], n) + ColumnCount(sh, cs[|cs| - 1], n)
  }

  lemma {:induction false} ColumnSumStep(sh: Sheets, cs: seq<string>, n: nat)
    requires WellFormed(sh) && n < |sh.results| && forall c :: c in cs ==> c in sh.columns
    ensures ColumnSum(sh, cs, n + 1) == ColumnSum(sh, cs, n) + CountIn(sh, n, cs)
    decreases |cs|
  {
    if cs != [] {
      var init := cs[..|cs| - 1];
      assert forall c :: c in init ==> c in cs;
      assert cs[|cs| - 1] in cs;
      ColumnSumStep(sh, init, n);
    }
  }

  /** `total` is both the sum of the row counts and the sum of the column
      counts. */
  lemma {:induction false} TotalIsColumnSum(sh: Sheets, n: nat)
    requires WellFormed(sh) && n <= |sh.results|
    ensures Total(sh, n) == ColumnSum(sh, sh.columns, n)
    decreases n
  {
    if n == 0 {
      ColumnSumZero(sh, sh.columns);
    } else {
      TotalIsColumnSum(sh, n - 1);
      ColumnSumStep(sh, sh.columns, n - 1);
    }
  }

  lemma {:induction false} ColumnSumZero(sh: Sheets, cs: seq<string>)
    requires WellFormed(sh) && forall c :: c in cs ==> c in sh.columns
    ensures ColumnSum(sh, cs, 0) == 0
    decreases |cs|
  {
    if cs != [] {
      var init := cs[..|cs| - 1];
      assert forall c :: c in init ==> c in cs;
      ColumnSumZero(sh, init);
    }
  }

  /** Only rows with a non-zero count are recorded, each under its sheet row
      number with its count. */
  lemma RowTalliesRecorded(sh: Sheets, n: nat, r: nat)
    requires WellFormed(sh) && n <= |sh.results|
    ensures r in RowTallies(sh, n) <==> 2 <= r < n + 2 && RowCount(sh, r - 2) > 0
    ensures r in RowTallies(sh, n) ==> RowTallies(sh, n)[r] == RowCount(sh, r - 2)
  {
  }

  /** The compared columns are the listed ones that appear among the
      headers, each once. */
  lemma ColumnsPresent(headers: seq<CellValue>)
    ensures forall c :: c in PresentColumns(headers) <==> c in CompareColumns && Str(c) in headers
    ensures Distinct(PresentColumns(headers))
  {
    PresentColumnsDistinct(headers);
  }
}
