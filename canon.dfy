/**
 * The cell canonicalisers and the value comparator of
 * data_normalized_and_compare.py: normalize_filename, parse_list_string,
 * parse_exclude_pins, normalize_text and compare_values.
 */
module Canon {
  import opened Wrappers
  import opened Strings

  /** A pandas cell: missing (NaN, what `pd.isna` detects) or the text that
      `str()` gives for its value. */
  datatype Cell = Absent | Text(s: string)

  /** Python's float conversions, left abstract: `parse` is `float()` on a
      stripped token (None where it raises ValueError), `show` is `str()` of
      a float. */
  datatype NumberFormat = NumberFormat(parse: string -> Option<real>, show: real -> string)

  /** The column compared by set equality. */
  const ExcludePinsColumn := "Exclude Pins"

  /** The slot tolerance of compare_values, exactly 1/1000. */
  const ListTolerance: real := 0.001

  function Abs(x: real): real {
    if x < 0.0 then -x else x
  }

  // ---------------------------------------------------------------------
  // normalize_filename
  // ---------------------------------------------------------------------

  /** `re.sub(r'[^a-z0-9]', '', s)` */
  function KeepLowerAlnum(s: string): (r: string)
    ensures forall c :: c in r <==> c in s && IsLowerAlnum(c)
  {
    if s == [] then []
    else (if IsLowerAlnum(s[0]) then [s[0]] else []) + KeepLowerAlnum(s[1..])
  }

  /** The document-name part of a join key. */
  function NormalizeFilename(name: Cell): string {
    match name
    case Absent => ""
    case Text(s) => KeepLowerAlnum(Replace(Lower(s), ".pdf", ""))
  }

  /** A missing name gives "", any other gives only characters of [a-z0-9]. */
  lemma NormalizeFilenameCharset(name: Cell)
    ensures name.Absent? ==> NormalizeFilename(name) == ""
    ensures forall c :: c in NormalizeFilename(name) ==> IsLowerAlnum(c)
  {
  }

  lemma {:induction false} KeepLowerAlnumAll(s: string)
    requires forall c :: c in s ==> IsLowerAlnum(c)
    ensures KeepLowerAlnum(s) == s
    decreases |s|
  {
    if s != [] {
      assert s[0] in s;
      assert forall c :: c in s[1..] ==> c in s;
      KeepLowerAlnumAll(s[1..]);
      assert [s[0]] + s[1..] == s;
    }
  }

  /** Normalising an already normalised name changes nothing. */
  lemma NormalizeFilenameIdempotent(name: Cell)
    ensures NormalizeFilename(Text(NormalizeFilename(name))) == NormalizeFilename(name)
  {
    var y := NormalizeFilename(name);
    assert forall c :: c in y ==> IsLowerAlnum(c);
    assert Lower(y) == y by {
      forall i | 0 <= i < |y| ensures Lower(y)[i] == y[i] {
        assert y[i] in y;
      }
    }
    ReplaceAbsent(y, ".pdf", "");
    KeepLowerAlnumAll(y);
  }

  /** Names that agree up to ASCII letter case give the same key stem. */
  lemma NormalizeFilenameIgnoresCase(a: string, b: string)
    requires |a| == |b| && forall i :: 0 <= i < |a| ==> LowerChar(a[i]) == LowerChar(b[i])
    ensures NormalizeFilename(Text(a)) == NormalizeFilename(Text(b))
  {
    assert Lower(a) == Lower(b);
  }

  // ---------------------------------------------------------------------
  // parse_list_string
  // ---------------------------------------------------------------------

  /** One slot of a parsed list: None, a number, or the trimmed token. */
  datatype Slot = NoneSlot | Num(x: real) | Str(s: string)

  /** The characters the four replace calls at the top of parse_list_string
      and parse_exclude_pins delete. */
  const ListJunk: set<char> := {'[', ']', '\'', '"'}

  /** `clean_str`; deleting the four characters one `replace` at a time is the
      same as deleting them together (CleanIsFourReplacements). */
  function Clean(s: string): string {
    RemoveChars(s, ListJunk)
  }

  lemma CleanIsFourReplacements(s: string)
    ensures Clean(s) == Replace(Replace(Replace(Replace(s, "[", ""), "]", ""), "'", ""), "\"", "")
  {
    ReplaceCharByEmpty(s, '[');
    var s1 := RemoveChars(s, {'['});
    ReplaceCharByEmpty(s1, ']');
    RemoveCharsTwice(s, {'['}, {']'});
    var s2 := RemoveChars(s, {'[', ']'});
    assert {'['} + {']'} == {'[', ']'};
    ReplaceCharByEmpty(s2, '\'');
    RemoveCharsTwice(s, {'[', ']'}, {'\''});
    assert {'[', ']'} + {'\''} == {'[', ']', '\''};
    var s3 := RemoveChars(s, {'[', ']', '\''});
    ReplaceCharByEmpty(s3, '"');
    RemoveCharsTwice(s, {'[', ']', '\''}, {'"'});
    assert {'[', ']', '\''} + {'"'} == ListJunk;
  }

  /** The comma-separated tokens of a cleaned cell. */
  function Tokens(s: string): seq<string> {
    Split(Clean(s), ',')
  }

  /** A trimmed token that stands for a missing slot. */
  predicate IsNoneToken(t: string) {
    t == "" || Lower(t) == "none" || Lower(t) == "nan"
  }

  /** The loop body of parse_list_string for one token. */
  function ParseSlot(p: string, fmt: NumberFormat): Slot {
    var t := Strip(p);
    if IsNoneToken(t) then NoneSlot
    else match fmt.parse(t)
      case Some(x) => Num(x)
      case None => Str(t)
  }

  /** True when parse_list_string returns `[None, None, None]` at once. */
  predicate IsBlank(v: Cell) {
    v.Absent? || Strip(v.s) == ""
  }

  /** What parse_list_string returns. */
  function ListSlots(v: Cell, fmt: NumberFormat): seq<Slot> {
    if IsBlank(v) then [NoneSlot, NoneSlot, NoneSlot]
    else
      var parts := Tokens(v.s);
      var slots := seq(|parts|, i requires 0 <= i < |parts| => ParseSlot(parts[i], fmt));
      if |slots| == 0 then [NoneSlot, NoneSlot, NoneSlot] else slots
  }

  lemma SlotsSnoc(slots: seq<Slot>, slot: Slot, parts: seq<string>, fmt: NumberFormat)
    requires |parts| == |slots| + 1
    requires forall k :: 0 <= k < |slots| ==> slots[k] == ParseSlot(parts[k], fmt)
    requires slot == ParseSlot(parts[|slots|], fmt)
    ensures forall k :: 0 <= k < |slots| + 1 ==> (slots + [slot])[k] == ParseSlot(parts[k], fmt)
  {
  }

  /** parse_list_string, with its loop. */
  method ParseListString(v: Cell, fmt: NumberFormat) returns (result: seq<Slot>)
    ensures result == ListSlots(v, fmt)
  {
    if v.Absent? || Strip(v.s) == "" {
      return [NoneSlot, NoneSlot, NoneSlot];
    }
    var cleanStr := RemoveChars(v.s, ListJunk);
    var parts := Split(cleanStr, ',');
    result := [];
    for i := 0 to |parts|
      invariant |result| == i
      invariant forall k :: 0 <= k < i ==> result[k] == ParseSlot(parts[k], fmt)
    {
      var pStr := Strip(parts[i]);
      var slot;
      if pStr == "" || Lower(pStr) == "none" || Lower(pStr) == "nan" {
        slot := NoneSlot;
      } else {
        var parsed := fmt.parse(pStr);
        match parsed {
          case Some(x) => slot := Num(x);
          case None => slot := Str(pStr);
        }
      }
      assert slot == ParseSlot(parts[i], fmt);
      SlotsSnoc(result, slot, parts[..i + 1], fmt);
      result := result + [slot];
    }
    if |result| == 0 {
      result := [NoneSlot, NoneSlot, NoneSlot];
    }
  }

  /** Blank input gives three None slots; otherwise there is one slot per
      comma-separated token of the cleaned string, with no padding. */
  lemma ListSlotsLength(v: Cell, fmt: NumberFormat)
    ensures IsBlank(v) ==> ListSlots(v, fmt) == [NoneSlot, NoneSlot, NoneSlot]
    ensures !IsBlank(v) ==> |ListSlots(v, fmt)| == multiset(Clean(v.s))[','] + 1
    ensures ListSlots(v, fmt) != []
  {
    if !IsBlank(v) {
      SplitCount(Clean(v.s), ',');
    }
  }

  /** Slot `i` of a non-blank cell is what the loop body makes of token `i`. */
  lemma ListSlotAt(v: Cell, fmt: NumberFormat, i: nat)
    requires !IsBlank(v) && i < |Tokens(v.s)|
    ensures i < |ListSlots(v, fmt)| && ListSlots(v, fmt)[i] == ParseSlot(Tokens(v.s)[i], fmt)
  {
  }

  /** A token gives None exactly when it trims to empty, `none` or `nan`, a
      number exactly when float() accepts the trimmed token, and otherwise
      the trimmed token itself, which then starts and ends with a non-space
      and holds only characters of the token. */
  lemma ParseSlotMeaning(p: string, fmt: NumberFormat)
    ensures var t := Strip(p);
      && (ParseSlot(p, fmt) == NoneSlot <==> IsNoneToken(t))
      && (ParseSlot(p, fmt).Num? <==> !IsNoneToken(t) && fmt.parse(t).Some?)
      && (ParseSlot(p, fmt).Num? ==> fmt.parse(t) == Some(ParseSlot(p, fmt).x))
      && (ParseSlot(p, fmt).Str? ==> ParseSlot(p, fmt).s == t)
    ensures ParseSlot(p, fmt).Str? ==>
      var t := ParseSlot(p, fmt).s;
      && t != [] && t[0] !in Whitespace && t[|t| - 1] !in Whitespace
      && forall c :: c in t ==> c in p
  {
    var t, r := Strip(p), ParseSlot(p, fmt);
    if IsNoneToken(t) {
      assert r == NoneSlot;
    } else if fmt.parse(t).Some? {
      assert r == Num(fmt.parse(t).value);
    } else {
      assert r == Str(t);
      var a, b := TrimSlice(p, Whitespace);
      TrimChars(p, Whitespace);
    }
  }

  /** The text of a string slot of a parsed list holds no bracket, quote or
      comma. */
  lemma ListStringSlotChars(v: Cell, fmt: NumberFormat, i: nat)
    requires !IsBlank(v) && i < |Tokens(v.s)|
    requires ParseSlot(Tokens(v.s)[i], fmt).Str?
    ensures forall c :: c in ParseSlot(Tokens(v.s)[i], fmt).s ==> c !in ListJunk && c != ','
  {
    ParseSlotMeaning(Tokens(v.s)[i], fmt);
    TokenChars(v.s, i);
  }

  /** Tokens hold no cleaned character and no comma. */
  lemma TokenChars(s: string, i: nat)
    requires i < |Tokens(s)|
    ensures forall c :: c in Tokens(s)[i] ==> c !in ListJunk && c != ','
  {
    var parts := Split(Clean(s), ',');
    JoinSplit(Clean(s), ',');
    SplitPieces(Clean(s), ',');
    JoinChars(parts, ',', i);
  }

  // ---------------------------------------------------------------------
  // parse_exclude_pins
  // ---------------------------------------------------------------------

  /** `p.strip().upper()` */
  function PinToken(p: string): string {
    Upper(Strip(p))
  }

  /** The filter `p_str and p_str not in ['NONE', 'NAN', '']`. */
  predicate IsPin(t: string) {
    t != "" && t != "NONE" && t != "NAN"
  }

  /** The guard `"None" in str(val) and "[]" in str(val)`. */
  predicate NoExclusionsMarker(s: string) {
    Contains(s, "None") && Contains(s, "[]")
  }

  /** The pins kept from a list of raw tokens. */
  function PinsOf(parts: seq<string>): set<string> {
    set p | p in parts && IsPin(PinToken(p)) :: PinToken(p)
  }

  /** What parse_exclude_pins returns. */
  function PinSet(v: Cell): set<string> {
    if IsBlank(v) || NoExclusionsMarker(v.s) then {}
    else PinsOf(Tokens(v.s))
  }

  lemma PinsOfSnoc(ps: seq<string>, i: nat)
    requires i < |ps|
    ensures PinsOf(ps[..i + 1]) == PinsOf(ps[..i]) + (if IsPin(PinToken(ps[i])) then {PinToken(ps[i])} else {})
  {
    assert ps[..i + 1] == ps[..i] + [ps[i]];
    assert forall q :: q in ps[..i + 1] <==> q in ps[..i] || q == ps[i];
  }

  /** parse_exclude_pins, with its loop. */
  method ParseExcludePins(v: Cell) returns (pins: set<string>)
    ensures pins == PinSet(v)
  {
    if v.Absent? || Strip(v.s) == "" {
      return {};
    }
    if Contains(v.s, "None") && Contains(v.s, "[]") {
      return {};
    }
    var cleanStr := RemoveChars(v.s, ListJunk);
    var parts := Split(cleanStr, ',');
    pins := {};
    for i := 0 to |parts|
      invariant pins == PinsOf(parts[..i])
    {
      var pStr := Upper(Strip(parts[i]));
      PinsOfSnoc(parts, i);
      if pStr != "" && pStr != "NONE" && pStr != "NAN" {
        pins := pins + {pStr};
      }
    }
    assert parts[..|parts|] == parts;
  }

  /** The pin of a token free of brackets, quotes and commas is upper-case
      and free of them too. */
  lemma PinTokenChars(p: string)
    requires forall c :: c in p ==> c !in ListJunk && c != ','
    ensures Upper(PinToken(p)) == PinToken(p)
    ensures forall c :: c in PinToken(p) ==> c !in ListJunk && c != ','
  {
    var t := Strip(p);
    TrimChars(p, Whitespace);
    var e := Upper(t);
    forall c | c in e ensures c !in ListJunk && c != ',' {
      var i :| 0 <= i < |e| && e[i] == c;
      assert t[i] in t;
    }
  }

  /** Every pin is non-empty, upper-case, neither NONE nor NAN, and holds no
      bracket, quote or comma. */
  lemma PinSetElements(v: Cell)
    ensures forall e :: e in PinSet(v) ==>
      && IsPin(e) && Upper(e) == e
      && forall c :: c in e ==> c !in ListJunk && c != ','
  {
    forall e | e in PinSet(v)
      ensures IsPin(e) && Upper(e) == e
      ensures forall c :: c in e ==> c !in ListJunk && c != ','
    {
      var parts := Tokens(v.s);
      var k :| 0 <= k < |parts| && IsPin(PinToken(parts[k])) && e == PinToken(parts[k]);
      TokenChars(v.s, k);
      PinTokenChars(parts[k]);
    }
  }

  /** A blank string of tokens keeps no pin. */
  lemma PinsOfBlank(ts: seq<string>)
    requires |ts| > 0 && forall c :: c in Join(ts, ',') ==> c in Whitespace
    ensures PinsOf(ts) == {}
  {
    forall p | p in ts ensures !IsPin(PinToken(p)) {
      var i :| 0 <= i < |ts| && ts[i] == p;
      JoinChars(ts, ',', i);
      TrimEmpty(p, Whitespace);
    }
  }

  /** Written out as a comma-separated list, tokens free of brackets, quotes
      and commas parse to exactly the pins they contain. */
  lemma PinSetOfJoin(ts: seq<string>)
    requires |ts| > 0
    requires forall i :: 0 <= i < |ts| ==> forall c :: c in ts[i] ==> c !in ListJunk && c != ','
    ensures PinSet(Text(Join(ts, ','))) == PinsOf(ts)
  {
    var s := Join(ts, ',');
    JoinNoJunk(ts);
    RemoveCharsNone(s, ListJunk);
    assert Clean(s) == s;
    SplitJoin(ts, ',');
    assert Tokens(s) == ts;
    assert '[' in "[]";
    if Contains(s, "[]") {
      ContainsChars(s, "[]");
      assert false;
    }
    if Strip(s) == "" {
      TrimEmpty(s, Whitespace);
      PinsOfBlank(ts);
    }
  }

  /** A character of a join is the separator or a character of some piece. */
  lemma {:induction false} JoinCharsBack(ts: seq<string>, sep: char, c: char)
    requires |ts| > 0 && c in Join(ts, sep)
    ensures c == sep || exists i :: 0 <= i < |ts| && c in ts[i]
    decreases |ts|
  {
    if |ts| > 1 {
      if c in ts[0] {
      } else if c == sep {
      } else {
        JoinCharsBack(ts[1..], sep, c);
        var i :| 0 <= i < |ts| - 1 && c in ts[1..][i];
        assert c in ts[i + 1];
      }
    }
  }

  /** Reordering or repeating the tokens of a pin list leaves the parsed set
      unchanged. */
  lemma PinSetReorder(ts1: seq<string>, ts2: seq<string>)
    requires |ts1| > 0 && |ts2| > 0
    requires forall i :: 0 <= i < |ts1| ==> forall c :: c in ts1[i] ==> c !in ListJunk && c != ','
    requires forall i :: 0 <= i < |ts2| ==> forall c :: c in ts2[i] ==> c !in ListJunk && c != ','
    requires forall t :: t in ts1 <==> t in ts2
    ensures PinSet(Text(Join(ts1, ','))) == PinSet(Text(Join(ts2, ',')))
  {
    PinSetOfJoin(ts1);
    PinSetOfJoin(ts2);
  }

  /** Only the set of tokens matters: two cells that are neither blank nor
      the no-exclusions marker, and whose tokens are the same strings up to
      order and repetition, parse to the same pins. */
  lemma PinSetTokenSets(s1: string, s2: string)
    requires !IsBlank(Text(s1)) && !NoExclusionsMarker(s1)
    requires !IsBlank(Text(s2)) && !NoExclusionsMarker(s2)
    requires forall t :: t in Tokens(s1) <==> t in Tokens(s2)
    ensures PinSet(Text(s1)) == PinSet(Text(s2))
  {
  }

  /** Brackets at the two ends only form `[]` when nothing lies between. */
  lemma NoBracketPair(j: string)
    requires '[' !in j && ']' !in j && j != []
    ensures !Contains("[" + j + "]", "[]")
  {
    var s := "[" + j + "]";
    forall k: int ensures !OccursAt(s, "[]", k) {
      if 0 <= k <= |s| - 2 {
        assert s[k..k + 2][0] == s[k] && s[k..k + 2][1] == s[k + 1];
        if k == 0 {
          assert s[1] == j[0];
          assert s[k + 1] != ']';
        } else {
          assert s[k] == j[k - 1];
          assert s[k] != '[';
        }
      }
    }
    ContainsAt(s, "[]");
  }

  /** Cleaning a bracketed join of clean tokens drops just the brackets, so
      the tokens come back. */
  lemma BracketedTokens(ts: seq<string>)
    requires |ts| > 0
    requires forall i :: 0 <= i < |ts| ==> forall c :: c in ts[i] ==> c !in ListJunk && c != ','
    ensures forall c :: c in Join(ts, ',') ==> c !in ListJunk
    ensures Tokens("[" + Join(ts, ',') + "]") == ts
  {
    JoinNoJunk(ts);
    CleanBrackets(Join(ts, ','));
    SplitJoin(ts, ',');
  }

  /** Joining junk-free tokens with commas adds no junk. */
  lemma JoinNoJunk(ts: seq<string>)
    requires |ts| > 0
    requires forall i :: 0 <= i < |ts| ==> forall c :: c in ts[i] ==> c !in ListJunk && c != ','
    ensures forall c :: c in Join(ts, ',') ==> c !in ListJunk
  {
    forall c | c in Join(ts, ',') ensures c !in ListJunk {
      JoinCharsBack(ts, ',', c);
    }
  }

  /** Cleaning drops the enclosing brackets of a text with no junk inside. */
  lemma CleanBrackets(j: string)
    requires forall c :: c in j ==> c !in ListJunk
    ensures Clean("[" + j + "]") == j
  {
    RemoveCharsNone(j, ListJunk);
    RemoveCharsConcat("[", j, ListJunk);
    RemoveCharsConcat("[" + j, "]", ListJunk);
    assert RemoveChars("[", ListJunk) == [] by {
      assert "["[1..] == [];
    }
    assert RemoveChars("]", ListJunk) == [] by {
      assert "]"[1..] == [];
    }
  }

  /** A text that opens with a bracket is not blank. */
  lemma BracketedNotBlank(j: string)
    ensures !IsBlank(Text("[" + j + "]"))
  {
    var s := "[" + j + "]";
    TrimEmpty(s, Whitespace);
    assert s[0] == '[';
  }

  /** A bracketed text with no bracket inside is not the no-exclusions
      marker. */
  lemma BracketedNotMarker(j: string)
    requires '[' !in j && ']' !in j
    ensures !NoExclusionsMarker("[" + j + "]")
  {
    if j == [] {
      assert "[" + j + "]" == "[]";
      ContainsAt("[]", "None");
    } else {
      NoBracketPair(j);
    }
  }

  /** Written as a bracketed list `[t1,t2,...]`, tokens free of brackets,
      quotes and commas parse to exactly the pins they contain. */
  lemma PinSetOfBracketed(ts: seq<string>)
    requires |ts| > 0
    requires forall i :: 0 <= i < |ts| ==> forall c :: c in ts[i] ==> c !in ListJunk && c != ','
    ensures PinSet(Text("[" + Join(ts, ',') + "]")) == PinsOf(ts)
  {
    var j := Join(ts, ',');
    BracketedTokens(ts);
    BracketedNotBlank(j);
    assert '[' in ListJunk && ']' in ListJunk;
    BracketedNotMarker(j);
  }

  /** Reordering or repeating the tokens of a bracketed pin list leaves the
      parsed set unchanged. */
  lemma PinSetReorderBracketed(ts1: seq<string>, ts2: seq<string>)
    requires |ts1| > 0 && |ts2| > 0
    requires forall i :: 0 <= i < |ts1| ==> forall c :: c in ts1[i] ==> c !in ListJunk && c != ','
    requires forall i :: 0 <= i < |ts2| ==> forall c :: c in ts2[i] ==> c !in ListJunk && c != ','
    requires forall t :: t in ts1 <==> t in ts2
    ensures PinSet(Text("[" + Join(ts1, ',') + "]")) == PinSet(Text("[" + Join(ts2, ',') + "]"))
  {
    PinSetOfBracketed(ts1);
    PinSetOfBracketed(ts2);
  }

  // ---------------------------------------------------------------------
  // normalize_text
  // ---------------------------------------------------------------------

  /** `str(val).strip().upper()`, or "" for a missing cell. */
  function NormalizeText(v: Cell): string {
    match v
    case Absent => ""
    case Text(s) => Upper(Strip(s))
  }

  lemma UpperCharWhitespace(c: char)
    ensures UpperChar(c) in Whitespace <==> c in Whitespace
  {
  }

  /** A string whose end characters are kept is its own trim. */
  lemma TrimKept(s: string, drop: set<char>)
    requires s == [] || (s[0] !in drop && s[|s| - 1] !in drop)
    ensures Trim(s, drop) == s
  {
  }

  /** Upper-casing keeps the whitespace at both ends of a string. */
  lemma UpperEnds(t: string)
    requires t == [] || (t[0] !in Whitespace && t[|t| - 1] !in Whitespace)
    ensures var r := Upper(t); r == [] || (r[0] !in Whitespace && r[|r| - 1] !in Whitespace)
  {
    if t != [] {
      UpperCharWhitespace(t[0]);
      UpperCharWhitespace(t[|t| - 1]);
    }
  }

  lemma UpperIdempotent(t: string)
    ensures Upper(Upper(t)) == Upper(t)
  {
  }

  /** normalize_text yields an upper-case string without surrounding
      whitespace, and normalising it again changes nothing. */
  lemma NormalizeTextIdempotent(v: Cell)
    ensures var r := NormalizeText(v);
      && Upper(r) == r
      && (r == [] || (r[0] !in Whitespace && r[|r| - 1] !in Whitespace))
      && NormalizeText(Text(r)) == r
  {
    if v.Text? {
      var t := Strip(v.s);
      var i, j := TrimSlice(v.s, Whitespace);
      UpperEnds(t);
      var r := Upper(t);
      TrimKept(r, Whitespace);
      UpperIdempotent(t);
    }
  }

  // ---------------------------------------------------------------------
  // compare_values
  // ---------------------------------------------------------------------

  /** A canonicalised cell as compare_values receives it. */
  datatype Canonical = Slots(slots: seq<Slot>) | Pins(pins: set<string>) | Plain(text: string)

  /** One iteration of the zip loop of compare_values: it continues when
      this holds and returns False otherwise. */
  predicate SlotsAgree(a: Slot, b: Slot, fmt: NumberFormat) {
    match (a, b)
    case (NoneSlot, NoneSlot) => true
    case (NoneSlot, _) => false
    case (_, NoneSlot) => false
    case (Num(x), Num(y)) => Abs(x - y) <= ListTolerance
    case (Num(x), Str(t)) => fmt.show(x) == t
    case (Str(t), Num(y)) => t == fmt.show(y)
    case (Str(t), Str(u)) => t == u
  }

  /** When compare_values returns True. */
  predicate Matches(a: Canonical, b: Canonical, column: string, fmt: NumberFormat) {
    if column == ExcludePinsColumn then a == b
    else if a.Slots? && b.Slots? then
      |a.slots| == |b.slots| && forall i :: 0 <= i < |a.slots| ==> SlotsAgree(a.slots[i], b.slots[i], fmt)
    else a.Plain? && b.Plain? && a.text == b.text
  }

  /** compare_values, with its early-return loop over the zipped slots. */
  method CompareValues(stdVal: Canonical, resVal: Canonical, column: string, fmt: NumberFormat)
    returns (same: bool)
    ensures same == Matches(stdVal, resVal, column, fmt)
  {
    if column == ExcludePinsColumn {
      return stdVal == resVal;
    }
    if stdVal.Slots? && resVal.Slots? {
      var a, b := stdVal.slots, resVal.slots;
      if |a| != |b| {
        return false;
      }
      for i := 0 to |a|
        invariant forall k :: 0 <= k < i ==> SlotsAgree(a[k], b[k], fmt)
      {
        var v1, v2 := a[i], b[i];
        if v1.NoneSlot? && v2.NoneSlot? {
          continue;
        }
        if v1.NoneSlot? || v2.NoneSlot? {
          return false;
        }
        if v1.Num? && v2.Num? {
          if Abs(v1.x - v2.x) > ListTolerance {
            return false;
          }
        } else {
          var s1 := if v1.Num? then fmt.show(v1.x) else v1.s;
          var s2 := if v2.Num? then fmt.show(v2.x) else v2.s;
          if s1 != s2 {
            return false;
          }
        }
      }
      return true;
    }
    return stdVal.Plain? && resVal.Plain? && stdVal.text == resVal.text;
  }

  /** Pin sets compare by set equality; lists of different lengths never
      match; a None slot matches only None; two numbers match exactly when
      they differ by at most 1/1000, the bound included. */
  lemma MatchesCases(a: Canonical, b: Canonical, column: string, fmt: NumberFormat)
    ensures column == ExcludePinsColumn && a.Pins? && b.Pins? ==>
      (Matches(a, b, column, fmt) <==> a.pins == b.pins)
    ensures column != ExcludePinsColumn && a.Slots? && b.Slots? && |a.slots| != |b.slots| ==>
      !Matches(a, b, column, fmt)
    ensures forall s :: SlotsAgree(NoneSlot, s, fmt) <==> s == NoneSlot
    ensures forall x, y :: SlotsAgree(Num(x), Num(y), fmt) <==> -ListTolerance <= x - y <= ListTolerance
  {
  }

  /** The tolerance boundary in exact arithmetic: 0.3 and 0.301, exactly
      the tolerance apart, still match; 0.3 and 0.3011 do not. */
  lemma ToleranceBoundary(fmt: NumberFormat)
    ensures SlotsAgree(Num(0.3), Num(0.301), fmt)
    ensures !SlotsAgree(Num(0.3), Num(0.3011), fmt)
  {
  }

  /** compare_values does not depend on the order of its arguments. */
  lemma {:induction false} MatchesSymmetric(a: Canonical, b: Canonical, column: string, fmt: NumberFormat)
    ensures Matches(a, b, column, fmt) == Matches(b, a, column, fmt)
  {
    if column != ExcludePinsColumn && a.Slots? && b.Slots? && |a.slots| == |b.slots| {
      forall i | 0 <= i < |a.slots|
        ensures SlotsAgree(a.slots[i], b.slots[i], fmt) == SlotsAgree(b.slots[i], a.slots[i], fmt)
      {
        if a.slots[i].Num? && b.slots[i].Num? {
          assert Abs(a.slots[i].x - b.slots[i].x) == Abs(b.slots[i].x - a.slots[i].x);
        }
      }
    }
  }

  /** Every canonical value matches itself (pin sets are only ever compared
      under the Exclude Pins column). */
  lemma MatchesReflexive(a: Canonical, column: string, fmt: NumberFormat)
    requires a.Pins? ==> column == ExcludePinsColumn
    ensures Matches(a, a, column, fmt)
  {
    if a.Slots? {
      forall i | 0 <= i < |a.slots| ensures SlotsAgree(a.slots[i], a.slots[i], fmt) {
        if a.slots[i].Num? {
          assert Abs(a.slots[i].x - a.slots[i].x) == 0.0;
        }
      }
    }
  }

  /** When `str()` of a float parses back to it, a number slot never matches
      a string slot, because a string slot is a token float() refused. */
  lemma NumberNeverMatchesString(x: real, p: string, fmt: NumberFormat)
    requires fmt.parse(fmt.show(x)) == Some(x)
    requires ParseSlot(p, fmt).Str?
    ensures !SlotsAgree(Num(x), ParseSlot(p, fmt), fmt)
  {
  }
}
