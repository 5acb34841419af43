/**
 * `normalize_data`: the clean-up applied to every non-empty cell of both
 * workbooks before the older comparison script reads them. Quotes, minus
 * signs and ".pdf" are deleted, then the list-shaped texts of the
 * Exclude Pins column are rewritten into a bracketed pin list.
 */
module Normalize {
  import opened Wrappers
  import opened Strings

  /** `["[`: a pin list stored as the first item of a list. */
  const PinsOpen: string := "[\"["
  /** `]", [`: the end of that item, followed by the pitch list. */
  const PinsClose: string := "]\", ["
  /** `["['`: the same with quoted pins. */
  const QuotedOpen: string := "[\"['"
  const QuotedClose: string := "']\""
  const NoPins: string := "[None, []"
  const NoPinsSpaced: string := "[ None, []"
  const QuotedNoPins: string := "['None', '[]', '-'"
  /** "not detected" */
  const Undetected: string := "未检测出"
  const EmptyTriple: string := "[, , ]"
  const NoneTriple: string := "[None, None, None]"

  /** Deletes single quotes, then minus signs, then ".pdf", each in one pass. */
  function Scrub(t: string): string {
    Replace(Replace(Replace(t, "'", ""), "-", ""), ".pdf", "")
  }

  /** The guard of the list rewriting: the text names the column or holds
      both brackets. */
  predicate ListShaped(t: string) {
    Contains(t, "Exclude Pins") || ('[' in t && ']' in t)
  }

  /** The list rewriting, on a text that was already scrubbed. */
  function Reshape(t: string): string {
    if !ListShaped(t) then t
    else if StartsWith(t, PinsOpen) && Contains(t, PinsClose) then
      var start := Find(t, PinsOpen, 0) + 3;
      var end := Find(t, "]", start);
      "[" + Replace(PySlice(t, start, end), " ", "") + "]"
    else if Contains(t, QuotedOpen) && Contains(t, QuotedClose) then
      var start := Find(t, QuotedOpen, 0) + 4;
      var end := Find(t, QuotedClose, start);
      "[" + Replace(Replace(PySlice(t, start, end), "'", ""), " ", "") + "]"
    else if Contains(t, NoPins) || Contains(t, NoPinsSpaced) then "[None]"
    else if Contains(t, QuotedNoPins) then "[None]"
    else if Contains(t, Undetected) then
      Replace(Replace(t, Undetected, "None"), EmptyTriple, NoneTriple)
    else t
  }

  /** `normalize_data(text)` for a cell whose value is already text; an
      empty cell stays empty. */
  function NormalizeData(text: Option<string>): (r: Option<string>)
    ensures r.None? <==> text.None?
  {
    match text
    case None => None
    case Some(t) => Some(Reshape(Scrub(t)))
  }

  // ---------------------------------------------------------------------
  // What scrubbing removes
  // ---------------------------------------------------------------------

  /** No single quote and no minus sign survives scrubbing. */
  lemma ScrubRemoves(t: string)
    ensures '\'' !in Scrub(t) && '-' !in Scrub(t)
  {
    var a := Replace(t, "'", "");
    ReplaceCharByEmpty(t, '\'');
    var b := Replace(a, "-", "");
    ReplaceCharByEmpty(a, '-');
    ReplaceChars(b, ".pdf", "");
  }

  /** A text with no quote, no minus and no ".pdf" is not changed by
      scrubbing. */
  lemma ScrubClean(t: string)
    requires '\'' !in t && '-' !in t && !Contains(t, ".pdf")
    ensures Scrub(t) == t
  {
    ReplaceAbsent(t, "'", "");
    ReplaceAbsent(t, "-", "");
    ReplaceNotContained(t, ".pdf", "");
  }

  /** The branches for quoted pin lists (the `["['` and `['None', '[]', '-'`
      forms) can never fire: their patterns hold a single quote, and scrubbing
      has already removed every one. */
  lemma QuotedFormsUnreachable(t: string)
    ensures !Contains(Scrub(t), QuotedOpen) && !Contains(Scrub(t), QuotedNoPins)
  {
    var u := Scrub(t);
    ScrubRemoves(t);
    assert '\'' in QuotedOpen && '\'' in QuotedNoPins;
    if Contains(u, QuotedOpen) {
      ContainsChars(u, QuotedOpen);
    }
    if Contains(u, QuotedNoPins) {
      ContainsChars(u, QuotedNoPins);
    }
  }

  // ---------------------------------------------------------------------
  // What the rewriting produces
  // ---------------------------------------------------------------------

  /** The rewriting introduces no characters beyond those of its input and of
      the literal texts `[`, `]`, `None` and `, `. */
  lemma ReshapeChars(t: string)
    ensures forall c :: c in Reshape(t) ==> c in t || c in "[None, ]"
  {
    if !ListShaped(t) {
    } else if StartsWith(t, PinsOpen) && Contains(t, PinsClose) {
      var start := Find(t, PinsOpen, 0) + 3;
      var end := Find(t, "]", start);
      ReplaceChars(PySlice(t, start, end), " ", "");
    } else if Contains(t, QuotedOpen) && Contains(t, QuotedClose) {
      var start := Find(t, QuotedOpen, 0) + 4;
      var end := Find(t, QuotedClose, start);
      var p := PySlice(t, start, end);
      ReplaceChars(p, "'", "");
      ReplaceChars(Replace(p, "'", ""), " ", "");
    } else if Contains(t, NoPins) || Contains(t, NoPinsSpaced) || Contains(t, QuotedNoPins) {
    } else if Contains(t, Undetected) {
      var a := Replace(t, Undetected, "None");
      ReplaceChars(t, Undetected, "None");
      ReplaceChars(a, EmptyTriple, NoneTriple);
    }
  }

  /** Normalised text never holds a single quote or a minus sign. */
  lemma NormalizeDataChars(t: string)
    ensures '\'' !in NormalizeData(Some(t)).value && '-' !in NormalizeData(Some(t)).value
  {
    ScrubRemoves(t);
    ReshapeChars(Scrub(t));
  }

  /** Text that is not list-shaped and holds nothing scrubbing removes comes
      out unchanged. */
  lemma PlainTextUnchanged(t: string)
    requires '\'' !in t && '-' !in t && !Contains(t, ".pdf")
    requires !Contains(t, "Exclude Pins") && !('[' in t && ']' in t)
    ensures NormalizeData(Some(t)) == Some(t)
  {
    ScrubClean(t);
  }

  /** Text that is not list-shaped once scrubbed comes out as line 14 leaves
      it: every `'` and `-` deleted, then every ".pdf". */
  lemma PlainTextScrubbed(t: string)
    requires !ListShaped(Scrub(t))
    ensures NormalizeData(Some(t)) == Some(Scrub(t))
    ensures Scrub(t) == Replace(RemoveChars(t, {'\'', '-'}), ".pdf", "")
  {
    ScrubRemoves(t);
    assert "'" == ['\''] && "-" == ['-'] && "" == [];
    ReplaceCharByEmpty(t, '\'');
    ReplaceCharByEmpty(RemoveChars(t, {'\''}), '-');
    RemoveCharsTwice(t, {'\''}, {'-'});
    assert {'\''} + {'-'} == {'\'', '-'};
  }

  /** The `["[...]", [...]]` form: the pins are the text from index 3 up to
      the first `]` after it, and their spaces are dropped. That `]` always
      exists, because the `]", [` the guard found cannot start before index 3. */
  lemma PinsExtracted(t: string)
    requires StartsWith(Scrub(t), PinsOpen) && Contains(Scrub(t), PinsClose)
    ensures var u := Scrub(t);
      var e := Find(u, "]", 3);
      3 <= e < |u| && u[e] == ']' && ']' !in u[3..e] &&
      NormalizeData(Some(t)) == Some("[" + Replace(u[3..e], " ", "") + "]") &&
      ' ' !in Replace(u[3..e], " ", "")
  {
    var u := Scrub(t);
    assert u[..3] == PinsOpen;
    assert u[0] == '[' && u[1] == '"' && u[2] == '[';
    assert Find(u, PinsOpen, 0) == 0;
    ContainsAt(u, PinsClose);
    var k :| OccursAt(u, PinsClose, k);
    assert u[k] == ']' by {
      assert u[k] == u[k..k + |PinsClose|][0];
    }
    assert k >= 3;
    assert OccursAt(u, "]", k) by {
      assert u[k..k + 1] == [u[k]];
    }
    var e := Find(u, "]", 3);
    assert e != -1;
    assert u[e] == ']' by {
      assert u[e] == u[e..e + 1][0];
    }
    assert ']' !in u[3..e] by {
      NoCharOccurrence(u, ']', 3, e);
    }
    assert '[' in u && ']' in u;
    assert PySlice(u, 3, e) == u[3..e];
    ReplaceCharByEmpty(u[3..e], ' ');
  }

  /** The `[None, []` forms become `[None]`, unless the text also has the
      shape of a pin list. */
  lemma NoPinsMarker(t: string)
    requires Contains(Scrub(t), NoPins) || Contains(Scrub(t), NoPinsSpaced)
    requires !(StartsWith(Scrub(t), PinsOpen) && Contains(Scrub(t), PinsClose))
    ensures NormalizeData(Some(t)) == Some("[None]")
  {
    var u := Scrub(t);
    QuotedFormsUnreachable(t);
    if Contains(u, NoPins) {
      ContainsChars(u, NoPins);
      assert '[' in NoPins && ']' in NoPins;
    } else {
      ContainsChars(u, NoPinsSpaced);
      assert '[' in NoPinsSpaced && ']' in NoPinsSpaced;
    }
  }

  /** In the "not detected" branch every occurrence of 未检测出 is replaced:
      none is left in the result. */
  lemma UndetectedReplaced(t: string)
    requires ListShaped(Scrub(t)) && Contains(Scrub(t), Undetected)
    requires !(StartsWith(Scrub(t), PinsOpen) && Contains(Scrub(t), PinsClose))
    requires !Contains(Scrub(t), NoPins) && !Contains(Scrub(t), NoPinsSpaced)
    ensures !Contains(NormalizeData(Some(t)).value, Undetected)
    ensures !Contains(NormalizeData(Some(t)).value, EmptyTriple)
  {
    var u := Scrub(t);
    UndetectedBranch(t);
    ReplacementsForeign();
    ReplaceKeepsOut(u, Undetected, "None", Undetected);
    var a := Replace(u, Undetected, "None");
    ReplaceKeepsOut(a, EmptyTriple, NoneTriple, Undetected);
    EmptyTripleGone(a);
  }

  /** The replacement texts of lines 48 and 50 share no character with
      未检测出. */
  lemma ReplacementsForeign()
    ensures forall c :: c in "None" ==> c !in Undetected
    ensures forall c :: c in NoneTriple ==> c !in Undetected
  {
    assert forall c :: c in NoneTriple ==> c in "[None, ]";
  }

  /** The guards of lines 19-46 lead to the "not detected" branch. */
  lemma UndetectedBranch(t: string)
    requires ListShaped(Scrub(t)) && Contains(Scrub(t), Undetected)
    requires !(StartsWith(Scrub(t), PinsOpen) && Contains(Scrub(t), PinsClose))
    requires !Contains(Scrub(t), NoPins) && !Contains(Scrub(t), NoPinsSpaced)
    ensures NormalizeData(Some(t)) == Some(Replace(Replace(Scrub(t), Undetected, "None"), EmptyTriple, NoneTriple))
  {
    QuotedFormsUnreachable(t);
  }

  /** `[None, None, None]` in front of a text cannot start or complete an
      occurrence of `[, , ]`: its only `[` is followed by a letter. */
  lemma NoneTriplePrefix(y: string)
    requires !Contains(y, EmptyTriple)
    ensures !Contains(NoneTriple + y, EmptyTriple)
  {
    var s := NoneTriple + y;
    assert '[' !in NoneTriple[1..];
    ContainsAt(y, EmptyTriple);
    forall k: int ensures !OccursAt(s, EmptyTriple, k) {
      if 0 <= k <= |s| - 6 {
        assert s[k..k + 6][0] == s[k] && s[k..k + 6][1] == s[k + 1];
        if k == 0 {
          assert s[1] == 'N';
        } else if k < 18 {
          assert s[k] == NoneTriple[1..][k - 1];
        } else {
          assert s[k..k + 6] == y[k - 18..k - 12];
          assert !OccursAt(y, EmptyTriple, k - 18);
        }
      }
    }
    ContainsAt(s, EmptyTriple);
  }

  /** Line 50 leaves no `[, , ]` behind: a replacement never rebuilds one
      with the text around it. */
  lemma {:induction false} EmptyTripleGone(s: string)
    ensures !Contains(Replace(s, EmptyTriple, NoneTriple), EmptyTriple)
    decreases |s|
  {
    if |s| < 6 {
      ContainsAt(s, EmptyTriple);
    } else if s[..6] == EmptyTriple {
      EmptyTripleGone(s[6..]);
      NoneTriplePrefix(Replace(s[6..], EmptyTriple, NoneTriple));
    } else {
      var r := Replace(s, EmptyTriple, NoneTriple);
      var rest := Replace(s[1..], EmptyTriple, NoneTriple);
      EmptyTripleGone(s[1..]);
      assert r == [s[0]] + rest;
      assert !StartsWith(r, EmptyTriple) by {
        if s[0] == '[' {
          var w := EmptyTriple[1..];
          assert !StartsWith(s[1..], w) by {
            if |w| <= |s[1..]| {
              assert s[..6] == [s[0]] + s[1..][..5];
            }
          }
          assert NoneTriple[0] !in w;
          ReplaceNotPrefix(s[1..], EmptyTriple, NoneTriple, w);
          if 6 <= |r| {
            assert r[..6] == [s[0]] + rest[..5];
          }
        } else if 6 <= |r| {
          assert r[..6][0] != EmptyTriple[0];
        }
      }
      assert r[1..] == rest;
    }
  }

  // ---------------------------------------------------------------------
  // The two forms the rewriting is written for
  // ---------------------------------------------------------------------

  /** Any text of the bare form `["[` pins `]", [` rest, holding nothing that
      scrubbing removes and no `]` among its pins, becomes its pins without
      spaces, between brackets. */
  lemma BareListForm(pins: string, rest: string)
    requires ']' !in pins
    requires var t := PinsOpen + pins + PinsClose + rest;
      '\'' !in t && '-' !in t && !Contains(t, ".pdf")
    ensures NormalizeData(Some(PinsOpen + pins + PinsClose + rest)) == Some("[" + Replace(pins, " ", "") + "]")
  {
    var t := PinsOpen + pins + PinsClose + rest;
    var n := 3 + |pins|;
    ScrubClean(t);
    assert StartsWith(t, PinsOpen) && t[3..n] == pins;
    assert OccursAt(t, PinsClose, n) by {
      assert t[n..n + |PinsClose|] == PinsClose;
    }
    assert Contains(t, PinsClose) by {
      ContainsAt(t, PinsClose);
    }
    assert Find(t, "]", 3) == n by {
      NoCharOccurrence(t, ']', 3, n);
      assert t[n] == t[n..n + |PinsClose|][0];
      assert t[n..n + 1] == [t[n]];
      FindFirstAt(t, "]", 3, n);
    }
    PinsExtracted(t);
  }

  // The lemmas up to BareListExample are the steps of that one example,
  // each proved on its own so that every proof stays small.

  /** Step of BareListExample: deleting the space of the pins. */
  lemma BarePinsSpaces(p: string)
    requires p == "B1, C7"
    ensures Replace(p, " ", "") == "B1,C7"
  {
    var x, y := p[..3], p[4..];
    assert x + y == "B1,C7" by {
      assert x == "B1," && y == "C7";
    }
    assert p == x + [' '] + y;
    assert ' ' !in x && ' ' !in y;
    ReplaceCharByEmpty(p, ' ');
    DropChar(x, y, ' ');
    RemoveCharsNone(y, {' '});
  }

  /** Step of BareListExample: the pins put back between brackets. */
  lemma BracketedPins(x: string)
    requires x == "B1,C7"
    ensures "[" + x + "]" == "[B1,C7]"
  {
  }

  /** Step of BareListExample: the text splits into the pieces
      `BareListForm` takes. */
  lemma BareListParts(t: string)
    requires t == "[\"[B1, C7]\", [3.0, 3.0]]"
    ensures t == PinsOpen + t[3..9] + PinsClose + t[14..]
    ensures t[3..9] == "B1, C7" && ']' !in t[3..9]
  {
  }

  /** Step of BareListExample: the text holds no apostrophe. */
  lemma BareListNoQuote(t: string)
    requires t == "[\"[B1, C7]\", [3.0, 3.0]]"
    ensures '\'' !in t
  {
  }

  /** Step of BareListExample: the text holds no minus sign. */
  lemma BareListNoMinus(t: string)
    requires t == "[\"[B1, C7]\", [3.0, 3.0]]"
    ensures '-' !in t
  {
  }

  /** Step of BareListExample: the text holds no file extension. */
  lemma BareListNoPdf(t: string)
    requires t == "[\"[B1, C7]\", [3.0, 3.0]]"
    ensures !Contains(t, ".pdf")
  {
    assert 'p' in ".pdf" && 'p' !in t;
    if Contains(t, ".pdf") {
      ContainsChars(t, ".pdf");
    }
  }

  /** `["[B1, C7]", [3.0, 3.0]]` becomes `[B1,C7]`. */
  lemma BareListExample(t: string)
    requires t == "[\"[B1, C7]\", [3.0, 3.0]]"
    ensures NormalizeData(Some(t)) == Some("[B1,C7]")
  {
    BareListParts(t);
    BareListNoQuote(t);
    BareListNoMinus(t);
    BareListNoPdf(t);
    BareListForm(t[3..9], t[14..]);
    BarePinsSpaces(t[3..9]);
    BracketedPins(Replace(t[3..9], " ", ""));
  }
}
