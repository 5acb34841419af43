/**
 * The Python `str` operations the reconciliation scripts rely on, over
 * `seq<char>`. Case mapping and whitespace are the ASCII part of Python's
 * definitions.
 */
module Strings {

  // ---------------------------------------------------------------------
  // Character classes
  // ---------------------------------------------------------------------

  /** `str.isspace()` on ASCII: tab, line feed, vertical tab, form feed,
      carriage return, the separators 0x1C-0x1F and space. */
  const Whitespace: set<char> :=
    {'\t', '\n', '\U{0B}', '\U{0C}', '\r', '\U{1C}', '\U{1D}', '\U{1E}', '\U{1F}', ' '}

  predicate IsLowerAlnum(c: char) {
    'a' <= c <= 'z' || '0' <= c <= '9'
  }

  function LowerChar(c: char): (d: char)
    ensures d == c || ('A' <= c <= 'Z' && 'a' <= d <= 'z')
  {
    if 'A' <= c <= 'Z' then (c as int + 32) as char else c
  }

  function UpperChar(c: char): (d: char)
    ensures d == c || ('a' <= c <= 'z' && 'A' <= d <= 'Z')
  {
    if 'a' <= c <= 'z' then (c as int - 32) as char else c
  }

  /** `str.lower()` */
  function Lower(s: string): (r: string)
    ensures |r| == |s| && forall i :: 0 <= i < |s| ==> r[i] == LowerChar(s[i])
  {
    seq(|s|, i requires 0 <= i < |s| => LowerChar(s[i]))
  }

  /** `str.upper()` */
  function Upper(s: string): (r: string)
    ensures |r| == |s| && forall i :: 0 <= i < |s| ==> r[i] == UpperChar(s[i])
  {
    seq(|s|, i requires 0 <= i < |s| => UpperChar(s[i]))
  }

  // ---------------------------------------------------------------------
  // Trimming: str.strip() and str.strip(chars)
  // ---------------------------------------------------------------------

  /** The first index at or after `i` whose character is not in `drop`. */
  function SkipStart(s: string, drop: set<char>, i: nat): (k: nat)
    requires i <= |s|
    ensures i <= k <= |s|
    ensures forall m :: i <= m < k ==> s[m] in drop
    ensures k < |s| ==> s[k] !in drop
    decreases |s| - i
  {
    if i < |s| && s[i] in drop then SkipStart(s, drop, i + 1) else i
  }

  /** The least index `k` in `lo..j` such that `s[k..j]` is all in `drop`. */
  function SkipEnd(s: string, drop: set<char>, lo: nat, j: nat): (k: nat)
    requires lo <= j <= |s|
    ensures lo <= k <= j
    ensures forall m :: k <= m < j ==> s[m] in drop
    ensures k > lo ==> s[k - 1] !in drop
    decreases j
  {
    if j > lo && s[j - 1] in drop then SkipEnd(s, drop, lo, j - 1) else j
  }

  /** Removes the characters in `drop` from both ends. */
  function Trim(s: string, drop: set<char>): string {
    var i := SkipStart(s, drop, 0);
    s[i..SkipEnd(s, drop, i, |s|)]
  }

  /** `str.strip()` */
  function Strip(s: string): string {
    Trim(s, Whitespace)
  }

  /** The trimmed string is a slice of the original whose end characters are kept. */
  lemma TrimSlice(s: string, drop: set<char>) returns (i: nat, j: nat)
    ensures i <= j <= |s| && Trim(s, drop) == s[i..j]
    ensures forall k :: 0 <= k < i ==> s[k] in drop
    ensures forall k :: j <= k < |s| ==> s[k] in drop
    ensures i < j ==> s[i] !in drop && s[j - 1] !in drop
  {
    i := SkipStart(s, drop, 0);
    j := SkipEnd(s, drop, i, |s|);
  }

  /** Every character of a trimmed string occurs in the original. */
  lemma TrimChars(s: string, drop: set<char>)
    ensures forall c :: c in Trim(s, drop) ==> c in s
  {
    var i, j := TrimSlice(s, drop);
    forall c | c in s[i..j] ensures c in s {
      var k :| 0 <= k < j - i && s[i..j][k] == c;
      assert s[i + k] == c;
    }
  }

  /** A string trims to nothing exactly when all its characters are dropped. */
  lemma TrimEmpty(s: string, drop: set<char>)
    ensures Trim(s, drop) == [] <==> forall k :: 0 <= k < |s| ==> s[k] in drop
  {
    var i, j := TrimSlice(s, drop);
    if Trim(s, drop) == [] {
      assert i == j;
      forall k | 0 <= k < |s| ensures s[k] in drop {
        if k >= i { assert k >= j; }
      }
    } else {
      assert s[i] !in drop;
    }
  }

  // ---------------------------------------------------------------------
  // Removing characters and replacing substrings
  // ---------------------------------------------------------------------

  /** The characters of `s` not in `cs`, in order. */
  function RemoveChars(s: string, cs: set<char>): (r: string)
    ensures forall c :: c in r <==> c in s && c !in cs
    ensures |r| <= |s|
  {
    if s == [] then []
    else (if s[0] in cs then [] else [s[0]]) + RemoveChars(s[1..], cs)
  }

  predicate StartsWith(s: string, p: string) {
    |p| <= |s| && s[..|p|] == p
  }

  predicate EndsWith(s: string, p: string) {
    |p| <= |s| && s[|s| - |p|..] == p
  }

  /** `str.replace(pat, rep)`: every non-overlapping occurrence of `pat`,
      scanning left to right, is replaced by `rep`. */
  function Replace(s: string, pat: string, rep: string): string
    requires pat != []
    decreases |s|
  {
    if |s| < |pat| then s
    else if s[..|pat|] == pat then rep + Replace(s[|pat|..], pat, rep)
    else [s[0]] + Replace(s[1..], pat, rep)
  }

  /** Replacing never introduces characters other than those of `s` and `rep`. */
  lemma {:induction false} ReplaceChars(s: string, pat: string, rep: string)
    requires pat != []
    ensures forall c :: c in Replace(s, pat, rep) ==> c in s || c in rep
    decreases |s|
  {
    if |s| < |pat| {
    } else if s[..|pat|] == pat {
      ReplaceChars(s[|pat|..], pat, rep);
      assert forall c :: c in s[|pat|..] ==> c in s;
    } else {
      ReplaceChars(s[1..], pat, rep);
      assert forall c :: c in s[1..] ==> c in s;
    }
  }

  /** Replacing a single character by the empty string removes that character. */
  lemma {:induction false} ReplaceCharByEmpty(s: string, c: char)
    ensures Replace(s, [c], []) == RemoveChars(s, {c})
    decreases |s|
  {
    if s != [] {
      ReplaceCharByEmpty(s[1..], c);
      assert s[..1] == [s[0]];
    }
  }

  /** Two successive character removals are one removal of both sets. */
  lemma {:induction false} RemoveCharsTwice(s: string, a: set<char>, b: set<char>)
    ensures RemoveChars(RemoveChars(s, a), b) == RemoveChars(s, a + b)
    decreases |s|
  {
    if s != [] {
      RemoveCharsTwice(s[1..], a, b);
      var head := if s[0] in a then [] else [s[0]];
      assert RemoveChars(s, a) == head + RemoveChars(s[1..], a);
      RemoveCharsConcat(head, RemoveChars(s[1..], a), b);
    }
  }

  lemma {:induction false} RemoveCharsConcat(x: string, y: string, cs: set<char>)
    ensures RemoveChars(x + y, cs) == RemoveChars(x, cs) + RemoveChars(y, cs)
    decreases |x|
  {
    if x != [] {
      var head := if x[0] in cs then [] else [x[0]];
      assert (x + y)[0] == x[0] && (x + y)[1..] == x[1..] + y;
      calc {
        RemoveChars(x + y, cs);
        head + RemoveChars(x[1..] + y, cs);
        { RemoveCharsConcat(x[1..], y, cs); }
        head + (RemoveChars(x[1..], cs) + RemoveChars(y, cs));
        (head + RemoveChars(x[1..], cs)) + RemoveChars(y, cs);
        RemoveChars(x, cs) + RemoveChars(y, cs);
      }
    } else {
      assert x + y == y;
    }
  }

  /** A string none of whose characters is removed is left as it is. */
  lemma {:induction false} RemoveCharsNone(s: string, cs: set<char>)
    requires forall c :: c in s ==> c !in cs
    ensures RemoveChars(s, cs) == s
    decreases |s|
  {
    if s != [] {
      RemoveCharsNone(s[1..], cs);
      assert forall c :: c in s[1..] ==> c in s;
    }
  }

  /** A string in which `pat` cannot start is left unchanged by Replace. */
  lemma {:induction false} ReplaceAbsent(s: string, pat: string, rep: string)
    requires pat != [] && pat[0] !in s
    ensures Replace(s, pat, rep) == s
    decreases |s|
  {
    if |s| >= |pat| {
      assert s[..|pat|][0] == s[0];
      ReplaceAbsent(s[1..], pat, rep);
      assert forall c :: c in s[1..] ==> c in s;
      assert s == [s[0]] + s[1..];
    }
  }

  /** Removing `c` from a text whose first occurrence of `c` follows `x`. */
  lemma DropChar(x: string, y: string, c: char)
    requires c !in x
    ensures RemoveChars(x + [c] + y, {c}) == x + RemoveChars(y, {c})
  {
    assert x + [c] + y == x + ([c] + y);
    assert RemoveChars([c] + y, {c}) == RemoveChars(y, {c}) by {
      assert ([c] + y)[1..] == y;
    }
    assert RemoveChars(x + ([c] + y), {c}) == x + RemoveChars(y, {c}) by {
      RemoveCharsConcat(x, [c] + y, {c});
      RemoveCharsNone(x, {c});
    }
  }

  // ---------------------------------------------------------------------
  // Searching: the `in` operator on strings and str.find
  // ---------------------------------------------------------------------

  /** `pat` occurs in `s` at index `k`. */
  predicate OccursAt(s: string, pat: string, k: int) {
    0 <= k <= |s| - |pat| && s[k..k + |pat|] == pat
  }

  /** `pat in s` */
  predicate Contains(s: string, pat: string)
    decreases |s|
  {
    StartsWith(s, pat) || (s != [] && Contains(s[1..], pat))
  }

  /** An occurrence of `pat` in `s` is a slice of `s` equal to `pat`. */
  lemma {:induction false} ContainsAt(s: string, pat: string)
    ensures Contains(s, pat) <==> exists k :: OccursAt(s, pat, k)
    decreases |s|
  {
    if StartsWith(s, pat) {
      assert OccursAt(s, pat, 0);
    }
    if s != [] {
      ContainsAt(s[1..], pat);
      if Contains(s[1..], pat) {
        var k :| OccursAt(s[1..], pat, k);
        assert s[k + 1..k + 1 + |pat|] == s[1..][k..k + |pat|];
        assert OccursAt(s, pat, k + 1);
      }
      if k :| OccursAt(s, pat, k) {
        if k > 0 {
          assert s[1..][k - 1..k - 1 + |pat|] == s[k..k + |pat|];
          assert OccursAt(s[1..], pat, k - 1);
        } else {
          assert StartsWith(s, pat);
        }
      }
    } else {
      if k :| OccursAt(s, pat, k) {
        assert StartsWith(s, pat);
      }
    }
  }

  /** Every character of an occurring pattern occurs in the string. */
  lemma {:induction false} ContainsChars(s: string, pat: string)
    requires Contains(s, pat)
    ensures forall c :: c in pat ==> c in s
    decreases |s|
  {
    if StartsWith(s, pat) {
      forall c | c in pat ensures c in s {
        var k :| 0 <= k < |pat| && pat[k] == c;
        assert s[k] == c;
      }
    } else {
      ContainsChars(s[1..], pat);
      assert forall c :: c in s[1..] ==> c in s;
    }
  }

  /** Replacing a pattern that holds a character absent from `s` changes
      nothing. */
  lemma {:induction false} ReplaceMissingChar(s: string, pat: string, rep: string, c: char)
    requires pat != [] && c in pat && c !in s
    ensures Replace(s, pat, rep) == s
    decreases |s|
  {
    if |s| >= |pat| {
      var k :| 0 <= k < |pat| && pat[k] == c;
      assert s[k] in s;
      assert s[..|pat|][k] != pat[k];
      assert c !in s[1..];
      ReplaceMissingChar(s[1..], pat, rep, c);
      assert [s[0]] + s[1..] == s;
    }
  }

  /** A text without an occurrence has none in any suffix. */
  lemma {:induction false} NotContainsSuffix(s: string, k: nat, q: string)
    requires k <= |s| && !Contains(s, q)
    ensures !Contains(s[k..], q)
    decreases k
  {
    if k > 0 {
      assert s[1..][k - 1..] == s[k..];
      NotContainsSuffix(s[1..], k - 1, q);
    }
  }

  /** No occurrence of `q` can start inside a prefix made of characters
      foreign to `q`. */
  lemma {:induction false} ForeignPrefix(x: string, y: string, q: string)
    requires q != [] && forall c :: c in x ==> c !in q
    requires !Contains(y, q)
    ensures !Contains(x + y, q)
    decreases |x|
  {
    if x != [] {
      assert q[0] in q && x[0] in x;
      assert (x + y)[0] == x[0];
      assert forall c :: c in x[1..] ==> c in x;
      ForeignPrefix(x[1..], y, q);
      assert (x + y)[1..] == x[1..] + y;
    } else {
      assert x + y == y;
    }
  }

  /** Replacing with a non-empty text whose first character is foreign to
      `w` cannot make `w` a prefix. */
  lemma {:induction false} ReplaceNotPrefix(s: string, pat: string, rep: string, w: string)
    requires pat != [] && rep != [] && w != [] && rep[0] !in w
    requires !StartsWith(s, w)
    ensures !StartsWith(Replace(s, pat, rep), w)
    decreases |s|
  {
    var r := Replace(s, pat, rep);
    if |s| >= |pat| {
      assert w[0] in w && rep[0] in rep;
      if s[..|pat|] == pat {
        assert r[0] == rep[0];
      } else {
        var rest := Replace(s[1..], pat, rep);
        assert r == [s[0]] + rest;
        if w[0] == s[0] {
          assert !StartsWith(s[1..], w[1..]) by {
            if |w| <= |s| {
              assert s[..|w|] == [s[0]] + s[1..][..|w| - 1];
            }
          }
          assert forall c :: c in w[1..] ==> c in w;
          ReplaceNotPrefix(s[1..], pat, rep, w[1..]);
          if |w| <= |r| {
            assert r[..|w|] == [s[0]] + rest[..|w| - 1];
          }
        }
      }
    }
  }

  /** Replacing `pat` by a non-empty text sharing no character with `q`
      creates no occurrence of `q`, and leaves none of `pat` itself. */
  lemma {:induction false} ReplaceKeepsOut(s: string, pat: string, rep: string, q: string)
    requires pat != [] && rep != [] && q != []
    requires forall c :: c in rep ==> c !in q
    requires q == pat || !Contains(s, q)
    ensures !Contains(Replace(s, pat, rep), q)
    decreases |s|
  {
    if |s| < |pat| {
      ContainsAt(s, q);
    } else if s[..|pat|] == pat {
      if q != pat {
        NotContainsSuffix(s, |pat|, q);
      }
      ReplaceKeepsOut(s[|pat|..], pat, rep, q);
      ForeignPrefix(rep, Replace(s[|pat|..], pat, rep), q);
    } else {
      if q != pat {
        NotContainsSuffix(s, 1, q);
      }
      ReplaceKeepsOut(s[1..], pat, rep, q);
      var r := Replace(s, pat, rep);
      assert r == [s[0]] + Replace(s[1..], pat, rep);
      assert r[1..] == Replace(s[1..], pat, rep);
      assert !StartsWith(s, q);
      assert rep[0] in rep;
      ReplaceNotPrefix(s, pat, rep, q);
    }
  }

  /** A text without an occurrence of `pat` is left unchanged by Replace. */
  lemma {:induction false} ReplaceNotContained(s: string, pat: string, rep: string)
    requires pat != [] && !Contains(s, pat)
    ensures Replace(s, pat, rep) == s
    decreases |s|
  {
    if |s| >= |pat| {
      assert s != [] && !StartsWith(s, pat);
      ReplaceNotContained(s[1..], pat, rep);
      assert s == [s[0]] + s[1..];
    }
  }

  /** `s.find(pat, start)`: the least index `i >= start` at which `pat`
      occurs, or -1 if there is none. */
  function Find(s: string, pat: string, start: nat): (r: int)
    ensures r == -1 || (start <= r && OccursAt(s, pat, r))
    ensures r != -1 ==> forall k :: start <= k < r ==> !OccursAt(s, pat, k)
    ensures r == -1 ==> forall k :: start <= k ==> !OccursAt(s, pat, k)
    decreases |s| - start
  {
    if start + |pat| > |s| then -1
    else if s[start..start + |pat|] == pat then start
    else Find(s, pat, start + 1)
  }

  /** A stretch of `s` is free of the character `c` exactly when no
      occurrence of `c` starts inside it. */
  lemma NoCharOccurrence(s: string, c: char, i: nat, j: nat)
    requires i <= j <= |s|
    ensures c !in s[i..j] <==> forall k :: i <= k < j ==> !OccursAt(s, [c], k)
  {
    forall k | i <= k < j ensures (OccursAt(s, [c], k) <==> s[k] == c) && s[k] in s[i..j] {
      assert s[k..k + 1] == [s[k]];
      assert s[k] == s[i..j][k - i];
    }
    if c in s[i..j] {
      var m :| 0 <= m < j - i && s[i..j][m] == c;
      assert s[i + m] == c;
    }
  }

  /** The first occurrence at or after `start` is found. */
  lemma FindFirstAt(s: string, pat: string, start: nat, n: nat)
    requires start <= n && OccursAt(s, pat, n)
    requires forall k :: start <= k < n ==> !OccursAt(s, pat, k)
    ensures Find(s, pat, start) == n
  {
    var r := Find(s, pat, start);
    assert r != -1;
    assert !(r < n) && !(n < r);
  }

  /** `s[i:j]` with Python's slice rules: negative indices count from the
      end, out-of-range indices are clamped, and an empty range gives "". */
  function PySlice(s: string, i: int, j: int): (r: string)
    ensures forall c :: c in r ==> c in s
  {
    var lo := if i < 0 then (if |s| + i < 0 then 0 else |s| + i) else (if i > |s| then |s| else i);
    var hi := if j < 0 then (if |s| + j < 0 then 0 else |s| + j) else (if j > |s| then |s| else j);
    if hi <= lo then []
    else
      assert forall c :: c in s[lo..hi] ==> c in s by {
        forall c | c in s[lo..hi] ensures c in s {
          var k :| 0 <= k < hi - lo && s[lo..hi][k] == c;
          assert s[lo + k] == c;
        }
      }
      s[lo..hi]
  }

  // ---------------------------------------------------------------------
  // Splitting on a separator character: str.split(sep) and sep.join
  // ---------------------------------------------------------------------

  /** `s.split(sep)` for a one-character separator. */
  function Split(s: string, sep: char): (parts: seq<string>)
    ensures |parts| > 0
    decreases |s|
  {
    if s == [] then [[]]
    else
      var rest := Split(s[1..], sep);
      if s[0] == sep then [[]] + rest
      else [[s[0]] + rest[0]] + rest[1..]
  }

  /** There is one more piece than there are separators. */
  lemma {:induction false} SplitCount(s: string, sep: char)
    ensures |Split(s, sep)| == multiset(s)[sep] + 1
    decreases |s|
  {
    if s != [] {
      SplitCount(s[1..], sep);
      assert s == [s[0]] + s[1..];
    }
  }

  /** No piece holds the separator. */
  lemma {:induction false} SplitPieces(s: string, sep: char)
    ensures forall i :: 0 <= i < |Split(s, sep)| ==> sep !in Split(s, sep)[i]
    decreases |s|
  {
    if s != [] {
      SplitPieces(s[1..], sep);
      var rest := Split(s[1..], sep);
      if s[0] != sep {
        var parts := Split(s, sep);
        assert parts[0] == [s[0]] + rest[0];
        forall i | 0 < i < |parts| ensures sep !in parts[i] {
          assert parts[i] == rest[i];
        }
      }
    }
  }

  /** `sep.join(parts)` */
  function Join(parts: seq<string>, sep: char): string
    requires |parts| > 0
  {
    if |parts| == 1 then parts[0] else parts[0] + [sep] + Join(parts[1..], sep)
  }

  /** Prepending a character to the first piece prepends it to the join. */
  lemma JoinPrepend(c: char, parts: seq<string>, sep: char)
    requires |parts| > 0
    ensures Join([[c] + parts[0]] + parts[1..], sep) == [c] + Join(parts, sep)
  {
    var q := [[c] + parts[0]] + parts[1..];
    if |parts| > 1 {
      assert q[1..] == parts[1..];
    }
  }

  /** Joining the pieces of a split gives back the string. */
  lemma {:induction false} JoinSplit(s: string, sep: char)
    ensures Join(Split(s, sep), sep) == s
    decreases |s|
  {
    if s != [] {
      JoinSplit(s[1..], sep);
      var rest := Split(s[1..], sep);
      assert s == [s[0]] + s[1..];
      if s[0] == sep {
        assert Split(s, sep) == [[]] + rest;
        assert ([[]] + rest)[1..] == rest;
      } else {
        assert Split(s, sep) == [[s[0]] + rest[0]] + rest[1..];
        JoinPrepend(s[0], rest, sep);
      }
    }
  }

  /** Splitting after a first piece without separator peels that piece off. */
  lemma {:induction false} SplitCons(x: string, sep: char, y: string)
    requires sep !in x
    ensures Split(x + [sep] + y, sep) == [x] + Split(y, sep)
    decreases |x|
  {
    if x == [] {
      assert x + [sep] + y == [sep] + y;
      assert ([sep] + y)[1..] == y;
    } else {
      var s := x + [sep] + y;
      assert s[0] == x[0] && s[1..] == x[1..] + [sep] + y;
      SplitCons(x[1..], sep, y);
      var rest := Split(s[1..], sep);
      assert rest[0] == x[1..] && rest[1..] == Split(y, sep);
      assert Split(s, sep) == [[x[0]] + rest[0]] + rest[1..];
      assert [x[0]] + x[1..] == x;
    }
  }

  /** A string without the separator is one piece. */
  lemma {:induction false} SplitNone(x: string, sep: char)
    requires sep !in x
    ensures Split(x, sep) == [x]
    decreases |x|
  {
    if x != [] {
      SplitNone(x[1..], sep);
      assert [x[0]] + x[1..] == x;
    }
  }

  /** Splitting a join of separator-free pieces gives back the pieces. */
  lemma {:induction false} SplitJoin(parts: seq<string>, sep: char)
    requires |parts| > 0
    requires forall i :: 0 <= i < |parts| ==> sep !in parts[i]
    ensures Split(Join(parts, sep), sep) == parts
    decreases |parts|
  {
    if |parts| == 1 {
      SplitNone(parts[0], sep);
    } else {
      SplitJoin(parts[1..], sep);
      SplitCons(parts[0], sep, Join(parts[1..], sep));
      assert [parts[0]] + parts[1..] == parts;
    }
  }

  /** Every character of a piece of a join occurs in the join. */
  lemma {:induction false} JoinChars(parts: seq<string>, sep: char, i: nat)
    requires i < |parts|
    ensures forall c :: c in parts[i] ==> c in Join(parts, sep)
    decreases |parts|
  {
    if |parts| > 1 {
      if i > 0 {
        JoinChars(parts[1..], sep, i - 1);
      }
    }
  }

  // ---------------------------------------------------------------------
  // Order-keeping selection
  // ---------------------------------------------------------------------

  /** `a` is `b` with some elements left out, the others in their order. */
  predicate IsSubsequence<T(==)>(a: seq<T>, b: seq<T>)
    decreases |b|
  {
    if b == [] then a == []
    else (a != [] && a[0] == b[0] && IsSubsequence(a[1..], b[1..])) || IsSubsequence(a, b[1..])
  }
}
