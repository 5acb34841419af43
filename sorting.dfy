/**
 * Python's `sorted` on a list of strings: the code-point lexicographic order
 * of `str`, a sort by insertion, and the fact that two sorted lists are equal
 * exactly when the lists they came from hold the same multiset of items.
 */
module Sorting {
  /** Python's `a <= b` on `str`. */
  predicate AtMost(a: string, b: string)
    decreases |a|
  {
    a == [] || (b != [] && (a[0] < b[0] || (a[0] == b[0] && AtMost(a[1..], b[1..]))))
  }

  lemma {:induction false} AtMostTotal(a: string, b: string)
    ensures AtMost(a, b) || AtMost(b, a)
    decreases |a|
  {
    if a != [] && b != [] && a[0] == b[0] {
      AtMostTotal(a[1..], b[1..]);
    }
  }

  lemma {:induction false} AtMostAntisymmetric(a: string, b: string)
    requires AtMost(a, b) && AtMost(b, a)
    ensures a == b
    decreases |a|
  {
    if a != [] {
      AtMostAntisymmetric(a[1..], b[1..]);
      assert a == [a[0]] + a[1..] && b == [b[0]] + b[1..];
    }
  }

  lemma {:induction false} AtMostTransitive(a: string, b: string, c: string)
    requires AtMost(a, b) && AtMost(b, c)
    ensures AtMost(a, c)
    decreases |a|
  {
    if a != [] && a[0] == b[0] && b[0] == c[0] {
      AtMostTransitive(a[1..], b[1..], c[1..]);
    }
  }

  predicate Ascending(s: seq<string>) {
    forall i, j :: 0 <= i < j < |s| ==> AtMost(s[i], s[j])
  }

  lemma {:induction false} AtMostReflexive(a: string)
    ensures AtMost(a, a)
    decreases |a|
  {
    if a != [] {
      AtMostReflexive(a[1..]);
    }
  }

  lemma AscendingTail(s: seq<string>)
    requires Ascending(s) && s != []
    ensures Ascending(s[1..])
  {
    forall i, j | 0 <= i < j < |s| - 1 ensures AtMost(s[1..][i], s[1..][j]) {
      assert s[1..][i] == s[i + 1] && s[1..][j] == s[j + 1];
    }
  }

  /** Prepending an item that is at most every item keeps a list ascending. */
  lemma AscendingCons(x: string, s: seq<string>)
    requires Ascending(s) && forall e :: e in multiset(s) ==> AtMost(x, e)
    ensures Ascending([x] + s)
  {
    var r := [x] + s;
    forall i, j | 0 <= i < j < |r| ensures AtMost(r[i], r[j]) {
      if i == 0 {
        assert r[j] == s[j - 1] && s[j - 1] in multiset(s);
      } else {
        assert r[i] == s[i - 1] && r[j] == s[j - 1];
      }
    }
  }

  /** Places `x` before the first item it does not exceed. */
  function Insert(x: string, s: seq<string>): seq<string>
    decreases |s|
  {
    if s == [] then [x]
    else if AtMost(x, s[0]) then [x] + s
    else [s[0]] + Insert(x, s[1..])
  }

  lemma {:induction false} InsertItems(x: string, s: seq<string>)
    ensures multiset(Insert(x, s)) == multiset(s) + multiset{x}
    decreases |s|
  {
    if s != [] && !AtMost(x, s[0]) {
      InsertItems(x, s[1..]);
      assert s == [s[0]] + s[1..];
    }
  }

  lemma {:induction false} InsertAscending(x: string, s: seq<string>)
    requires Ascending(s)
    ensures Ascending(Insert(x, s))
    decreases |s|
  {
    if s == [] {
    } else if AtMost(x, s[0]) {
      forall e | e in multiset(s) ensures AtMost(x, e) {
        AscendingHead(s, e);
        AtMostTransitive(x, s[0], e);
      }
      AscendingCons(x, s);
    } else {
      AscendingTail(s);
      InsertAscending(x, s[1..]);
      InsertItems(x, s[1..]);
      AtMostTotal(x, s[0]);
      forall e | e in multiset(Insert(x, s[1..])) ensures AtMost(s[0], e) {
        if e != x {
          assert s == [s[0]] + s[1..];
          assert e in multiset(s);
          AscendingHead(s, e);
        }
      }
      AscendingCons(s[0], Insert(x, s[1..]));
    }
  }

  /** `sorted(items)` */
  function Sorted(s: seq<string>): (r: seq<string>)
    ensures Ascending(r) && multiset(r) == multiset(s)
    decreases |s|
  {
    if s == [] then []
    else
      var rest := Sorted(s[1..]);
      InsertItems(s[0], rest);
      InsertAscending(s[0], rest);
      TailItems(s);
      Insert(s[0], rest)
  }

  /** The least item of an ascending list comes first. */
  lemma AscendingHead(s: seq<string>, e: string)
    requires Ascending(s) && e in multiset(s)
    ensures AtMost(s[0], e)
  {
    var j :| 0 <= j < |s| && s[j] == e;
    if j > 0 {
      assert AtMost(s[0], s[j]);
    } else {
      AtMostReflexive(e);
    }
  }

  /** Two ascending lists with the same items start with the same item. */
  lemma AscendingHeads(a: seq<string>, b: seq<string>)
    requires Ascending(a) && Ascending(b) && multiset(a) == multiset(b) && a != []
    ensures b != [] && a[0] == b[0]
  {
    assert a[0] in multiset(a);
    assert b != [];
    assert b[0] in multiset(b);
    AscendingHead(a, b[0]);
    AscendingHead(b, a[0]);
    AtMostAntisymmetric(a[0], b[0]);
  }

  lemma TailItems(s: seq<string>)
    requires s != []
    ensures multiset(s[1..]) == multiset(s) - multiset{s[0]}
    ensures multiset(s) == multiset(s[1..]) + multiset{s[0]}
  {
    assert s == [s[0]] + s[1..];
  }

  /** An ascending list is fixed by its multiset of items. */
  lemma {:induction false} AscendingUnique(a: seq<string>, b: seq<string>)
    requires Ascending(a) && Ascending(b) && multiset(a) == multiset(b)
    ensures a == b
    decreases |a|
  {
    if a != [] {
      AscendingHeads(a, b);
      TailItems(a);
      TailItems(b);
      AscendingTail(a);
      AscendingTail(b);
      AscendingUnique(a[1..], b[1..]);
      assert a == [a[0]] + a[1..] && b == [b[0]] + b[1..];
    } else {
      assert |b| == |multiset(b)| == 0;
    }
  }

  /** Two lists sort to the same list exactly when they hold the same items
      with the same multiplicities. */
  lemma SortedEqual(a: seq<string>, b: seq<string>)
    ensures Sorted(a) == Sorted(b) <==> multiset(a) == multiset(b)
  {
    if multiset(a) == multiset(b) {
      AscendingUnique(Sorted(a), Sorted(b));
    }
  }
}
