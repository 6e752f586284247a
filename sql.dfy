/**
 * The parts of SQLite's query semantics the hotel code relies on, stated over tables
 * held as sequences of rows in rowid order: a WHERE filter, `fetchone` (the first row
 * of a result), projection of every row onto selected columns, the BINARY collation
 * of TEXT values, and ORDER BY on two TEXT columns.
 */
module Sql {
  import opened Wrappers

  // ---------------------------------------------------------------------------
  // WHERE, fetchone, SELECT column lists
  // ---------------------------------------------------------------------------

  /** The rows of `s` that satisfy the WHERE condition `p`, in table order. */
  function Filter<T(!new)>(s: seq<T>, p: T -> bool): (r: seq<T>)
    ensures |r| <= |s|
    ensures forall x :: x in r <==> x in s && p(x)
    ensures (forall i :: 0 <= i < |s| ==> p(s[i])) ==> r == s
    ensures (forall i :: 0 <= i < |s| ==> !p(s[i])) ==> r == []
  {
    if s == [] then []
    else
      assert s == [s[0]] + s[1..];
      var rest := Filter(s[1..], p);
      if p(s[0]) then [s[0]] + rest else rest
  }

  /** Each row occurs in the filtered result as often as in the table if it passes, else never. */
  lemma {:induction false} FilterMultiset<T(!new)>(s: seq<T>, p: T -> bool)
    ensures forall x :: multiset(Filter(s, p))[x] == if p(x) then multiset(s)[x] else 0
  {
    if s != [] {
      FilterMultiset(s[1..], p);
      assert s == [s[0]] + s[1..];
    }
  }

  /** A DELETE whose condition holds of a single row removes that row and keeps the rest in order. */
  lemma {:induction false} FilterDropsOne<T(!new)>(s: seq<T>, p: T -> bool, k: int)
    requires 0 <= k < |s| && !p(s[k])
    requires forall i :: 0 <= i < |s| && i != k ==> p(s[i])
    ensures Filter(s, p) == s[..k] + s[k + 1..]
  {
    if k == 0 {
      calc {
        Filter(s, p);
        { FilterCons(s, p); }
        Filter(s[1..], p);
        { OnlyFailureInTail(s, p, k); }
        s[1..];
        { assert s[..k] == []; }
        s[..k] + s[k + 1..];
      }
    } else {
      calc {
        Filter(s, p);
        { FilterCons(s, p); }
        [s[0]] + Filter(s[1..], p);
        { OnlyFailureInTail(s, p, k); FilterDropsOne(s[1..], p, k - 1); }
        [s[0]] + (s[1..][..k - 1] + s[1..][k..]);
        { DropSplit(s, k); }
        s[..k] + s[k + 1..];
      }
    }
  }

  /** The rest of the table still has its one failing row, one place earlier, or none. */
  lemma OnlyFailureInTail<T>(s: seq<T>, p: T -> bool, k: int)
    requires 0 <= k < |s| && !p(s[k])
    requires forall i :: 0 <= i < |s| && i != k ==> p(s[i])
    ensures k == 0 ==> forall i :: 0 <= i < |s[1..]| ==> p(s[1..][i])
    ensures k > 0 ==> p(s[0]) && !p(s[1..][k - 1])
    ensures k > 0 ==> forall i :: 0 <= i < |s[1..]| && i != k - 1 ==> p(s[1..][i])
  {
    var tail := s[1..];
    forall i | 0 <= i < |tail| && i != k - 1 ensures p(tail[i]) { assert tail[i] == s[i + 1]; }
    if k > 0 { assert tail[k - 1] == s[k]; }
  }

  /** Removing position `k >= 1` commutes with splitting off the first element. */
  lemma DropSplit<T>(s: seq<T>, k: int)
    requires 1 <= k < |s|
    ensures s[..k] + s[k + 1..] == [s[0]] + (s[1..][..k - 1] + s[1..][k..])
  {
    assert s[..k] == [s[0]] + s[1..][..k - 1];
    assert s[k + 1..] == s[1..][k..];
  }

  /** One step of the filter: the first row, if it passes, followed by the filtered rest. */
  lemma FilterCons<T(!new)>(s: seq<T>, p: T -> bool)
    requires s != []
    ensures Filter(s, p) == if p(s[0]) then [s[0]] + Filter(s[1..], p) else Filter(s[1..], p)
  {
  }

  /**
   * Where each surviving row stood in the table: the filter keeps rows in table order,
   * as a subsequence picked out by strictly increasing positions.
   */
  function FilterPositions<T(!new)>(s: seq<T>, p: T -> bool): (idx: seq<nat>)
    ensures PicksOut(idx, s, Filter(s, p))
  {
    if s == [] then []
    else
      var rest := FilterPositions(s[1..], p);
      FilterCons(s, p);
      PicksOutStep(s, Filter(s[1..], p), rest, p(s[0]));
      if p(s[0]) then [0] + Shift(rest) else Shift(rest)
  }

  /** `idx` lists strictly increasing positions of `s` holding exactly the elements of `r`. */
  ghost predicate PicksOut<T>(idx: seq<nat>, s: seq<T>, r: seq<T>)
  {
    && |idx| == |r|
    && (forall k :: 0 <= k < |idx| ==> idx[k] < |s| && r[k] == s[idx[k]])
    && (forall k, l :: 0 <= k < l < |idx| ==> idx[k] < idx[l])
  }

  /** Every position moved one place on. */
  function Shift(idx: seq<nat>): (r: seq<nat>)
    ensures |r| == |idx| && forall k :: 0 <= k < |idx| ==> r[k] == idx[k] + 1
  {
    seq(|idx|, k requires 0 <= k < |idx| => idx[k] + 1)
  }

  /** Positions in the rest of a table, moved on by one, with the first row in front if it is kept. */
  lemma PicksOutStep<T>(s: seq<T>, f: seq<T>, rest: seq<nat>, keep: bool)
    requires s != [] && PicksOut(rest, s[1..], f)
    ensures keep ==> PicksOut([0] + Shift(rest), s, [s[0]] + f)
    ensures !keep ==> PicksOut(Shift(rest), s, f)
  {
    var sh := Shift(rest);
    forall k | 0 <= k < |sh| ensures sh[k] < |s| && f[k] == s[sh[k]] {
      assert s[sh[k]] == s[1..][rest[k]];
    }
    if keep {
      var idx := [0] + sh;
      var r := [s[0]] + f;
      forall k | 0 <= k < |idx| ensures idx[k] < |s| && r[k] == s[idx[k]] {
        if k > 0 { assert idx[k] == sh[k - 1] && r[k] == f[k - 1]; }
      }
      forall k, l | 0 <= k < l < |idx| ensures idx[k] < idx[l] {
        assert idx[l] == sh[l - 1];
        if k > 0 { assert idx[k] == sh[k - 1]; }
      }
    }
  }

  /** Filtering keeps a column's values pairwise distinct (a key stays a key after a DELETE). */
  lemma {:induction false} FilterKeepsKeyDistinct<T(!new), K>(s: seq<T>, p: T -> bool, key: T -> K)
    requires forall i, j :: 0 <= i < j < |s| ==> key(s[i]) != key(s[j])
    ensures forall i, j :: 0 <= i < j < |Filter(s, p)| ==> key(Filter(s, p)[i]) != key(Filter(s, p)[j])
  {
    if s != [] {
      var tail := s[1..];
      KeyDistinctTail(s, key);
      FilterKeepsKeyDistinct(tail, p, key);
      var rest := Filter(tail, p);
      forall j | 0 <= j < |rest| ensures key(s[0]) != key(rest[j]) {
        assert rest[j] in tail;
        var m :| 0 <= m < |tail| && tail[m] == rest[j];
        assert s[m + 1] == rest[j];
      }
      FilterCons(s, p);
      if p(s[0]) {
        KeyDistinctCons(s[0], rest, key);
      }
    }
  }

  /** Dropping the first element keeps a column distinct. */
  lemma KeyDistinctTail<T, K>(s: seq<T>, key: T -> K)
    requires s != []
    requires forall i, j :: 0 <= i < j < |s| ==> key(s[i]) != key(s[j])
    ensures forall i, j :: 0 <= i < j < |s[1..]| ==> key(s[1..][i]) != key(s[1..][j])
  {
    var tail := s[1..];
    forall i, j | 0 <= i < j < |tail| ensures key(tail[i]) != key(tail[j]) {
      assert tail[i] == s[i + 1] && tail[j] == s[j + 1];
    }
  }

  /** Putting a row with a new key value in front keeps a column distinct. */
  lemma KeyDistinctCons<T, K>(x: T, rest: seq<T>, key: T -> K)
    requires forall i, j :: 0 <= i < j < |rest| ==> key(rest[i]) != key(rest[j])
    requires forall j :: 0 <= j < |rest| ==> key(x) != key(rest[j])
    ensures forall i, j :: 0 <= i < j < |[x] + rest| ==> key(([x] + rest)[i]) != key(([x] + rest)[j])
  {
    var r := [x] + rest;
    forall i, j | 0 <= i < j < |r| ensures key(r[i]) != key(r[j]) {
      assert r[j] == rest[j - 1];
      if i > 0 {
        assert r[i] == rest[i - 1];
      }
    }
  }

  /** `fetchone()` on a filtered scan: the first row of `s` satisfying `p`, if any. */
  function First<T>(s: seq<T>, p: T -> bool): (r: Option<T>)
    ensures r.None? <==> forall i :: 0 <= i < |s| ==> !p(s[i])
    ensures r.Some? ==> exists i :: 0 <= i < |s| && s[i] == r.value && p(s[i])
                                    && forall j :: 0 <= j < i ==> !p(s[j])
  {
    if s == [] then None
    else if p(s[0]) then Some(s[0])
    else
      var r := First(s[1..], p);
      if r.Some? then FirstInTail(s, p, r.value); r else r
  }

  /** The first match in the tail of `s` is the first match in `s` when the head fails. */
  lemma FirstInTail<T>(s: seq<T>, p: T -> bool, v: T)
    requires s != [] && !p(s[0])
    requires exists i :: 0 <= i < |s[1..]| && s[1..][i] == v && p(s[1..][i])
                         && forall j :: 0 <= j < i ==> !p(s[1..][j])
    ensures exists i :: 0 <= i < |s| && s[i] == v && p(s[i]) && forall j :: 0 <= j < i ==> !p(s[j])
  {
    var i :| 0 <= i < |s[1..]| && s[1..][i] == v && p(s[1..][i])
             && forall j :: 0 <= j < i ==> !p(s[1..][j]);
    assert s[i + 1] == v;
    forall j | 0 <= j < i + 1 ensures !p(s[j]) {
      if j > 0 { assert s[j] == s[1..][j - 1]; }
    }
  }

  /** When exactly one row satisfies the condition, `fetchone()` returns that row. */
  lemma FirstOfUnique<T>(s: seq<T>, p: T -> bool, k: int)
    requires 0 <= k < |s| && p(s[k])
    requires forall i :: 0 <= i < |s| && p(s[i]) ==> i == k
    ensures First(s, p) == Some(s[k])
  {
  }

  /**
   * Two tables that agree, row by row, on which rows match and on the matching rows
   * themselves give the same `fetchone()`.
   */
  lemma {:induction false} FirstCongruent<T>(s: seq<T>, s': seq<T>, p: T -> bool)
    requires |s| == |s'|
    requires forall i :: 0 <= i < |s| ==> p(s[i]) == p(s'[i])
    requires forall i :: 0 <= i < |s| && p(s[i]) ==> s[i] == s'[i]
    ensures First(s, p) == First(s', p)
  {
    if s != [] && !p(s[0]) {
      assert forall i :: 0 <= i < |s[1..]| ==> s[1..][i] == s[i + 1] && s'[1..][i] == s'[i + 1];
      FirstCongruent(s[1..], s'[1..], p);
    }
  }

  /** `fetchall()` of a SELECT with a column list: every row projected by `f`, in order. */
  function Project<T, U>(s: seq<T>, f: T -> U): (r: seq<U>)
    ensures |r| == |s|
    ensures forall i :: 0 <= i < |s| ==> r[i] == f(s[i])
  {
    if s == [] then [] else [f(s[0])] + Project(s[1..], f)
  }

  /** A value is in the projection exactly when some row projects to it. */
  lemma ProjectMembership<T, U>(s: seq<T>, f: T -> U)
    ensures forall y :: y in Project(s, f) <==> exists x :: x in s && f(x) == y
  {
    if s != [] {
      forall y | y in Project(s, f) ensures exists x :: x in s && f(x) == y {
        var i :| 0 <= i < |s| && Project(s, f)[i] == y;
        assert s[i] in s;
      }
      forall y | exists x :: x in s && f(x) == y ensures y in Project(s, f) {
        var x :| x in s && f(x) == y;
        var i :| 0 <= i < |s| && s[i] == x;
        assert Project(s, f)[i] == y;
      }
    }
  }

  // ---------------------------------------------------------------------------
  // TEXT comparison under the BINARY collation
  // ---------------------------------------------------------------------------

  /**
   * `a <= b` under SQLite's BINARY collation: character-by-character comparison, and a
   * proper prefix sorts first. (Comparing code points in order gives the same result as
   * comparing their UTF-8 encodings byte by byte, which is what BINARY does.)
   */
  predicate StrLe(a: string, b: string)
  {
    if a == [] then true
    else if b == [] then false
    else if a[0] != b[0] then a[0] < b[0]
    else StrLe(a[1..], b[1..])
  }

  lemma {:induction false} StrLeReflexive(a: string)
    ensures StrLe(a, a)
  {
    if a != [] { StrLeReflexive(a[1..]); }
  }

  lemma {:induction false} StrLeTotal(a: string, b: string)
    ensures StrLe(a, b) || StrLe(b, a)
  {
    if a != [] && b != [] && a[0] == b[0] { StrLeTotal(a[1..], b[1..]); }
  }

  lemma {:induction false} StrLeAntisymmetric(a: string, b: string)
    requires StrLe(a, b) && StrLe(b, a)
    ensures a == b
  {
    if a != [] && b != [] {
      StrLeAntisymmetric(a[1..], b[1..]);
      assert a == [a[0]] + a[1..] && b == [b[0]] + b[1..];
    }
  }

  lemma {:induction false} StrLeTransitive(a: string, b: string, c: string)
    requires StrLe(a, b) && StrLe(b, c)
    ensures StrLe(a, c)
  {
    if a != [] && b != [] && c != [] && a[0] == b[0] && b[0] == c[0] {
      StrLeTransitive(a[1..], b[1..], c[1..]);
    }
  }

  // ---------------------------------------------------------------------------
  // ORDER BY k1, k2 on two TEXT columns
  // ---------------------------------------------------------------------------

  /** `ORDER BY k1, k2`: compare the first column, then the second on a tie. */
  predicate KeyLe(a: (string, string), b: (string, string))
  {
    if a.0 == b.0 then StrLe(a.1, b.1) else StrLe(a.0, b.0)
  }

  lemma KeyLeTotal(a: (string, string), b: (string, string))
    ensures KeyLe(a, b) || KeyLe(b, a)
  {
    StrLeTotal(a.0, b.0);
    StrLeTotal(a.1, b.1);
  }

  lemma KeyLeTransitive(a: (string, string), b: (string, string), c: (string, string))
    requires KeyLe(a, b) && KeyLe(b, c)
    ensures KeyLe(a, c)
  {
    if a.0 == b.0 && b.0 == c.0 {
      StrLeTransitive(a.1, b.1, c.1);
    } else if a.0 == b.0 || b.0 == c.0 {
    } else {
      StrLeTransitive(a.0, b.0, c.0);
      if a.0 == c.0 { StrLeAntisymmetric(a.0, b.0); }
    }
  }

  lemma KeyLeAntisymmetric(a: (string, string), b: (string, string))
    requires KeyLe(a, b) && KeyLe(b, a)
    ensures a == b
  {
    if a.0 == b.0 {
      StrLeAntisymmetric(a.1, b.1);
    } else {
      StrLeAntisymmetric(a.0, b.0);
    }
  }

  /** The rows of `s` are in nondecreasing order of `key`. */
  predicate SortedBy<T>(s: seq<T>, key: T -> (string, string))
  {
    forall i, j :: 0 <= i < j < |s| ==> KeyLe(key(s[i]), key(s[j]))
  }

  /** Inserts `x` into a sorted sequence, before the first row it does not follow. */
  function InsertBy<T>(x: T, s: seq<T>, key: T -> (string, string)): (r: seq<T>)
    requires SortedBy(s, key)
    ensures SortedBy(r, key)
    ensures multiset(r) == multiset(s) + multiset{x}
  {
    if s == [] then [x]
    else if KeyLe(key(x), key(s[0])) then
      HeadBelowSorted(x, s, key);
      [x] + s
    else
      var rest := InsertBy(x, s[1..], key);
      HeadBelowInserted(x, s, rest, key);
      [s[0]] + rest
  }

  /** Prepending a row that sorts before every row keeps a sequence sorted. */
  lemma PrependSorted<T>(x: T, s: seq<T>, key: T -> (string, string))
    requires SortedBy(s, key)
    requires forall j :: 0 <= j < |s| ==> KeyLe(key(x), key(s[j]))
    ensures SortedBy([x] + s, key)
  {
    var r := [x] + s;
    forall i, j | 0 <= i < j < |r| ensures KeyLe(key(r[i]), key(r[j])) {
      assert r[j] == s[j - 1];
      if i > 0 { assert r[i] == s[i - 1]; }
    }
  }

  lemma HeadBelowSorted<T>(x: T, s: seq<T>, key: T -> (string, string))
    requires SortedBy(s, key) && s != [] && KeyLe(key(x), key(s[0]))
    ensures SortedBy([x] + s, key)
  {
    forall j | 0 <= j < |s| ensures KeyLe(key(x), key(s[j])) {
      if j > 0 { KeyLeTransitive(key(x), key(s[0]), key(s[j])); }
    }
    PrependSorted(x, s, key);
  }

  lemma HeadBelowInserted<T>(x: T, s: seq<T>, rest: seq<T>, key: T -> (string, string))
    requires SortedBy(s, key) && s != [] && !KeyLe(key(x), key(s[0]))
    requires SortedBy(rest, key) && multiset(rest) == multiset(s[1..]) + multiset{x}
    ensures SortedBy([s[0]] + rest, key)
    ensures multiset([s[0]] + rest) == multiset(s) + multiset{x}
  {
    KeyLeTotal(key(x), key(s[0]));
    assert s == [s[0]] + s[1..];
    forall j | 0 <= j < |rest| ensures KeyLe(key(s[0]), key(rest[j])) {
      var y := rest[j];
      assert y in multiset(rest);
      if y != x {
        assert y in multiset(s[1..]);
        var k :| 0 <= k < |s[1..]| && s[1..][k] == y;
        assert s[k + 1] == y;
      }
    }
    PrependSorted(s[0], rest, key);
  }

  /** `ORDER BY key`: a sorted permutation of `s`. */
  function SortBy<T>(s: seq<T>, key: T -> (string, string)): (r: seq<T>)
    ensures SortedBy(r, key)
    ensures multiset(r) == multiset(s)
  {
    if s == [] then []
    else
      assert s == [s[0]] + s[1..];
      InsertBy(s[0], SortBy(s[1..], key), key)
  }

  /**
   * When no two different rows share a sort key, there is only one way to sort them:
   * any two sorted permutations of the same rows are equal.
   */
  lemma {:induction false} SortedPermutationUnique<T>(a: seq<T>, b: seq<T>, key: T -> (string, string))
    requires SortedBy(a, key) && SortedBy(b, key)
    requires multiset(a) == multiset(b)
    requires forall x, y :: x in a && y in a && key(x) == key(y) ==> x == y
    ensures a == b
  {
    assert |a| == |multiset(a)| == |multiset(b)| == |b|;
    if a != [] {
      SortedHeadsEqual(a, b, key);
      TailsSameMultiset(a, b);
      assert forall x :: x in a[1..] ==> x in a;
      SortedPermutationUnique(a[1..], b[1..], key);
      assert a == [a[0]] + a[1..] && b == [b[0]] + b[1..];
    }
  }

  /** The first rows of two sorted permutations of key-distinct rows coincide. */
  lemma SortedHeadsEqual<T>(a: seq<T>, b: seq<T>, key: T -> (string, string))
    requires SortedBy(a, key) && SortedBy(b, key) && a != [] && b != []
    requires multiset(a) == multiset(b)
    requires forall x, y :: x in a && y in a && key(x) == key(y) ==> x == y
    ensures a[0] == b[0]
  {
    assert a[0] in multiset(b) && b[0] in multiset(a);
    var i :| 0 <= i < |b| && b[i] == a[0];
    var j :| 0 <= j < |a| && a[j] == b[0];
    if i > 0 { assert KeyLe(key(b[0]), key(b[i])); } else { StrLeReflexive(key(b[0]).1); }
    if j > 0 { assert KeyLe(key(a[0]), key(a[j])); } else { StrLeReflexive(key(a[0]).1); }
    KeyLeAntisymmetric(key(a[0]), key(b[0]));
  }

  lemma TailsSameMultiset<T>(a: seq<T>, b: seq<T>)
    requires a != [] && b != [] && a[0] == b[0] && multiset(a) == multiset(b)
    ensures multiset(a[1..]) == multiset(b[1..])
  {
    assert a == [a[0]] + a[1..] && b == [b[0]] + b[1..];
    assert multiset(a[1..]) == multiset(a) - multiset{a[0]};
    assert multiset(b[1..]) == multiset(b) - multiset{a[0]};
  }
}
