/** ORDER BY: what it means for a sequence of rows to list a set in the order asked for. */
module Ordering {

  ghost predicate TotalPreorder<T>(s: set<T>, le: (T, T) -> bool) {
    && (forall x, y | x in s && y in s :: le(x, y) || le(y, x))
    && (forall x, y, z | x in s && y in s && z in s :: le(x, y) && le(y, z) ==> le(x, z))
  }

  ghost predicate Antisymmetric<T>(s: set<T>, le: (T, T) -> bool) {
    forall x, y | x in s && y in s :: le(x, y) && le(y, x) ==> x == y
  }

  /** `rows` holds every element of `s` exactly once, never out of order. A statement with an
      ORDER BY may return any sequence with this property, so ties come in any order. */
  ghost predicate Listing<T>(rows: seq<T>, s: set<T>, le: (T, T) -> bool) {
    && (forall x | x in s :: x in rows)
    && (forall i | 0 <= i < |rows| :: rows[i] in s)
    && (forall i, j | 0 <= i < j < |rows| :: rows[i] != rows[j] && le(rows[i], rows[j]))
  }

  lemma {:induction false} LeastExists<T>(s: set<T>, le: (T, T) -> bool) returns (least: T)
    requires s != {} && TotalPreorder(s, le)
    ensures least in s && forall y | y in s :: le(least, y)
  {
    var x :| x in s;
    if s == {x} {
      least := x;
    } else {
      var rest := s - {x};
      var y :| y in s && y != x;
      assert y in rest;
      var m := LeastExists(rest, le);
      least := if le(x, m) then x else m;
    }
  }

  lemma {:induction false} ListingTail<T>(rows: seq<T>, s: set<T>, le: (T, T) -> bool)
    requires rows != [] && Listing(rows, s, le)
    ensures Listing(rows[1..], s - {rows[0]}, le)
  {
    forall x | x in s - {rows[0]} ensures x in rows[1..] {
      var i :| 0 <= i < |rows| && rows[i] == x;
      assert rows[1..][i - 1] == x;
    }
  }

  lemma FirstIsLeast<T>(rows: seq<T>, s: set<T>, le: (T, T) -> bool, x: T)
    requires rows != [] && Listing(rows, s, le) && TotalPreorder(s, le) && x in s
    ensures le(rows[0], x)
  {
    var i :| 0 <= i < |rows| && rows[i] == x;
    assert rows[0] in s;
  }

  lemma SameFirst<T>(a: seq<T>, b: seq<T>, s: set<T>, le: (T, T) -> bool)
    requires a != [] && Listing(a, s, le) && Listing(b, s, le)
    requires TotalPreorder(s, le) && Antisymmetric(s, le)
    ensures b != [] && a[0] == b[0]
  {
    assert a[0] in s && a[0] in b;
    FirstIsLeast(a, s, le, b[0]);
    FirstIsLeast(b, s, le, a[0]);
  }

  lemma SmallerOrder<T>(s: set<T>, x: T, le: (T, T) -> bool)
    ensures TotalPreorder(s, le) ==> TotalPreorder(s - {x}, le)
    ensures Antisymmetric(s, le) ==> Antisymmetric(s - {x}, le)
  {
  }

  lemma NothingListed<T>(rows: seq<T>, s: set<T>, le: (T, T) -> bool)
    requires Listing(rows, s, le)
    ensures rows == [] <==> s == {}
  {
    if rows != [] { assert rows[0] in s; }
  }

  /** When no two rows tie, the order asked for leaves the database no choice. */
  lemma {:induction false} ListingUnique<T>(a: seq<T>, b: seq<T>, s: set<T>, le: (T, T) -> bool)
    requires Listing(a, s, le) && Listing(b, s, le)
    requires TotalPreorder(s, le) && Antisymmetric(s, le)
    ensures a == b
    decreases |a|
  {
    hide Listing, TotalPreorder, Antisymmetric;
    if a == [] {
      NothingListed(a, s, le);
      NothingListed(b, s, le);
    } else {
      SameFirst(a, b, s, le);
      SmallerOrder(s, a[0], le);
      ListingTail(a, s, le);
      ListingTail(b, s, le);
      ListingUnique(a[1..], b[1..], s - {a[0]}, le);
      assert a == [a[0]] + a[1..] && b == [b[0]] + b[1..];
    }
  }

  lemma {:induction false} ListingExists<T>(s: set<T>, le: (T, T) -> bool) returns (rows: seq<T>)
    requires TotalPreorder(s, le)
    ensures Listing(rows, s, le)
  {
    if s == {} {
      rows := [];
    } else {
      var least := LeastExists(s, le);
      var tail := ListingExists(s - {least}, le);
      rows := [least] + tail;
      forall x | x in s ensures x in rows {
        if x != least { assert x in tail; }
      }
      forall i | 0 <= i < |tail| ensures tail[i] in s && tail[i] != least && le(least, tail[i]) {
        assert tail[i] in s - {least};
      }
    }
  }

  /** One listing of `s`; the only one when no two rows tie. */
  ghost function Ordered<T>(s: set<T>, le: (T, T) -> bool): (rows: seq<T>)
    requires TotalPreorder(s, le)
    ensures Listing(rows, s, le)
  {
    ListingWitness(s, le);
    var rows :| Listing(rows, s, le);
    rows
  }

  lemma ListingWitness<T>(s: set<T>, le: (T, T) -> bool)
    requires TotalPreorder(s, le)
    ensures exists rows :: Listing(rows, s, le)
  {
    var rows := ListingExists(s, le);
  }

  /** The rows a SELECT with an ORDER BY steps through. Callers learn only that they are a listing. */
  method OrderBy<T(==)>(s: set<T>, le: (T, T) -> bool) returns (rows: seq<T>)
    requires TotalPreorder(s, le)
    ensures Listing(rows, s, le)
  {
    var rest := s;
    rows := [];
    while rest != {}
      invariant rest <= s
      invariant Listing(rows, s - rest, le)
      invariant forall x, y | x in rows && y in rest :: le(x, y)
      decreases rest
    {
      ghost var least := LeastExists(rest, le);
      var x :| x in rest && forall y | y in rest :: le(x, y);
      assert forall z | z in s - (rest - {x}) :: z == x || z in s - rest;
      rows, rest := rows + [x], rest - {x};
    }
    assert s - rest == s;
  }

  lemma {:induction false} ListingLength<T>(rows: seq<T>, s: set<T>, le: (T, T) -> bool)
    requires Listing(rows, s, le)
    ensures |rows| == |s|
    decreases |rows|
  {
    if rows == [] {
      assert s == {};
    } else {
      ListingInit(rows, s, le);
      assert rows[|rows| - 1] in s;
      ListingLength(rows[..|rows| - 1], s - {rows[|rows| - 1]}, le);
    }
  }

  lemma ListingConcat<T>(a: seq<T>, b: seq<T>, s: set<T>, t: set<T>, le: (T, T) -> bool)
    requires Listing(a, s, le) && Listing(b, t, le)
    requires forall x, y | x in s && y in t :: x != y && le(x, y)
    ensures Listing(a + b, s + t, le)
  {
  }

  lemma ListingInit<T>(rows: seq<T>, s: set<T>, le: (T, T) -> bool)
    requires rows != [] && Listing(rows, s, le)
    ensures Listing(rows[..|rows| - 1], s - {rows[|rows| - 1]}, le)
  {
    forall x | x in s && x != rows[|rows| - 1] ensures x in rows[..|rows| - 1] {
      var i :| 0 <= i < |rows| && rows[i] == x;
      assert rows[..|rows| - 1][i] == x;
    }
  }

  function Filter<T>(rows: seq<T>, keep: T -> bool): (kept: seq<T>)
    ensures forall x | x in kept :: x in rows && keep(x)
  {
    if rows == [] then []
    else Filter(rows[..|rows| - 1], keep) + if keep(rows[|rows| - 1]) then [rows[|rows| - 1]] else []
  }

  lemma FilterSnoc<T>(rows: seq<T>, last: T, keep: T -> bool)
    ensures Filter(rows + [last], keep) == Filter(rows, keep) + if keep(last) then [last] else []
  {
    assert (rows + [last])[..|rows|] == rows;
  }

  /** Filtering rows that are already in order gives the listing of the filtered set. */
  lemma {:induction false} FilterListing<T>(rows: seq<T>, s: set<T>, le: (T, T) -> bool, keep: T -> bool)
    requires Listing(rows, s, le)
    ensures Listing(Filter(rows, keep), (set x | x in s && keep(x)), le)
    decreases |rows|
  {
    if rows == [] {
      assert s == {};
    } else {
      var last := rows[|rows| - 1];
      ListingInit(rows, s, le);
      FilterListing(rows[..|rows| - 1], s - {last}, le, keep);
      var front := set x | x in s - {last} && keep(x);
      var back := if keep(last) then {last} else {};
      forall x, y | x in front && y in back ensures x != y && le(x, y) {
        var i :| 0 <= i < |rows| && rows[i] == x;
      }
      ListingConcat(Filter(rows[..|rows| - 1], keep), if keep(last) then [last] else [], front, back, le);
      assert front + back == set x | x in s && keep(x);
    }
  }

  lemma {:induction false} FilterHolds<T>(rows: seq<T>, keep: T -> bool, x: T)
    ensures x in Filter(rows, keep) <==> x in rows && keep(x)
  {
    if rows != [] {
      var n := |rows| - 1;
      FilterHolds(rows[..n], keep, x);
      assert rows == rows[..n] + [rows[n]];
    }
  }

  lemma {:induction false} FilterPairs<T>(rows: seq<T>, keep: T -> bool, before: (T, T) -> bool)
    requires forall j: nat, k: nat | j < k < |rows| :: before(rows[j], rows[k])
    ensures forall j: nat, k: nat | j < k < |Filter(rows, keep)| :: before(Filter(rows, keep)[j], Filter(rows, keep)[k])
  {
    if rows != [] {
      var n := |rows| - 1;
      var front := Filter(rows[..n], keep);
      FilterPairs(rows[..n], keep, before);
      forall j: nat | j < |front| ensures before(front[j], rows[n]) {
        assert front[j] in rows[..n];
        var i :| 0 <= i < n && rows[..n][i] == front[j];
      }
    }
  }

  // ---- Text in SQLite's default BINARY collation ----

  predicate TextLe(a: string, b: string) {
    if a == [] then true
    else if b == [] then false
    else if a[0] == b[0] then TextLe(a[1..], b[1..])
    else a[0] < b[0]
  }

  lemma {:induction false} TextTotal(a: string, b: string)
    ensures TextLe(a, b) || TextLe(b, a)
    ensures TextLe(a, b) && TextLe(b, a) ==> a == b
  {
    if a != [] && b != [] && a[0] == b[0] {
      TextTotal(a[1..], b[1..]);
      assert a == [a[0]] + a[1..] && b == [b[0]] + b[1..];
    }
  }

  lemma {:induction false} TextTransitive(a: string, b: string, c: string)
    requires TextLe(a, b) && TextLe(b, c)
    ensures TextLe(a, c)
  {
    if a != [] && b != [] && c != [] && a[0] == b[0] && b[0] == c[0] {
      TextTransitive(a[1..], b[1..], c[1..]);
    }
  }

  /** `a` and `b` agree on `n` characters, and then `a` ends or has the smaller one. */
  predicate SmallerAt(a: string, b: string, n: nat) {
    n <= |a| && n < |b| && a[..n] == b[..n] && (n == |a| || a[n] < b[n])
  }

  ghost predicate TextBefore(a: string, b: string) { exists n: nat :: SmallerAt(a, b, n) }

  lemma SmallerInTail(a: string, b: string, n: nat)
    requires a != [] && b != [] && a[0] == b[0]
    ensures SmallerAt(a[1..], b[1..], n) <==> SmallerAt(a, b, n + 1)
  {
    if n < |a| && n < |b| - 1 {
      assert a[..n + 1] == [a[0]] + a[1..][..n] && b[..n + 1] == [b[0]] + b[1..][..n];
      assert a[..n + 1][1..] == a[1..][..n] && b[..n + 1][1..] == b[1..][..n];
    }
  }

  lemma SmallerNotAtFirst(a: string, b: string, n: nat)
    requires SmallerAt(a, b, n) && n > 0
    ensures a != [] && b != [] && a[0] == b[0]
  {
    assert a[..n][0] == b[..n][0];
  }

  /** The order of texts, character by character: before a longer text with the same start, and before
      a text with the larger character at the first place where the two differ. */
  lemma {:induction false} TextOrderMeaning(a: string, b: string)
    ensures TextLe(a, b) <==> a == b || TextBefore(a, b)
  {
    if a != [] && b != [] && a[0] == b[0] {
      TextOrderMeaning(a[1..], b[1..]);
      assert a == b <==> a[1..] == b[1..] by { assert a == [a[0]] + a[1..] && b == [b[0]] + b[1..]; }
      if n: nat :| SmallerAt(a[1..], b[1..], n) {
        SmallerInTail(a, b, n);
      }
      if n: nat :| SmallerAt(a, b, n) {
        assert n > 0;
        SmallerInTail(a, b, n - 1);
      }
    } else {
      assert SmallerAt(a, b, 0) <==> b != [] && (a == [] || a[0] < b[0]);
      forall n: nat | SmallerAt(a, b, n) ensures n == 0 {
        if n > 0 { SmallerNotAtFirst(a, b, n); }
      }
    }
  }
}
