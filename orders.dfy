/**
  The orders behind the catalog's sorted views: the lexicographic order that
  Java's String.compareTo puts on names (used by TreeSet, TreeMap and
  Stream.sorted), and ascending sequences of names built from a set, sorted by
  insertion or filtered out of a longer sequence.
*/
module Orders {

  // ---------------------------------------------------------------------------
  // Lexicographic order on strings
  // ---------------------------------------------------------------------------

  /** `a` is lexicographically at most `b`: characters are compared one by one
      and a proper prefix comes first. */
  predicate LessEq(a: string, b: string)
    decreases |a|
  {
    a == [] || (b != [] && (a[0] < b[0] || (a[0] == b[0] && LessEq(a[1..], b[1..]))))
  }

  predicate Less(a: string, b: string)
  {
    LessEq(a, b) && a != b
  }

  lemma {:induction false} LessEqReflexive(a: string)
    ensures LessEq(a, a)
  {
    if a != [] {
      LessEqReflexive(a[1..]);
    }
  }

  lemma {:induction false} LessEqAntisymmetric(a: string, b: string)
    requires LessEq(a, b) && LessEq(b, a)
    ensures a == b
  {
    if a != [] && b != [] {
      LessEqAntisymmetric(a[1..], b[1..]);
      assert a == [a[0]] + a[1..] && b == [b[0]] + b[1..];
    }
  }

  lemma {:induction false} LessEqTransitive(a: string, b: string, c: string)
    requires LessEq(a, b) && LessEq(b, c)
    ensures LessEq(a, c)
  {
    if a != [] && a[0] == b[0] && b[0] == c[0] {
      LessEqTransitive(a[1..], b[1..], c[1..]);
    }
  }

  lemma {:induction false} LessEqTotal(a: string, b: string)
    ensures LessEq(a, b) || LessEq(b, a)
  {
    if a != [] && b != [] && a[0] == b[0] {
      LessEqTotal(a[1..], b[1..]);
    }
  }

  /** `Less` is a strict total order: irreflexive, transitive and connected. */
  lemma LessIsStrictTotalOrder(a: string, b: string, c: string)
    ensures !Less(a, a)
    ensures Less(a, b) && Less(b, c) ==> Less(a, c)
    ensures a != b ==> Less(a, b) || Less(b, a)
  {
    LessEqTotal(a, b);
    if Less(a, b) && Less(b, c) {
      LessEqTransitive(a, b, c);
      if a == c {
        LessEqAntisymmetric(a, b);
      }
    }
  }

  // ---------------------------------------------------------------------------
  // Ascending sequences of names
  // ---------------------------------------------------------------------------

  /** Strictly ascending, hence free of duplicates. */
  ghost predicate StrictlyAscending(s: seq<string>)
  {
    forall i, j :: 0 <= i < j < |s| ==> Less(s[i], s[j])
  }

  ghost predicate Ascending(s: seq<string>)
  {
    forall i, j :: 0 <= i < j < |s| ==> LessEq(s[i], s[j])
  }

  predicate IsLeast(m: string, s: set<string>)
  {
    m in s && forall y :: y in s ==> LessEq(m, y)
  }

  lemma {:induction false} LeastExists(s: set<string>)
    requires s != {}
    ensures exists m :: IsLeast(m, s)
    decreases |s|
  {
    var x :| x in s;
    if s == {x} {
      LessEqReflexive(x);
      assert IsLeast(x, s);
    } else {
      LeastExists(s - {x});
      var m :| IsLeast(m, s - {x});
      LessEqTotal(x, m);
      if LessEq(x, m) {
        forall y | y in s
          ensures LessEq(x, y)
        {
          if y == x {
            LessEqReflexive(x);
          } else {
            LessEqTransitive(x, m, y);
          }
        }
        assert IsLeast(x, s);
      } else {
        assert IsLeast(m, s);
      }
    }
  }

  lemma LeastUnique(s: set<string>)
    ensures forall m, m' :: IsLeast(m, s) && IsLeast(m', s) ==> m == m'
  {
    forall m, m' | IsLeast(m, s) && IsLeast(m', s)
      ensures m == m'
    {
      LessEqAntisymmetric(m, m');
    }
  }

  /** The names of `s` in ascending order, each exactly once: what a Java
      TreeSet hands out when it is copied into a list. */
  function SortedFromSet(s: set<string>): (r: seq<string>)
    ensures StrictlyAscending(r)
    ensures |r| == |s|
    ensures forall x :: x in r <==> x in s
    decreases |s|
  {
    if s == {} then []
    else
      LeastExists(s);
      LeastUnique(s);
      var m :| IsLeast(m, s);
      var rest := SortedFromSet(s - {m});
      forall j | 0 <= j < |rest|
        ensures Less(m, rest[j])
      {
        assert rest[j] in s - {m};
      }
      [m] + rest
  }

  /** A set has only one strictly ascending arrangement. */
  lemma {:induction false} StrictlyAscendingUnique(r1: seq<string>, r2: seq<string>)
    requires StrictlyAscending(r1) && StrictlyAscending(r2)
    requires forall x :: x in r1 <==> x in r2
    ensures r1 == r2
  {
    assert r1 != [] ==> r1[0] in r2;
    assert r2 != [] ==> r2[0] in r1;
    if r1 != [] && r2 != [] {
      var i :| 0 <= i < |r1| && r1[i] == r2[0];
      var j :| 0 <= j < |r2| && r2[j] == r1[0];
      assert LessEq(r1[0], r2[0]) by { if i > 0 { assert Less(r1[0], r1[i]); } else { LessEqReflexive(r1[0]); } }
      assert LessEq(r2[0], r1[0]) by { if j > 0 { assert Less(r2[0], r2[j]); } else { LessEqReflexive(r2[0]); } }
      LessEqAntisymmetric(r1[0], r2[0]);
      forall x
        ensures x in r1[1..] <==> x in r2[1..]
      {
        if x in r1[1..] {
          var i :| 1 <= i < |r1| && r1[i] == x;
          assert Less(r1[0], r1[i]);
          assert x in r1 && x in r2;
          var j :| 0 <= j < |r2| && r2[j] == x;
          assert j != 0;
          assert r2[1..][j - 1] == x;
        }
        if x in r2[1..] {
          var j :| 1 <= j < |r2| && r2[j] == x;
          assert Less(r2[0], r2[j]);
          assert x in r2 && x in r1;
          var i :| 0 <= i < |r1| && r1[i] == x;
          assert i != 0;
          assert r1[1..][i - 1] == x;
        }
      }
      StrictlyAscendingTail(r1);
      StrictlyAscendingTail(r2);
      StrictlyAscendingUnique(r1[1..], r2[1..]);
      assert r1 == [r1[0]] + r1[1..] && r2 == [r2[0]] + r2[1..];
    }
  }

  /** The subsequence of a strictly ascending sequence is strictly ascending. */
  lemma StrictlyAscendingTail(s: seq<string>)
    requires StrictlyAscending(s) && s != []
    ensures StrictlyAscending(s[1..])
  {
    forall i, j | 0 <= i < j < |s| - 1
      ensures Less(s[1..][i], s[1..][j])
    {
      assert s[1..][i] == s[i + 1] && s[1..][j] == s[j + 1];
    }
  }

  /** Inserts `x` into an ascending sequence before the first element it does
      not exceed. */
  function Insert(x: string, s: seq<string>): (r: seq<string>)
    requires Ascending(s)
    ensures Ascending(r)
    ensures multiset(r) == multiset(s) + multiset{x}
  {
    if s == [] then [x]
    else if LessEq(x, s[0]) then
      forall k | 0 <= k < |s| ensures LessEq(x, s[k]) {
        if k > 0 { LessEqTransitive(x, s[0], s[k]); }
      }
      ConsAscending(x, s);
      [x] + s
    else
      AscendingTail(s);
      var t := Insert(x, s[1..]);
      InsertedAbove(x, s, t);
      ConsAscending(s[0], t);
      assert s == [s[0]] + s[1..];
      [s[0]] + t
  }

  lemma AscendingTail(s: seq<string>)
    requires Ascending(s) && s != []
    ensures Ascending(s[1..])
  {
    forall i, j | 0 <= i < j < |s| - 1 ensures LessEq(s[1..][i], s[1..][j]) {
      assert s[1..][i] == s[i + 1] && s[1..][j] == s[j + 1];
    }
  }

  lemma ConsAscending(y: string, t: seq<string>)
    requires Ascending(t)
    requires forall k :: 0 <= k < |t| ==> LessEq(y, t[k])
    ensures Ascending([y] + t)
  {
    var r := [y] + t;
    forall i, j | 0 <= i < j < |r| ensures LessEq(r[i], r[j]) {
      assert r[j] == t[j - 1];
      if i > 0 {
        assert r[i] == t[i - 1];
      }
    }
  }

  /** Every element of `t`, which holds the tail of `s` and `x`, is at least
      the head of `s` when `x` is. */
  lemma InsertedAbove(x: string, s: seq<string>, t: seq<string>)
    requires Ascending(s) && s != [] && !LessEq(x, s[0])
    requires multiset(t) == multiset(s[1..]) + multiset{x}
    ensures forall k :: 0 <= k < |t| ==> LessEq(s[0], t[k])
  {
    LessEqTotal(x, s[0]);
    forall k | 0 <= k < |t| ensures LessEq(s[0], t[k]) {
      assert t[k] in multiset(t);
      if t[k] != x {
        assert t[k] in multiset(s[1..]);
        var j :| 0 <= j < |s[1..]| && s[1..][j] == t[k];
        assert s[j + 1] == t[k];
      }
    }
  }

  /** Insertion sort of a list of names, as Collections.sort leaves it. */
  function Sort(s: seq<string>): (r: seq<string>)
    ensures Ascending(r)
    ensures multiset(r) == multiset(s)
  {
    if s == [] then []
    else
      assert s == [s[0]] + s[1..];
      Insert(s[0], Sort(s[1..]))
  }

  /** Sorting a list that is already ascending leaves it as it is. */
  lemma {:induction false} SortAscendingIsIdentity(s: seq<string>)
    requires Ascending(s)
    ensures Sort(s) == s
  {
    if s != [] {
      AscendingTail(s);
      SortAscendingIsIdentity(s[1..]);
      assert s == [s[0]] + s[1..];
    }
  }

  /** The elements of `ns` that lie in `keep`, in their order in `ns`: a
      stream filter over a list of names. */
  function Restrict(ns: seq<string>, keep: set<string>): (r: seq<string>)
    ensures forall x :: x in r <==> x in ns && x in keep
  {
    if ns == [] then []
    else
      var init, last := ns[..|ns| - 1], ns[|ns| - 1];
      assert ns == init + [last];
      Restrict(init, keep) + (if last in keep then [last] else [])
  }

  /** Filtering one more element of `ns` extends the filtered prefix by that
      element when it is kept. */
  lemma RestrictPrefix(ns: seq<string>, i: nat, keep: set<string>)
    requires i < |ns|
    ensures Restrict(ns[..i + 1], keep) == Restrict(ns[..i], keep) + (if ns[i] in keep then [ns[i]] else [])
  {
    assert ns[..i + 1][..i] == ns[..i];
  }

  lemma {:induction false} RestrictAscending(ns: seq<string>, keep: set<string>)
    requires StrictlyAscending(ns)
    ensures StrictlyAscending(Restrict(ns, keep))
  {
    if ns != [] {
      var init, last := ns[..|ns| - 1], ns[|ns| - 1];
      assert StrictlyAscending(init) by {
        forall i, j | 0 <= i < j < |init| ensures Less(init[i], init[j]) {
          assert init[i] == ns[i] && init[j] == ns[j];
        }
      }
      RestrictAscending(init, keep);
      var r0 := Restrict(init, keep);
      forall i | 0 <= i < |r0| ensures Less(r0[i], last) {
        assert r0[i] in init;
        var k :| 0 <= k < |init| && init[k] == r0[i];
        assert ns[k] == r0[i];
      }
    }
  }

  // ---------------------------------------------------------------------------
  // Enumerations of a set
  // ---------------------------------------------------------------------------

  ghost predicate NoDuplicates(s: seq<string>)
  {
    forall i, j :: 0 <= i < j < |s| ==> s[i] != s[j]
  }

  lemma StrictlyAscendingNoDuplicates(s: seq<string>)
    requires StrictlyAscending(s)
    ensures NoDuplicates(s) && Ascending(s)
  {
  }

  lemma {:induction false} NoDuplicatesCount(s: seq<string>, x: string)
    requires NoDuplicates(s)
    ensures multiset(s)[x] == if x in s then 1 else 0
  {
    if s != [] {
      assert NoDuplicates(s[1..]) by {
        forall i, j | 0 <= i < j < |s| - 1 ensures s[1..][i] != s[1..][j] {
          assert s[1..][i] == s[i + 1] && s[1..][j] == s[j + 1];
        }
      }
      NoDuplicatesCount(s[1..], x);
      assert s == [s[0]] + s[1..];
      assert multiset(s) == multiset{s[0]} + multiset(s[1..]);
      if x == s[0] {
        assert x !in s[1..] by {
          forall j | 0 <= j < |s| - 1
            ensures s[1..][j] != x
          {
            assert s[1..][j] == s[j + 1];
          }
        }
      }
    }
  }

  /** Two duplicate-free listings of the same names are permutations of each
      other. */
  lemma SameElementsSameMultiset(a: seq<string>, b: seq<string>)
    requires NoDuplicates(a) && NoDuplicates(b)
    requires forall x :: x in a <==> x in b
    ensures multiset(a) == multiset(b)
  {
    forall x
      ensures multiset(a)[x] == multiset(b)[x]
    {
      NoDuplicatesCount(a, x);
      NoDuplicatesCount(b, x);
    }
  }
}
