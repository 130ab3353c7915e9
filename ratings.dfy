/**
  The rating store's values: a rating and its printed form, the mean of a list
  of ratings (Java's IntStream.average, kept exact), the stable sort by
  descending star count that getRatingsForProduct applies, and the flattening
  of the per-product rating lists that averageStars and starsPerActivity
  average over.
*/
module Ratings {
  import Decimal

  /** A user's rating of a product. `productName` and `userName` are stored
      and never read by any query. */
  datatype Rating = Rating(productName: string, userName: string, stars: int, comment: string)

  /** Rating.toString: the star count, " : ", then the comment. */
  function Format(r: Rating): string
  {
    Decimal.IntToDecimal(r.stars) + " : " + r.comment
  }

  /** A rating the store accepts has a single-digit star count, so its printed
      form reads back as that count, the separator and the comment. */
  lemma FormatReadsBack(r: Rating)
    requires 0 <= r.stars <= 5
    ensures |Format(r)| == 4 + |r.comment|
    ensures Decimal.IsDigit(Format(r)[0]) && Format(r)[0] as int - '0' as int == r.stars
    ensures Format(r)[1..4] == " : " && Format(r)[4..] == r.comment
  {
  }

  /** The printed form of each rating in turn. When every rating has 0 to 5
      stars, line i reads back as the stars, the separator and the comment of
      rating i. */
  function FormatAll(rs: seq<Rating>): (lines: seq<string>)
    ensures |lines| == |rs|
    ensures StarsInRange(rs) ==> forall i :: 0 <= i < |rs| ==>
              && |lines[i]| == 4 + |rs[i].comment|
              && lines[i][0] as int - '0' as int == rs[i].stars
              && lines[i][1..4] == " : "
              && lines[i][4..] == rs[i].comment
  {
    forall i | 0 <= i < |rs| && 0 <= rs[i].stars <= 5
      ensures |Format(rs[i])| == 4 + |rs[i].comment|
      ensures Format(rs[i])[0] as int - '0' as int == rs[i].stars
      ensures Format(rs[i])[1..4] == " : " && Format(rs[i])[4..] == rs[i].comment
    {
      FormatReadsBack(rs[i]);
    }
    seq(|rs|, i requires 0 <= i < |rs| => Format(rs[i]))
  }

  // ---------------------------------------------------------------------------
  // Sums and means
  // ---------------------------------------------------------------------------

  predicate StarsInRange(rs: seq<Rating>)
  {
    forall i :: 0 <= i < |rs| ==> 0 <= rs[i].stars <= 5
  }

  function StarSum(rs: seq<Rating>): int
  {
    if rs == [] then 0 else rs[0].stars + StarSum(rs[1..])
  }

  lemma {:induction false} StarSumAppend(a: seq<Rating>, b: seq<Rating>)
    ensures StarSum(a + b) == StarSum(a) + StarSum(b)
  {
    if a == [] {
      assert a + b == b;
    } else {
      assert (a + b)[0] == a[0] && (a + b)[1..] == a[1..] + b;
      StarSumAppend(a[1..], b);
    }
  }

  lemma {:induction false} StarSumBounds(rs: seq<Rating>)
    ensures StarsInRange(rs) ==> 0 <= StarSum(rs) <= 5 * |rs|
    ensures StarsInRange(rs) ==> (StarSum(rs) == 0 <==> forall i :: 0 <= i < |rs| ==> rs[i].stars == 0)
  {
    if rs != [] {
      StarSumBounds(rs[1..]);
      if StarsInRange(rs) {
        assert StarsInRange(rs[1..]) by {
          forall i | 0 <= i < |rs| - 1 ensures 0 <= rs[1..][i].stars <= 5 {
            assert rs[1..][i] == rs[i + 1];
          }
        }
        if forall i :: 0 <= i < |rs| - 1 ==> rs[1..][i].stars == 0 {
          forall i | 1 <= i < |rs| ensures rs[i].stars == 0 {
            assert rs[1..][i - 1] == rs[i];
          }
        }
        if forall i :: 0 <= i < |rs| ==> rs[i].stars == 0 {
          forall i | 0 <= i < |rs| - 1 ensures rs[1..][i].stars == 0 {
            assert rs[1..][i] == rs[i + 1];
          }
        }
      }
    }
  }

  /** `m` is the mean of the star counts of `rs`: `m` times the number of
      ratings is their star total. */
  ghost predicate IsMeanOf(m: real, rs: seq<Rating>)
  {
    m * (|rs| as real) == StarSum(rs) as real
  }

  /** The arithmetic mean of the star counts; 0 for no ratings. */
  function Mean(rs: seq<Rating>): (m: real)
    ensures rs == [] ==> m == 0.0
    ensures rs != [] ==> IsMeanOf(m, rs)
    ensures StarsInRange(rs) ==> 0.0 <= m <= 5.0
    ensures StarsInRange(rs) ==> (m == 0.0 <==> forall i :: 0 <= i < |rs| ==> rs[i].stars == 0)
  {
    StarSumBounds(rs);
    if rs == [] then 0.0
    else
      var n, s := |rs| as real, StarSum(rs) as real;
      QuotientBounds(s, n);
      s / n
  }

  lemma QuotientBounds(s: real, n: real)
    requires n > 0.0
    ensures (s / n) * n == s
    ensures 0.0 <= s <= 5.0 * n ==> 0.0 <= s / n <= 5.0
    ensures s / n == 0.0 <==> s == 0.0
  {
    var q := s / n;
    assert (q - 5.0) * n == s - 5.0 * n;
  }

  // ---------------------------------------------------------------------------
  // Stable sort by descending star count
  // ---------------------------------------------------------------------------

  ghost predicate NonIncreasing(rs: seq<Rating>)
  {
    forall i, j :: 0 <= i < j < |rs| ==> rs[i].stars >= rs[j].stars
  }

  /** The ratings with `k` stars, in their order in `rs`. */
  function WithStars(rs: seq<Rating>, k: int): seq<Rating>
  {
    if rs == [] then [] else (if rs[0].stars == k then [rs[0]] else []) + WithStars(rs[1..], k)
  }

  /** `r` is `rs` sorted by descending stars, with ratings of equal stars in
      the order they had in `rs` (a stable sort). */
  ghost predicate IsStableDescendingOf(r: seq<Rating>, rs: seq<Rating>)
  {
    && NonIncreasing(r)
    && multiset(r) == multiset(rs)
    && forall k :: WithStars(r, k) == WithStars(rs, k)
  }

  /** Places `x` after every rating with at least as many stars. */
  function InsertByStars(x: Rating, rs: seq<Rating>): seq<Rating>
  {
    if rs == [] then [x]
    else if rs[0].stars < x.stars then [x] + rs
    else [rs[0]] + InsertByStars(x, rs[1..])
  }

  /** Insertion sort, inserting the ratings in list order, so that later
      ratings go after earlier ones with the same stars. */
  function SortByStars(rs: seq<Rating>): seq<Rating>
  {
    if rs == [] then [] else InsertByStars(rs[|rs| - 1], SortByStars(rs[..|rs| - 1]))
  }

  lemma {:induction false} WithStarsAppend(a: seq<Rating>, b: seq<Rating>, k: int)
    ensures WithStars(a + b, k) == WithStars(a, k) + WithStars(b, k)
  {
    if a == [] {
      assert a + b == b;
    } else {
      var h: seq<Rating> := if a[0].stars == k then [a[0]] else [];
      assert (a + b)[0] == a[0] && (a + b)[1..] == a[1..] + b;
      WithStarsAppend(a[1..], b, k);
      calc {
        WithStars(a + b, k);
        h + WithStars(a[1..] + b, k);
        h + (WithStars(a[1..], k) + WithStars(b, k));
        (h + WithStars(a[1..], k)) + WithStars(b, k);
      }
    }
  }

  lemma {:induction false} WithStarsMembers(rs: seq<Rating>, k: int)
    ensures forall x :: x in WithStars(rs, k) <==> x in rs && x.stars == k
  {
    if rs != [] {
      WithStarsMembers(rs[1..], k);
      assert rs == [rs[0]] + rs[1..];
      var head := if rs[0].stars == k then [rs[0]] else [];
      assert WithStars(rs, k) == head + WithStars(rs[1..], k);
      forall x
        ensures x in WithStars(rs, k) <==> x in rs && x.stars == k
      {
        assert x in WithStars(rs, k) <==> x in head || x in WithStars(rs[1..], k);
        assert x in rs <==> x == rs[0] || x in rs[1..];
      }
    }
  }

  lemma {:induction false} WithStarsNone(rs: seq<Rating>, k: int)
    requires forall i :: 0 <= i < |rs| ==> rs[i].stars != k
    ensures WithStars(rs, k) == []
  {
    if rs != [] {
      WithStarsNone(rs[1..], k);
    }
  }

  lemma NonIncreasingTail(rs: seq<Rating>)
    requires NonIncreasing(rs) && rs != []
    ensures NonIncreasing(rs[1..])
  {
    forall i, j | 0 <= i < j < |rs| - 1 ensures rs[1..][i].stars >= rs[1..][j].stars {
      assert rs[1..][i] == rs[i + 1] && rs[1..][j] == rs[j + 1];
    }
  }

  lemma {:induction false} InsertByStarsMultiset(x: Rating, rs: seq<Rating>)
    ensures multiset(InsertByStars(x, rs)) == multiset(rs) + multiset{x}
  {
    if rs != [] && rs[0].stars >= x.stars {
      InsertByStarsMultiset(x, rs[1..]);
      assert rs == [rs[0]] + rs[1..];
    }
  }

  lemma {:induction false} InsertByStarsNonIncreasing(x: Rating, rs: seq<Rating>)
    requires NonIncreasing(rs)
    ensures NonIncreasing(InsertByStars(x, rs))
  {
    if rs == [] {
    } else if rs[0].stars < x.stars {
      ConsNonIncreasing(x, rs);
    } else {
      NonIncreasingTail(rs);
      InsertByStarsNonIncreasing(x, rs[1..]);
      InsertByStarsMultiset(x, rs[1..]);
      var t := InsertByStars(x, rs[1..]);
      forall j | 0 <= j < |t| ensures rs[0].stars >= t[j].stars {
        assert t[j] in multiset(t);
        assert t[j] == x || t[j] in rs[1..];
      }
      ConsNonIncreasing(rs[0], t);
    }
  }

  lemma ConsNonIncreasing(y: Rating, t: seq<Rating>)
    requires NonIncreasing(t)
    requires forall j :: 0 <= j < |t| ==> y.stars >= t[j].stars
    ensures NonIncreasing([y] + t)
  {
    var r := [y] + t;
    forall i, j | 0 <= i < j < |r| ensures r[i].stars >= r[j].stars {
      assert r[j] == t[j - 1];
      if i > 0 {
        assert r[i] == t[i - 1];
      }
    }
  }

  lemma {:induction false} InsertByStarsWithStars(x: Rating, rs: seq<Rating>, k: int)
    requires NonIncreasing(rs)
    ensures WithStars(InsertByStars(x, rs), k) == WithStars(rs, k) + (if x.stars == k then [x] else [])
  {
    if rs == [] {
      assert [x][1..] == [];
    } else if rs[0].stars < x.stars {
      InsertFrontWithStars(x, rs, k);
    } else {
      NonIncreasingTail(rs);
      InsertByStarsWithStars(x, rs[1..], k);
      InsertLaterWithStars(x, rs, k);
    }
  }

  /** `x` goes in front of ratings with fewer stars, which it has no peer
      among. */
  lemma InsertFrontWithStars(x: Rating, rs: seq<Rating>, k: int)
    requires NonIncreasing(rs) && rs != [] && rs[0].stars < x.stars
    ensures WithStars(InsertByStars(x, rs), k) == WithStars(rs, k) + (if x.stars == k then [x] else [])
  {
    var xk: seq<Rating> := if x.stars == k then [x] else [];
    var r := [x] + rs;
    assert InsertByStars(x, rs) == r;
    assert r[0] == x && r[1..] == rs;
    assert WithStars(r, k) == xk + WithStars(rs, k);
    if x.stars == k {
      forall i | 0 <= i < |rs| ensures rs[i].stars != k {
        assert i == 0 || rs[0].stars >= rs[i].stars;
      }
      WithStarsNone(rs, k);
    }
  }

  /** `x` goes after a first rating with at least as many stars. */
  lemma InsertLaterWithStars(x: Rating, rs: seq<Rating>, k: int)
    requires rs != [] && rs[0].stars >= x.stars
    requires WithStars(InsertByStars(x, rs[1..]), k) == WithStars(rs[1..], k) + (if x.stars == k then [x] else [])
    ensures WithStars(InsertByStars(x, rs), k) == WithStars(rs, k) + (if x.stars == k then [x] else [])
  {
    var xk: seq<Rating> := if x.stars == k then [x] else [];
    var t := InsertByStars(x, rs[1..]);
    var r := [rs[0]] + t;
    assert InsertByStars(x, rs) == r;
    assert r[0] == rs[0] && r[1..] == t;
    var h: seq<Rating> := if rs[0].stars == k then [rs[0]] else [];
    assert WithStars(r, k) == h + WithStars(t, k);
    assert WithStars(rs, k) == h + WithStars(rs[1..], k);
    assert h + (WithStars(rs[1..], k) + xk) == (h + WithStars(rs[1..], k)) + xk;
  }

  /** SortByStars is a stable sort by descending stars. */
  lemma {:induction false} SortByStarsIsStable(rs: seq<Rating>)
    ensures IsStableDescendingOf(SortByStars(rs), rs)
  {
    if rs != [] {
      var init, x := rs[..|rs| - 1], rs[|rs| - 1];
      var sorted := SortByStars(init);
      assert SortByStars(rs) == InsertByStars(x, sorted);
      SortByStarsIsStable(init);
      InsertByStarsNonIncreasing(x, sorted);
      InsertByStarsMultiset(x, sorted);
      assert rs == init + [x];
      assert multiset(rs) == multiset(init) + multiset{x};
      forall k
        ensures WithStars(SortByStars(rs), k) == WithStars(rs, k)
      {
        InsertByStarsWithStars(x, sorted, k);
        WithStarsAppend(init, [x], k);
        assert WithStars([x], k) == if x.stars == k then [x] else [];
      }
    }
  }

  /** The stable descending arrangement is unique: it is fixed by its order
      on stars and by the order within each star count. */
  lemma {:induction false} StableDescendingUnique(r1: seq<Rating>, r2: seq<Rating>, rs: seq<Rating>)
    requires IsStableDescendingOf(r1, rs) && IsStableDescendingOf(r2, rs)
    ensures r1 == r2
  {
    UniqueByStars(r1, r2);
  }

  lemma {:induction false} UniqueByStars(r1: seq<Rating>, r2: seq<Rating>)
    requires NonIncreasing(r1) && NonIncreasing(r2)
    requires forall k :: WithStars(r1, k) == WithStars(r2, k)
    ensures r1 == r2
  {
    SameEmptiness(r1, r2);
    if r1 != [] {
      SameHead(r1, r2);
      forall k
        ensures WithStars(r1[1..], k) == WithStars(r2[1..], k)
      {
        SameTail(r1, r2, k);
      }
      NonIncreasingTail(r1);
      NonIncreasingTail(r2);
      UniqueByStars(r1[1..], r2[1..]);
      assert r1 == [r1[0]] + r1[1..] && r2 == [r2[0]] + r2[1..];
    }
  }

  lemma SameEmptiness(r1: seq<Rating>, r2: seq<Rating>)
    requires forall k :: WithStars(r1, k) == WithStars(r2, k)
    ensures r1 == [] <==> r2 == []
  {
    if r1 != [] {
      assert WithStars(r2, r1[0].stars) != [];
    }
    if r2 != [] {
      assert WithStars(r1, r2[0].stars) != [];
    }
  }

  /** The first rating of a descending list is the first one with the most
      stars, so two such lists with the same ratings per star count start
      alike. */
  lemma SameHead(r1: seq<Rating>, r2: seq<Rating>)
    requires NonIncreasing(r1) && NonIncreasing(r2) && r1 != [] && r2 != []
    requires forall k :: WithStars(r1, k) == WithStars(r2, k)
    ensures r1[0] == r2[0]
  {
    var k1, k2 := r1[0].stars, r2[0].stars;
    WithStarsMembers(r2, k1);
    WithStarsMembers(r1, k2);
    assert r1[0] in WithStars(r2, k1);
    assert r2[0] in WithStars(r1, k2);
    var j :| 0 <= j < |r2| && r2[j] == r1[0];
    var i :| 0 <= i < |r1| && r1[i] == r2[0];
    assert k2 >= k1 by { assert j == 0 || r2[0].stars >= r2[j].stars; }
    assert k1 >= k2 by { assert i == 0 || r1[0].stars >= r1[i].stars; }
    assert WithStars(r1, k1) == [r1[0]] + WithStars(r1[1..], k1);
    assert WithStars(r2, k1) == [r2[0]] + WithStars(r2[1..], k1);
  }

  lemma SameTail(r1: seq<Rating>, r2: seq<Rating>, k: int)
    requires r1 != [] && r2 != [] && r1[0] == r2[0]
    requires WithStars(r1, k) == WithStars(r2, k)
    ensures WithStars(r1[1..], k) == WithStars(r2[1..], k)
  {
    var h: seq<Rating> := if r1[0].stars == k then [r1[0]] else [];
    var t1, t2 := WithStars(r1[1..], k), WithStars(r2[1..], k);
    assert WithStars(r1, k) == h + t1;
    assert WithStars(r2, k) == h + t2;
    assert (h + t1)[|h|..] == t1 && (h + t2)[|h|..] == t2;
  }

  // ---------------------------------------------------------------------------
  // Flattening the per-product lists
  // ---------------------------------------------------------------------------

  /** The ratings stored under the names `ks`, list after list, skipping
      names that have no list: the stream of names filtered to those with a
      list, each replaced by its list's elements. */
  function Gather(m: map<string, seq<Rating>>, ks: seq<string>): seq<Rating>
  {
    if ks == [] then [] else (if ks[0] in m then m[ks[0]] else []) + Gather(m, ks[1..])
  }

  lemma {:induction false} GatherAppend(m: map<string, seq<Rating>>, a: seq<string>, b: seq<string>)
    ensures Gather(m, a + b) == Gather(m, a) + Gather(m, b)
  {
    if a == [] {
      assert a + b == b;
    } else {
      assert (a + b)[0] == a[0] && (a + b)[1..] == a[1..] + b;
      GatherAppend(m, a[1..], b);
    }
  }

  /** Taking one name out of the visiting order takes its list out of the
      gathered count and star total. */
  lemma GatherWithout(m: map<string, seq<Rating>>, b: seq<string>, j: nat)
    requires j < |b|
    ensures |Gather(m, b)| == |Gather(m, [b[j]])| + |Gather(m, b[..j] + b[j + 1..])|
    ensures StarSum(Gather(m, b)) == StarSum(Gather(m, [b[j]])) + StarSum(Gather(m, b[..j] + b[j + 1..]))
  {
    var left, right := b[..j], b[j + 1..];
    assert b == left + [b[j]] + right;
    GatherAppend(m, left + [b[j]], right);
    GatherAppend(m, left, [b[j]]);
    GatherAppend(m, left, right);
    var gl, gx, gr := Gather(m, left), Gather(m, [b[j]]), Gather(m, right);
    assert Gather(m, b) == gl + gx + gr;
    assert Gather(m, left + right) == gl + gr;
    StarSumAppend(gl + gx, gr);
    StarSumAppend(gl, gx);
    StarSumAppend(gl, gr);
  }

  lemma MultisetWithout(a: seq<string>, b: seq<string>, j: nat)
    requires multiset(a) == multiset(b) && a != [] && j < |b| && b[j] == a[0]
    ensures multiset(a[1..]) == multiset(b[..j] + b[j + 1..])
  {
    assert a == [a[0]] + a[1..];
    assert b == b[..j] + [b[j]] + b[j + 1..];
    calc {
      multiset(a[1..]);
      multiset(a) - multiset{a[0]};
      multiset(b) - multiset{b[j]};
      multiset(b[..j]) + multiset(b[j + 1..]);
      multiset(b[..j] + b[j + 1..]);
    }
  }

  /** The order in which the names are visited does not change how many
      ratings are gathered nor their star total. */
  lemma {:induction false} GatherReorder(m: map<string, seq<Rating>>, a: seq<string>, b: seq<string>)
    requires multiset(a) == multiset(b)
    ensures |Gather(m, a)| == |Gather(m, b)|
    ensures StarSum(Gather(m, a)) == StarSum(Gather(m, b))
  {
    if a == [] {
      assert |b| == |multiset(b)| == 0;
    } else {
      var x := a[0];
      assert x in multiset(b);
      var j :| 0 <= j < |b| && b[j] == x;
      MultisetWithout(a, b, j);
      GatherReorder(m, a[1..], b[..j] + b[j + 1..]);
      GatherWithout(m, b, j);
      var gx := Gather(m, [x]);
      assert a == [x] + a[1..];
      assert Gather(m, a) == gx + Gather(m, a[1..]);
      StarSumAppend(gx, Gather(m, a[1..]));
    }
  }

  /** Hence the mean of the gathered ratings is the same in every visiting
      order, such as a HashMap's. */
  lemma MeanGatherReorder(m: map<string, seq<Rating>>, a: seq<string>, b: seq<string>)
    requires multiset(a) == multiset(b)
    ensures Mean(Gather(m, a)) == Mean(Gather(m, b))
  {
    GatherReorder(m, a, b);
  }

  lemma {:induction false} GatherMembers(m: map<string, seq<Rating>>, ks: seq<string>, r: Rating)
    ensures r in Gather(m, ks) <==> exists k :: k in ks && k in m && r in m[k]
  {
    if ks != [] {
      assert ks == [ks[0]] + ks[1..];
      GatherMembers(m, ks[1..], r);
      var head := if ks[0] in m then m[ks[0]] else [];
      assert Gather(m, ks) == head + Gather(m, ks[1..]);
      if r in Gather(m, ks) {
        if r in head {
          assert ks[0] in ks && ks[0] in m && r in m[ks[0]];
        } else {
          var k :| k in ks[1..] && k in m && r in m[k];
          assert k in ks;
        }
      }
      if exists k :: k in ks && k in m && r in m[k] {
        var k :| k in ks && k in m && r in m[k];
        if k == ks[0] {
          assert r in head;
        } else {
          assert k in ks[1..];
        }
      }
    }
  }

  lemma {:induction false} GatherEmpty(m: map<string, seq<Rating>>, ks: seq<string>)
    ensures Gather(m, ks) == [] <==> forall k :: k in ks && k in m ==> m[k] == []
  {
    if ks != [] {
      GatherEmpty(m, ks[1..]);
      assert forall k :: k in ks <==> k == ks[0] || k in ks[1..];
    }
  }

  lemma {:induction false} GatherInRange(m: map<string, seq<Rating>>, ks: seq<string>)
    requires forall k :: k in m ==> StarsInRange(m[k])
    ensures StarsInRange(Gather(m, ks))
  {
    if ks != [] {
      GatherInRange(m, ks[1..]);
      var head := if ks[0] in m then m[ks[0]] else [];
      var g := Gather(m, ks);
      assert g == head + Gather(m, ks[1..]);
      forall i | 0 <= i < |g| ensures 0 <= g[i].stars <= 5 {
        if i >= |head| {
          assert g[i] == Gather(m, ks[1..])[i - |head|];
        }
      }
    }
  }
}
