/**
  The ranking that getProductsPerStars returns: a SortedMap from a mean star
  value to a list of product names, built over Comparator.reverseOrder(), so
  that its entries run from the highest mean to the lowest. It is modelled as
  the sequence of its entries in iteration order.
*/
module Buckets {

  /** One entry of the ranking: a mean and the names filed under it. */
  datatype Bucket = Bucket(mean: real, names: seq<string>)

  ghost predicate KeysDescending(bs: seq<Bucket>)
  {
    forall i, j :: 0 <= i < j < |bs| ==> bs[i].mean > bs[j].mean
  }

  function KeySet(bs: seq<Bucket>): set<real>
  {
    set i | 0 <= i < |bs| :: bs[i].mean
  }

  /** The list filed under `k`, or the empty list when there is no entry. */
  function Lookup(bs: seq<Bucket>, k: real): seq<string>
  {
    if bs == [] then [] else if bs[0].mean == k then bs[0].names else Lookup(bs[1..], k)
  }

  lemma {:induction false} LookupAbsent(bs: seq<Bucket>, k: real)
    requires forall i :: 0 <= i < |bs| ==> bs[i].mean != k
    ensures Lookup(bs, k) == []
  {
    if bs != [] {
      LookupAbsent(bs[1..], k);
    }
  }

  /** With distinct keys, looking an entry's key up finds that entry. */
  lemma {:induction false} LookupAt(bs: seq<Bucket>, i: nat)
    requires KeysDescending(bs) && i < |bs|
    ensures Lookup(bs, bs[i].mean) == bs[i].names
  {
    if i > 0 {
      assert bs[0].mean > bs[i].mean;
      LookupAt(bs[1..], i - 1);
    }
  }

  lemma KeySetCons(b: Bucket, bs: seq<Bucket>)
    ensures KeySet([b] + bs) == {b.mean} + KeySet(bs)
  {
    var r := [b] + bs;
    forall x | x in KeySet(bs) ensures x in KeySet(r) {
      var i :| 0 <= i < |bs| && bs[i].mean == x;
      assert r[i + 1] == bs[i];
    }
    forall i | 0 < i < |r| ensures r[i].mean in KeySet(bs) {
      assert r[i] == bs[i - 1];
    }
    assert r[0] == b;
  }

  /** Appends `n` to the list under `k`, first creating an empty entry for
      `k` in its place in the order when there is none. */
  function AddTo(bs: seq<Bucket>, k: real, n: string): seq<Bucket>
  {
    if bs == [] then [Bucket(k, [n])]
    else if bs[0].mean == k then [Bucket(k, bs[0].names + [n])] + bs[1..]
    else if bs[0].mean < k then [Bucket(k, [n])] + bs
    else [bs[0]] + AddTo(bs[1..], k, n)
  }

  lemma {:induction false} AddToKeys(bs: seq<Bucket>, k: real, n: string)
    ensures KeySet(AddTo(bs, k, n)) == KeySet(bs) + {k}
  {
    var r := AddTo(bs, k, n);
    if bs == [] {
      assert r == [Bucket(k, [n])];
      assert r[0].mean == k;
    } else {
      assert bs == [bs[0]] + bs[1..];
      KeySetCons(bs[0], bs[1..]);
      if bs[0].mean == k {
        assert r == [r[0]] + bs[1..];
        KeySetCons(r[0], bs[1..]);
      } else if bs[0].mean < k {
        assert r == [r[0]] + bs;
        KeySetCons(r[0], bs);
      } else {
        AddToKeys(bs[1..], k, n);
        assert r == [bs[0]] + AddTo(bs[1..], k, n);
        KeySetCons(bs[0], AddTo(bs[1..], k, n));
      }
    }
  }

  lemma {:induction false} AddToDescending(bs: seq<Bucket>, k: real, n: string)
    requires KeysDescending(bs)
    ensures KeysDescending(AddTo(bs, k, n))
  {
    if bs == [] {
    } else if bs[0].mean == k {
      var r := AddTo(bs, k, n);
      assert |r| == |bs| && forall i :: 0 <= i < |r| ==> r[i].mean == bs[i].mean;
    } else if bs[0].mean < k {
      forall j | 0 <= j < |bs| ensures k > bs[j].mean {
        assert j == 0 || bs[0].mean > bs[j].mean;
      }
      ConsDescending(Bucket(k, [n]), bs);
    } else {
      DescendingTail(bs);
      AddToDescending(bs[1..], k, n);
      AddToKeys(bs[1..], k, n);
      var rest := AddTo(bs[1..], k, n);
      forall j | 0 <= j < |rest| ensures bs[0].mean > rest[j].mean {
        assert rest[j].mean in KeySet(rest);
        if rest[j].mean != k {
          var i :| 0 <= i < |bs[1..]| && bs[1..][i].mean == rest[j].mean;
          assert bs[1..][i] == bs[i + 1];
        }
      }
      ConsDescending(bs[0], rest);
    }
  }

  lemma DescendingTail(bs: seq<Bucket>)
    requires KeysDescending(bs) && bs != []
    ensures KeysDescending(bs[1..])
  {
    forall a, b | 0 <= a < b < |bs| - 1 ensures bs[1..][a].mean > bs[1..][b].mean {
      assert bs[1..][a] == bs[a + 1] && bs[1..][b] == bs[b + 1];
    }
  }

  lemma ConsDescending(b: Bucket, bs: seq<Bucket>)
    requires KeysDescending(bs)
    requires forall j :: 0 <= j < |bs| ==> b.mean > bs[j].mean
    ensures KeysDescending([b] + bs)
  {
    var r := [b] + bs;
    forall i, j | 0 <= i < j < |r| ensures r[i].mean > r[j].mean {
      assert r[j] == bs[j - 1];
      if i > 0 {
        assert r[i] == bs[i - 1];
      }
    }
  }

  lemma {:induction false} AddToLookup(bs: seq<Bucket>, k: real, n: string, j: real)
    requires KeysDescending(bs)
    ensures Lookup(AddTo(bs, k, n), j) == if j == k then Lookup(bs, k) + [n] else Lookup(bs, j)
  {
    var r := AddTo(bs, k, n);
    if bs == [] {
    } else if bs[0].mean == k {
      assert r[0].mean == k && r[1..] == bs[1..];
    } else if bs[0].mean < k {
      assert r[0].mean == k && r[1..] == bs;
      forall i | 0 <= i < |bs| ensures bs[i].mean != k {
        assert i == 0 || bs[0].mean > bs[i].mean;
      }
      LookupAbsent(bs, k);
    } else {
      DescendingTail(bs);
      AddToLookup(bs[1..], k, n, j);
      assert r[0] == bs[0] && r[1..] == AddTo(bs[1..], k, n);
    }
  }

  /** AddTo keeps the entries in descending key order, adds `k` to the keys
      and changes no list but the one under `k`, which gains `n` at its end. */
  lemma AddToSpec(bs: seq<Bucket>, k: real, n: string)
    requires KeysDescending(bs)
    ensures KeysDescending(AddTo(bs, k, n))
    ensures KeySet(AddTo(bs, k, n)) == KeySet(bs) + {k}
    ensures forall j :: Lookup(AddTo(bs, k, n), j) == if j == k then Lookup(bs, k) + [n] else Lookup(bs, j)
  {
    AddToKeys(bs, k, n);
    AddToDescending(bs, k, n);
    forall j
      ensures Lookup(AddTo(bs, k, n), j) == if j == k then Lookup(bs, k) + [n] else Lookup(bs, j)
    {
      AddToLookup(bs, k, n, j);
    }
  }
}
