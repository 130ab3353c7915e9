/**
  The sports-goods catalog: activities, categories linked to activities,
  products filed under an activity and a category, and the users' star
  ratings of products, with the sorted views and the averages computed over
  them.
*/
module Catalog {
  import Orders
  import Ratings
  import Buckets

  /** A product: its unique name, and the activity and category it is filed
      under. */
  datatype Product = Product(name: string, activity: string, category: string)

  /** Why a mutator refused its arguments. */
  datatype Error =
    | NoActivities
    | UnknownActivity(activity: string)
    | DuplicateProduct(product: string)
    | StarsOutOfRange(stars: int)

  /** A mutator either succeeds or is refused, leaving the catalog as it was. */
  datatype Outcome = Success | Failure(error: Error)

  /** For each group of product names whose lists hold at least one rating,
      the mean over those ratings; groups without ratings are left out. The
      groups are visited in an arbitrary order. */
  method MeanPerGroup(groups: map<string, seq<string>>, ratings: map<string, seq<Ratings.Rating>>)
    returns (result: map<string, real>)
    ensures forall a :: a in result <==> a in groups && Ratings.Gather(ratings, groups[a]) != []
    ensures forall a :: a in result ==> result[a] == Ratings.Mean(Ratings.Gather(ratings, groups[a]))
  {
    result := map[];
    var pending := groups.Keys;
    while pending != {}
      invariant pending <= groups.Keys
      invariant forall a :: a in result <==> a in groups && a !in pending && Ratings.Gather(ratings, groups[a]) != []
      invariant forall a :: a in result ==> result[a] == Ratings.Mean(Ratings.Gather(ratings, groups[a]))
      decreases pending
    {
      var a :| a in pending;
      var relevant := Ratings.Gather(ratings, groups[a]);
      if relevant != [] {
        result := result[a := Ratings.Mean(relevant)];
      }
      pending := pending - {a};
    }
  }

  /** The last step of getProductsPerStars: sorts the list of every entry of
      the ranking in place, keeping the entries and their order. */
  method SortEachEntry(ranking: seq<Buckets.Bucket>) returns (sorted: seq<Buckets.Bucket>)
    ensures |sorted| == |ranking|
    ensures forall i :: 0 <= i < |ranking| ==> sorted[i] == Buckets.Bucket(ranking[i].mean, Orders.Sort(ranking[i].names))
  {
    sorted := ranking;
    for j := 0 to |sorted|
      invariant |sorted| == |ranking|
      invariant forall i :: 0 <= i < j ==> sorted[i] == Buckets.Bucket(ranking[i].mean, Orders.Sort(ranking[i].names))
      invariant forall i :: j <= i < |sorted| ==> sorted[i] == ranking[i]
    {
      sorted := sorted[j := Buckets.Bucket(sorted[j].mean, Orders.Sort(sorted[j].names))];
    }
  }

  /** The two category indexes over the defined activities. They agree in
      one direction only: redefining a category drops activities from its own
      set but leaves the category in the sets of the dropped activities. */
  ghost predicate CategoriesIndexed(activities: set<string>, categoryToActivities: map<string, set<string>>,
                                    activityToCategories: map<string, set<string>>, categoryLog: seq<string>)
  {
    && activityToCategories.Keys == activities
    && (forall c :: c in categoryToActivities ==> categoryToActivities[c] <= activities)
    && (forall c, a :: c in categoryToActivities && a in categoryToActivities[c] ==>
          a in activityToCategories && c in activityToCategories[a])
    && (forall a :: a in activityToCategories ==> activityToCategories[a] <= categoryToActivities.Keys)
    && categoryToActivities.Keys == (set c | c in categoryLog)
  }

  /** Every product is stored under its own name and has a rating list; every
      rating list is stored under the name it rates and holds 0 to 5 stars
      per rating. */
  ghost predicate RatingsFiled(products: map<string, Product>, productRatings: map<string, seq<Ratings.Rating>>)
  {
    && (forall n :: n in products ==> products[n].name == n)
    && products.Keys <= productRatings.Keys
    && (forall n :: n in productRatings ==> Ratings.StarsInRange(productRatings[n]))
    && (forall n :: n in productRatings ==>
          forall i :: 0 <= i < |productRatings[n]| ==> productRatings[n][i].productName == n)
  }

  /** Adding activities keeps the indexes. */
  lemma ActivitiesAddedIndexed(activities: set<string>, categoryToActivities: map<string, set<string>>,
                               activityToCategories: map<string, set<string>>, categoryLog: seq<string>,
                               activities': set<string>, activityToCategories': map<string, set<string>>)
    requires CategoriesIndexed(activities, categoryToActivities, activityToCategories, categoryLog)
    requires activities <= activities' && activityToCategories'.Keys == activities'
    requires forall a :: a in activityToCategories' ==>
               activityToCategories'[a] == if a in activityToCategories then activityToCategories[a] else {}
    ensures CategoriesIndexed(activities', categoryToActivities, activityToCategories', categoryLog)
  {
  }

  /** Defining a category over defined activities, and filing it under each
      of them, keeps the indexes. */
  lemma CategoryAddedIndexed(activities: set<string>, categoryToActivities: map<string, set<string>>,
                             activityToCategories: map<string, set<string>>, categoryLog: seq<string>,
                             name: string, linked: seq<string>, activityToCategories': map<string, set<string>>)
    requires CategoriesIndexed(activities, categoryToActivities, activityToCategories, categoryLog)
    requires forall a :: a in linked ==> a in activities
    requires activityToCategories'.Keys == activityToCategories.Keys
    requires forall a :: a in activityToCategories' ==>
               activityToCategories'[a] == if a in linked then activityToCategories[a] + {name} else activityToCategories[a]
    ensures CategoriesIndexed(activities, categoryToActivities[name := set a | a in linked], activityToCategories', categoryLog + [name])
  {
    var cta' := categoryToActivities[name := set a | a in linked];
    assert cta'.Keys == categoryToActivities.Keys + {name};
    forall c, a | c in cta' && a in cta'[c]
      ensures a in activityToCategories' && c in activityToCategories'[a]
    {
      if c != name {
        assert c in categoryToActivities && a in categoryToActivities[c];
      }
    }
    assert (set c | c in categoryLog + [name]) == (set c | c in categoryLog) + {name};
  }

  class Sports {
    var activities: set<string>
    var categoryToActivities: map<string, set<string>>
    var activityToCategories: map<string, set<string>>
    var products: map<string, Product>
    var productRatings: map<string, seq<Ratings.Rating>>

    /** The names of the categories, in the order they were added. */
    ghost var categoryLog: seq<string>

    /** The invariant every public operation keeps. */
    ghost predicate Valid()
      reads this
    {
      && CategoriesIndexed(activities, categoryToActivities, activityToCategories, categoryLog)
      && RatingsFiled(products, productRatings)
    }

    constructor ()
      ensures Valid()
      ensures activities == {} && categoryToActivities == map[] && activityToCategories == map[]
      ensures products == map[] && productRatings == map[] && categoryLog == []
    {
      activities := {};
      categoryToActivities := map[];
      activityToCategories := map[];
      products := map[];
      productRatings := map[];
      categoryLog := [];
    }

    // -------------------------------------------------------------------------
    // Activities and categories
    // -------------------------------------------------------------------------

    /** Adds the given activities; one that is already defined keeps its
        categories. An empty argument list is refused. */
    method DefineActivities(names: seq<string>) returns (out: Outcome)
      requires Valid()
      modifies this
      ensures Valid()
      ensures names == [] ==> out == Failure(NoActivities) && unchanged(this)
      ensures names != [] ==> out == Success
      ensures names != [] ==> activities == old(activities) + (set a | a in names)
      ensures activityToCategories.Keys == activities
      ensures forall a :: a in activityToCategories ==>
                activityToCategories[a] == if a in old(activityToCategories) then old(activityToCategories)[a] else {}
      ensures categoryToActivities == old(categoryToActivities) && categoryLog == old(categoryLog)
      ensures products == old(products) && productRatings == old(productRatings)
    {
      if names == [] {
        return Failure(NoActivities);
      }
      for i := 0 to |names|
        invariant activities == old(activities) + (set j | 0 <= j < i :: names[j])
        invariant activityToCategories.Keys == activities
        invariant forall a :: a in activityToCategories ==>
                    activityToCategories[a] == if a in old(activityToCategories) then old(activityToCategories)[a] else {}
        invariant categoryToActivities == old(categoryToActivities) && categoryLog == old(categoryLog)
        invariant products == old(products) && productRatings == old(productRatings)
      {
        activities := activities + {names[i]};
        if names[i] !in activityToCategories {
          activityToCategories := activityToCategories[names[i] := {}];
        }
      }
      assert (set j | 0 <= j < |names| :: names[j]) == (set a | a in names);
      ActivitiesAddedIndexed(old(activities), categoryToActivities, old(activityToCategories), categoryLog,
                             activities, activityToCategories);
      out := Success;
    }

    /** The activities in ascending order. */
    function GetActivities(): (r: seq<string>)
      reads this
      ensures Orders.StrictlyAscending(r)
      ensures forall a :: a in r <==> a in activities
    {
      Orders.SortedFromSet(activities)
    }

    /** Defines (or redefines) category `name` as linked to the given
        activities, all of which must be defined; the first undefined one is
        reported. An empty list of activities is accepted. */
    method AddCategory(name: string, linked: seq<string>) returns (out: Outcome)
      requires Valid()
      modifies this
      ensures Valid()
      ensures out.Failure? <==> exists a :: a in linked && a !in old(activities)
      ensures out.Failure? ==> unchanged(this) && out.error.UnknownActivity?
      ensures out.Failure? ==>
                exists i :: (0 <= i < |linked| && linked[i] == out.error.activity &&
                  linked[i] !in activities && forall j :: 0 <= j < i ==> linked[j] in activities)
      ensures out.Success? ==> categoryToActivities == old(categoryToActivities)[name := set a | a in linked]
      ensures out.Success? ==> activityToCategories.Keys == old(activityToCategories).Keys
      ensures out.Success? ==> forall a :: a in activityToCategories ==>
                activityToCategories[a] == if a in linked then old(activityToCategories)[a] + {name} else old(activityToCategories)[a]
      ensures out.Success? ==> categoryLog == old(categoryLog) + [name]
      ensures out.Success? ==> CountCategories() == old(CountCategories()) + if name in old(categoryToActivities) then 0 else 1
      ensures activities == old(activities) && products == old(products) && productRatings == old(productRatings)
    {
      for i := 0 to |linked|
        invariant forall j :: 0 <= j < i ==> linked[j] in activities
      {
        if linked[i] !in activities {
          return Failure(UnknownActivity(linked[i]));
        }
      }
      assert forall a :: a in linked ==> a in activities;
      categoryToActivities := categoryToActivities[name := set a | a in linked];
      categoryLog := categoryLog + [name];
      LinkActivities(name, linked);
      CategoryAddedIndexed(activities, old(categoryToActivities), old(activityToCategories), old(categoryLog),
                           name, linked, activityToCategories);
      assert |categoryToActivities| == |old(categoryToActivities)| + if name in old(categoryToActivities) then 0 else 1;
      out := Success;
    }

    /** The second loop of addCategory: files category `name` under each of
        the given activities. */
    method LinkActivities(name: string, linked: seq<string>)
      requires forall a :: a in linked ==> a in activityToCategories
      modifies this
      ensures activityToCategories.Keys == old(activityToCategories).Keys
      ensures forall a :: a in activityToCategories ==>
                activityToCategories[a] == if a in linked then old(activityToCategories)[a] + {name} else old(activityToCategories)[a]
      ensures activities == old(activities) && categoryToActivities == old(categoryToActivities) && categoryLog == old(categoryLog)
      ensures products == old(products) && productRatings == old(productRatings)
    {
      for i := 0 to |linked|
        invariant activityToCategories.Keys == old(activityToCategories).Keys
        invariant forall a :: a in activityToCategories ==>
                    activityToCategories[a] == if a in linked[..i] then old(activityToCategories)[a] + {name} else old(activityToCategories)[a]
        invariant activities == old(activities) && categoryToActivities == old(categoryToActivities) && categoryLog == old(categoryLog)
        invariant products == old(products) && productRatings == old(productRatings)
      {
        assert linked[..i + 1] == linked[..i] + [linked[i]];
        activityToCategories := activityToCategories[linked[i] := activityToCategories[linked[i]] + {name}];
      }
      assert linked[..|linked|] == linked;
    }

    /** The number of distinct category names defined so far. */
    function CountCategories(): (n: nat)
      requires Valid()
      reads this
      ensures n == |set c | c in categoryLog|
    {
      |categoryToActivities|
    }

    /** The categories linked to `activity`, in ascending order; none for an
        activity that is not defined. */
    function GetCategoriesForActivity(activity: string): (r: seq<string>)
      requires Valid()
      reads this
      ensures Orders.StrictlyAscending(r)
      ensures forall c :: c in r <==> activity in activityToCategories && c in activityToCategories[activity]
      ensures forall c :: c in categoryToActivities && activity in categoryToActivities[c] ==> c in r
      ensures forall c :: c in r ==> c in categoryToActivities
      ensures activity !in activities ==> r == []
    {
      Orders.SortedFromSet(if activity in activityToCategories then activityToCategories[activity] else {})
    }

    // -------------------------------------------------------------------------
    // Products
    // -------------------------------------------------------------------------

    /** Adds a product under a unique name. Neither its activity nor its
        category is checked. Ratings given before the product existed are
        kept. */
    method AddProduct(name: string, activityName: string, categoryName: string) returns (out: Outcome)
      requires Valid()
      modifies this
      ensures Valid()
      ensures out.Failure? <==> name in old(products)
      ensures out.Failure? ==> out == Failure(DuplicateProduct(name)) && unchanged(this)
      ensures out.Success? ==> products == old(products)[name := Product(name, activityName, categoryName)]
      ensures out.Success? ==>
                productRatings == if name in old(productRatings) then old(productRatings) else old(productRatings)[name := []]
      ensures activities == old(activities) && categoryLog == old(categoryLog)
      ensures categoryToActivities == old(categoryToActivities) && activityToCategories == old(activityToCategories)
    {
      if name in products {
        return Failure(DuplicateProduct(name));
      }
      products := products[name := Product(name, activityName, categoryName)];
      if name !in productRatings {
        productRatings := productRatings[name := []];
      }
      out := Success;
    }

    /** Every stored product is stored under its own name. */
    lemma ProductValues()
      requires Valid()
      ensures forall p :: p in products.Values <==> p.name in products && products[p.name] == p
    {
      forall p | p in products.Values
        ensures p.name in products && products[p.name] == p
      {
        var k :| k in products && products[k] == p;
      }
    }

    /** The products of a category, in ascending name order. */
    function GetProductsForCategory(category: string): (r: seq<string>)
      requires Valid()
      reads this
      ensures Orders.StrictlyAscending(r)
      ensures forall n :: n in r <==> n in products && products[n].category == category
    {
      ProductValues();
      Orders.SortedFromSet(set p | p in products.Values && p.category == category :: p.name)
    }

    /** The products of an activity, in ascending name order. */
    function GetProductsForActivity(activity: string): (r: seq<string>)
      requires Valid()
      reads this
      ensures Orders.StrictlyAscending(r)
      ensures forall n :: n in r <==> n in products && products[n].activity == activity
    {
      ProductValues();
      Orders.SortedFromSet(set p | p in products.Values && p.activity == activity :: p.name)
    }

    /** The products of an activity that lie in any of the given categories,
        in ascending name order. */
    function GetProducts(activity: string, categoryNames: seq<string>): (r: seq<string>)
      requires Valid()
      reads this
      ensures Orders.StrictlyAscending(r)
      ensures forall n :: n in r <==> n in products && products[n].activity == activity && products[n].category in categoryNames
    {
      ProductValues();
      var categories := set c | c in categoryNames;
      Orders.SortedFromSet(set p | p in products.Values && p.activity == activity && p.category in categories :: p.name)
    }

    /** GetProducts reads its categories as a set: their order and repetitions
        do not matter. */
    lemma GetProductsIgnoresOrder(activity: string, cs1: seq<string>, cs2: seq<string>)
      requires Valid()
      requires forall c :: c in cs1 <==> c in cs2
      ensures GetProducts(activity, cs1) == GetProducts(activity, cs2)
    {
      Orders.StrictlyAscendingUnique(GetProducts(activity, cs1), GetProducts(activity, cs2));
    }

    /** Filtering by an activity and all of its products' categories gives the
        activity's products. */
    lemma GetProductsAllCategories(activity: string, cs: seq<string>)
      requires Valid()
      requires forall n :: n in products && products[n].activity == activity ==> products[n].category in cs
      ensures GetProducts(activity, cs) == GetProductsForActivity(activity)
    {
      Orders.StrictlyAscendingUnique(GetProducts(activity, cs), GetProductsForActivity(activity));
    }

    // -------------------------------------------------------------------------
    // Ratings
    // -------------------------------------------------------------------------

    /** The ratings stored for a product name, or none. */
    function RatingsOf(name: string): seq<Ratings.Rating>
      reads this
    {
      if name in productRatings then productRatings[name] else []
    }

    /** Appends a rating of 0 to 5 stars to the list of `productName`, which
        need not name a product. */
    method AddRating(productName: string, userName: string, stars: int, comment: string) returns (out: Outcome)
      requires Valid()
      modifies this
      ensures Valid()
      ensures out.Failure? <==> !(0 <= stars <= 5)
      ensures out.Failure? ==> out == Failure(StarsOutOfRange(stars)) && unchanged(this)
      ensures out.Success? ==>
                productRatings == old(productRatings)[productName := old(RatingsOf(productName)) + [Ratings.Rating(productName, userName, stars, comment)]]
      ensures activities == old(activities) && categoryLog == old(categoryLog) && products == old(products)
      ensures categoryToActivities == old(categoryToActivities) && activityToCategories == old(activityToCategories)
    {
      if stars < 0 || stars > 5 {
        return Failure(StarsOutOfRange(stars));
      }
      var rating := Ratings.Rating(productName, userName, stars, comment);
      productRatings := productRatings[productName := RatingsOf(productName) + [rating]];
      out := Success;
    }

    /** The printed ratings of a product, most stars first and ratings with the
        same stars in the order they were given. */
    function GetRatingsForProduct(productName: string): (lines: seq<string>)
      reads this
      ensures exists sorted :: Ratings.IsStableDescendingOf(sorted, RatingsOf(productName)) && lines == Ratings.FormatAll(sorted)
      ensures |lines| == |RatingsOf(productName)|
      ensures productName !in productRatings ==> lines == []
    {
      var rs := RatingsOf(productName);
      Ratings.SortByStarsIsStable(rs);
      assert |multiset(Ratings.SortByStars(rs))| == |multiset(rs)|;
      Ratings.FormatAll(Ratings.SortByStars(rs))
    }

    /** There is only one stable descending arrangement, so the printed list is
        that of any of them. */
    lemma GetRatingsForProductUnique(productName: string, sorted: seq<Ratings.Rating>)
      requires Ratings.IsStableDescendingOf(sorted, RatingsOf(productName))
      ensures GetRatingsForProduct(productName) == Ratings.FormatAll(sorted)
    {
      var rs := RatingsOf(productName);
      Ratings.SortByStarsIsStable(rs);
      Ratings.StableDescendingUnique(Ratings.SortByStars(rs), sorted, rs);
    }

    /** The mean star count of a product's ratings; 0 when it has none. */
    function GetStarsOfProduct(productName: string): (m: real)
      requires Valid()
      reads this
      ensures RatingsOf(productName) == [] ==> m == 0.0
      ensures RatingsOf(productName) != [] ==> Ratings.IsMeanOf(m, RatingsOf(productName))
      ensures 0.0 <= m <= 5.0
      ensures m == 0.0 <==> forall i :: 0 <= i < |RatingsOf(productName)| ==> RatingsOf(productName)[i].stars == 0
    {
      if productName !in productRatings || productRatings[productName] == [] then 0.0
      else Ratings.Mean(productRatings[productName])
    }

    /** Every stored rating, one product's list after another. A HashMap
        visits the lists in an order of its own; ascending name order stands
        for it, and AverageStarsAnyOrder shows the order does not matter. */
    function AllRatings(): (rs: seq<Ratings.Rating>)
      reads this
      ensures forall r :: r in rs <==> exists n :: n in productRatings && r in productRatings[n]
    {
      var ks := Orders.SortedFromSet(productRatings.Keys);
      forall r
        ensures r in Ratings.Gather(productRatings, ks) <==> exists n :: n in productRatings && r in productRatings[n]
      {
        Ratings.GatherMembers(productRatings, ks, r);
      }
      Ratings.Gather(productRatings, ks)
    }

    /** The mean star count over all stored ratings; 0 when there are none. */
    function AverageStars(): (m: real)
      requires Valid()
      reads this
      ensures AllRatings() == [] ==> m == 0.0
      ensures AllRatings() != [] ==> Ratings.IsMeanOf(m, AllRatings())
      ensures 0.0 <= m <= 5.0
    {
      var all := AllRatings();
      AllRatingsInRange();
      if all == [] then 0.0 else Ratings.Mean(all)
    }

    /** The overall mean is 0 exactly when every stored rating has 0 stars. */
    lemma AverageStarsZero()
      requires Valid()
      ensures AverageStars() == 0.0 <==> forall n, r :: n in productRatings && r in productRatings[n] ==> r.stars == 0
    {
      AllRatingsInRange();
      AllRatingsZero();
    }

    lemma AllRatingsInRange()
      requires Valid()
      ensures Ratings.StarsInRange(AllRatings())
    {
      Ratings.GatherInRange(productRatings, Orders.SortedFromSet(productRatings.Keys));
    }

    lemma AllRatingsZero()
      ensures (forall i :: 0 <= i < |AllRatings()| ==> AllRatings()[i].stars == 0) <==>
              (forall n, r :: n in productRatings && r in productRatings[n] ==> r.stars == 0)
    {
      var all := AllRatings();
      if forall i :: 0 <= i < |all| ==> all[i].stars == 0 {
        forall n, r | n in productRatings && r in productRatings[n]
          ensures r.stars == 0
        {
          assert r in all;
        }
      }
      if forall n, r :: n in productRatings && r in productRatings[n] ==> r.stars == 0 {
        forall i | 0 <= i < |all|
          ensures all[i].stars == 0
        {
          assert all[i] in all;
        }
      }
    }

    /** Visiting the product lists in any order, each once, gives the same
        mean. */
    lemma AverageStarsAnyOrder(ks: seq<string>)
      requires Valid()
      requires Orders.NoDuplicates(ks)
      requires forall n :: n in ks <==> n in productRatings
      ensures AverageStars() == Ratings.Mean(Ratings.Gather(productRatings, ks))
    {
      var sorted := Orders.SortedFromSet(productRatings.Keys);
      Orders.StrictlyAscendingNoDuplicates(sorted);
      Orders.SameElementsSameMultiset(sorted, ks);
      Ratings.MeanGatherReorder(productRatings, sorted, ks);
    }

    // -------------------------------------------------------------------------
    // Aggregates
    // -------------------------------------------------------------------------

    /** The names of the products of an activity. */
    ghost function ProductsOf(activity: string): set<string>
      reads this
    {
      set n | n in products && products[n].activity == activity
    }

    /** For each activity with at least one rated product, the mean star count
        over the ratings of all its products. */
    method StarsPerActivity() returns (result: map<string, real>)
      requires Valid()
      ensures forall a :: a in result <==> exists n :: n in products && products[n].activity == a && RatingsOf(n) != []
      ensures forall a :: a in result ==> result[a] == Ratings.Mean(Ratings.Gather(productRatings, GetProductsForActivity(a)))
      ensures forall a :: a in result ==> 0.0 <= result[a] <= 5.0
    {
      // the product table is a sorted map, visited in ascending name order
      var names := Orders.SortedFromSet(products.Keys);
      var activityProducts := GroupNames(names);
      result := MeanPerGroup(activityProducts, productRatings);
      StarsPerActivitySpec(names, result);
    }

    /** The first loop of starsPerActivity: the names `names` filed under the
        activities of their products, each list in visiting order. */
    method GroupNames(names: seq<string>) returns (activityProducts: map<string, seq<string>>)
      requires Valid()
      requires forall i :: 0 <= i < |names| ==> names[i] in products
      ensures activityProducts == GroupByActivity(names)
    {
      activityProducts := map[];
      for i := 0 to |names|
        invariant activityProducts == GroupByActivity(names[..i])
      {
        GroupByActivityStep(names, i);
        var p := products[names[i]];
        var list := if p.activity in activityProducts then activityProducts[p.activity] else [];
        activityProducts := activityProducts[p.activity := list + [p.name]];
      }
      assert names[..|names|] == names;
    }

    /** The means per group of the grouping of all product names are what
        StarsPerActivity promises. */
    lemma StarsPerActivitySpec(names: seq<string>, result: map<string, real>)
      requires Valid()
      requires names == Orders.SortedFromSet(products.Keys)
      requires forall a :: a in result <==>
                 a in GroupByActivity(names) && Ratings.Gather(productRatings, GroupByActivity(names)[a]) != []
      requires forall a :: a in result ==> result[a] == Ratings.Mean(Ratings.Gather(productRatings, GroupByActivity(names)[a]))
      ensures forall a :: a in result <==> exists n :: n in products && products[n].activity == a && RatingsOf(n) != []
      ensures forall a :: a in result ==> result[a] == Ratings.Mean(Ratings.Gather(productRatings, GetProductsForActivity(a)))
      ensures forall a :: a in result ==> 0.0 <= result[a] <= 5.0
    {
      forall a
        ensures a in result <==> exists n :: n in products && products[n].activity == a && RatingsOf(n) != []
        ensures a in result ==> result[a] == Ratings.Mean(Ratings.Gather(productRatings, GetProductsForActivity(a)))
        ensures a in result ==> 0.0 <= result[a] <= 5.0
      {
        ActivityEntry(names, result, a);
      }
    }

    lemma ActivityEntry(names: seq<string>, result: map<string, real>, a: string)
      requires Valid()
      requires names == Orders.SortedFromSet(products.Keys)
      requires a in result <==>
               a in GroupByActivity(names) && Ratings.Gather(productRatings, GroupByActivity(names)[a]) != []
      requires a in result ==> result[a] == Ratings.Mean(Ratings.Gather(productRatings, GroupByActivity(names)[a]))
      ensures a in result <==> exists n :: n in products && products[n].activity == a && RatingsOf(n) != []
      ensures a in result ==> result[a] == Ratings.Mean(Ratings.Gather(productRatings, GetProductsForActivity(a)))
      ensures a in result ==> 0.0 <= result[a] <= 5.0
    {
      GroupIsProductsForActivity(names, a);
      ActivityRated(a);
      Ratings.GatherInRange(productRatings, GetProductsForActivity(a));
    }

    lemma GroupByActivityStep(ns: seq<string>, i: nat)
      requires i < |ns|
      requires forall j :: 0 <= j < |ns| ==> ns[j] in products
      ensures ns[i] in products
      ensures forall j :: 0 <= j < i ==> ns[..i][j] in products
      ensures GroupByActivity(ns[..i + 1]) ==
              var g, a := GroupByActivity(ns[..i]), products[ns[i]].activity;
              g[a := (if a in g then g[a] else []) + [ns[i]]]
    {
      assert ns[..i + 1][..i] == ns[..i];
    }

    /** What the first loop of StarsPerActivity builds from the product names
        `ns`: for each activity, the names of its products in visiting order. */
    ghost function GroupByActivity(ns: seq<string>): map<string, seq<string>>
      requires forall i :: 0 <= i < |ns| ==> ns[i] in products
      reads this
    {
      if ns == [] then map[]
      else
        var g, last := GroupByActivity(ns[..|ns| - 1]), ns[|ns| - 1];
        var a := products[last].activity;
        g[a := (if a in g then g[a] else []) + [last]]
    }

    /** The grouping files each name under its product's activity, and holds
        exactly the activities that have a product among `ns`. */
    lemma {:induction false} GroupByActivitySpec(ns: seq<string>)
      requires forall i :: 0 <= i < |ns| ==> ns[i] in products
      ensures forall a :: a in GroupByActivity(ns) <==> Orders.Restrict(ns, ProductsOf(a)) != []
      ensures forall a :: a in GroupByActivity(ns) ==> GroupByActivity(ns)[a] == Orders.Restrict(ns, ProductsOf(a))
    {
      if ns != [] {
        var init, last := ns[..|ns| - 1], ns[|ns| - 1];
        GroupByActivitySpec(init);
        forall a
          ensures Orders.Restrict(ns, ProductsOf(a)) ==
                  Orders.Restrict(init, ProductsOf(a)) + if a == products[last].activity then [last] else []
        {
        }
      }
    }

    /** Grouping all product names, in ascending order, by activity gives
        the activity's GetProductsForActivity, and no group to an activity
        without products. */
    lemma GroupIsProductsForActivity(names: seq<string>, a: string)
      requires Valid()
      requires names == Orders.SortedFromSet(products.Keys)
      ensures a in GroupByActivity(names) ==> GroupByActivity(names)[a] == GetProductsForActivity(a)
      ensures a !in GroupByActivity(names) ==> GetProductsForActivity(a) == []
    {
      GroupByActivitySpec(names);
      RestrictByActivity(names, a);
    }

    /** Filtering the ascending product names by activity gives the products
        of that activity. */
    lemma RestrictByActivity(names: seq<string>, a: string)
      requires Valid()
      requires names == Orders.SortedFromSet(products.Keys)
      ensures Orders.Restrict(names, ProductsOf(a)) == GetProductsForActivity(a)
    {
      Orders.RestrictAscending(names, ProductsOf(a));
      Orders.StrictlyAscendingUnique(Orders.Restrict(names, ProductsOf(a)), GetProductsForActivity(a));
    }

    /** The ratings gathered for an activity are nonempty exactly when one of
        its products has ratings. */
    lemma ActivityRated(a: string)
      requires Valid()
      ensures Ratings.Gather(productRatings, GetProductsForActivity(a)) != [] <==>
              exists n :: n in products && products[n].activity == a && RatingsOf(n) != []
    {
      Ratings.GatherEmpty(productRatings, GetProductsForActivity(a));
    }

    /** The products whose mean star count is `k`. */
    ghost function WithMean(k: real): set<string>
      requires Valid()
      reads this
    {
      set n | n in products && GetStarsOfProduct(n) == k
    }

    /** What the first loop of GetProductsPerStars builds from the product
        names `ns`: each name whose product has a positive mean is filed
        under that mean. */
    ghost function RankByStars(ns: seq<string>): seq<Buckets.Bucket>
      requires Valid()
      reads this
    {
      if ns == [] then []
      else
        var r, last := RankByStars(ns[..|ns| - 1]), ns[|ns| - 1];
        var stars := GetStarsOfProduct(last);
        if stars > 0.0 then Buckets.AddTo(r, stars, last) else r
    }

    /** `r` has one entry per positive mean among the products of `ns`, in
        descending order of means, holding those products in their order in
        `ns`. */
    ghost predicate RanksNames(ns: seq<string>, r: seq<Buckets.Bucket>)
      requires Valid()
      reads this
    {
      && Buckets.KeysDescending(r)
      && (forall k :: k in Buckets.KeySet(r) <==> k > 0.0 && Orders.Restrict(ns, WithMean(k)) != [])
      && (forall k :: k > 0.0 ==> Buckets.Lookup(r, k) == Orders.Restrict(ns, WithMean(k)))
    }

    /** The ranking of `ns` is such a ranking. */
    lemma {:induction false} RankByStarsSpec(ns: seq<string>)
      requires Valid()
      requires forall i :: 0 <= i < |ns| ==> ns[i] in products
      ensures RanksNames(ns, RankByStars(ns))
    {
      if ns != [] {
        var init, last := ns[..|ns| - 1], ns[|ns| - 1];
        RankByStarsSpec(init);
        assert init + [last] == ns;
        if GetStarsOfProduct(last) > 0.0 {
          RankPositive(init, last, RankByStars(init));
        } else {
          RankSkipped(init, last, RankByStars(init));
        }
      }
    }

    /** Filtering one more name by mean extends the list of its own mean. */
    lemma WithMeanLast(init: seq<string>, last: string, k: real)
      requires Valid()
      requires last in products
      ensures Orders.Restrict(init + [last], WithMean(k)) ==
              Orders.Restrict(init, WithMean(k)) + if GetStarsOfProduct(last) == k then [last] else []
    {
      assert (init + [last])[..|init|] == init;
    }

    /** A name with a positive mean is filed under that mean. */
    lemma RankPositive(init: seq<string>, last: string, r: seq<Buckets.Bucket>)
      requires Valid()
      requires last in products && GetStarsOfProduct(last) > 0.0
      requires RanksNames(init, r)
      ensures RanksNames(init + [last], Buckets.AddTo(r, GetStarsOfProduct(last), last))
    {
      var stars := GetStarsOfProduct(last);
      var r' := Buckets.AddTo(r, stars, last);
      Buckets.AddToSpec(r, stars, last);
      forall k
        ensures k in Buckets.KeySet(r') <==> k > 0.0 && Orders.Restrict(init + [last], WithMean(k)) != []
        ensures k > 0.0 ==> Buckets.Lookup(r', k) == Orders.Restrict(init + [last], WithMean(k))
      {
        WithMeanLast(init, last, k);
        assert Buckets.Lookup(r', k) == if k == stars then Buckets.Lookup(r, k) + [last] else Buckets.Lookup(r, k);
      }
    }

    /** A name without a positive mean leaves the ranking as it is. */
    lemma RankSkipped(init: seq<string>, last: string, r: seq<Buckets.Bucket>)
      requires Valid()
      requires last in products && GetStarsOfProduct(last) <= 0.0
      requires RanksNames(init, r)
      ensures RanksNames(init + [last], r)
    {
      forall k | k > 0.0
        ensures Orders.Restrict(init + [last], WithMean(k)) == Orders.Restrict(init, WithMean(k))
      {
        WithMeanLast(init, last, k);
      }
    }

    /** Each entry of the ranking of all product names is nonempty, has a
        positive mean, is already in ascending order and lists exactly the
        products with that mean. */
    lemma RankedEntry(names: seq<string>, i: nat)
      requires Valid()
      requires names == Orders.SortedFromSet(products.Keys)
      ensures i < |RankByStars(names)| ==> IsStarsEntry(RankByStars(names)[i])
      ensures i < |RankByStars(names)| ==> Orders.Sort(RankByStars(names)[i].names) == RankByStars(names)[i].names
    {
      var ranked := RankByStars(names);
      if i < |ranked| {
        RankByStarsSpec(names);
        var k := ranked[i].mean;
        assert k in Buckets.KeySet(ranked);
        Buckets.LookupAt(ranked, i);
        Orders.RestrictAscending(names, WithMean(k));
        Orders.StrictlyAscendingNoDuplicates(ranked[i].names);
        Orders.SortAscendingIsIdentity(ranked[i].names);
      }
    }

    /** An entry of the ranking: a positive mean and a nonempty, strictly
        ascending list of exactly the products with that mean. */
    ghost predicate IsStarsEntry(e: Buckets.Bucket)
      requires Valid()
      reads this
    {
      && e.mean > 0.0
      && e.names != []
      && Orders.StrictlyAscending(e.names)
      && forall n :: n in e.names <==> n in products && GetStarsOfProduct(n) == e.mean
    }

    /** What getProductsPerStars promises of its result: entries in strictly
        descending order of positive means, each a nonempty, strictly
        ascending list of exactly the products with that mean, and an entry
        for every product with a positive mean. */
    ghost predicate IsStarsRanking(ranking: seq<Buckets.Bucket>)
      requires Valid()
      reads this
    {
      && Buckets.KeysDescending(ranking)
      && (forall i :: 0 <= i < |ranking| ==> IsStarsEntry(ranking[i]))
      && (forall n :: n in products && GetStarsOfProduct(n) > 0.0 ==> GetStarsOfProduct(n) in Buckets.KeySet(ranking))
    }

    lemma RankByStarsStep(ns: seq<string>, i: nat)
      requires Valid()
      requires i < |ns|
      ensures RankByStars(ns[..i + 1]) ==
              if GetStarsOfProduct(ns[i]) > 0.0 then Buckets.AddTo(RankByStars(ns[..i]), GetStarsOfProduct(ns[i]), ns[i])
              else RankByStars(ns[..i])
    {
      assert ns[..i + 1][..i] == ns[..i];
    }

    /** Ranking all product names in ascending order gives such a ranking,
        whose lists sorting leaves as they are. */
    lemma RankingSpec(names: seq<string>)
      requires Valid()
      requires names == Orders.SortedFromSet(products.Keys)
      ensures IsStarsRanking(RankByStars(names))
      ensures forall i :: 0 <= i < |RankByStars(names)| ==>
                Orders.Sort(RankByStars(names)[i].names) == RankByStars(names)[i].names
    {
      RankByStarsSpec(names);
      forall i | 0 <= i < |RankByStars(names)|
        ensures IsStarsEntry(RankByStars(names)[i])
        ensures Orders.Sort(RankByStars(names)[i].names) == RankByStars(names)[i].names
      {
        RankedEntry(names, i);
      }
      RankedCoverage(names);
    }

    lemma RankedCoverage(names: seq<string>)
      requires Valid()
      requires names == Orders.SortedFromSet(products.Keys)
      ensures forall n :: n in products && GetStarsOfProduct(n) > 0.0 ==> GetStarsOfProduct(n) in Buckets.KeySet(RankByStars(names))
    {
      forall n | n in products && GetStarsOfProduct(n) > 0.0
        ensures GetStarsOfProduct(n) in Buckets.KeySet(RankByStars(names))
      {
        PositiveRanked(names, n);
      }
    }

    /** A product with a positive mean has an entry in the ranking of all
        product names. */
    lemma PositiveRanked(names: seq<string>, n: string)
      requires Valid()
      requires names == Orders.SortedFromSet(products.Keys)
      ensures n in products && GetStarsOfProduct(n) > 0.0 ==> GetStarsOfProduct(n) in Buckets.KeySet(RankByStars(names))
    {
      if n in products && GetStarsOfProduct(n) > 0.0 {
        RankByStarsSpec(names);
        assert n in Orders.Restrict(names, WithMean(GetStarsOfProduct(n)));
      }
    }

    /** The products with a positive mean, filed under their mean from the
        highest mean down, each list in ascending name order. */
    method GetProductsPerStars() returns (ranking: seq<Buckets.Bucket>)
      requires Valid()
      ensures IsStarsRanking(ranking)
    {
      // the product table is a sorted map, visited in ascending name order
      var names := Orders.SortedFromSet(products.Keys);
      var ranked := RankNames(names);
      RankingSpec(names);
      ranking := SortEachEntry(ranked);
      forall i | 0 <= i < |ranking|
        ensures ranking[i] == ranked[i]
      {
      }
      assert ranking == ranked;
    }

    /** The loop of getProductsPerStars: each of `names` whose product has a
        positive mean filed under that mean. */
    method RankNames(names: seq<string>) returns (ranking: seq<Buckets.Bucket>)
      requires Valid()
      ensures ranking == RankByStars(names)
    {
      ranking := [];
      for i := 0 to |names|
        invariant ranking == RankByStars(names[..i])
      {
        RankByStarsStep(names, i);
        var stars := GetStarsOfProduct(names[i]);
        if stars > 0.0 {
          ranking := Buckets.AddTo(ranking, stars, names[i]);
        }
      }
      assert names[..|names|] == names;
    }
  }
}
