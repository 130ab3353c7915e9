# Sports catalog, modelled in Dafny

The model covers the in-memory catalog class `Sports` (src/Sports.java). It keeps five coupled collections:

- a set of activities;
- an index from each category to the activities it is linked to;
- the reverse index from each activity to its categories;
- a table of products, each filed under one activity and one category;
- for each product name, the list of its users' star ratings (0 to 5 stars and a comment).

On top of these sit sorted query views and four aggregates:

- the mean stars of one product;
- the mean stars over all ratings;
- the mean stars per activity;
- the products grouped by their mean stars, highest mean first.

The model follows the code's own, lenient, validation policy:

- `addProduct` checks neither the activity nor the category;
- `addRating` accepts a product name that was never added, and creates a list for it;
- `addCategory` accepts an empty list of activities.

## Files

| File | Module | Contents |
|---|---|---|
| orders.dfy | `Orders` | The lexicographic order of `String.compareTo` and its order laws; the ascending listing of a set, which is how a `TreeSet`, `TreeMap` or `.sorted()` hands out names; the insertion sort that stands for `Collections.sort`; and the order-preserving filter of a list. |
| decimal.dfy | `Decimal` | `Integer.toString` of the stars, and reading the digits back. |
| ratings.dfy | `Ratings` | The `Rating` record and its `toString`, star sums and exact means, and the stable sort by descending stars. Also `Gather`: the flattening of the rating lists of a sequence of names, as `flatMap` does it. |
| buckets.dfy | `Buckets` | The ranking of `getProductsPerStars`: a sequence of (mean, names) entries kept in strictly descending order of means. It stands for a `TreeMap` with `Comparator.reverseOrder()`. |
| catalog.dfy | `Catalog` | The class `Sports`, with its fields, its invariant `Valid()`, the mutators as methods and the queries as functions. |

Each mutator is a method with `modifies this`. It returns an `Outcome`: `Success`, or `Failure` with an `Error` naming what was refused (`NoActivities`, `UnknownActivity`, `DuplicateProduct` or `StarsOutOfRange`). Its `ensures` state the whole new state, including that a refused call changes nothing.

`Valid()` has two parts:

- `CategoriesIndexed`:
  - the keys of the reverse index are exactly the activities, so the `get` in `addCategory` (line 68) never yields null;
  - every link in the forward index also appears in the reverse index;
  - the categories are exactly the names ever added.
- `RatingsFiled`:
  - every product has a rating list;
  - every rating is filed under the name it rates;
  - every stored rating has 0 to 5 stars.

Each loop of the source is a loop in the model:

- `defineActivities` and both loops of `addCategory`;
- the two loops of `starsPerActivity` (`GroupNames`, `MeanPerGroup`);
- the loop of `getProductsPerStars` (`RankNames`), and its sort of every entry (`SortEachEntry`).

Each method states its result or new state directly, and the methods differ in what they are proved against:

- `DefineActivities`, `AddCategory` and `LinkActivities` are proved against set and map expressions over the old state.
- `MeanPerGroup` is proved against `Ratings.Gather` and `Ratings.Mean`.
- `SortEachEntry` is proved against `Orders.Sort`.
- `GroupNames` and `RankNames` are proved against ghost functions that build the same value by recursion (`GroupByActivity`, `RankByStars`). The properties the source promises are then proved about those functions.

Means are exact reals. `Ratings.IsMeanOf(m, rs)` says that `m` times the number of ratings equals their star sum. `Catalog.Sports.IsStarsRanking` states the whole promise of `getProductsPerStars`:

- its entries are in strictly descending order of means;
- every mean is positive;
- every list is nonempty and strictly ascending;
- every list holds exactly the products with that mean;
- every product with a positive mean has an entry.

## Model

| member | source | states |
|---|---|---|
| Orders.LessIsStrictTotalOrder | src/Sports.java:93 | The string order used for sorting names is irreflexive, transitive and total on distinct strings. |
| Orders.LessEqTotal | src/Sports.java:93 | Any two names are comparable. |
| Orders.LessEqAntisymmetric | src/Sports.java:93 | Two names each at most the other are equal. |
| Orders.LessEqTransitive | src/Sports.java:93 | The order is transitive. |
| Orders.SortedFromSet | src/Sports.java:53-55 | Listing a set yields a strictly ascending sequence with exactly the set's elements, each once (the length equals the set's size). |
| Orders.StrictlyAscendingUnique | src/Sports.java:93 | Two strictly ascending sequences with the same elements are equal, so a sorted listing of a set is determined by the set. |
| Orders.Insert | src/Sports.java:180 | Inserting a name into an ascending list keeps it ascending and adds exactly that name to its multiset. |
| Orders.Sort | src/Sports.java:180 | `Collections.sort` of a list of names yields an ascending permutation of it. |
| Orders.SortAscendingIsIdentity | src/Sports.java:180 | Sorting a list that is already ascending leaves it unchanged. |
| Orders.Restrict | src/Sports.java:97-103 | Filtering a list keeps exactly the elements that pass. |
| Orders.RestrictAscending | src/Sports.java:97-103 | Filtering a strictly ascending list leaves it strictly ascending. |
| Orders.SameElementsSameMultiset | src/Sports.java:139-140 | Two duplicate-free listings of the same names are permutations of each other. |
| Decimal.NatToDecimal | src/Sports.java:38 | The decimal rendering of a natural number is nonempty, all digits, has no leading zero, and is one digit exactly below 10. |
| Decimal.IntToDecimal | src/Sports.java:38 | The rendering of an int starts with a minus sign exactly when the int is negative; then come the digits of its magnitude. A non-negative int is rendered as its digits alone. |
| Decimal.DecimalRoundTrip | src/Sports.java:38 | Reading the digits of the rendering of n gives n back. |
| Ratings.FormatReadsBack | src/Sports.java:37-39 | An accepted rating prints as its star digit, " : ", then the comment, and the star count can be read back off the first character. |
| Ratings.FormatAll | src/Sports.java:127 | One line per rating. When all ratings have 0 to 5 stars, line i is the star digit of rating i (read back as its star count), " : ", then its comment. |
| Ratings.StarSumAppend | src/Sports.java:139-143 | The star sum of two lists put together is the sum of their star sums. |
| Ratings.StarSumBounds | src/Sports.java:116-117 | The star sum of n ratings in range lies between 0 and 5n, and is 0 exactly when every rating has 0 stars. |
| Ratings.Mean | src/Sports.java:135 | The mean of no ratings is 0. Otherwise it times the count is the star sum, it lies in 0..5 for ratings in range, and it is 0 exactly when every rating has 0 stars. |
| Ratings.SortByStarsIsStable | src/Sports.java:124-129 | Sorting by descending stars yields the same ratings, with non-increasing stars, and ratings of equal stars in their original order. |
| Ratings.StableDescendingUnique | src/Sports.java:124-129 | Two stable descending arrangements of the same list are equal, so the order of the printed ratings is fully determined. |
| Ratings.UniqueByStars | src/Sports.java:126 | Two non-increasing lists with the same ratings of each star count, in the same order, are equal. |
| Ratings.InsertByStarsMultiset | src/Sports.java:126 | Inserting a rating by stars adds exactly that rating. |
| Ratings.InsertByStarsNonIncreasing | src/Sports.java:126 | Inserting a rating by stars keeps the list non-increasing. |
| Ratings.InsertByStarsWithStars | src/Sports.java:126 | Inserting a rating by stars places it after all ratings with the same stars. |
| Ratings.WithStarsMembers | src/Sports.java:126 | Selecting the ratings with k stars keeps exactly those ratings. |
| Ratings.GatherAppend | src/Sports.java:156-159 | Flattening the lists of two name sequences put together is the concatenation of the two flattenings. |
| Ratings.GatherMembers | src/Sports.java:139-141 | A rating is in the flattening exactly when it is in the list of one of the visited names. |
| Ratings.GatherEmpty | src/Sports.java:156-161 | The flattening is empty exactly when every visited name that has a list has an empty one. |
| Ratings.GatherInRange | src/Sports.java:156-159 | Flattening lists of ratings in range gives ratings in range. |
| Ratings.GatherReorder | src/Sports.java:139-141 | Visiting the same names in another order gives as many ratings with the same star sum. |
| Ratings.MeanGatherReorder | src/Sports.java:139-143 | Visiting the same names in another order gives the same mean. |
| Buckets.LookupAt | src/Sports.java:171 | With distinct keys, looking up an entry's mean finds that entry's list. |
| Buckets.LookupAbsent | src/Sports.java:171 | Looking up a mean with no entry finds nothing. |
| Buckets.AddToKeys | src/Sports.java:176 | `computeIfAbsent(stars, ...).add(name)` adds the mean to the keys and no other. |
| Buckets.AddToDescending | src/Sports.java:171-176 | Adding a name keeps the entries in strictly descending order of means, as a reverse-ordered `TreeMap` iterates. |
| Buckets.AddToLookup | src/Sports.java:176 | Adding a name under a mean appends it to that mean's list and leaves every other list unchanged. |
| Buckets.AddToSpec | src/Sports.java:176 | The three facts above together. |
| Catalog.MeanPerGroup | src/Sports.java:154-165 | Visiting the groups in any order, the result has exactly the groups whose ratings are nonempty, each mapped to the mean of its ratings. |
| Catalog.SortEachEntry | src/Sports.java:180 | Every entry keeps its mean and place and has its list sorted. |
| Catalog.Sports.constructor | src/Sports.java:5-9 | A new catalog is empty and satisfies the invariant. |
| Catalog.Sports.DefineActivities | src/Sports.java:42-51 | No arguments: `NoActivities` and nothing changes. Otherwise the activities become the old ones plus the arguments, new activities get an empty category set, existing ones keep theirs, nothing else changes, and the invariant holds. |
| Catalog.Sports.GetActivities | src/Sports.java:53-55 | The activities, strictly ascending, each exactly once. |
| Catalog.Sports.AddCategory | src/Sports.java:57-70 | Refused exactly when some linked activity is undefined, reporting the first such one (in argument order) and changing nothing. Otherwise: the category maps to exactly the given activities, replacing an earlier binding; it is added to each of their category sets; earlier links stay; the category count grows by one exactly for a new name; nothing else changes; the invariant holds. |
| Catalog.Sports.LinkActivities | src/Sports.java:67-69 | The second loop adds the category to the set of each linked activity and changes nothing else. |
| Catalog.Sports.CountCategories | src/Sports.java:72-74 | The number of categories is the number of distinct names ever added successfully. |
| Catalog.Sports.GetCategoriesForActivity | src/Sports.java:76-78 | Strictly ascending, exactly the activity's category set. Every category linked to the activity is listed, every listed name is a category, and the list is empty for an undefined activity. |
| Catalog.Sports.AddProduct | src/Sports.java:80-87 | Refused exactly for an existing name, reporting it and changing nothing. Otherwise exactly that product is registered, ratings already stored under the name are kept (an empty list is created only when none exists), nothing else changes, and the invariant holds. |
| Catalog.Sports.ProductValues | src/Sports.java:85 | Every stored product is stored under its own name. |
| Catalog.Sports.GetProductsForCategory | src/Sports.java:89-95 | Strictly ascending, exactly the names of the category's products. |
| Catalog.Sports.GetProductsForActivity | src/Sports.java:97-103 | Strictly ascending, exactly the names of the activity's products. |
| Catalog.Sports.GetProducts | src/Sports.java:105-113 | Strictly ascending, exactly the names of the activity's products whose category is among the arguments. |
| Catalog.Sports.GetProductsIgnoresOrder | src/Sports.java:106-109 | Category arguments with the same members, in any order and with any repetitions, give the same list. |
| Catalog.Sports.GetProductsAllCategories | src/Sports.java:105-113 | Filtering by all categories of an activity's products gives the activity's products. |
| Catalog.Sports.AddRating | src/Sports.java:115-122 | Refused exactly for stars outside 0..5, changing nothing. Otherwise exactly one rating is appended to that name's list (created when the name has none, product or not), every other list is unchanged, and the invariant holds. |
| Catalog.Sports.GetRatingsForProduct | src/Sports.java:124-129 | The printed form of a stable descending arrangement of the product's ratings, one line per rating; empty for a name without ratings. |
| Catalog.Sports.GetRatingsForProductUnique | src/Sports.java:124-129 | The printed list equals the printed form of every stable descending arrangement of the ratings. |
| Catalog.Sports.GetStarsOfProduct | src/Sports.java:131-136 | 0 without ratings; otherwise the mean of the product's ratings. Always in 0..5, and 0 exactly when every rating has 0 stars. |
| Catalog.Sports.AllRatings | src/Sports.java:139-141 | Exactly the ratings stored under any name, product or not. |
| Catalog.Sports.AllRatingsInRange | src/Sports.java:139-141 | Every stored rating has 0 to 5 stars. |
| Catalog.Sports.AllRatingsZero | src/Sports.java:139-141 | The flattened ratings all have 0 stars exactly when every stored rating does. |
| Catalog.Sports.AverageStars | src/Sports.java:138-144 | 0 without ratings; otherwise the mean over all stored ratings; always in 0..5. |
| Catalog.Sports.AverageStarsZero | src/Sports.java:138-144 | The overall mean is 0 exactly when every stored rating has 0 stars. |
| Catalog.Sports.AverageStarsAnyOrder | src/Sports.java:139-143 | Visiting the rating lists in any order, each once, gives the same mean. |
| Catalog.Sports.StarsPerActivity | src/Sports.java:146-168 | The keys are exactly the activities with a product that has at least one rating. Each is mapped to the mean of all ratings of that activity's products, and every value is in 0..5. |
| Catalog.Sports.GroupNames | src/Sports.java:149-152 | The first loop files each name under its product's activity, as the grouping function does. |
| Catalog.Sports.GroupByActivitySpec | src/Sports.java:150-152 | The grouping has exactly the activities of the visited products, each mapped to those products in visiting order. |
| Catalog.Sports.GroupIsProductsForActivity | src/Sports.java:150-152 | Grouping all products in ascending order gives each activity its `getProductsForActivity` list, and no group to an activity without products. |
| Catalog.Sports.RestrictByActivity | src/Sports.java:150-152 | Filtering the ascending product names by activity gives that activity's products. |
| Catalog.Sports.ActivityRated | src/Sports.java:156-161 | An activity's gathered ratings are nonempty exactly when one of its products has a rating. |
| Catalog.Sports.ActivityEntry | src/Sports.java:154-165 | For one activity, the per-group means of the grouping are what `starsPerActivity` promises. |
| Catalog.Sports.StarsPerActivitySpec | src/Sports.java:146-168 | The per-group means of the grouping of all products are what `starsPerActivity` promises, for every activity. |
| Catalog.Sports.RankNames | src/Sports.java:173-178 | The loop files each name with a positive mean under that mean, as the ranking function does. |
| Catalog.Sports.RankByStarsSpec | src/Sports.java:173-178 | The ranking has one entry per positive mean among the visited products, in strictly descending order of means, each listing those products in visiting order. |
| Catalog.Sports.RankPositive | src/Sports.java:174-176 | A product with a positive mean is appended to its mean's entry, keeping the ranking property. |
| Catalog.Sports.RankSkipped | src/Sports.java:175 | A product with mean 0 leaves the ranking as it is. |
| Catalog.Sports.RankedEntry | src/Sports.java:173-180 | Every entry of the ranking of all products has a positive mean, is nonempty, strictly ascending, lists exactly the products with that mean, and is left unchanged by the sort. |
| Catalog.Sports.PositiveRanked | src/Sports.java:173-178 | A product with a positive mean has an entry for its mean. |
| Catalog.Sports.RankedCoverage | src/Sports.java:173-178 | Every product with a positive mean has an entry for its mean. |
| Catalog.Sports.RankingSpec | src/Sports.java:170-182 | The ranking built from all products, ascending, satisfies `IsStarsRanking`, and sorting its lists leaves it unchanged. |
| Catalog.Sports.GetProductsPerStars | src/Sports.java:170-182 | The result satisfies `IsStarsRanking`. Hence every product with a positive mean appears in exactly one entry, its own mean's, and no entry has mean 0. |

## Left out

- Ratings.Mean: means are exact reals, not IEEE doubles. The rounding of `IntStream.average()` is not modelled, and `getProductsPerStars` compares means exactly.
- Catalog.Sports.GetStarsOfProduct: the same exact mean, not an IEEE double.
- Catalog.Sports.AverageStars: the same exact mean, not an IEEE double.
- Catalog.Sports.StarsPerActivity: the same exact means, not IEEE doubles.
- Catalog.Sports.GetProductsPerStars: entries are keyed by exact means, so two means that round to the same double are kept apart.
- The `long` sum inside `IntStream.average()` is treated as unbounded; overflow would need about 2^60 ratings.
- Orders.LessEq: compares Dafny characters (Unicode scalar values), whereas `String.compareTo` compares UTF-16 code units. The two orders differ only for strings with characters outside the Basic Multilingual Plane.
- Exception messages: a refused call returns a `Failure` naming the offending activity, product or star count, not the text of a `SportsException`.
- Catalog.Sports.AllRatings: a `HashMap` visits the rating lists in an order of its own, which the model replaces by ascending name order. `Catalog.Sports.AverageStarsAnyOrder` proves the mean is the same in every order.
- Catalog.MeanPerGroup: the `HashMap` visiting order of the second loop of `starsPerActivity` is an arbitrary choice (`:|`), so nothing depends on it.
- Catalog.SortEachEntry: `Collections.sort` sorts the entry lists in place, inside the map. The model builds new values, so the aliasing of those lists is not modelled.
- Java collection types are Dafny values: `TreeSet`/`HashSet` become `set`, `TreeMap`/`HashMap` become `map`, and lists become `seq`. The descending `SortedMap<Double, List<String>>` becomes a sequence of entries in descending order of means. The fresh copies returned by `getActivities` and `getCategoriesForActivity` need no aliasing model.
- The `userName` and `productName` of a rating are stored and never read by a query. They are carried along unchanged.
- Null arguments and null varargs arrays are not modelled: Dafny values cannot be null.
- `categoryLog` is a ghost history of the category names added successfully. It exists only to state what `countCategories` counts; the source has no such field.
- No validation the code lacks is added: no activity or category check in `addProduct`, no rejection of ratings for unknown names, and no rejection of an empty activity list in `addCategory`.
