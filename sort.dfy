/** `sortProducts`: a reordered copy of the products by the selected sort key. The three
    comparators of the source all order ascending by an integer rank (`a.price - b.price`,
    `b.price - a.price` and `(b.discount || 0) - (a.discount || 0)`), and
    `Array.prototype.sort` is stable, so each is a stable sort by that rank. */
module Sort {
  import opened Catalog

  datatype SortKey = PriceAsc | PriceDesc | DiscountDesc | Relevance

  /** The `switch (sort)`: every value other than the three named ones is `Relevance`. */
  function ParseSortKey(sort: string): (k: SortKey)
    ensures k == PriceAsc <==> sort == "price_asc"
    ensures k == PriceDesc <==> sort == "price_desc"
    ensures k == DiscountDesc <==> sort == "discount_desc"
  {
    if sort == "price_asc" then PriceAsc
    else if sort == "price_desc" then PriceDesc
    else if sort == "discount_desc" then DiscountDesc
    else Relevance
  }

  /** The comparator of each key, as the integer that the copy is sorted ascending by. */
  function Rank(p: Product, key: SortKey): int {
    match key
    case PriceAsc => p.price
    case PriceDesc => -p.price
    case DiscountDesc => -DiscountOrZero(p)
    case Relevance => 0
  }

  /** The comparator the source passes to `copy.sort` for each key; relevance sorts nothing. */
  function Compare(key: SortKey, a: Product, b: Product): int {
    match key
    case PriceAsc => a.price - b.price
    case PriceDesc => b.price - a.price
    case DiscountDesc => DiscountOrZero(b) - DiscountOrZero(a)
    case Relevance => 0
  }

  /** Every comparator is the difference of ranks, so sorting by it is sorting ascending
      by rank: a goes first exactly when its rank is lower. */
  lemma RankIsComparator(a: Product, b: Product, key: SortKey)
    ensures Compare(key, a, b) == Rank(a, key) - Rank(b, key)
  {
  }

  /** Non-decreasing rank from left to right. */
  predicate Ordered(s: seq<Product>, key: SortKey) {
    forall i, j :: 0 <= i < j < |s| ==> Rank(s[i], key) <= Rank(s[j], key)
  }

  /** p alone if its rank is v, nothing otherwise. */
  function IfRank(p: Product, key: SortKey, v: int): seq<Product> {
    if Rank(p, key) == v then [p] else []
  }

  /** The products of s whose rank is v, in the order s has them. */
  function WithRank(s: seq<Product>, key: SortKey, v: int): seq<Product> {
    if s == [] then [] else WithRank(s[..|s| - 1], key, v) + IfRank(s[|s| - 1], key, v)
  }

  lemma WithRankAppend(s: seq<Product>, p: Product, key: SortKey, v: int)
    ensures WithRank(s + [p], key, v) == WithRank(s, key, v) + IfRank(p, key, v)
  {
    assert (s + [p])[..|s|] == s;
  }

  /** A stable reordering: for every rank, the products of that rank keep their relative order. */
  ghost predicate SameRankOrder(s: seq<Product>, t: seq<Product>, key: SortKey) {
    forall v :: WithRank(s, key, v) == WithRank(t, key, v)
  }

  /** Inserts x into s behind every element whose rank is not greater than x's. */
  function Insert(s: seq<Product>, x: Product, key: SortKey): seq<Product> {
    if s == [] then [x]
    else if Rank(s[|s| - 1], key) <= Rank(x, key) then s + [x]
    else Insert(s[..|s| - 1], x, key) + [s[|s| - 1]]
  }

  /** Stable insertion sort by rank, the reference for what `copy.sort(cmp)` produces. */
  function InsertionSort(s: seq<Product>, key: SortKey): seq<Product> {
    if s == [] then [] else Insert(InsertionSort(s[..|s| - 1], key), s[|s| - 1], key)
  }

  /** What `sortProducts` returns for a key. */
  function SortedView(s: seq<Product>, key: SortKey): (r: seq<Product>)
    ensures multiset(r) == multiset(s)
    ensures Ordered(r, key)
    ensures SameRankOrder(r, s, key)
  {
    if key == Relevance then s
    else
      InsertionSortProperties(s, key);
      InsertionSort(s, key)
  }

  /** Insert places x right after position j - 1 when j is where the backward scan stops. */
  lemma {:induction false} InsertAt(s: seq<Product>, x: Product, key: SortKey, j: int)
    requires 0 <= j <= |s|
    requires forall m :: j <= m < |s| ==> Rank(s[m], key) > Rank(x, key)
    requires j == 0 || Rank(s[j - 1], key) <= Rank(x, key)
    ensures Insert(s, x, key) == s[..j] + [x] + s[j..]
  {
    if j < |s| {
      InsertAt(s[..|s| - 1], x, key, j);
      DropLastSlices(s, j);
    }
  }

  lemma DropLastSlices(s: seq<Product>, j: int)
    requires 0 <= j < |s|
    ensures s[..|s| - 1][..j] == s[..j]
    ensures s[..|s| - 1][j..] + [s[|s| - 1]] == s[j..]
  {
  }

  lemma {:induction false} InsertPermutes(s: seq<Product>, x: Product, key: SortKey)
    ensures multiset(Insert(s, x, key)) == multiset(s) + multiset{x}
  {
    if s != [] && Rank(s[|s| - 1], key) > Rank(x, key) {
      var init := s[..|s| - 1];
      InsertPermutes(init, x, key);
      assert s == init + [s[|s| - 1]];
    }
  }

  /** Products of x's rank that s already holds stay in front of x; other ranks are untouched. */
  lemma {:induction false} InsertStable(s: seq<Product>, x: Product, key: SortKey, v: int)
    ensures WithRank(Insert(s, x, key), key, v) == WithRank(s, key, v) + IfRank(x, key, v)
  {
    if s == [] || Rank(s[|s| - 1], key) <= Rank(x, key) {
      WithRankAppend(s, x, key, v);
    } else {
      InsertStable(s[..|s| - 1], x, key, v);
      InsertStableShift(Insert(s[..|s| - 1], x, key), s, x, key, v);
    }
  }

  /** The inductive step of InsertStable: t, the insertion of x into all of s but its last
      element, followed by that last element, which outranks x. */
  lemma InsertStableShift(t: seq<Product>, s: seq<Product>, x: Product, key: SortKey, v: int)
    requires s != [] && Rank(s[|s| - 1], key) > Rank(x, key)
    requires WithRank(t, key, v) == WithRank(s[..|s| - 1], key, v) + IfRank(x, key, v)
    ensures WithRank(t + [s[|s| - 1]], key, v) == WithRank(s, key, v) + IfRank(x, key, v)
  {
    WithRankAppend(t, s[|s| - 1], key, v);
    SwapAroundEmpty(WithRank(s[..|s| - 1], key, v), IfRank(x, key, v), IfRank(s[|s| - 1], key, v));
  }

  lemma SwapAroundEmpty(w: seq<Product>, a: seq<Product>, b: seq<Product>)
    requires a == [] || b == []
    ensures w + a + b == w + b + a
  {
  }

  /** No product of s ranks above bound. */
  predicate RanksAtMost(s: seq<Product>, key: SortKey, bound: int) {
    forall i :: 0 <= i < |s| ==> Rank(s[i], key) <= bound
  }

  lemma {:induction false} InsertRanksAtMost(s: seq<Product>, x: Product, key: SortKey, bound: int)
    requires RanksAtMost(s, key, bound) && Rank(x, key) <= bound
    ensures RanksAtMost(Insert(s, x, key), key, bound)
  {
    if s != [] && Rank(s[|s| - 1], key) > Rank(x, key) {
      InsertRanksAtMost(s[..|s| - 1], x, key, bound);
    }
  }

  lemma {:induction false} InsertOrdered(s: seq<Product>, x: Product, key: SortKey)
    requires Ordered(s, key)
    ensures Ordered(Insert(s, x, key), key)
  {
    if s != [] && Rank(s[|s| - 1], key) > Rank(x, key) {
      var init, last := s[..|s| - 1], s[|s| - 1];
      InsertOrdered(init, x, key);
      assert RanksAtMost(init, key, Rank(last, key)) by {
        forall i | 0 <= i < |init| ensures Rank(init[i], key) <= Rank(last, key) {
          assert init[i] == s[i];
        }
      }
      InsertRanksAtMost(init, x, key, Rank(last, key));
    }
  }

  lemma {:induction false} InsertionSortPermutes(s: seq<Product>, key: SortKey)
    ensures multiset(InsertionSort(s, key)) == multiset(s)
  {
    if s != [] {
      var init, last := s[..|s| - 1], s[|s| - 1];
      InsertionSortPermutes(init, key);
      InsertPermutes(InsertionSort(init, key), last, key);
      assert s == init + [last];
    }
  }

  lemma {:induction false} InsertionSortOrdered(s: seq<Product>, key: SortKey)
    ensures Ordered(InsertionSort(s, key), key)
  {
    if s != [] {
      InsertionSortOrdered(s[..|s| - 1], key);
      InsertOrdered(InsertionSort(s[..|s| - 1], key), s[|s| - 1], key);
    }
  }

  lemma {:induction false} InsertionSortStable(s: seq<Product>, key: SortKey, v: int)
    ensures WithRank(InsertionSort(s, key), key, v) == WithRank(s, key, v)
  {
    if s != [] {
      var init, last := s[..|s| - 1], s[|s| - 1];
      InsertionSortStable(init, key, v);
      InsertStable(InsertionSort(init, key), last, key, v);
    }
  }

  /** The reference sort is an ordered, stable permutation of its input. */
  lemma InsertionSortProperties(s: seq<Product>, key: SortKey)
    ensures multiset(InsertionSort(s, key)) == multiset(s)
    ensures Ordered(InsertionSort(s, key), key)
    ensures SameRankOrder(InsertionSort(s, key), s, key)
  {
    InsertionSortPermutes(s, key);
    InsertionSortOrdered(s, key);
    forall v ensures WithRank(InsertionSort(s, key), key, v) == WithRank(s, key, v) {
      InsertionSortStable(s, key, v);
    }
  }

  /** One step of the in-place insertion sort: a[..i] is sorted, and a[i] is moved back
      past every element of greater rank. */
  method InsertNext(a: array<Product>, i: int, key: SortKey)
    requires 0 <= i < a.Length
    modifies a
    ensures a[..i + 1] == Insert(old(a[..i]), old(a[i]), key)
    ensures a[i + 1..] == old(a[i + 1..])
  {
    var x := a[i];
    ghost var done := a[..i];
    var j := i;
    while j > 0 && Rank(a[j - 1], key) > Rank(x, key)
      invariant 0 <= j <= i
      invariant forall m :: 0 <= m < j ==> a[m] == done[m]
      invariant forall m :: j < m <= i ==> a[m] == done[m - 1]
      invariant forall m :: j <= m < i ==> Rank(done[m], key) > Rank(x, key)
      invariant a[i + 1..] == old(a[i + 1..])
    {
      a[j] := a[j - 1];
      j := j - 1;
    }
    a[j] := x;
    InsertAt(done, x, key, j);
    ShiftedInsert(a[..i + 1], done, x, j);
  }

  /** A sequence that holds done[..j], then x, then the rest of done, one place later. */
  lemma ShiftedInsert(b: seq<Product>, done: seq<Product>, x: Product, j: int)
    requires |b| == |done| + 1 && 0 <= j <= |done|
    requires forall m :: 0 <= m < j ==> b[m] == done[m]
    requires b[j] == x
    requires forall m :: j < m < |b| ==> b[m] == done[m - 1]
    ensures b == done[..j] + [x] + done[j..]
  {
  }

  /** `sortProducts(products, sort)`: copies the products into a fresh array and, for the
      three recognised keys, sorts the copy in place by a stable insertion sort. */
  method SortProducts(products: seq<Product>, sort: string) returns (r: seq<Product>)
    ensures r == SortedView(products, ParseSortKey(sort))
    ensures |r| == |products| && multiset(r) == multiset(products)
    ensures ParseSortKey(sort) == Relevance ==> r == products
    ensures ParseSortKey(sort) != Relevance ==> Ordered(r, ParseSortKey(sort))
    ensures SameRankOrder(r, products, ParseSortKey(sort))
  {
    var key := ParseSortKey(sort);
    var copy := new Product[|products|](i requires 0 <= i < |products| => products[i]);
    if key == Relevance {
      r := copy[..];
      return;
    }
    var i := 0;
    while i < copy.Length
      invariant 0 <= i <= copy.Length
      invariant copy[..i] == InsertionSort(products[..i], key)
      invariant copy[i..] == products[i..]
    {
      InsertNext(copy, i, key);
      assert products[..i + 1][..i] == products[..i];
      i := i + 1;
    }
    r := copy[..];
    assert products[..|products|] == products;
    InsertionSortProperties(products, key);
  }

  /** `price_asc`: prices never decrease, and equal prices keep their input order. */
  lemma SortByPriceAscending(s: seq<Product>)
    ensures forall i, j :: 0 <= i < j < |SortedView(s, PriceAsc)| ==>
              SortedView(s, PriceAsc)[i].price <= SortedView(s, PriceAsc)[j].price
    ensures SameRankOrder(SortedView(s, PriceAsc), s, PriceAsc)
  {
    InsertionSortProperties(s, PriceAsc);
  }

  /** `price_desc`: prices never increase, and equal prices keep their input order. */
  lemma SortByPriceDescending(s: seq<Product>)
    ensures forall i, j :: 0 <= i < j < |SortedView(s, PriceDesc)| ==>
              SortedView(s, PriceDesc)[i].price >= SortedView(s, PriceDesc)[j].price
    ensures SameRankOrder(SortedView(s, PriceDesc), s, PriceDesc)
  {
    InsertionSortProperties(s, PriceDesc);
  }

  /** `discount_desc`: discounts (absent counting as zero) never increase, so every product
      with a positive discount comes before every product without one. */
  lemma SortByDiscountDescending(s: seq<Product>)
    ensures forall i, j :: 0 <= i < j < |SortedView(s, DiscountDesc)| ==>
              DiscountOrZero(SortedView(s, DiscountDesc)[i]) >= DiscountOrZero(SortedView(s, DiscountDesc)[j])
    ensures forall i, j :: 0 <= i < j < |SortedView(s, DiscountDesc)| && SortedView(s, DiscountDesc)[i].discount.None? ==>
              DiscountOrZero(SortedView(s, DiscountDesc)[j]) <= 0
    ensures SameRankOrder(SortedView(s, DiscountDesc), s, DiscountDesc)
  {
    InsertionSortProperties(s, DiscountDesc);
  }

  lemma {:induction false} WithRankMembers(s: seq<Product>, key: SortKey, v: int)
    ensures forall x :: x in WithRank(s, key, v) <==> x in s && Rank(x, key) == v
  {
    if s != [] {
      WithRankMembers(s[..|s| - 1], key, v);
      assert s == s[..|s| - 1] + [s[|s| - 1]];
    }
  }

  /** The last product is among those of its own rank. */
  lemma WithRankOfLast(s: seq<Product>, key: SortKey)
    requires s != []
    ensures WithRank(s, key, Rank(s[|s| - 1], key)) != []
  {
  }

  /** In an ordered sequence no product outranks the last one. */
  lemma OrderedLastIsMax(s: seq<Product>, key: SortKey, x: Product)
    requires Ordered(s, key) && x in s
    ensures Rank(x, key) <= Rank(s[|s| - 1], key)
  {
    var m :| 0 <= m < |s| && s[m] == x;
    if m < |s| - 1 {
      assert Rank(s[m], key) <= Rank(s[|s| - 1], key);
    }
  }

  /** Sequences that agree on the products of every rank are empty together. */
  lemma SameRankOrderEmpty(a: seq<Product>, b: seq<Product>, key: SortKey)
    requires SameRankOrder(a, b, key) && a == []
    ensures b == []
  {
    if b != [] {
      WithRankOfLast(b, key);
      assert false;
    }
  }

  /** Two orderings by the same rank that agree within every rank end in the same product. */
  lemma SameLast(a: seq<Product>, b: seq<Product>, key: SortKey)
    requires Ordered(a, key) && Ordered(b, key) && SameRankOrder(a, b, key)
    requires a != [] && b != []
    ensures a[|a| - 1] == b[|b| - 1]
  {
    var x, y := a[|a| - 1], b[|b| - 1];
    var u, w := Rank(x, key), Rank(y, key);
    assert u <= w by {
      WithRankMembers(b, key, u);
      assert WithRank(a, key, u) == WithRank(b, key, u);
      OrderedLastIsMax(b, key, x);
    }
    assert w <= u by {
      WithRankMembers(a, key, w);
      assert WithRank(a, key, w) == WithRank(b, key, w);
      OrderedLastIsMax(a, key, y);
    }
    var wa, wb := WithRank(a, key, u), WithRank(b, key, u);
    assert wa == wb;
    assert wa[|wa| - 1] == x && wb[|wb| - 1] == y;
  }

  /** Dropping the same last product from both keeps the agreement within every rank. */
  lemma SameRankOrderInit(a: seq<Product>, b: seq<Product>, key: SortKey)
    requires SameRankOrder(a, b, key) && a != [] && b != [] && a[|a| - 1] == b[|b| - 1]
    ensures SameRankOrder(a[..|a| - 1], b[..|b| - 1], key)
  {
    var a', b' := a[..|a| - 1], b[..|b| - 1];
    forall v ensures WithRank(a', key, v) == WithRank(b', key, v) {
      assert WithRank(a, key, v) == WithRank(b, key, v);
      DropCommonTail(WithRank(a', key, v), WithRank(b', key, v), IfRank(a[|a| - 1], key, v));
    }
  }

  lemma DropCommonTail(p: seq<Product>, q: seq<Product>, tail: seq<Product>)
    requires p + tail == q + tail
    ensures p == q
  {
    assert p == (p + tail)[..|p|];
    assert q == (q + tail)[..|q|];
  }

  lemma SameInitAndLast(a: seq<Product>, b: seq<Product>)
    requires a != [] && b != []
    requires a[..|a| - 1] == b[..|b| - 1] && a[|a| - 1] == b[|b| - 1]
    ensures a == b
  {
    assert a == a[..|a| - 1] + [a[|a| - 1]];
    assert b == b[..|b| - 1] + [b[|b| - 1]];
  }

  /** Two orderings by the same rank that agree on the order within every rank are equal:
      a stable sort has only one possible result. */
  lemma {:induction false} StableOrderUnique(a: seq<Product>, b: seq<Product>, key: SortKey)
    requires Ordered(a, key) && Ordered(b, key)
    requires SameRankOrder(a, b, key)
    ensures a == b
    decreases |a|
  {
    if a == [] {
      SameRankOrderEmpty(a, b, key);
    } else if b == [] {
      SameRankOrderEmpty(b, a, key);
    } else {
      SameLast(a, b, key);
      SameRankOrderInit(a, b, key);
      StableOrderUnique(a[..|a| - 1], b[..|b| - 1], key);
      SameInitAndLast(a, b);
    }
  }

  /** Sorting a sorted copy again changes nothing. */
  lemma SortIdempotent(s: seq<Product>, key: SortKey)
    ensures SortedView(SortedView(s, key), key) == SortedView(s, key)
  {
    if key != Relevance {
      var t := InsertionSort(s, key);
      InsertionSortProperties(s, key);
      InsertionSortProperties(t, key);
      StableOrderUnique(InsertionSort(t, key), t, key);
    }
  }

  function Reverse(s: seq<Product>): (r: seq<Product>)
    ensures |r| == |s|
    ensures forall i :: 0 <= i < |s| ==> r[i] == s[|s| - 1 - i]
  {
    if s == [] then [] else [s[|s| - 1]] + Reverse(s[..|s| - 1])
  }

  lemma {:induction false} ReversePermutes(s: seq<Product>)
    ensures multiset(Reverse(s)) == multiset(s)
  {
    if s != [] {
      ReversePermutes(s[..|s| - 1]);
      assert s == s[..|s| - 1] + [s[|s| - 1]];
    }
  }

  /** How often each product occurs among those of rank v. */
  lemma {:induction false} WithRankCounts(s: seq<Product>, key: SortKey, v: int)
    ensures forall x :: multiset(WithRank(s, key, v))[x] == if Rank(x, key) == v then multiset(s)[x] else 0
  {
    if s != [] {
      WithRankCounts(s[..|s| - 1], key, v);
      assert s == s[..|s| - 1] + [s[|s| - 1]];
    }
  }

  lemma {:induction false} WithRankNone(s: seq<Product>, key: SortKey, v: int)
    requires forall i :: 0 <= i < |s| ==> Rank(s[i], key) != v
    ensures WithRank(s, key, v) == []
  {
    if s != [] {
      WithRankNone(s[..|s| - 1], key, v);
    }
  }

  predicate DistinctPrices(s: seq<Product>) {
    forall i, j :: 0 <= i < j < |s| ==> s[i].price != s[j].price
  }

  lemma {:induction false} DistinctPricesSingleRank(s: seq<Product>, v: int)
    requires DistinctPrices(s)
    ensures |WithRank(s, PriceDesc, v)| <= 1
  {
    if s != [] {
      var init, last := s[..|s| - 1], s[|s| - 1];
      DistinctPricesSingleRank(init, v);
      if Rank(last, PriceDesc) == v {
        forall i | 0 <= i < |init|
          ensures Rank(init[i], PriceDesc) != v
        {
          assert init[i] == s[i];
        }
        WithRankNone(init, PriceDesc, v);
      }
    }
  }

  /** Reversing a `price_asc` ordering gives a `price_desc` ordering. */
  lemma ReverseAscendingIsDescending(asc: seq<Product>)
    requires Ordered(asc, PriceAsc)
    ensures Ordered(Reverse(asc), PriceDesc)
  {
    var rev := Reverse(asc);
    forall i, j | 0 <= i < j < |rev| ensures Rank(rev[i], PriceDesc) <= Rank(rev[j], PriceDesc) {
      assert Rank(asc[|asc| - 1 - j], PriceAsc) <= Rank(asc[|asc| - 1 - i], PriceAsc);
    }
  }

  /** Sequences of at most one element are equal when their multisets are. */
  lemma AtMostOneEqual(a: seq<Product>, b: seq<Product>)
    requires |a| <= 1 && multiset(a) == multiset(b)
    ensures a == b
  {
    assert |b| == |multiset(b)|;
    if |a| == 1 {
      assert a[0] in multiset(b);
    }
  }

  /** Permutations have the same products of each rank, possibly in another order. */
  lemma WithRankPermutes(s: seq<Product>, t: seq<Product>, key: SortKey, v: int)
    requires multiset(t) == multiset(s)
    ensures multiset(WithRank(t, key, v)) == multiset(WithRank(s, key, v))
  {
    WithRankCounts(s, key, v);
    WithRankCounts(t, key, v);
  }

  /** With distinct prices, any permutation t of s lists the (at most one) product of each
      price exactly as s does. */
  lemma DistinctPricesSameRankOrder(s: seq<Product>, t: seq<Product>)
    requires DistinctPrices(s) && multiset(t) == multiset(s)
    ensures SameRankOrder(t, s, PriceDesc)
  {
    forall v ensures WithRank(t, PriceDesc, v) == WithRank(s, PriceDesc, v) {
      WithRankPermutes(s, t, PriceDesc, v);
      DistinctPricesSingleRank(s, v);
      AtMostOneEqual(WithRank(s, PriceDesc, v), WithRank(t, PriceDesc, v));
    }
  }

  /** For products with pairwise distinct prices, `price_desc` is `price_asc` reversed. */
  lemma PriceDescendingIsReversedAscending(s: seq<Product>)
    requires DistinctPrices(s)
    ensures SortedView(s, PriceDesc) == Reverse(SortedView(s, PriceAsc))
  {
    var asc, desc := InsertionSort(s, PriceAsc), InsertionSort(s, PriceDesc);
    InsertionSortProperties(s, PriceAsc);
    InsertionSortProperties(s, PriceDesc);
    ReversePermutes(asc);
    ReverseAscendingIsDescending(asc);
    DistinctPricesSameRankOrder(s, Reverse(asc));
    assert SameRankOrder(desc, Reverse(asc), PriceDesc) by {
      forall v ensures WithRank(desc, PriceDesc, v) == WithRank(Reverse(asc), PriceDesc, v) {
        assert WithRank(desc, PriceDesc, v) == WithRank(s, PriceDesc, v);
      }
    }
    StableOrderUnique(desc, Reverse(asc), PriceDesc);
  }
}
