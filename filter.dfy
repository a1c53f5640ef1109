/** `filterProducts`: the products that match the search query and the selected category. */
module Filter {
  import opened Text
  import opened Catalog

  /** `(p.tags || []).some(t => t.toLowerCase().includes(query))` */
  predicate SomeTagContains(tags: seq<string>, query: string) {
    tags != [] && (Contains(Lower(tags[0]), query) || SomeTagContains(tags[1..], query))
  }

  /** The short-circuiting `some` holds exactly when some tag contains the query. */
  lemma {:induction false} SomeTagContainsIff(tags: seq<string>, query: string)
    ensures SomeTagContains(tags, query) <==> exists i :: 0 <= i < |tags| && Contains(Lower(tags[i]), query)
  {
    if tags != [] {
      SomeTagContainsIff(tags[1..], query);
    }
  }

  /** Empty query, or the lower-cased title or some lower-cased tag contains it. */
  predicate MatchesQuery(p: Product, query: string) {
    query == "" || Contains(Lower(p.title), query) || SomeTagContains(p.tags, query)
  }

  /** The catch-all category, or the product's own category. */
  predicate MatchesCategory(p: Product, category: string) {
    category == AllCategories || p.category == category
  }

  predicate Matches(p: Product, query: string, category: string) {
    MatchesQuery(p, query) && MatchesCategory(p, category)
  }

  /** `a` is an order-preserving subsequence of `b` (greedy matching). */
  predicate IsSubsequence(a: seq<Product>, b: seq<Product>)
    decreases |b|
  {
    if a == [] then true
    else if b == [] then false
    else if a[0] == b[0] then IsSubsequence(a[1..], b[1..])
    else IsSubsequence(a, b[1..])
  }

  /** `products.filter(p => matchesQuery && matchesCategory)`. */
  function FilterProducts(products: seq<Product>, query: string, category: string): (r: seq<Product>)
    ensures |r| <= |products|
    ensures forall x :: x in r ==> x in products && Matches(x, query, category)
  {
    if products == [] then []
    else
      var rest := FilterProducts(products[1..], query, category);
      if Matches(products[0], query, category) then [products[0]] + rest else rest
  }

  /** The result keeps input order, and holds each matching product exactly as often
      as the input does and no other product. */
  lemma {:induction false} FilterCharacterisation(products: seq<Product>, query: string, category: string)
    ensures IsSubsequence(FilterProducts(products, query, category), products)
    ensures forall x :: multiset(FilterProducts(products, query, category))[x]
                        == if Matches(x, query, category) then multiset(products)[x] else 0
  {
    if products != [] {
      var r := FilterProducts(products, query, category);
      var rest := FilterProducts(products[1..], query, category);
      FilterCharacterisation(products[1..], query, category);
      assert products == [products[0]] + products[1..];
      if Matches(products[0], query, category) {
        assert r[0] == products[0] && r[1..] == rest;
      } else {
        assert r == rest;
        if rest != [] {
          assert rest[0] in rest;
        }
      }
    }
  }

  /** A product is kept if and only if it is in the input and matches. */
  lemma FilterMembership(products: seq<Product>, query: string, category: string, x: Product)
    ensures x in FilterProducts(products, query, category) <==> x in products && Matches(x, query, category)
  {
    FilterCharacterisation(products, query, category);
    assert x in products <==> multiset(products)[x] > 0;
    assert x in FilterProducts(products, query, category) <==> multiset(FilterProducts(products, query, category))[x] > 0;
  }

  /** When every product already matches, nothing is dropped. */
  lemma {:induction false} FilterKeepsAllMatching(products: seq<Product>, query: string, category: string)
    requires forall i :: 0 <= i < |products| ==> Matches(products[i], query, category)
    ensures FilterProducts(products, query, category) == products
  {
    if products != [] {
      FilterKeepsAllMatching(products[1..], query, category);
    }
  }

  /** Empty query and the catch-all category: the whole input, unchanged. */
  lemma FilterNothing(products: seq<Product>)
    ensures FilterProducts(products, "", AllCategories) == products
  {
    FilterKeepsAllMatching(products, "", AllCategories);
  }

  /** Empty query: exactly the products of the selected category, in input order. */
  lemma FilterEmptyQuery(products: seq<Product>, category: string)
    ensures IsSubsequence(FilterProducts(products, "", category), products)
    ensures forall x :: multiset(FilterProducts(products, "", category))[x]
                        == if MatchesCategory(x, category) then multiset(products)[x] else 0
  {
    FilterCharacterisation(products, "", category);
  }

  /** Catch-all category: exactly the products that match the query, in input order. */
  lemma FilterAllCategories(products: seq<Product>, query: string)
    ensures IsSubsequence(FilterProducts(products, query, AllCategories), products)
    ensures forall x :: multiset(FilterProducts(products, query, AllCategories))[x]
                        == if MatchesQuery(x, query) then multiset(products)[x] else 0
  {
    FilterCharacterisation(products, query, AllCategories);
  }

  /** Filtering twice with the same arguments is filtering once. */
  lemma FilterIdempotent(products: seq<Product>, query: string, category: string)
    ensures FilterProducts(FilterProducts(products, query, category), query, category)
            == FilterProducts(products, query, category)
  {
    var r := FilterProducts(products, query, category);
    assert forall i :: 0 <= i < |r| ==> r[i] in r;
    FilterKeepsAllMatching(r, query, category);
  }

  /** Three products of categories "a", "b", "a", empty query, category "a":
      the first and the third, in that order. */
  lemma FilterThreeProducts(p0: Product, p1: Product, p2: Product)
    requires p0.category == "a" && p1.category == "b" && p2.category == "a"
    ensures FilterProducts([p0, p1, p2], "", "a") == [p0, p2]
  {
    assert "a" != AllCategories && "b" != "a";
    assert Matches(p0, "", "a") && !Matches(p1, "", "a") && Matches(p2, "", "a");
    assert [p2][1..] == [];
    assert FilterProducts([p2], "", "a") == [p2];
    assert [p1, p2][1..] == [p2];
    assert FilterProducts([p1, p2], "", "a") == [p2];
    assert [p0, p1, p2][1..] == [p1, p2];
  }
}
