/** The page's `state` record, the load step that fills it, the three input handlers
    that each update one field, and the filter-then-sort step of `render`. */
module Controller {
  import opened Text
  import opened Catalog
  import opened Filter
  import opened Sort

  const DefaultSort: string := "relevance"

  class State {
    var products: seq<Product>
    var query: string
    var category: string
    var sort: string

    /** The stored query is always the normalised (trimmed, lower-cased) input, which is
        what the filter's comparison against lower-cased titles and tags relies on. */
    ghost predicate Valid()
      reads this
    {
      IsNormalized(query)
    }

    /** The initial record: no products, empty query, every category, relevance order. */
    constructor ()
      ensures Valid()
      ensures products == [] && query == "" && category == AllCategories && sort == DefaultSort
    {
      products := [];
      query := "";
      category := AllCategories;
      sort := DefaultSort;
    }

    /** `state.products = json.products || []`: a feed without a product list loads none. */
    method Load(feedProducts: Option<seq<Product>>)
      requires Valid()
      modifies this`products
      ensures Valid()
      ensures products == (if feedProducts.Some? then feedProducts.value else [])
      ensures query == old(query) && category == old(category) && sort == old(sort)
    {
      products := if feedProducts.Some? then feedProducts.value else [];
    }

    /** The search box's `input` handler: stores `value.trim().toLowerCase()`. */
    method OnSearchInput(value: string)
      modifies this`query
      ensures Valid()
      ensures query == NormalizeQuery(value)
      ensures products == old(products) && category == old(category) && sort == old(sort)
    {
      query := NormalizeQuery(value);
    }

    /** The category selector's `change` handler. */
    method OnCategoryChange(value: string)
      requires Valid()
      modifies this`category
      ensures Valid()
      ensures category == value
      ensures products == old(products) && query == old(query) && sort == old(sort)
    {
      category := value;
    }

    /** The sort selector's `change` handler. */
    method OnSortChange(value: string)
      requires Valid()
      modifies this`sort
      ensures Valid()
      ensures sort == value
      ensures products == old(products) && query == old(query) && category == old(category)
    {
      sort := value;
    }

    /** The data part of `render`: the cards shown are the filtered products in the chosen
        order, and the displayed count `sorted.length` is the number of filtered products. */
    method Render() returns (shown: seq<Product>, count: nat)
      ensures shown == SortedView(FilterProducts(products, query, category), ParseSortKey(sort))
      ensures multiset(shown) == multiset(FilterProducts(products, query, category))
      ensures count == |FilterProducts(products, query, category)| && count <= |products|
    {
      var filtered := FilterProducts(products, query, category);
      shown := SortProducts(filtered, sort);
      count := |shown|;
    }
  }
}
