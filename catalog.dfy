/** The product record of the feed and the JavaScript truthiness rules the
    catalogue applies to its optional fields. */
module Catalog {

  datatype Option<T> = None | Some(value: T)

  /** One entry of `products.json`. Prices and discounts are integers (for instance
      centavos and whole percent). A missing `tags` list is the empty list. */
  datatype Product = Product(
    title: string,
    price: int,
    originalPrice: Option<int>,
    discount: Option<int>,
    category: string,
    tags: seq<string>,
    seller: Option<string>,
    image: string,
    shipping: Option<string>,
    affiliateUrl: Option<string>,
    asin: Option<string>,
    productPath: Option<string>,
    url: Option<string>)

  /** The catch-all value of the category selector. */
  const AllCategories: string := "todos"

  /** A string field is truthy when it is present and not the empty string. */
  predicate Truthy(o: Option<string>) {
    o.Some? && o.value != ""
  }

  /** `p.discount || 0`: an absent (or zero) discount counts as zero. */
  function DiscountOrZero(p: Product): (d: int)
    ensures d == 0 <==> p.discount.None? || p.discount.value == 0
    ensures d != 0 ==> p.discount == Some(d)
  {
    match p.discount
    case Some(d) => d
    case None => 0
  }
}
