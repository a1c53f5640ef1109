# Offer catalogue core of `script.js`, modelled in Dafny

The page shows a catalogue of offers. A product feed is loaded once into a session record
(`products`, `query`, `category`, `sort`). Three input handlers each change one field of
that record and re-render. Rendering filters the products by the search query and the
category, and sorts the survivors by the chosen key. Each card links out through an
affiliate link built from the product's fields, and its title is HTML-escaped.

The project models that core:

- `catalog.dfy`: the product record and JavaScript truthiness for its optional fields.
- `text.dfy`: ASCII `toLowerCase`, `includes`, `trim`, and the query normalisation.
- `filter.dfy`: `filterProducts`.
- `sort.dfy`: `sortProducts`. It copies the products into a fresh array and sorts the copy
  in place with a stable insertion sort. A reference function specifies the result.
- `links.dfy`: `buildAffiliateLink`.
- `escape.dfy`: `escapeHTML`.
- `controller.dfy`: the session record as a class. It holds the load step, the three
  handlers and the data part of `render`.

Notes on the source's behaviour:

- The catch-all category is the string `"todos"`.
- A missing `asin`, `productPath` or `url` counts the same as an empty one, because the
  code tests JavaScript truthiness.
- Each card escapes its title. The seller and tags are written unescaped; that part of
  the card is not modelled.

## Model

| member | source | states |
|---|---|---|
| Catalog.DiscountOrZero | script.js:70 | The discount with zero as default is zero exactly when the discount is absent or zero; otherwise it is the discount. |
| Text.Lower | script.js:34 | `toLowerCase` (ASCII) maps each character through the letter table and keeps the length. No upper-case letter remains. |
| Text.LowerIdempotent | script.js:34 | Lower-casing a lower-cased string changes nothing. |
| Text.Contains | script.js:58-59 | `includes`: a contained query is no longer than the text, and a prefix is always contained. |
| Text.ContainsIffOccurs | script.js:58-59 | `includes` holds exactly when some window of the text equals the query. |
| Text.ContainsEmpty | script.js:57-58 | The empty query is contained in every text. |
| Text.Trim | script.js:34 | The result neither starts nor ends with ECMAScript whitespace. The input is whitespace, then the result, then whitespace. |
| Text.LowerKeepsTrimmed | script.js:34 | Lower-casing neither adds nor removes whitespace at the ends. |
| Text.LowerSplitsAround | script.js:34 | Lower-casing keeps the whitespace/content/whitespace split of a string. |
| Text.NormalizeQuery | script.js:34 | The stored query is trimmed and lower-case. It is the lower-cased input with its surrounding whitespace removed. |
| Text.NormalizeIdempotent | script.js:34 | Normalising a normalised query gives it back unchanged. |
| Text.TrimmedSplitUnique | script.js:34 | At most one trimmed string sits between two whitespace runs of a text, so `trim`'s result is fixed by the `Trim` contract. |
| Text.NormalizeQueryIgnoresCase | script.js:34 | Inputs that lower-case alike are stored as the same query, so the search is case-insensitive in the query too. |
| Filter.SomeTagContainsIff | script.js:59 | The short-circuit `some` over the tags holds iff some lower-cased tag contains the query. |
| Filter.FilterProducts | script.js:54-63 | Every kept product is in the input and matches both query and category. The result is no longer than the input. |
| Filter.FilterCharacterisation | script.js:54-63 | The result keeps input order. Each matching product appears as often as in the input; nothing else appears. |
| Filter.FilterMembership | script.js:55-61 | A product is kept iff it is in the input and matches. |
| Filter.FilterKeepsAllMatching | script.js:55-62 | When every product matches, the result is the whole input. |
| Filter.FilterNothing | script.js:57-60 | Empty query and `"todos"` give back the whole input unchanged. |
| Filter.FilterEmptyQuery | script.js:57-60 | With an empty query, the result is exactly the products of the selected category, in input order. |
| Filter.FilterAllCategories | script.js:56-60 | With `"todos"`, the result is exactly the products matching the query, in input order. |
| Filter.FilterIdempotent | script.js:54-63 | Filtering a filtered list with the same arguments changes nothing. |
| Filter.FilterThreeProducts | script.js:54-63 | Categories a, b, a, empty query and category a give the first and third products, in that order. |
| Sort.ParseSortKey | script.js:67-71 | Each of the three named keys is recognised. Every other value means input order. |
| Sort.RankIsComparator | script.js:68-70 | Each of the three comparators (price ascending, price descending, discount-or-zero descending) is the rank of its first argument minus the rank of its second. Sorting by it is sorting ascending by `Sort.Rank`. |
| Sort.SortedView | script.js:65-73 | What `sortProducts` returns: a permutation of its input, ordered by the key's rank, with equal-rank products in input order. |
| Sort.InsertAt | script.js:68-70 | Insertion places the new product right behind the last product whose rank does not exceed its own. |
| Sort.InsertPermutes | script.js:68-70 | Insertion adds exactly the new product. |
| Sort.InsertStable | script.js:68-70 | Insertion keeps the order within every rank; the new product goes behind its equals. |
| Sort.InsertOrdered | script.js:68-70 | Insertion into an ordered list keeps it ordered. |
| Sort.InsertionSortPermutes | script.js:66-70 | The reference sort is a permutation of its input. |
| Sort.InsertionSortOrdered | script.js:68-70 | The reference sort's result is ordered by rank. |
| Sort.InsertionSortStable | script.js:68-70 | Products of equal rank keep their input order. |
| Sort.InsertionSortProperties | script.js:66-70 | The reference sort is an ordered, stable permutation. |
| Sort.InsertNext | script.js:68-70 | One in-place step moves `a[i]` back past every product of greater rank. The array prefix becomes the insertion into the old prefix; the rest is untouched. |
| Sort.SortProducts | script.js:65-73 | The result is the reference ordering of the copy: same length, a permutation, and ordered by the key. Equal-rank products keep input order; unrecognised keys return the input order. |
| Sort.SortByPriceAscending | script.js:68 | `price_asc`: prices never decrease, and equal prices keep input order. |
| Sort.SortByPriceDescending | script.js:69 | `price_desc`: prices never increase, and equal prices keep input order. |
| Sort.SortByDiscountDescending | script.js:70 | `discount_desc`: discounts (absent as 0) never increase. A product without a discount is followed only by products whose discount is at most 0. |
| Sort.StableOrderUnique | script.js:68-70 | Two ordered lists that agree within every rank are equal, so the stable sort has exactly one result. |
| Sort.SortIdempotent | script.js:65-73 | Sorting a sorted list again by the same key changes nothing. |
| Sort.PriceDescendingIsReversedAscending | script.js:68-69 | With pairwise distinct prices, `price_desc` is `price_asc` reversed. |
| Links.BuildAffiliateLink | script.js:106-119 | The link is never the empty string. |
| Links.FirstMatch | script.js:111-118 | The result is the link of the first applicable rule. With no applicable rule, it is the fallback. |
| Links.LinkIsFirstMatchingRule | script.js:111-118 | The link is the first applicable rule in the order affiliate URL, Amazon, Shopee, url, else `"#"`. |
| Links.AffiliateUrlFirst | script.js:111 | A non-empty `affiliateUrl` is returned verbatim, whatever the seller, `asin`, `productPath` and `url`. |
| Links.AmazonBeforeShopee | script.js:112-114 | Without an affiliate URL, an Amazon seller with an `asin` gets the Amazon URL with the placeholder tag. |
| Links.ShopeeThird | script.js:115-117 | Otherwise a Shopee seller with a `productPath` gets the Shopee URL with the placeholder tag. |
| Links.UrlOrPlaceholder | script.js:118 | Otherwise the link is `url`, or `"#"` when `url` is missing or empty. |
| Links.SellerCaseInsensitive | script.js:112-115 | Sellers that lower-case alike give the same link. |
| Escape.EscapeHtml | script.js:128-132 | The result never holds `<`, `>`, `"` or `'` and is never shorter. Text without special characters is returned unchanged. |
| Escape.EscapeConcat | script.js:129-131 | Escaping a concatenation is concatenating the escapes. |
| Escape.EscapeOne | script.js:130 | A single character is replaced by its entry of the entity table. |
| Escape.EscapeTag | script.js:128-132 | A tag such as `<script>` keeps its name, and both angle brackets become entities. |
| Escape.UnescapeEscapeChar | script.js:130 | Decoding the escape of one character gives that character back. |
| Escape.UnescapeEscape | script.js:128-132 | Escaping loses nothing: decoding the escaped text gives back the original. |
| Controller.State.constructor | script.js:1-6 | The initial record: no products, empty query, category `"todos"`, sort `"relevance"`. |
| Controller.State.Load | script.js:23 | The feed's product list is loaded, or the empty list when the feed has none. Nothing else changes. |
| Controller.State.OnSearchInput | script.js:33-36 | The query becomes the normalised input and stays normalised. Nothing else changes. |
| Controller.State.OnCategoryChange | script.js:37-40 | The category becomes the selected value. Nothing else changes. |
| Controller.State.OnSortChange | script.js:41-44 | The sort key becomes the selected value. Nothing else changes. |
| Controller.State.Render | script.js:47-50 | The cards shown are the filtered products in the chosen order, a permutation of the filtered products. The count is their number and is at most the number of products. |

## Left out

- Page elements, event wiring and HTML output: the model covers the values that flow into them.
- The card template (`cardHTML`), `formatBRL` and `formatDate`: only the escaping of the title and the link are modelled.
- The feed fetch, its JSON parsing and its failure message: `Load` takes the feed's product list as a parameter. The `lastUpdated` display is not modelled.
- The count text: `Render` returns the number; the Portuguese sentence around it is not modelled.
- The loading, ready and failed phases of the page are not tracked: the constructor gives the record before loading, and the handlers can be called before `Load`.
- Floating point: prices and discounts are integers, so NaN, infinities and fractional values are not modelled.
- Text.Lower: lower-cases ASCII letters only. Full Unicode case mapping, including mappings that change string length, is not modelled.
- Strings are sequences of Unicode scalar values rather than UTF-16 code units.
- Records without a `title`, or with fields of another type, are not modelled. In the source they may make filtering or rendering throw, or their values are coerced.
- The JavaScript engine's own sort algorithm: its result is stated as the unique stable ordering by the comparator's rank, not as the engine's own algorithm.
- The sort's input is a sequence value, so "the input is not mutated" holds by construction.
