/** `buildAffiliateLink`: the outbound URL of a product card, by first matching rule. */
module Links {
  import opened Text
  import opened Catalog

  const AmazonPrefix: string := "https://www.amazon.com.br/dp/"
  const AmazonSuffix: string := "?tag=SEU_TAG_AQUI"
  const ShopeePrefix: string := "https://shopee.com.br/"
  const ShopeeSuffix: string := "?affiliate_tag=SUA_TAG_AQUI"
  /** The placeholder returned when no rule gives a link. */
  const NoLink: string := "#"

  function AmazonUrl(asin: string): string {
    AmazonPrefix + asin + AmazonSuffix
  }

  function ShopeeUrl(productPath: string): string {
    ShopeePrefix + productPath + ShopeeSuffix
  }

  /** `p.seller && p.seller.toLowerCase().includes(brand)` */
  predicate SellerMentions(p: Product, brand: string) {
    Truthy(p.seller) && Contains(Lower(p.seller.value), brand)
  }

  predicate AmazonApplies(p: Product) {
    SellerMentions(p, "amazon") && Truthy(p.asin)
  }

  predicate ShopeeApplies(p: Product) {
    SellerMentions(p, "shopee") && Truthy(p.productPath)
  }

  /** The if-chain of `buildAffiliateLink`. The link is never empty. */
  function BuildAffiliateLink(p: Product): (r: string)
    ensures r != ""
  {
    if Truthy(p.affiliateUrl) then p.affiliateUrl.value
    else if AmazonApplies(p) then AmazonUrl(p.asin.value)
    else if ShopeeApplies(p) then ShopeeUrl(p.productPath.value)
    else if Truthy(p.url) then p.url.value
    else NoLink
  }

  /** The four rules as a priority table: each gives a link or does not apply. */
  function Rules(p: Product): seq<Option<string>> {
    [ if Truthy(p.affiliateUrl) then Some(p.affiliateUrl.value) else None,
      if AmazonApplies(p) then Some(AmazonUrl(p.asin.value)) else None,
      if ShopeeApplies(p) then Some(ShopeeUrl(p.productPath.value)) else None,
      if Truthy(p.url) then Some(p.url.value) else None ]
  }

  /** The link of the first rule that applies, or the fallback when none does. */
  function FirstMatch(rules: seq<Option<string>>, fallback: string): (r: string)
    ensures r == fallback || exists i :: 0 <= i < |rules| && rules[i] == Some(r)
    ensures (forall i :: 0 <= i < |rules| ==> rules[i].None?) ==> r == fallback
    ensures forall i :: 0 <= i < |rules| && rules[i].Some? && (forall k :: 0 <= k < i ==> rules[k].None?)
              ==> r == rules[i].value
  {
    if rules == [] then fallback
    else if rules[0].Some? then rules[0].value
    else FirstMatch(rules[1..], fallback)
  }

  /** `buildAffiliateLink` is the first applicable rule of the table, in table order. */
  lemma LinkIsFirstMatchingRule(p: Product)
    ensures BuildAffiliateLink(p) == FirstMatch(Rules(p), NoLink)
  {
    var rules := Rules(p);
    var urlOnly, fromShopee, fromAmazon := rules[3..], rules[2..], rules[1..];
    assert urlOnly[1..] == [];
    assert FirstMatch(urlOnly, NoLink) == if Truthy(p.url) then p.url.value else NoLink;
    assert fromShopee[1..] == urlOnly;
    assert FirstMatch(fromShopee, NoLink)
      == if ShopeeApplies(p) then ShopeeUrl(p.productPath.value) else FirstMatch(urlOnly, NoLink);
    assert fromAmazon[1..] == fromShopee;
    assert FirstMatch(fromAmazon, NoLink)
      == if AmazonApplies(p) then AmazonUrl(p.asin.value) else FirstMatch(fromShopee, NoLink);
    assert rules[1..] == fromAmazon;
  }

  /** A non-empty `affiliateUrl` is returned verbatim, whatever the seller, `asin`,
      `productPath` and `url` are. */
  lemma AffiliateUrlFirst(p: Product, seller: Option<string>, asin: Option<string>, path: Option<string>, url: Option<string>)
    requires Truthy(p.affiliateUrl)
    ensures BuildAffiliateLink(p.(seller := seller, asin := asin, productPath := path, url := url)) == p.affiliateUrl.value
  {
  }

  /** Without an affiliate URL, an Amazon seller with an `asin` gets the Amazon product
      URL, even when the seller also mentions Shopee. */
  lemma AmazonBeforeShopee(p: Product)
    requires !Truthy(p.affiliateUrl) && AmazonApplies(p)
    ensures BuildAffiliateLink(p) == AmazonPrefix + p.asin.value + AmazonSuffix
  {
  }

  /** Then a Shopee seller with a `productPath` gets the Shopee URL. */
  lemma ShopeeThird(p: Product)
    requires !Truthy(p.affiliateUrl) && !AmazonApplies(p) && ShopeeApplies(p)
    ensures BuildAffiliateLink(p) == ShopeePrefix + p.productPath.value + ShopeeSuffix
  {
  }

  /** Otherwise `url`, or `"#"` when `url` is absent or empty. */
  lemma UrlOrPlaceholder(p: Product)
    requires !Truthy(p.affiliateUrl) && !AmazonApplies(p) && !ShopeeApplies(p)
    ensures BuildAffiliateLink(p) == if Truthy(p.url) then p.url.value else NoLink
  {
  }

  /** The seller is compared case-insensitively: two sellers that lower-case alike give the
      same link. */
  lemma SellerCaseInsensitive(p: Product, seller: string)
    requires p.seller.Some? && Lower(seller) == Lower(p.seller.value)
    ensures BuildAffiliateLink(p.(seller := Some(seller))) == BuildAffiliateLink(p)
  {
    assert |seller| == |p.seller.value|;
  }
}
