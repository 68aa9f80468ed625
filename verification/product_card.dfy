/** The product tile of the catalogue grid: a link to the product page and a
    quick-add button that puts the first variant in the cart. */
module ProductCard {
  import opened Wrappers
  import opened Commerce

  /** Path prefix of the product-detail route. */
  const ProductRoute := "/product/"

  /** The variant quick-add uses: the first one listed, if any. */
  function FirstVariant(p: Product): (r: Option<Variant>)
    ensures r.Some? <==> |p.variants| > 0
    ensures r.Some? ==> r.value == p.variants[0]
  {
    if |p.variants| > 0 then Some(p.variants[0]) else None
  }

  /** The quick-add handler: the request it emits, or None when it returns
      early because the product has no variant. */
  function HandleAddToCart(p: Product): (r: Option<AddRequest>)
    ensures r.None? <==> |p.variants| == 0
    ensures r.Some? ==> r.value.product == p && r.value.quantity == 1
    ensures r.Some? ==> Snapshots(r.value, p.variants[0])
  {
    match FirstVariant(p)
    case None => None
    case Some(v) => Some(AddOne(p, v))
  }

  /** Where the tile links to. */
  function LinkPath(p: Product): (r: string)
    ensures |r| == |ProductRoute| + |p.handle|
    ensures r[..|ProductRoute|] == ProductRoute
    ensures r[|ProductRoute|..] == p.handle
  {
    ProductRoute + p.handle
  }
}
