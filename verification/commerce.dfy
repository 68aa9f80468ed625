/** The catalogue records the storefront receives from the commerce platform,
    and the add-to-cart request it hands to the cart store. Only the fields the
    modelled components read are kept. */
module Commerce {

  datatype Money = Money(amount: string, currencyCode: string)

  /** One name/value entry of a variant's `selectedOptions` (e.g. Color=Navy). */
  datatype OptionPair = OptionPair(name: string, value: string)

  /** A product option and its listed values (e.g. Size: 5, 6, 7/8). */
  datatype ProductOption = ProductOption(name: string, values: seq<string>)

  datatype Variant = Variant(
    id: string,
    title: string,
    price: Money,
    selectedOptions: seq<OptionPair>)

  datatype Product = Product(
    id: string,
    title: string,
    handle: string,
    options: seq<ProductOption>,
    variants: seq<Variant>)

  /** The argument of the cart store's `addItem`. */
  datatype AddRequest = AddRequest(
    product: Product,
    variantId: string,
    variantTitle: string,
    price: Money,
    quantity: nat,
    selectedOptions: seq<OptionPair>)

  /** `r` carries a snapshot of variant `v`: its id, title, price and options. */
  predicate Snapshots(r: AddRequest, v: Variant)
  {
    && r.variantId == v.id
    && r.variantTitle == v.title
    && r.price == v.price
    && r.selectedOptions == v.selectedOptions
  }

  /** The request for a single unit of variant `v` of product `p`. */
  function AddOne(p: Product, v: Variant): (r: AddRequest)
    ensures r.product == p && r.quantity == 1 && Snapshots(r, v)
  {
    AddRequest(p, v.id, v.title, v.price, 1, v.selectedOptions)
  }
}
