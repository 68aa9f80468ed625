/** The product page: loading the product by handle, the default colour and
    size, the variant the two selections pick out, and the add-to-cart
    handler built from that variant. */
module ProductDetail {
  import opened Wrappers
  import opened Commerce
  import Seqs
  import ProductCard

  const ColorName := "Color"
  const SizeName := "Size"

  /** What the product lookup produced: a product, `null`, or a thrown error. */
  datatype Fetch = Found(product: Product) | NotFound | Failed

  datatype Page = Page(
    loading: bool,
    product: Option<Product>,
    selectedColor: string,
    selectedSize: string)

  /** First render: spinner, no product, empty selections. */
  const Initial := Page(true, None, "", "")

  function NamedOn(name: string): ProductOption -> bool
  {
    (o: ProductOption) => o.name == name
  }

  /** Position `i` holds the first option called `name`. */
  ghost predicate FirstNamed(options: seq<ProductOption>, name: string, i: int)
  {
    && 0 <= i < |options|
    && options[i].name == name
    && (forall j :: 0 <= j < i ==> options[j].name != name)
  }

  /** The first listed value of the first option called `name`, or "" when
      there is no such option or it lists no value. */
  function DefaultValue(options: seq<ProductOption>, name: string): (r: string)
    ensures forall i :: FirstNamed(options, name, i) ==>
      r == (if |options[i].values| > 0 then options[i].values[0] else "")
    ensures (forall i :: 0 <= i < |options| ==> options[i].name != name) ==> r == ""
  {
    match Seqs.FindFirst(options, NamedOn(name))
    case None => ""
    case Some(i) => if |options[i].values| > 0 then options[i].values[0] else ""
  }

  /** A default only replaces the current selection when it is non-empty. */
  function Prefer(default: string, current: string): (r: string)
    ensures default != "" ==> r == default
    ensures default == "" ==> r == current
  {
    if default != "" then default else current
  }

  /** The effect that runs when the route's handle is set. A missing or empty
      handle returns before anything happens, so the page keeps loading. A
      thrown error keeps the previous product; `null` clears it. Only a found
      product sets the defaults. */
  function Load(page: Page, handle: Option<string>, fetched: Fetch): (r: Page)
    ensures handle.None? || handle == Some("") ==> r == page
    ensures handle.Some? && handle.value != "" ==> !r.loading
    ensures handle.Some? && handle.value != "" && fetched.Found? ==>
      && r.product == Some(fetched.product)
      && r.selectedColor == Prefer(DefaultValue(fetched.product.options, ColorName), page.selectedColor)
      && r.selectedSize == Prefer(DefaultValue(fetched.product.options, SizeName), page.selectedSize)
    ensures handle.Some? && handle.value != "" && !fetched.Found? ==>
      && r.product == (if fetched.NotFound? then None else page.product)
      && r.selectedColor == page.selectedColor
      && r.selectedSize == page.selectedSize
  {
    if handle.None? || handle.value == "" then page
    else match fetched
      case Found(p) =>
        Page(false, Some(p),
             Prefer(DefaultValue(p.options, ColorName), page.selectedColor),
             Prefer(DefaultValue(p.options, SizeName), page.selectedSize))
      case NotFound => page.(loading := false, product := None)
      case Failed => page.(loading := false)
  }

  /** Choosing a colour from the colour selector. */
  function ChooseColor(page: Page, color: string): (r: Page)
    ensures r.selectedColor == color
    ensures r.loading == page.loading && r.product == page.product && r.selectedSize == page.selectedSize
    ensures SelectedVariant(r).Some? ==> HasPair(SelectedVariant(r).value.selectedOptions, ColorName, color)
  {
    page.(selectedColor := color)
  }

  /** Choosing a size from the size selector. */
  function ChooseSize(page: Page, size: string): (r: Page)
    ensures r.selectedSize == size
    ensures r.loading == page.loading && r.product == page.product && r.selectedColor == page.selectedColor
    ensures SelectedVariant(r).Some? ==> HasPair(SelectedVariant(r).value.selectedOptions, SizeName, size)
  {
    page.(selectedSize := size)
  }

  /** Some entry of `opts` is exactly `name`=`value`. */
  predicate HasPair(opts: seq<OptionPair>, name: string, value: string)
  {
    exists k :: 0 <= k < |opts| && opts[k].name == name && opts[k].value == value
  }

  /** A variant fits the selection when its options hold both Color=color
      and Size=size. */
  predicate Fits(v: Variant, color: string, size: string)
  {
    HasPair(v.selectedOptions, ColorName, color) && HasPair(v.selectedOptions, SizeName, size)
  }

  function FitsOn(color: string, size: string): Variant -> bool
  {
    (v: Variant) => Fits(v, color, size)
  }

  /** Position `i` holds the first variant of `vs` that fits the selection. */
  ghost predicate FirstFit(vs: seq<Variant>, color: string, size: string, i: int)
  {
    && 0 <= i < |vs|
    && Fits(vs[i], color, size)
    && (forall j :: 0 <= j < i ==> !Fits(vs[j], color, size))
  }

  /** Some variant of `page`'s product fits its selection. */
  ghost predicate SomeFit(page: Page)
  {
    && page.product.Some?
    && exists i :: 0 <= i < |page.product.value.variants| &&
         Fits(page.product.value.variants[i], page.selectedColor, page.selectedSize)
  }

  /** The variant the current selections pick out: the first, in list order,
      that fits them. */
  function SelectedVariant(page: Page): (r: Option<Variant>)
    ensures r.Some? <==> SomeFit(page)
    ensures r.Some? ==>
      exists i :: FirstFit(page.product.value.variants, page.selectedColor, page.selectedSize, i)
               && page.product.value.variants[i] == r.value
  {
    match page.product
    case None => None
    case Some(p) =>
      match Seqs.FindFirst(p.variants, FitsOn(page.selectedColor, page.selectedSize))
      case None => None
      case Some(i) => Some(p.variants[i])
  }

  /** The add button is enabled exactly when a variant is selected. */
  predicate AddEnabled(page: Page)
    ensures AddEnabled(page) <==> SomeFit(page)
    ensures AddEnabled(page) ==> page.product.Some?
  {
    SelectedVariant(page).Some?
  }

  /** The add-to-cart handler: the one request it emits, or None when it
      returns early. */
  function HandleAddToCart(page: Page): (r: Option<AddRequest>)
    ensures r.Some? <==> AddEnabled(page)
    ensures r.Some? ==> page.product.Some? && r.value.product == page.product.value
    ensures r.Some? ==> r.value.quantity == 1 && Snapshots(r.value, SelectedVariant(page).value)
  {
    match SelectedVariant(page)
    case None => None
    case Some(v) => Some(AddOne(page.product.value, v))
  }

  /** A variant without a Color entry, or without a Size entry, is never
      selected, so its add request can never be built. */
  lemma IncompleteVariantNeverSelected(page: Page, v: Variant)
    requires
      || (forall k :: 0 <= k < |v.selectedOptions| ==> v.selectedOptions[k].name != ColorName)
      || (forall k :: 0 <= k < |v.selectedOptions| ==> v.selectedOptions[k].name != SizeName)
    ensures SelectedVariant(page) != Some(v)
  {
  }

  /** With no product, or no variant fitting the selection, the button is
      disabled and a click adds nothing. */
  lemma NoFitAddsNothing(page: Page)
    requires page.product.None? ||
      forall i :: 0 <= i < |page.product.value.variants| ==>
        !Fits(page.product.value.variants[i], page.selectedColor, page.selectedSize)
    ensures !AddEnabled(page) && HandleAddToCart(page) == None
  {
  }

  /** When a product's first variant carries the default colour and size,
      adding from a freshly loaded product page sends the same request as the
      catalogue tile's quick-add. */
  lemma DefaultAddAgreesWithQuickAdd(p: Product, handle: string)
    requires handle != ""
    requires |p.variants| > 0
    requires Fits(p.variants[0], DefaultValue(p.options, ColorName), DefaultValue(p.options, SizeName))
    ensures HandleAddToCart(Load(Initial, Some(handle), Found(p))) == ProductCard.HandleAddToCart(p)
  {
  }
}
