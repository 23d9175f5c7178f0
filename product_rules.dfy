/**
 * The expression-level logic of controllers/productControllers.js: the required-field guard
 * of `addProducts`, the row it creates, and the field-by-field merge of `updateProduct`, all
 * driven by JavaScript truthiness.
 */
module ProductRules {
  import opened Basics
  import opened JsValues
  import opened JsNumbers
  import opened Schema

  /** The fields of `req.body` that the product handlers read. */
  datatype ProductBody = ProductBody(
    productName: JsVal,
    category: JsVal,
    price: JsVal,
    description: JsVal,
    stock: JsVal,
    image: JsVal,
    status: JsVal)

  /** The guard of `addProducts`: productName, category and price must all be truthy. */
  predicate HasRequiredFields(b: ProductBody) {
    Truthy(b.productName) && Truthy(b.category) && Truthy(b.price)
  }

  /**
   * Whether Prisma accepts the data of `addProducts`: names are strings, `parseInt(price)` is
   * a number, and each optional field, when truthy, has its column's type.
   */
  predicate CreateAccepted(b: ProductBody) {
    b.productName.Str? && b.category.Str? && ParseInt(b.price).Some? &&
    (Truthy(b.description) ==> b.description.Str?) &&
    (Truthy(b.stock) ==> b.stock.Num?) &&
    (Truthy(b.image) ==> b.image.Str?)
  }

  /**
   * The row `addProducts` creates at time `nowMs`, or `None` when Prisma rejects its data. A new
   * product is active; a falsy description or image becomes '' and a falsy stock 0.
   */
  function NewProduct(b: ProductBody, nowMs: nat): (r: Option<ProductFields>)
    ensures r.Some? <==> CreateAccepted(b)
    ensures r.Some? ==>
      var p := r.value;
      p.status && p.createdAt == nowMs / 1000 && p.updatedAt == None &&
      p.productName == b.productName.s && p.category == b.category.s && p.price == ParseInt(b.price).value &&
      p.description == (if Truthy(b.description) then b.description.s else "") &&
      p.stock == (if Truthy(b.stock) then b.stock.n else 0) &&
      p.image == (if Truthy(b.image) then b.image.s else "")
  {
    var name := StringColumn(b.productName);
    var category := StringColumn(b.category);
    var price := ParseInt(b.price);
    var description := StringColumn(Or(b.description, Str("")));
    var stock := IntColumn(Or(b.stock, Num(0)));
    var image := StringColumn(Or(b.image, Str("")));
    if name.None? || category.None? || price.None? || description.None? || stock.None? || image.None? then None
    else Some(ProductFields(name.value, category.value, price.value, description.value, stock.value, image.value,
                            true, nowMs / 1000, None))
  }

  /** A numeric price is stored as given: `parseInt` of a number's decimal text is that number. */
  lemma NewProductNumericPrice(b: ProductBody, nowMs: nat)
    requires b.price.Num?
    ensures ParseInt(b.price) == Some(b.price.n)
    ensures NewProduct(b, nowMs).Some? ==> NewProduct(b, nowMs).value.price == b.price.n
  {
    ParseIntNumber(b.price.n);
  }

  /**
   * Whether Prisma accepts the data of `updateProduct`: every truthy field has its column's
   * type, and a status that is not `undefined` is a boolean (`null` is refused).
   */
  predicate MergeAccepted(b: ProductBody) {
    (Truthy(b.productName) ==> b.productName.Str?) &&
    (Truthy(b.price) ==> b.price.Num?) &&
    (Truthy(b.category) ==> b.category.Str?) &&
    (Truthy(b.description) ==> b.description.Str?) &&
    (Truthy(b.stock) ==> b.stock.Num?) &&
    (Truthy(b.image) ==> b.image.Str?) &&
    (b.status.Undefined? || b.status.Bool?)
  }

  /**
   * The row `updateProduct` writes over `p` at time `nowMs`: each of productName, price,
   * category, description, stock and image is `field || existing.field`, status is taken
   * whenever it is not `undefined`, and updatedAt is the current second.
   */
  function MergeProduct(p: ProductFields, b: ProductBody, nowMs: nat): (r: Option<ProductFields>)
    ensures r.Some? <==> MergeAccepted(b)
    ensures r.Some? ==>
      var q := r.value;
      q.productName == (if Truthy(b.productName) then b.productName.s else p.productName) &&
      q.price == (if Truthy(b.price) then b.price.n else p.price) &&
      q.category == (if Truthy(b.category) then b.category.s else p.category) &&
      q.description == (if Truthy(b.description) then b.description.s else p.description) &&
      q.stock == (if Truthy(b.stock) then b.stock.n else p.stock) &&
      q.image == (if Truthy(b.image) then b.image.s else p.image) &&
      q.status == (if b.status.Bool? then b.status.b else p.status) &&
      q.createdAt == p.createdAt && q.updatedAt == Some(nowMs / 1000)
  {
    var name := StringColumn(Or(b.productName, Str(p.productName)));
    var price := IntColumn(Or(b.price, Num(p.price)));
    var category := StringColumn(Or(b.category, Str(p.category)));
    var description := StringColumn(Or(b.description, Str(p.description)));
    var stock := IntColumn(Or(b.stock, Num(p.stock)));
    var image := StringColumn(Or(b.image, Str(p.image)));
    var status := if b.status != Undefined then BoolColumn(b.status) else Some(p.status);
    if name.None? || price.None? || category.None? || description.None? || stock.None? || image.None? || status.None? then None
    else Some(p.(productName := name.value, price := price.value, category := category.value,
                 description := description.value, stock := stock.value, image := image.value,
                 status := status.value, updatedAt := Some(nowMs / 1000)))
  }

  /**
   * The merge sees only truthy fields: two bodies whose six merged fields agree wherever either
   * is truthy (and whose status is the same) produce the same row, so a price or stock of 0, an
   * empty string, `null` and `false` all mean "keep the stored value", like an absent field.
   */
  lemma MergeSeesOnlyTruthy(p: ProductFields, b: ProductBody, c: ProductBody, nowMs: nat)
    requires Truthy(b.productName) || Truthy(c.productName) ==> b.productName == c.productName
    requires Truthy(b.price) || Truthy(c.price) ==> b.price == c.price
    requires Truthy(b.category) || Truthy(c.category) ==> b.category == c.category
    requires Truthy(b.description) || Truthy(c.description) ==> b.description == c.description
    requires Truthy(b.stock) || Truthy(c.stock) ==> b.stock == c.stock
    requires Truthy(b.image) || Truthy(c.image) ==> b.image == c.image
    requires b.status == c.status
    ensures MergeProduct(p, b, nowMs) == MergeProduct(p, c, nowMs)
  {
    var r, s := MergeProduct(p, b, nowMs), MergeProduct(p, c, nowMs);
    if r.Some? {
      assert r.value == s.value;
    }
  }

  /** A price of 0 leaves the stored price in place, exactly as if no price had been sent. */
  lemma ZeroPriceKeepsPrice(p: ProductFields, b: ProductBody, nowMs: nat)
    ensures MergeProduct(p, b.(price := Num(0)), nowMs) == MergeProduct(p, b.(price := Undefined), nowMs)
    ensures MergeProduct(p, b.(price := Num(0)), nowMs).Some? ==> MergeProduct(p, b.(price := Num(0)), nowMs).value.price == p.price
  {
    MergeSeesOnlyTruthy(p, b.(price := Num(0)), b.(price := Undefined), nowMs);
  }

  /** A status of `false` is written, unlike the other falsy fields. */
  lemma FalseStatusIsWritten(p: ProductFields, b: ProductBody, nowMs: nat)
    requires b.status == Bool(false) && MergeAccepted(b)
    ensures MergeProduct(p, b, nowMs).Some? && !MergeProduct(p, b, nowMs).value.status
  {
  }

  /** Sending the same update twice at the same second gives the same row as sending it once. */
  lemma MergeIdempotent(p: ProductFields, b: ProductBody, nowMs: nat)
    requires MergeAccepted(b)
    ensures MergeProduct(MergeProduct(p, b, nowMs).value, b, nowMs) == MergeProduct(p, b, nowMs)
  {
    var q := MergeProduct(p, b, nowMs).value;
    assert MergeProduct(q, b, nowMs).value == q;
  }

  /** An update with an empty body changes nothing but updatedAt. */
  lemma EmptyMergeTouchesOnlyUpdatedAt(p: ProductFields, nowMs: nat)
    ensures var b := ProductBody(Undefined, Undefined, Undefined, Undefined, Undefined, Undefined, Undefined);
      MergeProduct(p, b, nowMs) == Some(p.(updatedAt := Some(nowMs / 1000)))
  {
    var b := ProductBody(Undefined, Undefined, Undefined, Undefined, Undefined, Undefined, Undefined);
    assert MergeProduct(p, b, nowMs).value == p.(updatedAt := Some(nowMs / 1000));
  }
}
