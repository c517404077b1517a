/**
 * The product-creation route of app/routes/products/new.tsx: both the loader
 * and the action require a signed-in user; the action validates the name
 * and description, appends one product and redirects to its page.
 */
module NewProductRoute {
  import opened Wrappers
  import opened Zod
  import opened Http
  import JsString
  import CoreValidations
  import ProductStore

  const ProductSchema := ObjectSchema([
      Field("name", Bounded(1, Some(255), Keep)),
      Field("description", Bounded(1, Some(800), Keep))],
    None)

  /** The loader: only a signed-in user may open the page, which needs no data. */
  function NewProductLoader(session: Session): (r: Response<()>)
    ensures r == LoginRequired <==> session.Anonymous?
    ensures session.SignedIn? ==> r == Ok(())
  {
    if session.Anonymous? then LoginRequired else Ok(())
  }

  lemma ProductSchemaKeysDistinct()
    ensures DistinctKeys(ProductSchema.fields)
  {
  }

  /**
   * The form is accepted exactly when the name has 1..255 characters and the
   * description 1..800; nothing is trimmed, so both are kept as submitted.
   */
  lemma ProductSchemaRule(form: Form)
    ensures Parse(ProductSchema, form).Success? <==>
      "name" in form && 1 <= |form["name"]| <= 255 &&
      "description" in form && 1 <= |form["description"]| <= 800
    ensures Parse(ProductSchema, form).Success? ==>
      var data := Parse(ProductSchema, form).value;
      "name" in data && data["name"] == form["name"] &&
      "description" in data && data["description"] == form["description"]
  {
    var fields := ProductSchema.fields;
    ProductSchemaKeysDistinct();
    ParseAccepts(ProductSchema, form);
    if !AllFieldsPass(fields, form) {
      var i :| 0 <= i < |fields| && !ParseString(fields[i].schema, Lookup(form, fields[i].key)).Success?;
      assert i == 0 || i == 1;
    } else {
      assert ParseString(fields[0].schema, Lookup(form, fields[0].key)).Success?;
      assert ParseString(fields[1].schema, Lookup(form, fields[1].key)).Success?;
    }
  }

  /** A name and description made only of spaces are accepted as they are. */
  lemma BlankProductAccepted(form: Form)
    requires form == map["name" := " ", "description" := "  "]
    ensures Parse(ProductSchema, form).Success?
    ensures var data := Parse(ProductSchema, form).value;
      "name" in data && data["name"] == " " && "description" in data && data["description"] == "  "
  {
    ProductSchemaRule(form);
  }

  /** The page of a product. */
  function ProductPath(id: nat): string {
    "/products/" + JsString.NatToString(id)
  }

  /**
   * The action. An anonymous request is sent to log in and a refused form is
   * a 400 with the field errors; neither touches the table. An accepted form
   * appends exactly one product with the submitted name and description and
   * redirects to that product's page.
   */
  method NewProductAction(t: ProductStore.ProductTable, session: Session, form: Form) returns (r: Response<()>)
    requires t.Valid()
    modifies t
    ensures t.Valid()
    ensures session.Anonymous? ==>
      r == LoginRequired && t.rows == old(t.rows) && t.nextId == old(t.nextId)
    ensures session.SignedIn? && Parse(ProductSchema, form).Failure? ==>
      r == Rejected(ActionData(form, Some(Parse(ProductSchema, form).error.fieldErrors), Some(""))) &&
      t.rows == old(t.rows) && t.nextId == old(t.nextId)
    ensures session.SignedIn? && Parse(ProductSchema, form).Success? ==>
      "name" in form && "description" in form &&
      t.rows == old(t.rows) + [ProductStore.Product(old(t.nextId), form["name"], form["description"])] &&
      t.nextId == old(t.nextId) + 1 &&
      r == Redirect(ProductPath(old(t.nextId)))
  {
    if session.Anonymous? {
      return LoginRequired;
    }
    match Parse(ProductSchema, form)
    case Failure(e) =>
      r := CoreValidations.BadRequest(ActionData(form, Some(e.fieldErrors), Some(JsString.JoinWith(e.formErrors, ", "))));
    case Success(data) =>
      ProductSchemaRule(form);
      var product := t.Create(data["name"], data["description"]);
      r := Redirect(ProductPath(product.id));
  }

  /**
   * The redirect leads back to the new product: the id in the path reads back
   * as a positive integer, and looking it up finds exactly the created row.
   */
  lemma RedirectFindsNewProduct(before: seq<ProductStore.Product>, p: ProductStore.Product)
    requires ProductStore.IncreasingIds(before) && forall q :: q in before ==> q.id < p.id
    requires p.id >= 1
    ensures var path := ProductPath(p.id);
      |path| > |"/products/"| && path[..|"/products/"|] == "/products/" &&
      CoreValidations.PositiveInt(CoreValidations.Text(path[|"/products/"|..])) == CoreValidations.Accepted(p.id) &&
      ProductStore.FindProduct(before + [p], p.id) == Some(p)
  {
    var digits := JsString.NatToString(p.id);
    assert ProductPath(p.id)[|"/products/"|..] == digits;
    CoreValidations.PositiveIntReadsIds(p.id);
    ProductStore.CreateThenFind(before, p);
  }
}
