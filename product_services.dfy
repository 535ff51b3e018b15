// Products (Services/ProductService.cs): the list readers, create-or-update
// with its two guards, and delete; every change leaves one audit entry.
module ProductServices {
  import opened Models
  import opened Text
  import opened Data

  const NameRequired: string := "El nombre es obligatorio"
  const CategoryRequired: string := "Debes seleccionar una categoría"
  const ProductNotFound: string := "Producto no encontrado"

  /**
   * A product that passes both guards and carries an id names a stored row;
   * what the database does with an update of a missing row is not modelled.
   */
  predicate UpdateTargetPresent(t: Tables, p: Product)
  {
    !IsNullOrWhiteSpace(p.name) && p.categoryId != 0 && p.id != 0 ==> p.id in t.products
  }

  /** `p` went in under a fresh id, with one "Product"/"Create" entry naming that id. */
  ghost predicate ProductInserted(before: Tables, after: Tables, p: Product, now: int)
  {
    var id := before.nextProductId;
    && id > 0 && id !in before.products
    && after.products == before.products[id := p.(id := id)]
    && after.categories == before.categories
    && after.movements == before.movements
    && Logged(before, after, "Product", id, "Create", AuditDetails("Product", p.name, "created"), now)
  }

  /** `p` replaced the stored row with its id, with one "Product"/"Update" entry. */
  ghost predicate ProductReplaced(before: Tables, after: Tables, p: Product, now: int)
  {
    && p.id in before.products
    && after.products == before.products[p.id := p]
    && after.categories == before.categories
    && after.movements == before.movements
    && Logged(before, after, "Product", p.id, "Update", AuditDetails("Product", p.name, "updated"), now)
  }

  /**
   * Exactly the row `id` left the products table, with one "Product"/"Delete"
   * entry naming it. Movements are only ever dropped, never added, and those
   * of other products stay: the database may cascade the delete to the
   * product's own. No identity counter moves except the audit log's.
   */
  ghost predicate ProductRemoved(before: Tables, after: Tables, id: int, now: int)
    requires id in before.products
  {
    && after.products.Keys == before.products.Keys - {id}
    && (forall k :: k in after.products ==> after.products[k] == before.products[k])
    && after.categories == before.categories
    && (forall m :: m in after.movements ==> m in before.movements)
    && (forall m :: m in before.movements && m.productId != id ==> m in after.movements)
    && after.nextProductId == before.nextProductId
    && after.nextCategoryId == before.nextCategoryId
    && after.nextMovementId == before.nextMovementId
    && Logged(before, after, "Product", id, "Delete", AuditDetails("Product", before.products[id].name, "deleted"), now)
  }

  /** `CreateOrUpdateProductAsync` on the tables. */
  function SaveProduct(t: Tables, p: Product, now: int): (r: Outcome)
    requires t.Valid() && UpdateTargetPresent(t, p)
    ensures r.after.Valid()
    ensures r.error.Some? ==> r.after == t
    ensures IsNullOrWhiteSpace(p.name) ==> r.error == Some(NameRequired)
    ensures !IsNullOrWhiteSpace(p.name) && p.categoryId == 0 ==> r.error == Some(CategoryRequired)
    ensures !IsNullOrWhiteSpace(p.name) && p.categoryId != 0 ==> r.error == None
    ensures r.error == None && p.id == 0 ==> ProductInserted(t, r.after, p, now)
    ensures r.error == None && p.id != 0 ==> ProductReplaced(t, r.after, p, now)
    ensures t.StockNonNegative() && p.stock >= 0 ==> r.after.StockNonNegative()
  {
    if IsNullOrWhiteSpace(p.name) then Outcome(Some(NameRequired), t)
    else if p.categoryId == 0 then Outcome(Some(CategoryRequired), t)
    else if p.id == 0 then
      var id := t.nextProductId;
      Outcome(None, t.InsertProduct(p).AppendLog("Product", id, "Create", AuditDetails("Product", p.name, "created"), now))
    else
      Outcome(None, t.ReplaceProduct(p).AppendLog("Product", p.id, "Update", AuditDetails("Product", p.name, "updated"), now))
  }

  /** `DeleteProduct` on the tables. */
  function RemoveProduct(t: Tables, id: int, now: int): (r: Outcome)
    requires t.Valid()
    ensures r.after.Valid()
    ensures id !in t.products ==> r == Outcome(Some(ProductNotFound), t)
    ensures id in t.products ==> r.error == None && ProductRemoved(t, r.after, id, now)
    ensures t.StockNonNegative() ==> r.after.StockNonNegative()
  {
    if id !in t.products then Outcome(Some(ProductNotFound), t)
    else
      var p := t.products[id];
      Outcome(None, t.AppendLog("Product", p.id, "Delete", AuditDetails("Product", p.name, "deleted"), now).RemoveProduct(id))
  }

  /** A product with its category joined in (`Include(p => p.Category)`); absent when no such category exists. */
  datatype ProductRow = ProductRow(product: Product, category: Option<Category>)

  function CategoryOf(t: Tables, categoryId: int): Option<Category>
  {
    if categoryId in t.categories then Some(t.categories[categoryId]) else None
  }

  class ProductService {
    const db: Store

    constructor (db: Store)
      ensures this.db == db
    {
      this.db := db;
    }

    /** Every category, each under its own id. */
    function GetCategories(): (r: set<Category>)
      reads db
      requires db.Valid()
      ensures forall id :: id in db.categories ==> db.categories[id] in r
      ensures forall c :: c in r ==> c.id in db.categories && db.categories[c.id] == c
    {
      set id | id in db.categories :: db.categories[id]
    }

    /** Every product, each under its own id, with its category. */
    function GetProducts(): (r: set<ProductRow>)
      reads db
      requires db.Valid()
      ensures forall id :: id in db.products ==> ProductRow(db.products[id], CategoryOf(db.State(), db.products[id].categoryId)) in r
      ensures forall row :: row in r ==>
        && row.product.id in db.products && db.products[row.product.id] == row.product
        && row.category == CategoryOf(db.State(), row.product.categoryId)
    {
      var t := db.State();
      set id | id in t.products :: ProductRow(t.products[id], CategoryOf(t, t.products[id].categoryId))
    }

    /**
     * Rejects a blank name, then a missing category; otherwise inserts the
     * product under a new id when its id is 0 and replaces the stored row
     * otherwise, logging the change either way.
     */
    method CreateOrUpdateProduct(newProduct: Product, now: int) returns (error: Option<string>)
      requires db.Valid() && UpdateTargetPresent(db.State(), newProduct)
      modifies db
      ensures db.Valid()
      ensures Outcome(error, db.State()) == SaveProduct(old(db.State()), newProduct, now)
    {
      if IsNullOrWhiteSpace(newProduct.name) {
        return Some(NameRequired);
      }
      if newProduct.categoryId == 0 {
        return Some(CategoryRequired);
      }
      if newProduct.id == 0 {
        var id := db.AddProduct(newProduct);
        db.AddLog("Product", id, "Create", AuditDetails("Product", newProduct.name, "created"), now);
      } else {
        db.UpdateProduct(newProduct);
        db.AddLog("Product", newProduct.id, "Update", AuditDetails("Product", newProduct.name, "updated"), now);
      }
      return None;
    }

    /** Logs the deletion of an existing product, then removes its row. */
    method DeleteProduct(productId: int, now: int) returns (error: Option<string>)
      requires db.Valid()
      modifies db
      ensures db.Valid()
      ensures Outcome(error, db.State()) == RemoveProduct(old(db.State()), productId, now)
    {
      if productId !in db.products {
        return Some(ProductNotFound);
      }
      var product := db.products[productId];
      db.AddLog("Product", product.id, "Delete", AuditDetails("Product", product.name, "deleted"), now);
      db.DeleteProduct(productId);
      return None;
    }
  }
}
