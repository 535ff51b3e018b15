// Categories (Services/CategoriesService.cs): the list reader,
// create-or-update with its two guards, and delete; every change leaves one
// audit entry.
module CategoriesServices {
  import opened Models
  import opened Text
  import opened Data

  const CategoryIsNull: string := "Category cannot be null"
  const NameRequired: string := "El nombre es obligatorio"
  const CategoryNotFound: string := "Categoría no encontrada"

  /**
   * A category that passes both guards and carries an id names a stored row;
   * what the database does with an update of a missing row is not modelled.
   */
  predicate UpdateTargetPresent(t: Tables, category: Option<Category>)
  {
    (category.Some? && !IsNullOrWhiteSpace(category.value.name) && category.value.id != 0) ==>
      category.value.id in t.categories
  }

  /** `c` went in under a fresh id, with one "Category"/"Create" entry naming that id. */
  ghost predicate CategoryInserted(before: Tables, after: Tables, c: Category, now: int)
  {
    var id := before.nextCategoryId;
    && id > 0 && id !in before.categories
    && after.categories == before.categories[id := c.(id := id)]
    && after.products == before.products
    && after.movements == before.movements
    && Logged(before, after, "Category", id, "Create", AuditDetails("Category", c.name, "created"), now)
  }

  /** `c` replaced the stored row with its id, with one "Category"/"Update" entry. */
  ghost predicate CategoryReplaced(before: Tables, after: Tables, c: Category, now: int)
  {
    && c.id in before.categories
    && after.categories == before.categories[c.id := c]
    && after.products == before.products
    && after.movements == before.movements
    && Logged(before, after, "Category", c.id, "Update", AuditDetails("Category", c.name, "updated"), now)
  }

  /**
   * Exactly the row `id` left the categories table, with one "Category"/"Delete"
   * entry naming it. Products and movements are only ever dropped, never
   * added or altered, and products of other categories, with their
   * movements, stay: the database may cascade the delete to the category's
   * own products and from them to their movements. No identity counter moves
   * except the audit log's.
   */
  ghost predicate CategoryRemoved(before: Tables, after: Tables, id: int, now: int)
    requires id in before.categories
  {
    && after.categories.Keys == before.categories.Keys - {id}
    && (forall k :: k in after.categories ==> after.categories[k] == before.categories[k])
    && (forall k :: k in after.products ==> k in before.products && after.products[k] == before.products[k])
    && (forall m :: m in after.movements ==> m in before.movements)
    && after.nextProductId == before.nextProductId
    && after.nextCategoryId == before.nextCategoryId
    && after.nextMovementId == before.nextMovementId
    && (forall k :: (k in before.products && before.products[k].categoryId != id) ==>
          k in after.products && after.products[k] == before.products[k])
    && (forall m :: (m in before.movements && m.productId in before.products
                     && before.products[m.productId].categoryId != id) ==>
          m in after.movements)
    && Logged(before, after, "Category", id, "Delete", AuditDetails("Category", before.categories[id].name, "deleted"), now)
  }

  /** `CreateOrUpdateCategoryAsync` on the tables. */
  function SaveCategory(t: Tables, category: Option<Category>, now: int): (r: Outcome)
    requires t.Valid() && UpdateTargetPresent(t, category)
    ensures r.after.Valid()
    ensures r.error.Some? ==> r.after == t
    ensures category.None? ==> r.error == Some(CategoryIsNull)
    ensures category.Some? && IsNullOrWhiteSpace(category.value.name) ==> r.error == Some(NameRequired)
    ensures category.Some? && !IsNullOrWhiteSpace(category.value.name) ==> r.error == None
    ensures r.error == None && category.value.id == 0 ==> CategoryInserted(t, r.after, category.value, now)
    ensures r.error == None && category.value.id != 0 ==> CategoryReplaced(t, r.after, category.value, now)
    ensures t.StockNonNegative() ==> r.after.StockNonNegative()
  {
    match category
    case None => Outcome(Some(CategoryIsNull), t)
    case Some(c) =>
      if IsNullOrWhiteSpace(c.name) then Outcome(Some(NameRequired), t)
      else if c.id == 0 then
        var id := t.nextCategoryId;
        Outcome(None, t.InsertCategory(c).AppendLog("Category", id, "Create", AuditDetails("Category", c.name, "created"), now))
      else
        Outcome(None, t.ReplaceCategory(c).AppendLog("Category", c.id, "Update", AuditDetails("Category", c.name, "updated"), now))
  }

  /** `DeleteCategory` on the tables. */
  function RemoveCategory(t: Tables, id: int, now: int): (r: Outcome)
    requires t.Valid()
    ensures r.after.Valid()
    ensures id !in t.categories ==> r == Outcome(Some(CategoryNotFound), t)
    ensures id in t.categories ==> r.error == None && CategoryRemoved(t, r.after, id, now)
    ensures t.StockNonNegative() ==> r.after.StockNonNegative()
  {
    if id !in t.categories then Outcome(Some(CategoryNotFound), t)
    else
      var c := t.categories[id];
      Outcome(None, t.AppendLog("Category", c.id, "Delete", AuditDetails("Category", c.name, "deleted"), now).RemoveCategory(id))
  }

  class CategoriesService {
    const db: Store

    constructor (db: Store)
      ensures this.db == db
    {
      this.db := db;
    }

    /** Every category, each under its own id. */
    function GetCategories(): (r: set<Category>)
      reads db
      requires db.Valid()
      ensures forall id :: id in db.categories ==> db.categories[id] in r
      ensures forall c :: c in r ==> c.id in db.categories && db.categories[c.id] == c
    {
      set id | id in db.categories :: db.categories[id]
    }

    /**
     * Rejects a null category, then a blank name; otherwise inserts the
     * category under a new id when its id is 0 and replaces the stored row
     * otherwise, logging the change either way.
     */
    method CreateOrUpdateCategory(category: Option<Category>, now: int) returns (error: Option<string>)
      requires db.Valid() && UpdateTargetPresent(db.State(), category)
      modifies db
      ensures db.Valid()
      ensures Outcome(error, db.State()) == SaveCategory(old(db.State()), category, now)
    {
      if category.None? {
        return Some(CategoryIsNull);
      }
      var c := category.value;
      if IsNullOrWhiteSpace(c.name) {
        return Some(NameRequired);
      }
      if c.id == 0 {
        var id := db.AddCategory(c);
        db.AddLog("Category", id, "Create", AuditDetails("Category", c.name, "created"), now);
      } else {
        db.UpdateCategory(c);
        db.AddLog("Category", c.id, "Update", AuditDetails("Category", c.name, "updated"), now);
      }
      return None;
    }

    /** Logs the deletion of an existing category, then removes its row. */
    method DeleteCategory(categoryId: int, now: int) returns (error: Option<string>)
      requires db.Valid()
      modifies db
      ensures db.Valid()
      ensures Outcome(error, db.State()) == RemoveCategory(old(db.State()), categoryId, now)
    {
      if categoryId !in db.categories {
        return Some(CategoryNotFound);
      }
      var category := db.categories[categoryId];
      db.AddLog("Category", category.id, "Delete", AuditDetails("Category", category.name, "deleted"), now);
      db.DeleteCategory(categoryId);
      return None;
    }
  }
}
