// The in-memory database the services share: the four tables of the
// application's database context, each with the identity counter the
// database uses to number new rows.
module Data {
  import opened Models
  import opened Text

  /** A snapshot of every table. Rows of `products` and `categories` are keyed by their id. */
  datatype Tables = Tables(
    products: map<int, Product>,
    categories: map<int, Category>,
    movements: seq<StockMovement>,
    logs: seq<ChangeLog>,
    nextProductId: int,
    nextCategoryId: int,
    nextMovementId: int,
    nextLogId: int)
  {
    /**
     * Every row sits under its own positive id, below the next id its table
     * hands out; movements and audit entries are numbered in insertion order.
     */
    ghost predicate Valid()
    {
      && 0 < nextProductId && 0 < nextCategoryId && 0 < nextMovementId && 0 < nextLogId
      && (forall id :: id in products ==> 0 < id < nextProductId && products[id].id == id)
      && (forall id :: id in categories ==> 0 < id < nextCategoryId && categories[id].id == id)
      && (forall i :: 0 <= i < |movements| ==> 0 < movements[i].id < nextMovementId)
      && (forall i, j :: 0 <= i < j < |movements| ==> movements[i].id < movements[j].id)
      && (forall i :: 0 <= i < |logs| ==> 0 < logs[i].id < nextLogId)
      && (forall i, j :: 0 <= i < j < |logs| ==> logs[i].id < logs[j].id)
    }

    /** No product holds a negative stock. */
    ghost predicate StockNonNegative()
    {
      forall id :: id in products ==> products[id].stock >= 0
    }

    /** `Products.Add` then a save: the row is stored under the next identity. */
    function InsertProduct(p: Product): (t: Tables)
      requires Valid()
      ensures t.Valid()
      ensures nextProductId !in products && nextProductId > 0
      ensures t.products == products[nextProductId := p.(id := nextProductId)]
      ensures t == this.(products := t.products, nextProductId := nextProductId + 1)
    {
      this.(products := products[nextProductId := p.(id := nextProductId)], nextProductId := nextProductId + 1)
    }

    /** `Products.Update`: the stored row with that id is replaced. */
    function ReplaceProduct(p: Product): (t: Tables)
      requires Valid() && p.id in products
      ensures t.Valid()
      ensures t == this.(products := products[p.id := p])
    {
      this.(products := products[p.id := p])
    }

    /** `Products.Remove`: the row with that id is gone, no other row changes. */
    function RemoveProduct(id: int): (t: Tables)
      requires Valid()
      ensures t.Valid()
      ensures t.products.Keys == products.Keys - {id}
      ensures forall k :: k in t.products ==> t.products[k] == products[k]
      ensures t == this.(products := t.products)
    {
      this.(products := products - {id})
    }

    /** `Categories.Add` then a save: the row is stored under the next identity. */
    function InsertCategory(c: Category): (t: Tables)
      requires Valid()
      ensures t.Valid()
      ensures nextCategoryId !in categories && nextCategoryId > 0
      ensures t.categories == categories[nextCategoryId := c.(id := nextCategoryId)]
      ensures t == this.(categories := t.categories, nextCategoryId := nextCategoryId + 1)
    {
      this.(categories := categories[nextCategoryId := c.(id := nextCategoryId)], nextCategoryId := nextCategoryId + 1)
    }

    /** `Categories.Update`: the stored row with that id is replaced. */
    function ReplaceCategory(c: Category): (t: Tables)
      requires Valid() && c.id in categories
      ensures t.Valid()
      ensures t == this.(categories := categories[c.id := c])
    {
      this.(categories := categories[c.id := c])
    }

    /** `Categories.Remove`: the row with that id is gone, no other row changes. */
    function RemoveCategory(id: int): (t: Tables)
      requires Valid()
      ensures t.Valid()
      ensures t.categories.Keys == categories.Keys - {id}
      ensures forall k :: k in t.categories ==> t.categories[k] == categories[k]
      ensures t == this.(categories := t.categories)
    {
      this.(categories := categories - {id})
    }

    /** `StockMovements.Add` then a save: the movement is appended under the next identity. */
    function AppendMovement(m: StockMovement): (t: Tables)
      requires Valid()
      ensures t.Valid()
      ensures t.movements == movements + [m.(id := nextMovementId)]
      ensures t == this.(movements := t.movements, nextMovementId := nextMovementId + 1)
    {
      this.(movements := movements + [m.(id := nextMovementId)], nextMovementId := nextMovementId + 1)
    }

    /** `ChangeLogs.Add` then a save: the audit entry is appended under the next identity. */
    function AppendLog(entity: string, entityId: int, action: string, details: string, date: int): (t: Tables)
      requires Valid()
      ensures t.Valid()
      ensures Logged(this, t, entity, entityId, action, details, date)
      ensures t == this.(logs := t.logs, nextLogId := nextLogId + 1)
    {
      this.(logs := logs + [ChangeLog(nextLogId, entity, entityId, action, details, date)], nextLogId := nextLogId + 1)
    }
  }

  /** The audit text of a product or category change, e.g. `Product 'Milk' created`. */
  function AuditDetails(entity: string, name: Option<string>, verb: string): string
  {
    entity + " '" + Interpolated(name) + "' " + verb
  }

  /** `after` holds the audit entries of `before` followed by exactly one new entry with these fields. */
  ghost predicate Logged(before: Tables, after: Tables, entity: string, entityId: int, action: string, details: string, date: int)
  {
    after.logs == before.logs + [ChangeLog(before.nextLogId, entity, entityId, action, details, date)]
  }

  /** What a service call gives back (`null` on success, otherwise the message) and the tables after it. */
  datatype Outcome = Outcome(error: Option<string>, after: Tables)

  /** The shared database: the mutable counterpart of `Tables`. */
  class Store {
    var products: map<int, Product>
    var categories: map<int, Category>
    var movements: seq<StockMovement>
    var logs: seq<ChangeLog>
    var nextProductId: int
    var nextCategoryId: int
    var nextMovementId: int
    var nextLogId: int

    function State(): Tables
      reads this
    {
      Tables(products, categories, movements, logs, nextProductId, nextCategoryId, nextMovementId, nextLogId)
    }

    ghost predicate Valid()
      reads this
    {
      State().Valid()
    }

    /** An empty database whose identities start at 1. */
    constructor ()
      ensures Valid()
      ensures products == map[] && categories == map[] && movements == [] && logs == []
    {
      products, categories, movements, logs := map[], map[], [], [];
      nextProductId, nextCategoryId, nextMovementId, nextLogId := 1, 1, 1, 1;
    }

    method AddProduct(p: Product) returns (id: int)
      requires Valid()
      modifies this
      ensures Valid()
      ensures id == old(nextProductId)
      ensures State() == old(State()).InsertProduct(p)
    {
      id := nextProductId;
      products := products[id := p.(id := id)];
      nextProductId := id + 1;
    }

    method UpdateProduct(p: Product)
      requires Valid() && p.id in products
      modifies this
      ensures Valid()
      ensures State() == old(State()).ReplaceProduct(p)
    {
      products := products[p.id := p];
    }

    method DeleteProduct(id: int)
      requires Valid()
      modifies this
      ensures Valid()
      ensures State() == old(State()).RemoveProduct(id)
    {
      products := products - {id};
    }

    method AddCategory(c: Category) returns (id: int)
      requires Valid()
      modifies this
      ensures Valid()
      ensures id == old(nextCategoryId)
      ensures State() == old(State()).InsertCategory(c)
    {
      id := nextCategoryId;
      categories := categories[id := c.(id := id)];
      nextCategoryId := id + 1;
    }

    method UpdateCategory(c: Category)
      requires Valid() && c.id in categories
      modifies this
      ensures Valid()
      ensures State() == old(State()).ReplaceCategory(c)
    {
      categories := categories[c.id := c];
    }

    method DeleteCategory(id: int)
      requires Valid()
      modifies this
      ensures Valid()
      ensures State() == old(State()).RemoveCategory(id)
    {
      categories := categories - {id};
    }

    method AddMovement(m: StockMovement) returns (id: int)
      requires Valid()
      modifies this
      ensures Valid()
      ensures id == old(nextMovementId)
      ensures State() == old(State()).AppendMovement(m)
    {
      id := nextMovementId;
      movements := movements + [m.(id := id)];
      nextMovementId := id + 1;
    }

    method AddLog(entity: string, entityId: int, action: string, details: string, date: int)
      requires Valid()
      modifies this
      ensures Valid()
      ensures State() == old(State()).AppendLog(entity, entityId, action, details, date)
    {
      logs := logs + [ChangeLog(nextLogId, entity, entityId, action, details, date)];
      nextLogId := nextLogId + 1;
    }
  }
}
