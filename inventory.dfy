// The three services working on one database: any sequence of their calls,
// and what holds across the whole sequence.
module Inventory {
  import opened Models
  import opened Data
  import Stock = StockServices
  import Products = ProductServices
  import Categories = CategoriesServices

  /** One call of a service method that changes the database. */
  datatype Call =
    | AddStockMovement(productId: int, kind: MovementKind, quantity: int32, notes: Option<string>)
    | CreateOrUpdateProduct(product: Product)
    | DeleteProduct(productId: int)
    | CreateOrUpdateCategory(category: Option<Category>)
    | DeleteCategory(categoryId: int)

  /** A call together with the clock reading it is made at. */
  datatype Request = Request(call: Call, now: int)

  /** An update names a stored row (see `UpdateTargetPresent` in each service). */
  predicate Admissible(t: Tables, call: Call)
  {
    match call
    case CreateOrUpdateProduct(p) => Products.UpdateTargetPresent(t, p)
    case CreateOrUpdateCategory(c) => Categories.UpdateTargetPresent(t, c)
    case _ => true
  }

  /** The audit `Entity` tag a call's successful run writes. */
  function EntityOf(call: Call): string
  {
    match call
    case AddStockMovement(_, _, _, _) => "StockMovement"
    case CreateOrUpdateProduct(_) | DeleteProduct(_) => "Product"
    case CreateOrUpdateCategory(_) | DeleteCategory(_) => "Category"
  }

  /** The audit `Action` tag a call's successful run writes. */
  function ActionOf(call: Call): string
  {
    match call
    case AddStockMovement(_, _, _, _) => "Create"
    case CreateOrUpdateProduct(p) => if p.id == 0 then "Create" else "Update"
    case CreateOrUpdateCategory(c) => if c.Some? && c.value.id == 0 then "Create" else "Update"
    case DeleteProduct(_) | DeleteCategory(_) => "Delete"
  }

  /**
   * One call. A refused call changes nothing; an accepted one appends exactly
   * one audit entry, tagged with the entity and the action the call performed.
   * A save leaves the movement history alone and a stock movement appends at
   * most one row to it; a delete only ever drops movements, never adds one.
   */
  function Step(t: Tables, call: Call, now: int): (r: Outcome)
    requires t.Valid() && Admissible(t, call)
    ensures r.after.Valid()
    ensures r.error.Some? ==> r.after == t
    ensures r.error.None? ==>
      && |r.after.logs| == |t.logs| + 1
      && t.logs <= r.after.logs
      && r.after.logs[|t.logs|].entity == EntityOf(call)
      && r.after.logs[|t.logs|].action == ActionOf(call)
    ensures call.CreateOrUpdateProduct? || call.CreateOrUpdateCategory? ==> r.after.movements == t.movements
    ensures call.AddStockMovement? && r.error.None? ==> |r.after.movements| == |t.movements| + 1
    ensures call.AddStockMovement? ==> t.movements <= r.after.movements
    ensures call.DeleteProduct? || call.DeleteCategory? ==> forall m :: m in r.after.movements ==> m in t.movements
  {
    match call
    case AddStockMovement(productId, kind, quantity, notes) => Stock.ApplyMovement(t, productId, kind, quantity, notes, now)
    case CreateOrUpdateProduct(p) => Products.SaveProduct(t, p, now)
    case DeleteProduct(id) => Products.RemoveProduct(t, id, now)
    case CreateOrUpdateCategory(c) => Categories.SaveCategory(t, c, now)
    case DeleteCategory(id) => Categories.RemoveCategory(t, id, now)
  }

  /** Every update in the sequence names a row stored at the moment it runs. */
  ghost predicate RunAdmissible(t: Tables, requests: seq<Request>)
    requires t.Valid()
    decreases |requests|
  {
    requests == [] ||
    (Admissible(t, requests[0].call) &&
     RunAdmissible(Step(t, requests[0].call, requests[0].now).after, requests[1..]))
  }

  /** The tables after the requests run one after another. */
  function Run(t: Tables, requests: seq<Request>): (r: Tables)
    requires t.Valid() && RunAdmissible(t, requests)
    ensures r.Valid()
    decreases |requests|
  {
    if requests == [] then t
    else Run(Step(t, requests[0].call, requests[0].now).after, requests[1..])
  }

  /** How many of the requests are accepted. */
  function Accepted(t: Tables, requests: seq<Request>): nat
    requires t.Valid() && RunAdmissible(t, requests)
    decreases |requests|
  {
    if requests == [] then 0
    else
      var r := Step(t, requests[0].call, requests[0].now);
      (if r.error.None? then 1 else 0) + Accepted(r.after, requests[1..])
  }

  /** A product supplied by a create-or-update carries no negative stock. */
  predicate SuppliesNonNegativeStock(call: Call)
  {
    call.CreateOrUpdateProduct? ==> call.product.stock >= 0
  }

  /**
   * No sequence of calls drives a stock below zero, as long as no product is
   * saved with a negative stock to begin with.
   */
  lemma {:induction false} RunKeepsStockNonNegative(t: Tables, requests: seq<Request>)
    requires t.Valid() && RunAdmissible(t, requests)
    requires t.StockNonNegative()
    requires forall i :: 0 <= i < |requests| ==> SuppliesNonNegativeStock(requests[i].call)
    ensures Run(t, requests).StockNonNegative()
    decreases |requests|
  {
    if requests != [] {
      var call, now := requests[0].call, requests[0].now;
      var r := Step(t, call, now);
      match call {
        case AddStockMovement(productId, kind, quantity, notes) =>
          assert r == Stock.ApplyMovement(t, productId, kind, quantity, notes, now);
        case CreateOrUpdateProduct(p) =>
          assert SuppliesNonNegativeStock(requests[0].call);
          assert r == Products.SaveProduct(t, p, now);
        case DeleteProduct(id) =>
          assert r == Products.RemoveProduct(t, id, now);
        case CreateOrUpdateCategory(c) =>
          assert r == Categories.SaveCategory(t, c, now);
        case DeleteCategory(id) =>
          assert r == Categories.RemoveCategory(t, id, now);
      }
      assert r.after.StockNonNegative();
      forall i | 0 <= i < |requests[1..]|
        ensures SuppliesNonNegativeStock(requests[1..][i].call)
      {
        assert requests[1..][i] == requests[i + 1];
      }
      RunKeepsStockNonNegative(r.after, requests[1..]);
    }
  }

  /** The audit log is append-only and grows by exactly one entry per accepted call. */
  lemma {:induction false} RunAuditTrail(t: Tables, requests: seq<Request>)
    requires t.Valid() && RunAdmissible(t, requests)
    ensures |Run(t, requests).logs| == |t.logs| + Accepted(t, requests)
    ensures t.logs <= Run(t, requests).logs
    decreases |requests|
  {
    if requests != [] {
      var r := Step(t, requests[0].call, requests[0].now);
      RunAuditTrail(r.after, requests[1..]);
    }
  }

  /** A call that deletes no row. */
  predicate DeletesNothing(call: Call)
  {
    !call.DeleteProduct? && !call.DeleteCategory?
  }

  /** Along calls that delete nothing, the movement history is append-only. */
  lemma {:induction false} RunMovementHistory(t: Tables, requests: seq<Request>)
    requires t.Valid() && RunAdmissible(t, requests)
    requires forall i :: 0 <= i < |requests| ==> DeletesNothing(requests[i].call)
    ensures t.movements <= Run(t, requests).movements
    decreases |requests|
  {
    if requests != [] {
      var r := Step(t, requests[0].call, requests[0].now);
      assert DeletesNothing(requests[0].call);
      assert forall i :: 0 <= i < |requests[1..]| ==> requests[1..][i] == requests[i + 1];
      RunMovementHistory(r.after, requests[1..]);
    }
  }
}
