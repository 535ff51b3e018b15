// Stock movements (Services/StockServices.cs): the IN / OUT / ADJUST rule
// applied to one product, the movement and audit rows it appends, and the
// movement history listed newest first.
module StockServices {
  import opened Models
  import opened Text
  import opened Data

  const InvalidQuantity: string := "Cantidad inválida."
  const ProductNotFound: string := "Producto no encontrado."
  const NotEnoughStock: string := "No hay suficiente stock."
  /**
   * The message of .NET's `OverflowException`, raised by checked `int`
   * arithmetic. The exception would reach the caller as a fault; the model
   * returns its message as the call's error instead.
   */
  const Overflow: string := "Arithmetic operation resulted in an overflow."

  /** C#'s unchecked `int` arithmetic: the result is taken modulo 2^32 into the `int` range. */
  function Wrap32(x: int): (r: int32)
    ensures (r as int - x) % 0x1_0000_0000 == 0
  {
    ((x + 0x8000_0000) % 0x1_0000_0000 - 0x8000_0000) as int32
  }

  /** `Stock += quantity` as the source writes it, in unchecked arithmetic. */
  function InStockAsWritten(stock: int32, quantity: int32): (r: int32)
    ensures -0x8000_0000 <= stock as int + quantity as int <= Int32Max ==> r as int == stock as int + quantity as int
    ensures stock as int + quantity as int > Int32Max ==> r as int == stock as int + quantity as int - 0x1_0000_0000
    ensures stock as int + quantity as int < -0x8000_0000 ==> r as int == stock as int + quantity as int + 0x1_0000_0000
  {
    Wrap32(stock as int + quantity as int)
  }

  /** An IN movement that passes `int.MaxValue` leaves a negative stock behind. */
  lemma InStockAsWrittenWrapsNegative(stock: int32, quantity: int32)
    requires stock >= 0 && quantity > 0
    requires stock as int + quantity as int > Int32Max
    ensures InStockAsWritten(stock, quantity) < 0
  {
  }

  /** A concrete instance: one unit into a product holding `int.MaxValue` units. */
  lemma InStockAsWrittenAtMax()
    ensures InStockAsWritten(0x7FFF_FFFF, 1) == -0x8000_0000
  {
  }

  /** What a movement does to a product's stock: a new value, or the reason it is refused. */
  datatype StockRule = NewStock(value: int32) | Refused(message: string)

  /**
   * The switch over the movement kind, with IN in checked arithmetic: IN adds,
   * OUT subtracts when enough is present, ADJUST overwrites.
   */
  function NextStock(kind: MovementKind, stock: int32, quantity: int32): (r: StockRule)
    requires quantity > 0
    ensures kind == In ==> (r.NewStock? <==> stock as int + quantity as int <= Int32Max)
    ensures kind == In && r.NewStock? ==> r.value as int == stock as int + quantity as int
    ensures kind == In && r.Refused? ==> r.message == Overflow
    ensures kind == Out ==> (r.NewStock? <==> stock >= quantity)
    ensures kind == Out && r.NewStock? ==> r.value as int == stock as int - quantity as int
    ensures kind == Out && r.Refused? ==> r.message == NotEnoughStock
    ensures kind == Adjust ==> r == NewStock(quantity)
    ensures stock >= 0 && r.NewStock? ==> r.value >= 0
  {
    match kind
    case In =>
      if stock as int + quantity as int > Int32Max then Refused(Overflow)
      else NewStock(stock + quantity)
    case Out => if stock < quantity then Refused(NotEnoughStock) else NewStock(stock - quantity)
    case Adjust => NewStock(quantity)
  }

  /** Where IN is accepted, the corrected rule gives the same stock as the source's unchecked sum. */
  lemma NextStockAgreesWithAsWritten(stock: int32, quantity: int32)
    requires quantity > 0
    ensures NextStock(In, stock, quantity).NewStock? ==>
      NextStock(In, stock, quantity).value == InStockAsWritten(stock, quantity)
  {
  }

  /** The audit text of a movement: kind, quantity and the product's name. */
  function MovementDetails(kind: MovementKind, quantity: int32, name: Option<string>): string
    requires quantity >= 0
  {
    "Movimiento " + KindName(kind) + " de " + DecimalString(quantity as int) + " para '" + Interpolated(name) + "'"
  }

  /**
   * `after` is `before` with the product's stock set to `stock`, one movement
   * appended with the call's inputs, and one "StockMovement"/"Create" audit
   * entry naming that movement's id; categories are untouched.
   */
  ghost predicate MovementApplied(before: Tables, after: Tables, productId: int, stock: int32,
                                  kind: MovementKind, quantity: int32, notes: Option<string>, now: int)
    requires productId in before.products && quantity >= 0
  {
    var p := before.products[productId];
    && after.products == before.products[productId := p.(stock := stock)]
    && after.categories == before.categories
    && after.movements == before.movements + [StockMovement(before.nextMovementId, productId, kind, quantity, now, notes)]
    && Logged(before, after, "StockMovement", before.nextMovementId, "Create", MovementDetails(kind, quantity, p.name), now)
  }

  /** `AddStockMovement` on the tables. */
  function ApplyMovement(t: Tables, productId: int, kind: MovementKind, quantity: int32,
                         notes: Option<string>, now: int): (r: Outcome)
    requires t.Valid()
    ensures r.after.Valid()
    ensures r.error.Some? ==> r.after == t
    ensures productId <= 0 || quantity <= 0 ==> r.error == Some(InvalidQuantity)
    ensures productId > 0 && quantity > 0 && productId !in t.products ==> r.error == Some(ProductNotFound)
    ensures productId > 0 && quantity > 0 && productId in t.products ==>
      var rule := NextStock(kind, t.products[productId].stock, quantity);
      && (rule.Refused? ==> r.error == Some(rule.message))
      && (rule.NewStock? ==> r.error == None && MovementApplied(t, r.after, productId, rule.value, kind, quantity, notes, now))
    ensures t.StockNonNegative() ==> r.after.StockNonNegative()
  {
    if productId <= 0 || quantity <= 0 then Outcome(Some(InvalidQuantity), t)
    else if productId !in t.products then Outcome(Some(ProductNotFound), t)
    else
      var p := t.products[productId];
      match NextStock(kind, p.stock, quantity)
      case Refused(message) => Outcome(Some(message), t)
      case NewStock(stock) =>
        var t1 := t.AppendMovement(StockMovement(0, productId, kind, quantity, now, notes));
        var t2 := t1.ReplaceProduct(p.(stock := stock));
        Outcome(None, t2.AppendLog("StockMovement", t.nextMovementId, "Create", MovementDetails(kind, quantity, p.name), now))
  }

  /** The accepted path of `ApplyMovement`, as the three table changes it makes in order. */
  lemma ApplyMovementAccepted(t: Tables, productId: int, kind: MovementKind, quantity: int32,
                              notes: Option<string>, now: int)
    requires t.Valid() && productId > 0 && quantity > 0 && productId in t.products
    requires NextStock(kind, t.products[productId].stock, quantity).NewStock?
    ensures
      var p := t.products[productId];
      var moved := t.AppendMovement(StockMovement(0, productId, kind, quantity, now, notes));
      var stocked := moved.ReplaceProduct(p.(stock := NextStock(kind, p.stock, quantity).value));
      ApplyMovement(t, productId, kind, quantity, notes, now)
        == Outcome(None, stocked.AppendLog("StockMovement", t.nextMovementId, "Create", MovementDetails(kind, quantity, p.name), now))
  {
  }

  /** `Date` never increases along `ms`. */
  ghost predicate NewestFirst(ms: seq<StockMovement>)
  {
    forall i, j :: 0 <= i < j < |ms| ==> ms[i].date >= ms[j].date
  }

  /** Places `m` in a newest-first sequence. */
  function InsertByDate(m: StockMovement, ms: seq<StockMovement>): (r: seq<StockMovement>)
    requires NewestFirst(ms)
    ensures NewestFirst(r)
    ensures multiset(r) == multiset(ms) + multiset{m}
    ensures |r| == |ms| + 1 && (r[0] == m || (ms != [] && r[0] == ms[0]))
  {
    if ms == [] || m.date >= ms[0].date then [m] + ms
    else
      var rest := InsertByDate(m, ms[1..]);
      assert ms == [ms[0]] + ms[1..];
      assert ms[0].date >= rest[0].date;
      [ms[0]] + rest
  }

  /** `OrderByDescending(m => m.Date)`: the same movements, newest first. */
  function SortByDateDescending(ms: seq<StockMovement>): (r: seq<StockMovement>)
    ensures NewestFirst(r)
    ensures multiset(r) == multiset(ms)
  {
    if ms == [] then []
    else
      assert ms == [ms[0]] + ms[1..];
      InsertByDate(ms[0], SortByDateDescending(ms[1..]))
  }

  /** A movement with its product joined in (`Include(m => m.Product)`); absent when no such product exists. */
  datatype MovementRow = MovementRow(movement: StockMovement, product: Option<Product>)

  function ProductOf(t: Tables, productId: int): Option<Product>
  {
    if productId in t.products then Some(t.products[productId]) else None
  }

  function MovementsOf(rows: seq<MovementRow>): seq<StockMovement>
  {
    seq(|rows|, i requires 0 <= i < |rows| => rows[i].movement)
  }

  class StockService {
    const db: Store

    constructor (db: Store)
      ensures this.db == db
    {
      this.db := db;
    }

    /** Every product, each under its own id. */
    function GetProducts(): (r: set<Product>)
      reads db
      requires db.Valid()
      ensures forall id :: id in db.products ==> db.products[id] in r
      ensures forall p :: p in r ==> p.id in db.products && db.products[p.id] == p
    {
      set id | id in db.products :: db.products[id]
    }

    /** Every movement exactly once, newest first, each with its product. */
    function GetStockMovements(): (r: seq<MovementRow>)
      reads db
      ensures multiset(MovementsOf(r)) == multiset(db.movements)
      ensures forall i, j :: 0 <= i < j < |r| ==> r[i].movement.date >= r[j].movement.date
      ensures forall i :: 0 <= i < |r| ==> r[i].product == ProductOf(db.State(), r[i].movement.productId)
    {
      var t := db.State();
      var sorted := SortByDateDescending(t.movements);
      var rows := seq(|sorted|, i requires 0 <= i < |sorted| => MovementRow(sorted[i], ProductOf(t, sorted[i].productId)));
      assert MovementsOf(rows) == sorted;
      rows
    }

    /**
     * Validates the call, applies the movement kind to the selected product's
     * stock, then records the movement and its audit entry. A refused call
     * leaves every table as it was.
     */
    method AddStockMovement(productId: int, selectedType: MovementKind, quantity: int32,
                            notes: Option<string>, now: int) returns (error: Option<string>)
      requires db.Valid()
      modifies db
      ensures db.Valid()
      ensures Outcome(error, db.State()) == ApplyMovement(old(db.State()), productId, selectedType, quantity, notes, now)
    {
      if productId <= 0 || quantity <= 0 {
        return Some(InvalidQuantity);
      }
      if productId !in db.products {
        return Some(ProductNotFound);
      }
      ghost var before := db.State();
      var selected := db.products[productId];
      ghost var rule := NextStock(selectedType, selected.stock, quantity);
      match selectedType {
        case In =>
          if selected.stock as int + quantity as int > Int32Max {
            return Some(Overflow);
          }
          selected := selected.(stock := selected.stock + quantity);
        case Out =>
          if selected.stock < quantity {
            return Some(NotEnoughStock);
          }
          selected := selected.(stock := selected.stock - quantity);
        case Adjust =>
          selected := selected.(stock := quantity);
      }
      assert rule == NewStock(selected.stock);
      ApplyMovementAccepted(before, productId, selectedType, quantity, notes, now);
      var movementId := db.AddMovement(StockMovement(0, selected.id, selectedType, quantity, now, notes));
      db.UpdateProduct(selected);
      db.AddLog("StockMovement", movementId, "Create", MovementDetails(selectedType, quantity, selected.name), now);
      return None;
    }
  }
}
