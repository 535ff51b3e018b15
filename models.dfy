// Entity shapes of the inventory application (Models/Product.cs,
// Models/StockMovement.cs, Models/ChangeLog.cs). They carry no behaviour.
module Models {

  /** A nullable reference or value: `None` stands for C#'s `null`. */
  datatype Option<+T> = None | Some(value: T)

  const Int32Max: int := 0x7FFF_FFFF

  /** C#'s `int`. */
  newtype int32 = x: int | -0x8000_0000 <= x <= 0x7FFF_FFFF

  /** `TipoMovimiento`: the closed set of stock-movement kinds. */
  datatype MovementKind = In | Out | Adjust

  /** The text C# prints for a `TipoMovimiento` value in an interpolated string. */
  function KindName(kind: MovementKind): string
  {
    match kind
    case In => "IN"
    case Out => "OUT"
    case Adjust => "ADJUST"
  }

  /**
   * A product row. `Price` (a decimal) is kept as a real, `Caducity` (an optional
   * date) as an optional timestamp; no operation of the services looks at either.
   * The `Category` navigation property is not a column: readers join it in.
   */
  datatype Product = Product(
    id: int,
    name: Option<string>,
    price: real,
    stock: int32,
    caducity: Option<int>,
    image: Option<string>,
    state: bool,
    categoryId: int)

  /** A category row; its `Products` collection is the inverse of `Product.categoryId`. */
  datatype Category = Category(id: int, name: Option<string>, description: Option<string>)

  /** A stock-movement row; `date` is a UTC timestamp. */
  datatype StockMovement = StockMovement(
    id: int,
    productId: int,
    kind: MovementKind,
    quantity: int32,
    date: int,
    notes: Option<string>)

  /** An audit entry: which entity, which row, which action. */
  datatype ChangeLog = ChangeLog(
    id: int,
    entity: string,
    entityId: int,
    action: string,
    details: string,
    date: int)
}
