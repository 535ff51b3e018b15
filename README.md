# InventarioApp services, modelled in Dafny

InventarioApp keeps products grouped into categories, applies stock
movements (IN, OUT, ADJUST) to products, and writes an audit `ChangeLog`
entry for every create, update and delete. Its logic lives in three service
classes that validate their input and then change the tables of a shared
database:

- `StockService` (`stock_services.dfy`): the IN / OUT / ADJUST rule on a
  product's stock, the movement row and the audit entry it appends, and the
  movement history listed newest first.
- `ProductService` (`product_services.dfy`): create-or-update of a product
  (blank-name and no-category guards, then insert under a new id when `Id == 0`
  or replace the stored row), delete, and the list readers.
- `CategoriesService` (`categories_services.dfy`): the same for categories,
  with a null-category guard in front.

The entities are datatypes (`models.dfy`). The database is one class,
`Data.Store` (`data.dfy`): a map from id to product, a map from id to
category, the sequence of stock movements, the append-only sequence of audit
entries, and one identity counter per table. Each service is a class holding
that store; each of its changing methods is written step by step, as the
source is, and its postcondition equates the returned message and the new
tables with a function over a `Tables` snapshot (`ApplyMovement`,
`SaveProduct`, `RemoveProduct`, `SaveCategory`, `RemoveCategory`). The
contracts of those functions state the rules: which message each guard
returns, that a refused call changes nothing, what an accepted call does to
each table, and that stock stays non-negative. `inventory.dfy` runs any
sequence of these calls on one database and proves what holds over the whole
sequence.

A service returns `null` on success and a message otherwise; here that is
`Option<string>` with `None` for success. The clock (`DateTime.UtcNow`) is a
`now` parameter of each call.

## Model

| member | source | states |
|---|---|---|
| `Text.AllWhiteSpace` | Services/ProductService.cs:29 | a name is blank exactly when every character of it is white space (`string.IsNullOrWhiteSpace` on a non-null string); `Text.IsNullOrWhiteSpace`, the name guard of both save operations, is a null name or this |
| `Text.DecimalString` | Services/StockServices.cs:59 | the quantity printed into the audit text is a non-empty run of decimal digits with no leading zero except for 0 |
| `Text.DecimalStringValue` | Services/StockServices.cs:59 | reading those digits back gives the quantity that was printed |
| `Data.Store.AddProduct` | Services/ProductService.cs:35-36 | the product is stored under the next identity, which no row used, and the counter advances; nothing else changes |
| `Data.Store.UpdateProduct` | Services/ProductService.cs:48 | the stored row with the product's id is replaced by it; nothing else changes |
| `Data.Store.DeleteProduct` | Services/ProductService.cs:79 | exactly the row with that id leaves the products table |
| `Data.Store.AddCategory` | Services/CategoriesService.cs:28-29 | the category is stored under the next identity, which no row used, and the counter advances |
| `Data.Store.UpdateCategory` | Services/CategoriesService.cs:41 | the stored row with the category's id is replaced by it |
| `Data.Store.DeleteCategory` | Services/CategoriesService.cs:73 | exactly the row with that id leaves the categories table |
| `Data.Store.AddMovement` | Services/StockServices.cs:51-53 | the movement is appended under the next movement identity |
| `Data.Store.AddLog` | Services/StockServices.cs:54-62 | exactly one audit entry with the given entity, entity id, action, details and date is appended under the next log identity; the services pass as details `Data.AuditDetails` (`Product 'name' created` and the like, with `Text.Interpolated` printing a null name as empty) or `StockServices.MovementDetails` |
| `StockServices.Wrap32` | Services/StockServices.cs:32 | C#'s unchecked `int` addition: the result is in the `int` range and congruent to the exact sum modulo 2^32 |
| `StockServices.InStockAsWritten` | Services/StockServices.cs:32 | `Stock += quantity` as written: the exact sum when it fits in an `int`, the sum minus 2^32 when it passes `int.MaxValue`, the sum plus 2^32 when it passes `int.MinValue` |
| `StockServices.InStockAsWrittenWrapsNegative` | Services/StockServices.cs:31-32 | as written, an IN movement whose sum passes `int.MaxValue` leaves a non-negative stock negative |
| `StockServices.InStockAsWrittenAtMax` | Services/StockServices.cs:31-32 | the concrete case: IN of 1 on a stock of 2147483647 gives -2147483648 |
| `StockServices.NextStock` | Services/StockServices.cs:29-40 | IN adds the quantity exactly, and is refused with the overflow message exactly when the sum passes `int.MaxValue`; OUT is refused with "No hay suficiente stock." exactly when stock < quantity and otherwise subtracts; ADJUST sets the stock to the quantity whatever it was; a non-negative stock stays non-negative |
| `StockServices.NextStockAgreesWithAsWritten` | Services/StockServices.cs:31-32 | wherever the corrected IN rule accepts, its new stock equals the source's unchecked sum |
| `StockServices.ApplyMovement` | Services/StockServices.cs:24-63 | `productId <= 0` or `quantity <= 0` gives "Cantidad inválida."; an unknown product gives "Producto no encontrado."; a refused kind gives its message; any refusal leaves every table unchanged; an accepted call sets only the selected product's stock to the kind's new value, appends exactly one movement carrying the inputs and the next movement id, appends exactly one "StockMovement"/"Create" audit entry whose entity id is that movement's id, and leaves categories alone; the audit details are `StockServices.MovementDetails`, the text of line 59 with the kind printed by `Models.KindName` and the quantity by `Text.DecimalString`; stock never goes negative |
| `StockServices.SortByDateDescending` | Services/StockServices.cs:20 | the result holds the same movements, each as often, with `Date` non-increasing |
| `StockServices.StockService.GetProducts` | Services/StockServices.cs:12-15 | every stored product is returned, and everything returned is the stored row under its own id |
| `StockServices.StockService.GetStockMovements` | Services/StockServices.cs:16-22 | every movement is returned exactly once, newest first, each with the product its `ProductId` names (absent if there is none) |
| `StockServices.StockService.AddStockMovement` | Services/StockServices.cs:24-64 | the returned message and the new tables are those `ApplyMovement` gives for the old tables, and the store stays well formed |
| `ProductServices.SaveProduct` | Services/ProductService.cs:27-62 | a null, empty or white-space name gives "El nombre es obligatorio" (checked first); otherwise `CategoryId == 0` gives "Debes seleccionar una categoría" (only zero is refused); a refusal changes nothing; `Id == 0` stores the product under a fresh positive id not previously in the table and appends one "Product"/"Create" entry with that id; `Id != 0` replaces the stored row with that id and appends one "Product"/"Update" entry; other products, categories and movements are unchanged; stock stays non-negative when the saved product's stock is |
| `ProductServices.RemoveProduct` | Services/ProductService.cs:63-82 | a missing id gives "Producto no encontrado" and changes nothing; otherwise exactly that product is removed, no other product changes, categories stay, no movement is added, movements of other products stay, the product, category and movement id counters stay, and one "Product"/"Delete" entry with its id and name is appended; the result is success |
| `ProductServices.ProductService.GetCategories` | Services/ProductService.cs:15-18 | every stored category is returned, and everything returned is the stored row under its own id |
| `ProductServices.ProductService.GetProducts` | Services/ProductService.cs:20-25 | every stored product is returned with the category its `CategoryId` names (absent if there is none), and nothing else |
| `ProductServices.ProductService.CreateOrUpdateProduct` | Services/ProductService.cs:27-62 | the returned message and the new tables are those `SaveProduct` gives for the old tables |
| `ProductServices.ProductService.DeleteProduct` | Services/ProductService.cs:63-82 | the returned message and the new tables are those `RemoveProduct` gives for the old tables |
| `CategoriesServices.SaveCategory` | Services/CategoriesService.cs:20-55 | a null category gives "Category cannot be null"; a null, empty or white-space name gives "El nombre es obligatorio"; a refusal changes nothing; `Id == 0` stores the category under a fresh positive id and appends one "Category"/"Create" entry with that id; `Id != 0` replaces the stored row with that id and appends one "Category"/"Update" entry; other categories, products and movements are unchanged |
| `CategoriesServices.RemoveCategory` | Services/CategoriesService.cs:57-76 | a missing id gives "Categoría no encontrada" and changes nothing; otherwise exactly that category is removed and one "Category"/"Delete" entry whose entity id is the removed id is appended; no product or movement is added or altered, products of other categories and their movements stay, and the product, category and movement id counters stay |
| `CategoriesServices.CategoriesService.GetCategories` | Services/CategoriesService.cs:15-18 | every stored category is returned, and everything returned is the stored row under its own id |
| `CategoriesServices.CategoriesService.CreateOrUpdateCategory` | Services/CategoriesService.cs:20-55 | the returned message and the new tables are those `SaveCategory` gives for the old tables |
| `CategoriesServices.CategoriesService.DeleteCategory` | Services/CategoriesService.cs:57-76 | the returned message and the new tables are those `RemoveCategory` gives for the old tables |
| `Inventory.Step` | Services/ProductService.cs:33-60 | covers all five changing calls of the three services, not only the cited product branch (the same pattern is at Services/CategoriesService.cs:26-53, 65-74, Services/ProductService.cs:71-80 and Services/StockServices.cs:54-61): a refused call changes nothing; an accepted call appends exactly one audit entry, keeps the earlier ones, and tags it with the entity and action the call performed; a save leaves the movement history alone, a stock movement appends at most one row to it, and a delete adds no movement |
| `Inventory.RunKeepsStockNonNegative` | Services/StockServices.cs:26-39 | after any sequence of calls, no product's stock is negative, provided it was so at the start and no product is saved with a negative stock |
| `Inventory.RunAuditTrail` | Services/CategoriesService.cs:31-53 | covers the audit appends of all three services, not only the cited category ones: after any sequence of calls, the earlier audit entries are untouched and there is exactly one new entry per accepted call |
| `Inventory.RunMovementHistory` | Services/StockServices.cs:43-53 | after any sequence of calls that deletes no product or category, the earlier movements are untouched; such calls only ever append movements |

## Left out

- Entity Framework Core is replaced by the in-memory `Store`. Each call is one atomic step. The source saves twice in some calls (once to obtain a generated id, once for the audit entry). A failure between the two saves is not modelled.
- Asynchrony and concurrency are not modelled, including the lost update on a product's stock when two calls race.
- Faults from the database (connectivity, constraint violations) are not modelled.
- The clock is a `now` parameter. `AddStockMovement` reads `DateTime.UtcNow` twice (movement date, audit date); the model uses one value for both.
- `Products.Update` / `Categories.Update` of an id that has no stored row: what the database does is not visible in the source. `ProductServices.UpdateTargetPresent` and `CategoriesServices.UpdateTargetPresent` make "the id is stored" a precondition of that branch only.
- Foreign keys are not enforced. A product may be saved with a `CategoryId` that names no category, and a movement may outlive its product. The joins in `GetProducts` and `GetStockMovements` return an absent category or product in that case.
- ProductServices.RemoveProduct promises only that the deleted product's own stock movements are kept or dropped, not which. `StockMovement.ProductId` is a required foreign key, and the database schema built from these entities cascades deletes along it, so the program likely deletes those movements too. The model keeps them; that is the model's choice, not the program's behaviour.
- CategoriesServices.RemoveCategory promises only that the deleted category's own products, and their movements, are kept unchanged or dropped, not which. `Product.CategoryId` is a required foreign key with the same cascading default. The model keeps those rows; that is the model's choice, not the program's behaviour.
- Inventory.RunMovementHistory holds only for runs with no delete calls, because a cascading delete can remove movements.
- `TipoMovimiento` values outside IN, OUT and ADJUST are not represented: `MovementKind` is closed. A C# enum can hold any `int`, and the switch at Services/StockServices.cs:29-41 has no default, so such a value would leave the stock as it is and still record the movement and its audit entry.
- Identities are unbounded integers; running out of 32-bit identities is not modelled.
- On insert, the source also writes the generated id back into the caller's entity object. That side effect on the argument is not modelled; the stored row carries the id.
- A null `Product` passed to `CreateOrUpdateProductAsync` throws in the source; the model's product argument is never null.
- `GetProductsAsync` and `GetCategoriesAsync` have no ordering, so they return sets. `GetStockMovements` fixes only the order by date; movements with equal dates may come in any order.
- `Price` (decimal) is a real, `Caducity` an optional timestamp and `Image` an opaque string. No operation reads them. The `Product.Category` and `StockMovement.Product` navigation references are not stored; `ProductService.GetProducts` and `StockService.GetStockMovements` join them in. The `Category.Products` collection is not modelled; no reader of the source loads it.
- `IsWhiteSpace` follows the Unicode White_Space set of `char.IsWhiteSpace` over 16-bit characters. Dafny characters are Unicode scalar values, so surrogate code units are not represented.
- Program.cs (service registration, HTTP and UI pipeline) and Data/ApplicationDbContext.cs (the table declarations, replaced by `Store`) are not part of this model.

## Findings

| source | as written | input that shows it | evidently intended | confidence | as-written member | corrected member |
|---|---|---|---|---|---|---|
| Services/StockServices.cs:32 | `selectedProduct.Stock += quantity` adds in unchecked 32-bit `int` arithmetic, so the sum wraps past `int.MaxValue` (proved by `StockServices.InStockAsWrittenWrapsNegative`) | a product with `Stock` 2147483647, an IN movement of quantity 1: the stock becomes -2147483648 | stock never goes negative; checked arithmetic raises `OverflowException` before anything is saved, so the call fails and the store is unchanged | medium, not executed; it holds unless the project build turns on overflow checking | `StockServices.InStockAsWritten` | `StockServices.NextStock` |

The rest of the model uses the corrected rule. An IN movement that would pass
`int.MaxValue` returns the `OverflowException` message ("Arithmetic operation
resulted in an overflow.") and changes nothing. No build of the program
returns that string: with checking on, the exception reaches the caller as a
fault. The model folds that fault into the ordinary error result.
