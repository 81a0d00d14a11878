# GestionInventario — a verified model of the inventory core

GestionInventario is a small Java console application that keeps a product
inventory. Its core is the aggregate `Inventario`, which owns a hash map from
product code to `Producto` and is the only place where products are created or
changed, and the entity `Producto`, whose code is fixed at construction and
whose price and stock can never become negative. This project models both in
Dafny and proves what they promise.

The model has four modules:

- `Options` — the `Option` type that stands for Java's `Optional` and for the
  nullable `Double`/`Integer` arguments of an update.
- `JavaString` — the parts of `java.lang.String` the core relies on: a nullable
  reference (`JString`), `trim` (strips every character up to U+0020),
  `isBlank` (`Character.isWhitespace`), `toLowerCase`, `contains`, and the
  decimal text of an `int` that string concatenation produces.
- `Products` — `Producto`. `ProductView` is the immutable snapshot that the
  read-only accessors expose; `Mutation` and `Apply` state the rule of each
  setter once; the class `Product` is the mutable entity, whose constructor and
  setters are specified through `NewView` and `Apply`.
- `Inventories` — `Inventario`. The table is a `map` from normalised code to
  `ProductView`. Each command is first a pure function from the old table to an
  `Outcome` (success flag and new table): `TryAdd`, `TryInsert`, `TryRemove`,
  `TryUpdate`, `TrySetPrice`, `TrySetStock`. The class `Inventory` holds the
  table in a field, updates it in place, and each of its methods is proved to
  produce exactly the outcome of the matching function. The table invariant
  `WellFormed` (every key is a non-empty trimmed code, equal to the normalised
  code of the product under it, and every product has price and stock at least
  0) is proved to survive every command and every sequence of commands. The
  queries return value copies: `FindByName` and `ListAll` are loops over the
  keys proved to list each selected product exactly once, and `Report` is a
  loop proved to compute the sum of price times stock, which is shown to be
  independent of iteration order.

Codes are normalised with `trim`, while a text query is checked with `isBlank`.
The two disagree on Unicode spaces beyond U+0020: a code made only of an
ideographic space (U+3000) is accepted as a product code although it is blank.
The model follows the code here (`BlankCodeAccepted`): `trim` only strips
characters up to U+0020, so a code that `isBlank` calls blank can still be
accepted.

## Model

| member | source | states |
|---|---|---|
| JavaString.Trim | src/main/java/app/Inventario.java:19 | The result has no leading or trailing character up to U+0020, and a string with none is returned unchanged. |
| JavaString.TrimInfix | src/main/java/app/Inventario.java:17-21 | The trimmed string occurs inside the original, and it is empty exactly when every character was a trim space. |
| JavaString.TrimCuts | src/main/java/app/Inventario.java:19 | The trim is the original with a run of trim spaces cut from the front and one from the back, and nothing else removed. |
| JavaString.IsBlank | src/main/java/app/Inventario.java:75 | The empty query is blank, and a blank query made of ASCII characters consists of trim spaces only. |
| JavaString.IntTextRoundTrip | src/main/java/app/Producto.java:47 | The decimal text of an `int` is well formed and reads back as the same number. |
| Inventories.Norm | src/main/java/app/Inventario.java:17-21 | The result is a code exactly when the input is non-null and its trim is not empty; `null` stays `null`; a code result is the trimmed input, non-empty and already trimmed. |
| Inventories.NormValid | src/main/java/app/Inventario.java:17-21 | A code is accepted exactly when it is non-null and not all trim spaces; the normalised code occurs in the original; normalising twice is normalising once. |
| Inventories.PaddedCodeIsTheSameCode | src/main/java/app/Inventario.java:17-21 | `" A1 "` and `"A1"` normalise to the same code; `"   "` and `null` are no code. |
| Inventories.BlankCodeAccepted | src/main/java/app/Inventario.java:17-21 | A code of one ideographic space is blank for `isBlank`, yet creating a product with it succeeds. |
| Inventories.TryAdd | src/main/java/app/Inventario.java:30-35 | Creation succeeds exactly when the normalised code is valid and not a key; on failure the table is unchanged; on success exactly one entry is added, under the normalised code, holding the constructor's product built from that code, and every other entry is kept. |
| Inventories.CreateCollidesAfterTrim | src/main/java/app/Inventario.java:30-32 | Creating a second product whose code normalises to the same key fails and leaves the table as it was. |
| Inventories.CreateThenFind | src/main/java/app/Inventario.java:30-35 | After a successful creation, looking the code up returns the constructor's product, with negative price and stock clamped to 0. |
| Inventories.TryRemove | src/main/java/app/Inventario.java:41-43 | Deletion reports true exactly when the normalised code was a key; afterwards that key is gone, every remaining entry is unchanged, and a `null` or blank code changes nothing. |
| Inventories.DeleteThenFindNothing | src/main/java/app/Inventario.java:41-43 | After a deletion the code is not found and a second deletion of it returns false without change. |
| Inventories.TryUpdate | src/main/java/app/Inventario.java:50-58 | Update succeeds exactly when the normalised code is a key; on failure nothing changes; on success the key set is kept, only that product changes, and it becomes the product's setters applied to the present fields in order. |
| Inventories.UpdateAppliesMutations | src/main/java/app/Inventario.java:53-56 | Applying the setters of the present fields one after the other equals applying the update's mutation list. |
| Inventories.UpdateSetsPresentFields | src/main/java/app/Inventario.java:50-58 | After a successful update the code is unchanged, a present name or description replaces the old one, a present price or stock is taken only when not negative, and absent fields keep their values. |
| Inventories.Lookup | src/main/java/app/Inventario.java:66-68 | A product is found exactly when the normalised code is a key, and it is the product stored under that key. |
| Inventories.Matches | src/main/java/app/Inventario.java:79-81 | The empty query matches every product, and a product with neither name nor description (both read as empty) matches only the empty query. |
| Inventories.MatchesIgnoresQueryCase | src/main/java/app/Inventario.java:76-81 | A product matches a query exactly when it matches the lower-cased query. |
| Inventories.SearchFindsByName | src/main/java/app/Inventario.java:74-84 | The product named "Mouse" matches the query "mouse". |
| Inventories.SearchFindsByDescription | src/main/java/app/Inventario.java:74-84 | The product described as "Inalámbrico" matches the query "inalámbrico". |
| Inventories.SearchMissesOtherText | src/main/java/app/Inventario.java:74-84 | That product does not match "teclado", which occurs in neither field. |
| Inventories.TotalValueRemove | src/main/java/app/Inventario.java:99-106 | The inventory total equals any one product's price times stock plus the total of the rest, so it does not depend on the order of the entries. |
| Inventories.TotalValueNonNegative | src/main/java/app/Inventario.java:99-106 | When every product has price and stock at least 0, the total is at least 0. |
| Inventories.ReportOfTwo | src/main/java/app/Inventario.java:99-106 | Products at (100, 2) and (50, 3) are worth 350 in all. |
| Inventories.TryInsert | src/main/java/app/Inventario.java:120-127 | Storing a built product succeeds exactly when there is one, its normalised code is valid and not a key; on success that product is stored as it is under the normalised code and every other entry is kept; on failure nothing changes. |
| Inventories.TrySetPrice | src/main/java/app/Inventario.java:135-141 | Succeeds exactly when the price is not negative and the normalised code is a key; on success only that product's price changes, to the given price; on failure nothing changes. |
| Inventories.TrySetStock | src/main/java/app/Inventario.java:144-150 | Succeeds exactly when the stock is not negative and the normalised code is a key; on success only that product's stock changes, to the given stock; on failure nothing changes. |
| Inventories.CreateKeepsWellFormed | src/main/java/app/Inventario.java:30-35 | Creation keeps the table invariant. |
| Inventories.InsertKeepsWellFormed | src/main/java/app/Inventario.java:120-127 | Storing a product whose price and stock are not negative keeps the table invariant. |
| Inventories.DeleteKeepsWellFormed | src/main/java/app/Inventario.java:41-43 | Deletion keeps the table invariant. |
| Inventories.UpdateKeepsWellFormed | src/main/java/app/Inventario.java:50-58 | Update keeps the table invariant. |
| Inventories.ReplaceKeepsWellFormed | src/main/java/app/Inventario.java:135-150 | Replacing one product by a valid one with the same code keeps the table invariant. |
| Inventories.StepKeepsWellFormed | src/main/java/app/Inventario.java:30-150 | Every command keeps the table invariant. |
| Inventories.RunKeepsWellFormed | src/main/java/app/Inventario.java:30-150 | Every sequence of commands keeps the table invariant. |
| Inventories.WellFormedInjective | src/main/java/app/Inventario.java:14 | In a well-formed table two keys holding the same product are the same key. |
| Inventories.Inventory.constructor | src/main/java/app/Inventario.java:14 | A new inventory is empty and well formed. |
| Inventories.Inventory.AddProduct | src/main/java/app/Inventario.java:30-35 | Updates the table in place to the outcome of `TryAdd` and keeps the invariant. |
| Inventories.Inventory.RemoveByCode | src/main/java/app/Inventario.java:41-43 | Updates the table in place to the outcome of `TryRemove` and keeps the invariant. |
| Inventories.Inventory.UpdateProduct | src/main/java/app/Inventario.java:50-58 | Applies the setters of the present fields to the stored product and ends with the outcome of `TryUpdate`, keeping the invariant. |
| Inventories.Inventory.FindByCode | src/main/java/app/Inventario.java:66-68 | Returns the lookup of the normalised code in the current table. |
| Inventories.Inventory.FindByName | src/main/java/app/Inventario.java:74-84 | Returns each stored product whose lower-cased name or description (`null` read as empty) contains the lower-cased query exactly once, and nothing else; nothing for a `null` or blank query. |
| Inventories.Inventory.ListAll | src/main/java/app/Inventario.java:90-93 | Returns every stored product exactly once; its length is the number of products. |
| Inventories.Inventory.Report | src/main/java/app/Inventario.java:99-106 | Returns the number of products and the sum of price times stock over all of them. |
| Inventories.Inventory.Add | src/main/java/app/Inventario.java:120-127 | Updates the table in place to the outcome of `TryInsert` on the product's current values and keeps the invariant. |
| Inventories.Inventory.Remove | src/main/java/app/Inventario.java:130-132 | Same outcome as `RemoveByCode`. |
| Inventories.Inventory.UpdatePrice | src/main/java/app/Inventario.java:135-141 | Updates the table in place to the outcome of `TrySetPrice` and keeps the invariant. |
| Inventories.Inventory.UpdateStock | src/main/java/app/Inventario.java:144-150 | Updates the table in place to the outcome of `TrySetStock` and keeps the invariant. |
| Inventories.Inventory.FindByText | src/main/java/app/Inventario.java:153-156 | Same result as `FindByName`. |
| Products.NewView | src/main/java/app/Producto.java:21-27 | Code, name and description are kept exactly as given; a negative price or stock becomes 0, any other is kept; the result satisfies the product invariant. |
| Products.Apply | src/main/java/app/Producto.java:37-40 | A rename or redescription replaces its field unconditionally; a stock or price is taken only when not negative; no mutator touches the code or another field; the invariant is kept. |
| Products.ApplyAllAppend | src/main/java/app/Producto.java:37-40 | Applying two runs of setter calls is applying their concatenation. |
| Products.MutationsKeepInvariant | src/main/java/app/Producto.java:25-40 | After any sequence of setter calls the code is the original one, and price and stock stay non-negative when they were. |
| Products.ConstructedThenMutated | src/main/java/app/Producto.java:21-40 | Any product built by the constructor and then changed by any setters has its original code and non-negative price and stock. |
| Products.ProductView.Describe | src/main/java/app/Producto.java:44-48 | The rendering is the bracketed code, the name, the description, the labelled price text and the labelled stock, in that order; it starts with `[` and its length is that of the five field texts plus the 27 characters of fixed text, so nothing else is added. |
| Products.DescribeMentions | src/main/java/app/Producto.java:44-48 | The rendering starts with `[code] name` and contains the code, the name, the description and the price text. |
| Products.DescribeEndsWithStock | src/main/java/app/Producto.java:44-48 | The rendering ends with the decimal text of the stock, which reads back as the stock. |
| Products.Product.View | src/main/java/app/Producto.java:30-34 | The accessors return the current code, name, description, price and stock. |
| Products.Product.constructor | src/main/java/app/Producto.java:21-27 | The new product holds `NewView` of its arguments and satisfies the invariant. |
| Products.Product.SetName | src/main/java/app/Producto.java:37 | The name is replaced and nothing else changes; the invariant is kept. |
| Products.Product.SetDescription | src/main/java/app/Producto.java:38 | The description is replaced and nothing else changes; the invariant is kept. |
| Products.Product.SetStock | src/main/java/app/Producto.java:39 | The stock becomes the argument when it is not negative and is unchanged otherwise; nothing else changes. |
| Products.Product.UpdatePrice | src/main/java/app/Producto.java:40 | The price becomes the argument when it is not negative and is unchanged otherwise; nothing else changes. |

## Left out

- The console menu (`MenuPrincipal`) with its input loop and parsing is I/O glue around the aggregate, so it is not part of this model.
- `ProductoRO` is an access-control device; read access is modelled by returning immutable `ProductView` copies instead.
- Object aliasing: `agregar` stores the caller's own `Producto`, and queries hand out live references; the model copies values, so a later change made through one reference is not seen through another.
- Prices are `real`, not `double`: NaN, negative zero and rounding while the total is summed are not modelled.
- Inventories.Inventory.Report: returns the count and the exact total instead of the string `"Productos: N | Valor inventario: X.XX"`, because two-decimal formatting of a `double` is not modelled.
- Products.DescribeMentions: the two-decimal price text is an abstract parameter `priceText`, so the rendering is proved only up to that text.
- Inventories.Inventory.FindByName: the order of the result is not stated, because the source walks a `HashMap` whose order is unspecified; the result is stated up to order.
- Inventories.Inventory.ListAll: the order of the result is not stated, for the same reason.
- Inventories.Matches: lower-casing is ASCII only, not the full Unicode case mapping of `toLowerCase(Locale.ROOT)`.
- Strings are sequences of Unicode scalar values, not UTF-16 code units, so supplementary characters count as one character.
- Stock values are unbounded integers; Java's 32-bit `int` range is not enforced, which does not matter here since the core never does arithmetic on stock other than multiplying it into the total.
- The unmodifiable-list wrappers of the query results are not modelled: a Dafny sequence is a value and cannot be changed by its receiver.
