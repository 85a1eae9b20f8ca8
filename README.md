# Point-of-sale backend: product, inventory and auth routers

This project models the decision logic of three Express routers of a small point-of-sale
backend:
- the product router, `src/routes/product.route.js`;
- the inventory router, `src/routes/inventory.route.js`;
- the auth router, `src/routes/auth.route.js`.

Each handler is a chain of awaited lookups followed by at most one write. The model keeps that
chain exactly: the order of the checks, the message and outcome of every early return, and what
each handler leaves in the tables, in the uploads directory and in the `token` cookie.

How the model is organised:

- **Data.** `Entities` holds the three records: `Inventory`, `Product` and `User`.
  - `Backend.State` is everything a handler observes and changes. The inventory and product tables are sequences in `findMany` order, so `findFirst` is the first match. Users are a map keyed by email, the table's unique lookup key. The state also holds the file names in the flat `uploads` directory and the `token` cookie last set.
  - `Envelope.Response` is the JSON envelope: an outcome kind, the message and the data.
- **Handlers as functions.** `InventoryRoutes`, `ProductRoutes` and `AuthRoutes` give one pure function per handler. Each takes the state and the request and returns a `Handled(resp, after)`.
  - Their contracts state when each error is returned and that a rejected request changes nothing.
  - They also state exactly what a successful write stores.
  - Lemmas relate several requests. Examples: delete-then-get, registering twice, register-then-login, and the "keep the name" update being a conflict. Other lemmas show that key and name uniqueness are preserved.
- **Handlers as methods.** `Store.Store` is a class holding the same tables as fields. It has one method per handler, which performs the handler's steps as reads and writes of those fields.
  - Each method is proved to produce exactly the response and new state of its function.
  - Each method keeps the class invariant `Valid()`: keys, emails and names are unique.
- **Exceptions.** Each request carries a set `faults` naming the awaited calls that throw: a store query, bcrypt, JWT, or the `fs.unlink` callback's error.
  - In a handler with `try`/`catch`, a fault gives the handler's 500 message with the error detail.
  - In a handler without one (product `GET /`, `GET /:id` and `login`), the rejection escapes and no envelope is sent. This is `Unanswered`.
- **Collaborators.** The id the store assigns is a parameter; an id already in use makes the insert throw.
  - bcrypt and JWT are the function fields of `AuthRoutes.Crypto`. The one fact about them that any lemma uses is that a password verifies against its own digest, and that lemma states it as a precondition.
  - `parseInt` is `JsNumbers.ParseInt`. `path.basename` is `NodePath.BaseName`.
  - The `BASE_URL` environment variable is a parameter, and so is the request's own origin (protocol and host).
  - The upload middleware has stored its file before a handler runs. That file stays, whatever the handler answers, unless update's unlink of the old image hits the same file name (`UpdateWithSameFileNameLosesUpload`).

## Model

| member | source | states |
|---|---|---|
| ProductRoutes.BaseUrl | src/routes/product.route.js:11 | the URL base is `BASE_URL` when it is set and non-empty, otherwise `http://localhost:5025`; never empty (create and update build their response URLs from it) |
| ProductRoutes.CleanImageUrl | src/routes/product.route.js:14-15 | the URL is the base with one trailing slash removed (if present), a `/`, and the path with one leading slash removed (if present): splitting the URL at that `/` gives back both inputs |
| ProductRoutes.CleanImageUrlNormalizes | src/routes/product.route.js:14-15 | for a base without trailing slash and a path without leading slash, adding one slash on either or both sides yields the same `base/path` |
| ProductRoutes.CleanImageUrlKeepsDoubledSlashes | src/routes/product.route.js:14-15 | only one slash per side is stripped: for every base ending in `//` and every path starting with `//`, the join carries three slashes |
| ProductRoutes.CleanImageUrlOfRootedPath | src/routes/product.route.js:14-15 | a path starting with `/` is appended to a base without trailing slash as it is, and the same URL results when the base has one trailing slash |
| ProductRoutes.PublicImageOfUpload | src/routes/product.route.js:31 | a stored upload path `/uploads/<file>` is published as the base followed by that path, with or without a trailing slash on the base |
| ProductRoutes.WithImageUrls | src/routes/product.route.js:29-32 | the listed rows are the stored rows in the same order, identical except that each image is the public URL |
| JsNumbers.ParseInt | src/routes/product.route.js:83-85 | `parseInt` of a form field is NaN exactly when, after an optional sign, no digit follows |
| JsNumbers.ParseIntOfDecimal | src/routes/product.route.js:83-85 | `parseInt` reads back the decimal form of every integer, negative ones included, also when non-digits follow it |
| NodePath.BaseNameInDirectory | src/routes/product.route.js:130 | `path.basename` of `/uploads/<file>` is `<file>`, so unlinking targets the file the stored path names |
| ProductRoutes.List | src/routes/product.route.js:21-35 | lists every product in table order with image URLs built from the request origin; "No product yet" exactly when the table is empty; a throwing query leaves the request unanswered; the state is untouched |
| ProductRoutes.Get | src/routes/product.route.js:38-53 | success exactly when a product has the id, returning that product with its image URL; otherwise 404 "No product found"; a throwing query leaves the request unanswered |
| ProductRoutes.Create | src/routes/product.route.js:56-97 | checks in order: inventory exists (404 naming the id), name unused (conflict), image uploaded (400); on success appends one row with the parsed price and stock and `/uploads/<file>` as image, and answers it with an image URL built from `BASE_URL` (or the default), not from the request; once the checks pass, a throwing call or a NaN number is a 500 "Failed to create product"; any rejection leaves the tables as they were while the upload stays |
| ProductRoutes.Update | src/routes/product.route.js:100-161 | checks in order: inventory exists, product exists ("inventory not found"), image uploaded, name used by no product (the target included); then unlinks the old image and overwrites the row in place with the new fields and image, answering with an image URL built from `BASE_URL` (or the default); a failing write after the unlink is a 500 "Failed to Update" with the table unchanged |
| ProductRoutes.Delete | src/routes/product.route.js:164-189 | 404 "Product not found" when absent; otherwise unlinks the image, removes exactly that row and answers it; a throwing delete is a 500 "Delete failed" |
| ProductRoutes.DeleteThenGet | src/routes/product.route.js:38-53 | after a successful delete, getting the same id answers 404 "No product found" |
| ProductRoutes.DeleteRemovesImageFile | src/routes/product.route.js:173-182 | a successful delete with a working unlink removes the product's image file from the uploads directory |
| ProductRoutes.UpdateReplacesImageFile | src/routes/product.route.js:129-152 | a successful update removes the old image file, keeps the new upload, and the product with the updated id stores `/uploads/<new file>` |
| ProductRoutes.UpdateWithSameFileNameLosesUpload | src/routes/product.route.js:129-152 | an upload stored under the old image's file name is deleted by the unlink that follows, while the updated product names it |
| ProductRoutes.UpdateWriteFailureOrphansRecord | src/routes/product.route.js:129-159 | when the update write throws after the checks pass, the record still names the old image whose file is already deleted |
| ProductRoutes.UpdateUnlinkFailureIsSilent | src/routes/product.route.js:131-137 | a failing `fs.unlink` changes neither update's response nor the product table; the only file it leaves behind is the base name of the product's old image path |
| ProductRoutes.DeleteUnlinkFailureIsSilent | src/routes/product.route.js:175-181 | a failing `fs.unlink` changes neither delete's response nor the product table; the only file it leaves behind is the base name of the product's image path |
| ProductRoutes.UpdateKeepingNameConflicts | src/routes/product.route.js:124-127 | once the inventory is found and a new image was uploaded, an update that keeps the product's own name is rejected as a conflict (when no lookup throws) |
| ProductRoutes.CreateStoresParsedNumbers | src/routes/product.route.js:79-88 | whatever integers the price and stock fields spell, negative ones included, are the stored price and stock |
| ProductRoutes.CreatePreservesInvariants | src/routes/product.route.js:68-72 | create keeps product ids and names unique |
| ProductRoutes.UpdatePreservesInvariants | src/routes/product.route.js:123-127 | update keeps product ids and names unique |
| ProductRoutes.DeletePreservesInvariants | src/routes/product.route.js:184 | delete keeps product ids and names unique |
| InventoryRoutes.List | src/routes/inventory.route.js:10-21 | returns the table as stored; "No product yet" exactly when it is empty, "Get all inventory" otherwise; a throwing query is a 500 "Failed to get all inventory"; the state is untouched |
| InventoryRoutes.Get | src/routes/inventory.route.js:24-38 | success exactly when a record has the id, answering "Get inventory by id" with the record the lookup finds; otherwise 404 "Id not found"; a throwing query is a 500 "Failed to get inventory by id" |
| InventoryRoutes.Create | src/routes/inventory.route.js:41-56 | succeeds exactly when no inventory has the name and the insert does not throw, appending exactly the new record; a used name is a conflict "<name> already existed"; once the name is free, every failure is a 500 "Failed to create inventory"; nothing changes on rejection |
| InventoryRoutes.Update | src/routes/inventory.route.js:59-85 | 404 when the id is absent; a conflict when any inventory (the target included) has the name; once both checks pass, every failure is a 500 "Failed to update inventory"; on success only the target is overwritten, in place, every other record kept |
| InventoryRoutes.Delete | src/routes/inventory.route.js:88-104 | 404 when the id is absent; for an existing id, every failure is a 500 "Failed to delete inventory"; on success exactly that record is removed and answered, all others kept |
| InventoryRoutes.CreateSameNameTwice | src/routes/inventory.route.js:46-49 | creating a second inventory with a name just created is a conflict and changes nothing |
| InventoryRoutes.CreateThenGet | src/routes/inventory.route.js:24-56 | after a successful create, a get by the new id answers exactly the record just created |
| InventoryRoutes.UpdateKeepingNameConflicts | src/routes/inventory.route.js:71-74 | when neither lookup throws, an update that keeps the inventory's own name is a conflict |
| InventoryRoutes.DeleteThenGet | src/routes/inventory.route.js:24-38 | after a successful delete, getting the same id answers 404 "Id not found" |
| InventoryRoutes.DeleteIgnoresProducts | src/routes/inventory.route.js:93-99 | delete's outcome does not depend on the products, which it leaves untouched, dangling references included |
| InventoryRoutes.CreatePreservesInvariants | src/routes/inventory.route.js:46-50 | create keeps inventory ids and names unique |
| InventoryRoutes.UpdatePreservesInvariants | src/routes/inventory.route.js:71-80 | update keeps inventory ids and names unique |
| InventoryRoutes.DeletePreservesInvariants | src/routes/inventory.route.js:99 | delete keeps inventory ids and names unique |
| AuthRoutes.Register | src/routes/auth.route.js:10-37 | a known email is rejected "Email is already existed"; for a new email, success adds exactly one user under its email with the bcrypt digest (10 rounds) of the password and answers only id and email, and every failure (throwing hash or insert) is a 500 "Failed to registration" with nothing stored |
| AuthRoutes.Login | src/routes/auth.route.js:39-51 | succeeds exactly when the email is known and bcrypt accepts the password, then sets cookie `token` to the JWT signed over the user id with a one-day lifetime and returns it; both credential failures give the same 401; a throwing lookup, compare or sign leaves the request unanswered |
| AuthRoutes.Logout | src/routes/auth.route.js:53-60 | always answers "Logout successful" and clears cookie `token` with the request's cookie options but `maxAge` unset; nothing else changes |
| AuthRoutes.LogoutIdempotent | src/routes/auth.route.js:53-60 | logging out twice equals logging out once |
| AuthRoutes.LogoutIgnoresSession | src/routes/auth.route.js:53-60 | logout's outcome does not depend on the cookie already set |
| AuthRoutes.LoginFailuresIndistinguishable | src/routes/auth.route.js:41-45 | an unknown email and a wrong password give identical responses and states |
| AuthRoutes.RegisterTwice | src/routes/auth.route.js:15-18 | registering an email just registered is rejected and stores nothing |
| AuthRoutes.RegisterThenLogin | src/routes/auth.route.js:21-25 | with a bcrypt whose digests verify, a freshly registered user logs in with the same password and gets a token over the new id |
| AuthRoutes.RegisterPreservesValid | src/routes/auth.route.js:21-25 | register keeps every user under its own email with a unique id |
| Store.Store.ListInventories | src/routes/inventory.route.js:10-21 | the imperative handler answers what `InventoryRoutes.List` specifies |
| Store.Store.GetInventory | src/routes/inventory.route.js:24-38 | the imperative handler answers what `InventoryRoutes.Get` specifies |
| Store.Store.CreateInventory | src/routes/inventory.route.js:41-56 | the response and new fields are those of `InventoryRoutes.Create`; `Valid` is kept |
| Store.Store.UpdateInventory | src/routes/inventory.route.js:59-85 | the response and new fields are those of `InventoryRoutes.Update`; `Valid` is kept |
| Store.Store.DeleteInventory | src/routes/inventory.route.js:88-104 | the response and new fields are those of `InventoryRoutes.Delete`; `Valid` is kept |
| Store.Store.ListProducts | src/routes/product.route.js:21-35 | the imperative handler answers what `ProductRoutes.List` specifies |
| Store.Store.GetProduct | src/routes/product.route.js:38-53 | the imperative handler answers what `ProductRoutes.Get` specifies |
| Store.Store.ReceiveUpload | src/routes/product.route.js:56 | the upload middleware adds the received file to the uploads directory and changes nothing else |
| Store.Store.UnlinkImage | src/routes/product.route.js:129-138 | removes the base name of a set image path from the uploads directory unless the unlink fails |
| Store.Store.CreateProduct | src/routes/product.route.js:56-97 | the response and new fields are those of `ProductRoutes.Create`; `Valid` is kept |
| Store.Store.UpdateProduct | src/routes/product.route.js:100-161 | the response and new fields are those of `ProductRoutes.Update`; `Valid` is kept |
| Store.Store.DeleteProduct | src/routes/product.route.js:164-189 | the response and new fields are those of `ProductRoutes.Delete`; `Valid` is kept |
| Store.Store.Register | src/routes/auth.route.js:10-37 | the response and new fields are those of `AuthRoutes.Register`; `Valid` is kept |
| Store.Store.Login | src/routes/auth.route.js:39-51 | the response and new cookie are those of `AuthRoutes.Login`; only the cookie may change; `Valid` is kept |
| Store.Store.Logout | src/routes/auth.route.js:53-60 | the response and new cookie are those of `AuthRoutes.Logout`; only the cookie may change; `Valid` is kept |

## Behaviour of the code the model keeps

The model follows the code in each of these places:
- Product update demands a new image. A metadata-only edit is rejected with "Product image is required", after the inventory and product lookups.
- The update name checks of both routers look at every record, the one being updated included. Keeping a name on update is therefore a conflict whenever the earlier checks pass: for products, the inventory is found and a new image was uploaded (`UpdateKeepingNameConflicts`).
- Inventory delete does not look at products (`DeleteIgnoresProducts`). Whether the database then refuses or leaves products referring to the removed inventory depends on the schema's referential actions, which are not part of this model.
- `cleanImageUrl` strips at most one slash on each side. Doubled slashes reach the URL (`CleanImageUrlKeepsDoubledSlashes`).
- Price and stock are not checked to be non-negative. Any integer `parseInt` reads is stored (`CreateStoresParsedNumbers`).
- Product update unlinks the old image before the write. A write that then throws leaves a record naming a deleted file (`UpdateWriteFailureOrphansRecord`).
- A product missing on update is reported as "inventory not found".
- A rejected create or update still leaves the uploaded file in the uploads directory.
- Product update unlinks the old image after the new file is stored. When the new upload has the old image's file name, the unlink deletes the new file, and the product names a missing file (`UpdateWithSameFileNameLosesUpload`).

## Left out

- `src/index.js`, the invoice router and the auth middleware are not part of this model. The middleware's effect is that unauthenticated requests never reach the product and inventory handlers.
- `successResponse`/`errorResponse` are not part of this model. Responses carry an outcome kind instead of wire status codes. Some calls pass the status code where others pass data, for example `errorResponse(res, 'Inventory not found', 404)`. The status actually sent depends on that helper.
- `cookieOptions(req)` is not part of this model. Its result is an opaque `CookieOptions` parameter, of which only `maxAge` is examined.
- Exception texts (`err.message`) and console logging are left out. A caught exception is `ErrorDetail`.
- Uploaded file names (generated by the upload middleware) are parameters. Multer's storage rules, its size limits and its file filter are left out.
- Store-generated ids are parameters. Prisma's own column checks (for example, NaN into an `Int` column) are modelled only as "the write throws".
- Missing form fields (`undefined` in a query) are left out. Every field is a string.
- String comparison is exact. Every lookup by name or email (`findFirst`, `findUnique`, `Contains`, `email in users`) compares strings character by character. The database provider and its collation are not part of this model. Under a case-insensitive collation, "Beverages" and "beverages" would collide where the model keeps them apart.
- JsNumbers.ParseInt: leading whitespace, the `0x` prefix, and the double that `parseInt` returns are not modelled. Beyond 2^53 digits round (`parseInt("9007199254740993")` is 9007199254740992), and very long digit strings give Infinity. The model reads exact unbounded integers.
- ParseIntOfDecimal: holds as stated for the model's exact integers; for JavaScript it holds only for |n| < 2^53, because larger values are rounded to a double.
- CreateStoresParsedNumbers: for JavaScript, only integers with |n| < 2^53 are stored exactly. Range limits of the price and stock columns, which would make the write throw, are not modelled.
- bcrypt's random salt is left out, and so are the internals of bcrypt and JWT. They are the functions of `Crypto`.
- Row order: `findMany` and `findFirst` carry no `orderBy`, so the order rows come back in is up to the database. The model fixes one order: inserts append, updates replace in place and deletes close the gap. The contracts "appends one row", "in place" and "every other record kept in place" are about that chosen order.
- The Prisma schema (unique constraints, referential actions on `inventoryId`) is not part of this model. Uniqueness of ids is the `Valid` invariant, and a taken id makes the insert throw.
- `Unanswered` assumes Express 4, where a rejected handler promise sends no response. Express 5 would pass it to its default handler and answer 500. Under Node 15 or later an unhandled rejection also ends the process by default. Neither is modelled.
- Concurrency is left out. Requests run one at a time, so read-then-write races between interleaved handlers are not captured.
- The unlink callback runs later in the source. The model applies its effect (or, on a failure, no effect) at the point of the call.
