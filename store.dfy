/**
 * The running server's state as one object: the three tables, the uploads
 * directory and the `token` cookie, with one method per route handler. Each
 * method performs the handler's awaited steps in order and is proved to produce
 * exactly the response and state its route module specifies.
 */
module Store {
  import opened Wrappers
  import opened Entities
  import opened Tables
  import opened Envelope
  import opened Backend
  import opened JsNumbers
  import opened NodePath
  import InventoryRoutes
  import ProductRoutes
  import AuthRoutes

  class Store {
    var inventories: seq<Inventory>
    var products: seq<Product>
    var users: map<Email, User>
    var uploads: set<string>
    var tokenCookie: TokenCookie

    /** The object's fields as one value. */
    function Snapshot(): State
      reads this
    {
      State(inventories, products, users, uploads, tokenCookie)
    }

    /** Primary keys, emails and names unique. */
    ghost predicate Valid()
      reads this
    {
      Backend.Valid(Snapshot()) && NamesUnique(Snapshot())
    }

    /** An empty database and uploads directory; no cookie sent yet. */
    constructor ()
      ensures Snapshot() == State([], [], map[], {}, NotSent)
      ensures Valid()
    {
      inventories, products, users, uploads, tokenCookie := [], [], map[], {}, NotSent;
    }

    // ---- inventory router ----

    method ListInventories(faults: set<Call>) returns (resp: Response)
      ensures resp == InventoryRoutes.List(Snapshot(), faults).resp
    {
      if InventoryFindMany in faults {
        return Failure("Failed to get all inventory");
      }
      var items := inventories;
      if |items| == 0 {
        return Response(Ok, "No product yet", InventoryList(items));
      }
      resp := Response(Ok, "Get all inventory", InventoryList(items));
    }

    method GetInventory(id: Id, faults: set<Call>) returns (resp: Response)
      ensures resp == InventoryRoutes.Get(Snapshot(), id, faults).resp
    {
      if InventoryFindUnique in faults {
        return Failure("Failed to get inventory by id");
      }
      var found := IndexOf(inventories, InventoryKey, id);
      if found.None? {
        return Response(NotFound, "Id not found", NoData);
      }
      resp := Response(Ok, "Get inventory by id", InventoryData(inventories[found.value]));
    }

    method CreateInventory(name: string, description: string, newId: Id, faults: set<Call>)
      returns (resp: Response)
      requires Valid()
      modifies this
      ensures Valid()
      ensures Handled(resp, Snapshot())
              == InventoryRoutes.Create(old(Snapshot()), name, description, newId, faults)
    {
      InventoryRoutes.CreatePreservesInvariants(Snapshot(), name, description, newId, faults);
      if InventoryFindFirst in faults {
        return Failure("Failed to create inventory");
      }
      if IndexOf(inventories, InventoryName, name).Some? {
        return Response(Conflict, name + " already existed", NoData);
      }
      if InventoryCreate in faults || IndexOf(inventories, InventoryKey, newId).Some? {
        return Failure("Failed to create inventory");
      }
      var row := Inventory(newId, name, description);
      inventories := inventories + [row];
      resp := Response(Ok, "Inventory created", InventoryData(row));
    }

    method UpdateInventory(id: Id, name: string, description: string, faults: set<Call>)
      returns (resp: Response)
      requires Valid()
      modifies this
      ensures Valid()
      ensures Handled(resp, Snapshot())
              == InventoryRoutes.Update(old(Snapshot()), id, name, description, faults)
    {
      InventoryRoutes.UpdatePreservesInvariants(Snapshot(), id, name, description, faults);
      if InventoryFindUnique in faults {
        return Failure("Failed to update inventory");
      }
      var found := IndexOf(inventories, InventoryKey, id);
      if found.None? {
        return Response(NotFound, "Inventory not found", NoData);
      }
      if InventoryFindFirst in faults {
        return Failure("Failed to update inventory");
      }
      if IndexOf(inventories, InventoryName, name).Some? {
        return Response(Conflict, name + " already existed", NoData);
      }
      if InventoryUpdate in faults {
        return Failure("Failed to update inventory");
      }
      var row := Inventory(id, name, description);
      inventories := inventories[found.value := row];
      resp := Response(Ok, "Inventory updated", InventoryData(row));
    }

    method DeleteInventory(id: Id, faults: set<Call>) returns (resp: Response)
      requires Valid()
      modifies this
      ensures Valid()
      ensures Handled(resp, Snapshot()) == InventoryRoutes.Delete(old(Snapshot()), id, faults)
    {
      InventoryRoutes.DeletePreservesInvariants(Snapshot(), id, faults);
      if InventoryFindUnique in faults {
        return Failure("Failed to delete inventory");
      }
      var found := IndexOf(inventories, InventoryKey, id);
      if found.None? {
        return Response(NotFound, "Inventory not found", NoData);
      }
      if InventoryDelete in faults {
        return Failure("Failed to delete inventory");
      }
      var row := inventories[found.value];
      inventories := RemoveAt(inventories, found.value);
      resp := Response(Ok, "Inventory deleted", InventoryData(row));
    }

    // ---- product router ----

    method ListProducts(requestBase: string, faults: set<Call>) returns (resp: Response)
      ensures resp == ProductRoutes.List(Snapshot(), requestBase, faults).resp
    {
      if ProductFindMany in faults {
        return Unanswered;
      }
      var rows := products;
      if |rows| == 0 {
        return Response(Ok, "No product yet", ProductList(rows));
      }
      resp := Response(Ok, "Get all products", ProductList(ProductRoutes.WithImageUrls(requestBase, rows)));
    }

    method GetProduct(requestBase: string, id: Id, faults: set<Call>) returns (resp: Response)
      ensures resp == ProductRoutes.Get(Snapshot(), requestBase, id, faults).resp
    {
      if ProductFindUnique in faults {
        return Unanswered;
      }
      var found := IndexOf(products, ProductKey, id);
      if found.None? {
        return Response(NotFound, "No product found", NoData);
      }
      var row := products[found.value];
      resp := Response(Ok, "Get product by id", ProductData(ProductRoutes.WithImageUrl(requestBase, row)));
    }

    /** The upload middleware's effect: the received file is now in the directory. */
    method ReceiveUpload(upload: Option<string>)
      modifies this`uploads
      ensures uploads == old(uploads) + ProductRoutes.UploadSet(upload)
    {
      if upload.Some? {
        uploads := uploads + {upload.value};
      }
    }

    method CreateProduct(form: ProductRoutes.ProductForm, upload: Option<string>, newId: Id,
                         env: Option<string>, faults: set<Call>) returns (resp: Response)
      requires Valid()
      modifies this
      ensures Valid()
      ensures Handled(resp, Snapshot())
              == ProductRoutes.Create(old(Snapshot()), form, upload, newId, env, faults)
    {
      ProductRoutes.CreatePreservesInvariants(Snapshot(), form, upload, newId, env, faults);
      ReceiveUpload(upload);
      if InventoryFindUnique in faults {
        return Failure("Failed to create product");
      }
      if IndexOf(inventories, InventoryKey, form.inventoryId).None? {
        return Response(NotFound, "Inventory with id " + form.inventoryId + " not found", NoData);
      }
      if ProductFindFirst in faults {
        return Failure("Failed to create product");
      }
      if IndexOf(products, ProductName, form.name).Some? {
        return Response(Conflict, form.name + " already existed", NoData);
      }
      if upload.None? {
        return Response(BadRequest, "Product image is required", NoData);
      }
      var image := ProductRoutes.UploadPath(upload.value);
      var price, stock := ParseInt(form.price), ParseInt(form.stock);
      if ProductCreate in faults || price.None? || stock.None? || IndexOf(products, ProductKey, newId).Some? {
        return Failure("Failed to create product");
      }
      var row := Product(newId, form.name, Some(image), price.value, form.description, stock.value,
                         form.inventoryId);
      products := products + [row];
      resp := Response(Ok, "Product created", ProductData(ProductRoutes.WithImageUrl(ProductRoutes.BaseUrl(env), row)));
    }

    /** `fs.unlink` of the stored image's base name; a failing unlink leaves the directory. */
    method UnlinkImage(image: Option<string>, faults: set<Call>)
      modifies this`uploads
      ensures uploads == ProductRoutes.Unlinked(old(uploads), image, faults)
    {
      if image.Some? && image.value != "" && FsUnlink !in faults {
        uploads := uploads - {BaseName(image.value)};
      }
    }

    method UpdateProduct(id: Id, form: ProductRoutes.ProductForm, upload: Option<string>, env: Option<string>,
                         faults: set<Call>) returns (resp: Response)
      requires Valid()
      modifies this
      ensures Valid()
      ensures Handled(resp, Snapshot())
              == ProductRoutes.Update(old(Snapshot()), id, form, upload, env, faults)
    {
      ProductRoutes.UpdatePreservesInvariants(Snapshot(), id, form, upload, env, faults);
      ReceiveUpload(upload);
      if InventoryFindUnique in faults {
        return Failure("Failed to Update");
      }
      if IndexOf(inventories, InventoryKey, form.inventoryId).None? {
        return Response(NotFound, "Inventory with id " + form.inventoryId + " not found", NoData);
      }
      if ProductFindUnique in faults {
        return Failure("Failed to Update");
      }
      var found := IndexOf(products, ProductKey, id);
      if found.None? {
        return Response(NotFound, "inventory not found", NoData);
      }
      var existing := products[found.value];
      if upload.None? {
        return Response(BadRequest, "Product image is required", NoData);
      }
      var image := ProductRoutes.UploadPath(upload.value);
      if ProductFindFirst in faults {
        return Failure("Failed to Update");
      }
      if IndexOf(products, ProductName, form.name).Some? {
        return Response(Conflict, form.name + " already existed", NoData);
      }
      UnlinkImage(existing.image, faults);
      var price, stock := ParseInt(form.price), ParseInt(form.stock);
      if ProductUpdate in faults || price.None? || stock.None? {
        return Failure("Failed to Update");
      }
      var row := Product(id, form.name, Some(image), price.value, form.description, stock.value,
                         form.inventoryId);
      products := products[found.value := row];
      resp := Response(Ok, "Product updated", ProductData(ProductRoutes.WithImageUrl(ProductRoutes.BaseUrl(env), row)));
    }

    method DeleteProduct(id: Id, faults: set<Call>) returns (resp: Response)
      requires Valid()
      modifies this
      ensures Valid()
      ensures Handled(resp, Snapshot()) == ProductRoutes.Delete(old(Snapshot()), id, faults)
    {
      ProductRoutes.DeletePreservesInvariants(Snapshot(), id, faults);
      if ProductFindUnique in faults {
        return Failure("Delete failed");
      }
      var found := IndexOf(products, ProductKey, id);
      if found.None? {
        return Response(NotFound, "Product not found", NoData);
      }
      var row := products[found.value];
      UnlinkImage(row.image, faults);
      if ProductDelete in faults {
        return Failure("Delete failed");
      }
      products := RemoveAt(products, found.value);
      resp := Response(Ok, "Product deleted", ProductData(row));
    }

    // ---- auth router ----

    method Register(email: Email, password: string, crypto: AuthRoutes.Crypto, newId: Id,
                    faults: set<Call>) returns (resp: Response)
      requires Valid()
      modifies this
      ensures Valid()
      ensures Handled(resp, Snapshot())
              == AuthRoutes.Register(old(Snapshot()), email, password, crypto, newId, faults)
    {
      AuthRoutes.RegisterPreservesValid(Snapshot(), email, password, crypto, newId, faults);
      if UserFindUnique in faults {
        return Failure("Failed to registration");
      }
      if email in users {
        return Response(Conflict, "Email is already existed", NoData);
      }
      if BcryptHash in faults {
        return Failure("Failed to registration");
      }
      var hashed := crypto.hash(password, AuthRoutes.SaltRounds);
      if UserCreate in faults || AuthRoutes.IdTaken(users, newId) {
        return Failure("Failed to registration");
      }
      var user := User(newId, email, hashed);
      users := users[email := user];
      resp := Response(Ok, "Register successful", Registered(user.id, user.email));
    }

    method Login(email: Email, password: string, crypto: AuthRoutes.Crypto, secret: string,
                 options: CookieOptions, faults: set<Call>) returns (resp: Response)
      requires Valid()
      modifies this`tokenCookie
      ensures Valid()
      ensures Handled(resp, Snapshot())
              == AuthRoutes.Login(old(Snapshot()), email, password, crypto, secret, options, faults)
    {
      if UserFindUnique in faults {
        return Unanswered;
      }
      if email !in users {
        return AuthRoutes.InvalidCredentials;
      }
      var user := users[email];
      if BcryptCompare in faults {
        return Unanswered;
      }
      if !crypto.compare(password, user.password) {
        return AuthRoutes.InvalidCredentials;
      }
      if JwtSign in faults {
        return Unanswered;
      }
      var token := crypto.sign(AuthRoutes.SignRequest(user.id, secret, AuthRoutes.TokenLifetime));
      tokenCookie := Issued(token, options);
      resp := Response(Ok, "Login Successful", LoggedIn(user.id, email, token));
    }

    method Logout(options: CookieOptions) returns (resp: Response)
      requires Valid()
      modifies this`tokenCookie
      ensures Valid()
      ensures Handled(resp, Snapshot()) == AuthRoutes.Logout(old(Snapshot()), options)
    {
      tokenCookie := Cleared(options.(maxAge := None));
      resp := Response(Ok, "Logout successful", NoData);
    }
  }
}
