/**
 * The product router: the image URL helper, list and get (which rewrite the stored
 * image path into a URL), and create, update and delete, which check in a fixed
 * order, write the product table at most once and remove old image files.
 */
module ProductRoutes {
  import opened Wrappers
  import opened Entities
  import opened Tables
  import opened Envelope
  import opened Backend
  import opened JsNumbers
  import opened NodePath

  /** Used for the create and update responses when `BASE_URL` is unset or empty. */
  const DefaultBaseUrl := "http://localhost:5025"

  /** `process.env.BASE_URL || 'http://localhost:5025'`. */
  function BaseUrl(env: Option<string>): (url: string)
    ensures url != ""
    ensures env.Some? && env.value != "" ==> url == env.value
    ensures env.None? || env.value == "" ==> url == DefaultBaseUrl
  {
    if env.Some? && env.value != "" then env.value else DefaultBaseUrl
  }

  predicate EndsWithSlash(s: string) { s != [] && s[|s| - 1] == '/' }
  predicate StartsWithSlash(s: string) { s != [] && s[0] == '/' }

  /**
   * `cleanImageUrl(base, imagePath)`: the URL splits at one `/` into the base
   * without its one trailing slash (if it has one) and the path without its one
   * leading slash (if it has one).
   */
  function CleanImageUrl(base: string, imagePath: string): (url: string)
    ensures exists cut :: (0 <= cut < |url| && url[cut] == '/'
      && base == url[..cut] + (if EndsWithSlash(base) then "/" else "")
      && imagePath == (if StartsWithSlash(imagePath) then "/" else "") + url[cut + 1..])
  {
    var b := if EndsWithSlash(base) then base[..|base| - 1] else base;
    var p := if StartsWithSlash(imagePath) then imagePath[1..] else imagePath;
    var url := b + "/" + p;
    assert url[..|b|] == b && url[|b|] == '/' && url[|b| + 1..] == p;
    url
  }

  /** One optional slash on either side of the join makes no difference. */
  lemma CleanImageUrlNormalizes(base: string, path: string)
    requires !EndsWithSlash(base) && !StartsWithSlash(path)
    ensures CleanImageUrl(base, path) == base + "/" + path
    ensures CleanImageUrl(base + "/", path) == base + "/" + path
    ensures CleanImageUrl(base, "/" + path) == base + "/" + path
    ensures CleanImageUrl(base + "/", "/" + path) == base + "/" + path
  {
    assert (base + "/")[..|base|] == base;
    assert ("/" + path)[1..] == path;
  }

  /** Only one slash is removed on each side: doubled slashes reach the URL as three. */
  lemma CleanImageUrlKeepsDoubledSlashes(base: string, path: string)
    ensures CleanImageUrl(base + "//", "//" + path) == base + "///" + path
  {
    assert (base + "//")[..|base| + 1] == base + "/";
    assert ("//" + path)[1..] == "/" + path;
  }

  /** `product.image ? cleanImageUrl(base, product.image) : null` (an empty path is falsy). */
  function PublicImage(base: string, image: Option<string>): Option<string> {
    if image.Some? && image.value != "" then Some(CleanImageUrl(base, image.value)) else None
  }

  /** A path that starts with its slash is joined to a base with exactly that slash. */
  lemma CleanImageUrlOfRootedPath(base: string, path: string)
    requires !EndsWithSlash(base) && StartsWithSlash(path)
    ensures CleanImageUrl(base, path) == base + path
    ensures CleanImageUrl(base + "/", path) == base + path
  {
    assert (base + "/")[..|base|] == base;
    assert path == "/" + path[1..];
  }

  /**
   * An image the upload handlers stored is published as the base followed by the
   * stored path, whether or not the base ends with a slash.
   */
  lemma PublicImageOfUpload(base: string, file: string)
    requires !EndsWithSlash(base)
    ensures PublicImage(base, Some(UploadPath(file))) == Some(base + UploadPath(file))
    ensures PublicImage(base + "/", Some(UploadPath(file))) == Some(base + UploadPath(file))
  {
    CleanImageUrlOfRootedPath(base, UploadPath(file));
  }

  /** `{ ...product, image: ... }`: the same record with its image as a URL. */
  function WithImageUrl(base: string, p: Product): Product {
    p.(image := PublicImage(base, p.image))
  }

  /** `products.map(...)`: the same rows in the same order, only `image` rewritten. */
  function WithImageUrls(base: string, rows: seq<Product>): (r: seq<Product>)
    ensures |r| == |rows|
    ensures forall i :: 0 <= i < |rows| ==>
      r[i].(image := rows[i].image) == rows[i] && r[i].image == PublicImage(base, rows[i].image)
  {
    seq(|rows|, i requires 0 <= i < |rows| => WithImageUrl(base, rows[i]))
  }

  /** The multipart form fields of create and update. */
  datatype ProductForm = ProductForm(
    name: string, price: string, description: string, stock: string, inventoryId: Id)

  /** Where an uploaded file is recorded: `/uploads/${req.file.filename}`. */
  function UploadPath(filename: string): string { "/uploads/" + filename }

  function UploadSet(upload: Option<string>): set<string> {
    if upload.Some? then {upload.value} else {}
  }

  /** The upload middleware has stored the file before the handler runs. */
  function WithUpload(s: State, upload: Option<string>): State {
    s.(uploads := s.uploads + UploadSet(upload))
  }

  /**
   * `fs.unlink` of the stored image's base name, when the image is set; an unlink
   * that fails only logs a warning, leaving the directory as it was.
   */
  function Unlinked(files: set<string>, image: Option<string>, faults: set<Call>): set<string> {
    if image.Some? && image.value != "" && FsUnlink !in faults then files - {BaseName(image.value)}
    else files
  }

  predicate ParsesOk(form: ProductForm) {
    ParseInt(form.price).Some? && ParseInt(form.stock).Some?
  }

  /** The row create and update write: `price` and `stock` are `parseInt` of the fields. */
  function Row(id: Id, form: ProductForm, filename: string): Product
    requires ParsesOk(form)
  {
    Product(id, form.name, Some(UploadPath(filename)), ParseInt(form.price).value,
            form.description, ParseInt(form.stock).value, form.inventoryId)
  }

  /** GET `/`: the product table with image URLs built from the request's own origin. */
  function List(s: State, requestBase: string, faults: set<Call>): (h: Handled)
    ensures h.after == s
    ensures ProductFindMany in faults ==> h.resp == Unanswered
    ensures ProductFindMany !in faults && s.products == [] ==>
      h.resp == Response(Ok, "No product yet", ProductList([]))
    ensures ProductFindMany !in faults && s.products != [] ==>
      h.resp == Response(Ok, "Get all products", ProductList(WithImageUrls(requestBase, s.products)))
  {
    if ProductFindMany in faults then Handled(Unanswered, s)
    else if |s.products| == 0 then Handled(Response(Ok, "No product yet", ProductList(s.products)), s)
    else Handled(Response(Ok, "Get all products", ProductList(WithImageUrls(requestBase, s.products))), s)
  }

  /** GET `/:id`: the product with its image as a URL, or "No product found". */
  function Get(s: State, requestBase: string, id: Id, faults: set<Call>): (h: Handled)
    ensures h.after == s
    ensures ProductFindUnique in faults ==> h.resp == Unanswered
    ensures ProductFindUnique !in faults ==>
      && (h.resp.kind == Ok <==> Contains(s.products, ProductKey, id))
      && (h.resp.kind != Ok ==> h.resp == Response(NotFound, "No product found", NoData))
      && (h.resp.kind == Ok ==> exists p :: (p in s.products && p.id == id
            && h.resp == Response(Ok, "Get product by id", ProductData(WithImageUrl(requestBase, p)))))
  {
    if ProductFindUnique in faults then Handled(Unanswered, s)
    else
      match IndexOf(s.products, ProductKey, id)
      case None => Handled(Response(NotFound, "No product found", NoData), s)
      case Some(i) =>
        Handled(Response(Ok, "Get product by id", ProductData(WithImageUrl(requestBase, s.products[i]))), s)
  }

  /** Every check of POST `/` passes: the inventory exists, the name is free, a file came. */
  ghost predicate CreateChecksPass(s: State, form: ProductForm, upload: Option<string>, faults: set<Call>) {
    && InventoryFindUnique !in faults && Contains(s.inventories, InventoryKey, form.inventoryId)
    && ProductFindFirst !in faults && !Contains(s.products, ProductName, form.name)
    && upload.Some?
  }

  /**
   * POST `/`: checks the inventory, then the name, then the upload, and inserts the
   * product. `env` is `BASE_URL` as read when the router loads; the response's
   * image URL is built from it, not from the request. `newId` is the key the store assigns; a key in use, a NaN price or
   * stock, or a store error makes the insert throw.
   */
  function Create(s: State, form: ProductForm, upload: Option<string>, newId: Id, env: Option<string>,
                  faults: set<Call>): (h: Handled)
    ensures h.after == s.(products := h.after.products, uploads := h.after.uploads)
    ensures h.after.uploads == s.uploads + UploadSet(upload)
    ensures h.resp.kind != Ok ==> h.after.products == s.products
    ensures InventoryFindUnique in faults ==> h.resp == Failure("Failed to create product")
    ensures InventoryFindUnique !in faults && !Contains(s.inventories, InventoryKey, form.inventoryId) ==>
      h.resp == Response(NotFound, "Inventory with id " + form.inventoryId + " not found", NoData)
    ensures InventoryFindUnique !in faults && Contains(s.inventories, InventoryKey, form.inventoryId) ==>
      && (ProductFindFirst in faults ==> h.resp == Failure("Failed to create product"))
      && (ProductFindFirst !in faults && Contains(s.products, ProductName, form.name) ==>
            h.resp == Response(Conflict, form.name + " already existed", NoData))
      && (ProductFindFirst !in faults && !Contains(s.products, ProductName, form.name) && upload.None? ==>
            h.resp == Response(BadRequest, "Product image is required", NoData))
    ensures CreateChecksPass(s, form, upload, faults) && h.resp.kind != Ok ==>
      h.resp == Failure("Failed to create product")
    ensures h.resp.kind == Ok <==>
      && CreateChecksPass(s, form, upload, faults)
      && ProductCreate !in faults && ParsesOk(form) && !Contains(s.products, ProductKey, newId)
    ensures h.resp.kind == Ok ==>
      && h.after.products == s.products + [Row(newId, form, upload.value)]
      && h.resp == Response(Ok, "Product created", ProductData(WithImageUrl(BaseUrl(env), Row(newId, form, upload.value))))
  {
    var s1 := WithUpload(s, upload);
    if InventoryFindUnique in faults then Handled(Failure("Failed to create product"), s1)
    else if IndexOf(s.inventories, InventoryKey, form.inventoryId).None? then
      Handled(Response(NotFound, "Inventory with id " + form.inventoryId + " not found", NoData), s1)
    else if ProductFindFirst in faults then Handled(Failure("Failed to create product"), s1)
    else if IndexOf(s.products, ProductName, form.name).Some? then
      Handled(Response(Conflict, form.name + " already existed", NoData), s1)
    else if upload.None? then Handled(Response(BadRequest, "Product image is required", NoData), s1)
    else if ProductCreate in faults || !ParsesOk(form) || IndexOf(s.products, ProductKey, newId).Some? then
      Handled(Failure("Failed to create product"), s1)
    else
      var row := Row(newId, form, upload.value);
      Handled(Response(Ok, "Product created", ProductData(WithImageUrl(BaseUrl(env), row))),
              s1.(products := s.products + [row]))
  }

  /**
   * Every check of PUT `/:id` passes: the inventory exists, the product exists, a
   * new file came, and no product at all has the requested name.
   */
  ghost predicate UpdateChecksPass(s: State, id: Id, form: ProductForm, upload: Option<string>, faults: set<Call>) {
    && InventoryFindUnique !in faults && Contains(s.inventories, InventoryKey, form.inventoryId)
    && ProductFindUnique !in faults && Contains(s.products, ProductKey, id)
    && upload.Some?
    && ProductFindFirst !in faults && !Contains(s.products, ProductName, form.name)
  }

  /**
   * PUT `/:id`: checks the inventory, then the product, then the upload, then the
   * name; then unlinks the old image and overwrites every field of the product.
   * The unlink is dispatched before the write, so a failing write leaves the old
   * image removed while the record still names it. The response's image URL is
   * built from `BASE_URL` (`env`), as in create.
   */
  function Update(s: State, id: Id, form: ProductForm, upload: Option<string>, env: Option<string>,
                  faults: set<Call>): (h: Handled)
    ensures h.after == s.(products := h.after.products, uploads := h.after.uploads)
    ensures !UpdateChecksPass(s, id, form, upload, faults) ==> h.after == WithUpload(s, upload)
    ensures h.resp.kind != Ok ==> h.after.products == s.products
    ensures InventoryFindUnique in faults ==> h.resp == Failure("Failed to Update")
    ensures InventoryFindUnique !in faults && !Contains(s.inventories, InventoryKey, form.inventoryId) ==>
      h.resp == Response(NotFound, "Inventory with id " + form.inventoryId + " not found", NoData)
    ensures InventoryFindUnique !in faults && Contains(s.inventories, InventoryKey, form.inventoryId) ==>
      && (ProductFindUnique in faults ==> h.resp == Failure("Failed to Update"))
      && (ProductFindUnique !in faults && !Contains(s.products, ProductKey, id) ==>
            h.resp == Response(NotFound, "inventory not found", NoData))
      && (ProductFindUnique !in faults && Contains(s.products, ProductKey, id) && upload.None? ==>
            h.resp == Response(BadRequest, "Product image is required", NoData))
      && (ProductFindUnique !in faults && Contains(s.products, ProductKey, id) && upload.Some? ==>
            && (ProductFindFirst in faults ==> h.resp == Failure("Failed to Update"))
            && (ProductFindFirst !in faults && Contains(s.products, ProductName, form.name) ==>
                  h.resp == Response(Conflict, form.name + " already existed", NoData)))
    ensures UpdateChecksPass(s, id, form, upload, faults) ==>
      var previous := s.products[IndexOf(s.products, ProductKey, id).value];
      && h.after.uploads == Unlinked(s.uploads + {upload.value}, previous.image, faults)
      && (h.resp.kind != Ok ==> h.resp == Failure("Failed to Update"))
    ensures h.resp.kind == Ok <==>
      UpdateChecksPass(s, id, form, upload, faults) && ProductUpdate !in faults && ParsesOk(form)
    ensures h.resp.kind == Ok ==>
      var i := IndexOf(s.products, ProductKey, id).value;
      && h.after.products == s.products[i := Row(id, form, upload.value)]
      && h.resp == Response(Ok, "Product updated", ProductData(WithImageUrl(BaseUrl(env), Row(id, form, upload.value))))
  {
    var s1 := WithUpload(s, upload);
    if InventoryFindUnique in faults then Handled(Failure("Failed to Update"), s1)
    else if IndexOf(s.inventories, InventoryKey, form.inventoryId).None? then
      Handled(Response(NotFound, "Inventory with id " + form.inventoryId + " not found", NoData), s1)
    else if ProductFindUnique in faults then Handled(Failure("Failed to Update"), s1)
    else
      match IndexOf(s.products, ProductKey, id)
      case None => Handled(Response(NotFound, "inventory not found", NoData), s1)
      case Some(i) =>
        if upload.None? then Handled(Response(BadRequest, "Product image is required", NoData), s1)
        else if ProductFindFirst in faults then Handled(Failure("Failed to Update"), s1)
        else if IndexOf(s.products, ProductName, form.name).Some? then
          Handled(Response(Conflict, form.name + " already existed", NoData), s1)
        else
          var s2 := s1.(uploads := Unlinked(s1.uploads, s.products[i].image, faults));
          if ProductUpdate in faults || !ParsesOk(form) then Handled(Failure("Failed to Update"), s2)
          else
            var row := Row(id, form, upload.value);
            Handled(Response(Ok, "Product updated", ProductData(WithImageUrl(BaseUrl(env), row))),
                    s2.(products := s.products[i := row]))
  }

  /**
   * DELETE `/:id`: unlinks the product's image, then deletes the record. The
   * response carries the deleted row as stored, without URL rewriting.
   */
  function Delete(s: State, id: Id, faults: set<Call>): (h: Handled)
    ensures h.after == s.(products := h.after.products, uploads := h.after.uploads)
    ensures ProductFindUnique in faults ==> h.resp == Failure("Delete failed") && h.after == s
    ensures ProductFindUnique !in faults && !Contains(s.products, ProductKey, id) ==>
      h.resp == Response(NotFound, "Product not found", NoData) && h.after == s
    ensures ProductFindUnique !in faults && Contains(s.products, ProductKey, id) ==>
      var i := IndexOf(s.products, ProductKey, id).value;
      && h.after.uploads == Unlinked(s.uploads, s.products[i].image, faults)
      && (ProductDelete in faults ==> h.resp == Failure("Delete failed") && h.after.products == s.products)
      && (ProductDelete !in faults ==>
            && h.resp == Response(Ok, "Product deleted", ProductData(s.products[i]))
            && h.after.products == RemoveAt(s.products, i))
  {
    if ProductFindUnique in faults then Handled(Failure("Delete failed"), s)
    else
      match IndexOf(s.products, ProductKey, id)
      case None => Handled(Response(NotFound, "Product not found", NoData), s)
      case Some(i) =>
        var s1 := s.(uploads := Unlinked(s.uploads, s.products[i].image, faults));
        if ProductDelete in faults then Handled(Failure("Delete failed"), s1)
        else Handled(Response(Ok, "Product deleted", ProductData(s.products[i])),
                     s1.(products := RemoveAt(s.products, i)))
  }

  // ---- Properties relating several requests ----

  /** After a successful delete, a get by the same id is "No product found". */
  lemma DeleteThenGet(s: State, id: Id, faults: set<Call>, requestBase: string, faults': set<Call>)
    requires Valid(s)
    requires Delete(s, id, faults).resp.kind == Ok
    requires ProductFindUnique !in faults'
    ensures Get(Delete(s, id, faults).after, requestBase, id, faults').resp
            == Response(NotFound, "No product found", NoData)
  {
    var i := IndexOf(s.products, ProductKey, id).value;
    RemovedKeyIsGone(s.products, ProductKey, i);
  }

  /** Delete removes the file the product's stored image path names. */
  lemma DeleteRemovesImageFile(s: State, id: Id, faults: set<Call>, filename: string)
    requires Delete(s, id, faults).resp.kind == Ok && FsUnlink !in faults
    requires filename != [] && '/' !in filename
    requires s.products[IndexOf(s.products, ProductKey, id).value].image == Some(UploadPath(filename))
    ensures filename !in Delete(s, id, faults).after.uploads
  {
    BaseNameInDirectory("/uploads/", filename);
  }

  /**
   * A successful update keeps the newly uploaded file, removes the file the
   * old image path named, and the updated product names the new file.
   */
  lemma UpdateReplacesImageFile(s: State, id: Id, form: ProductForm, newFile: string, env: Option<string>,
                                faults: set<Call>, oldFile: string)
    requires Update(s, id, form, Some(newFile), env, faults).resp.kind == Ok && FsUnlink !in faults
    requires oldFile != [] && '/' !in oldFile && oldFile != newFile
    requires s.products[IndexOf(s.products, ProductKey, id).value].image == Some(UploadPath(oldFile))
    ensures var after := Update(s, id, form, Some(newFile), env, faults).after;
            oldFile !in after.uploads && newFile in after.uploads
            && exists p :: p in after.products && p.id == id && p.image == Some(UploadPath(newFile))
  {
    BaseNameInDirectory("/uploads/", oldFile);
    var i := IndexOf(s.products, ProductKey, id).value;
    var after := Update(s, id, form, Some(newFile), env, faults).after;
    assert after.products[i] == Row(id, form, newFile);
    assert after.products[i] in after.products;
  }

  /**
   * An upload that arrives under the file name the old image already has is
   * deleted by the unlink that follows: the updated record names a file that is gone.
   */
  lemma UpdateWithSameFileNameLosesUpload(s: State, id: Id, form: ProductForm, file: string,
                                          env: Option<string>, faults: set<Call>)
    requires Update(s, id, form, Some(file), env, faults).resp.kind == Ok && FsUnlink !in faults
    requires file != [] && '/' !in file
    requires s.products[IndexOf(s.products, ProductKey, id).value].image == Some(UploadPath(file))
    ensures var after := Update(s, id, form, Some(file), env, faults).after;
            file !in after.uploads
            && exists p :: p in after.products && p.id == id && p.image == Some(UploadPath(file))
  {
    BaseNameInDirectory("/uploads/", file);
    var i := IndexOf(s.products, ProductKey, id).value;
    var after := Update(s, id, form, Some(file), env, faults).after;
    assert after.products[i] == Row(id, form, file);
    assert after.products[i] in after.products;
  }

  /**
   * When the write of an update throws after its checks passed, the old image
   * file is already gone although the unchanged record still names it.
   */
  lemma UpdateWriteFailureOrphansRecord(s: State, id: Id, form: ProductForm, newFile: string, env: Option<string>,
                                        faults: set<Call>, oldFile: string)
    requires UpdateChecksPass(s, id, form, Some(newFile), faults)
    requires ProductUpdate in faults && FsUnlink !in faults
    requires oldFile != [] && '/' !in oldFile && oldFile != newFile
    requires s.products[IndexOf(s.products, ProductKey, id).value].image == Some(UploadPath(oldFile))
    ensures var h := Update(s, id, form, Some(newFile), env, faults);
            && h.resp == Failure("Failed to Update")
            && h.after.products == s.products
            && (exists p :: p in h.after.products && p.id == id && p.image == Some(UploadPath(oldFile)))
            && oldFile !in h.after.uploads
  {
    BaseNameInDirectory("/uploads/", oldFile);
    var i := IndexOf(s.products, ProductKey, id).value;
    assert s.products[i] in s.products;
  }

  /**
   * A failing unlink changes neither update's response nor the product table; the
   * only file it leaves behind is the one the product's old image path names.
   */
  lemma UpdateUnlinkFailureIsSilent(s: State, id: Id, form: ProductForm, upload: Option<string>,
                                    env: Option<string>, faults: set<Call>)
    ensures var quiet := Update(s, id, form, upload, env, faults - {FsUnlink});
            var failing := Update(s, id, form, upload, env, faults + {FsUnlink});
            quiet.resp == failing.resp && quiet.after.products == failing.after.products
            && quiet.after.uploads <= failing.after.uploads
            && forall f :: f in failing.after.uploads && f !in quiet.after.uploads ==>
                 exists p :: p in s.products && p.id == id && p.image.Some? && f == BaseName(p.image.value)
  {
    var quietFaults, failingFaults := faults - {FsUnlink}, faults + {FsUnlink};
    assert UpdateChecksPass(s, id, form, upload, quietFaults) <==> UpdateChecksPass(s, id, form, upload, failingFaults);
    var quiet := Update(s, id, form, upload, env, quietFaults);
    var failing := Update(s, id, form, upload, env, failingFaults);
    if UpdateChecksPass(s, id, form, upload, quietFaults) {
      var i := IndexOf(s.products, ProductKey, id).value;
      assert s.products[i] in s.products;
      if ProductUpdate !in faults && ParsesOk(form) {
        assert quiet.resp.kind == Ok && failing.resp.kind == Ok;
      } else {
        assert quiet.resp == Failure("Failed to Update") == failing.resp;
      }
    } else {
      assert quiet.after == WithUpload(s, upload) == failing.after;
    }
  }

  /**
   * A failing unlink changes neither delete's response nor the product table; the
   * only file it leaves behind is the one the product's image path names.
   */
  lemma DeleteUnlinkFailureIsSilent(s: State, id: Id, faults: set<Call>)
    ensures var quiet := Delete(s, id, faults - {FsUnlink});
            var failing := Delete(s, id, faults + {FsUnlink});
            quiet.resp == failing.resp && quiet.after.products == failing.after.products
            && quiet.after.uploads <= failing.after.uploads
            && forall f :: f in failing.after.uploads && f !in quiet.after.uploads ==>
                 exists p :: p in s.products && p.id == id && p.image.Some? && f == BaseName(p.image.value)
  {
    match IndexOf(s.products, ProductKey, id)
    case None =>
    case Some(i) => assert s.products[i] in s.products;
  }

  /**
   * Keeping a product's current name on update is always rejected: the name
   * check does not exclude the product being updated.
   */
  lemma UpdateKeepingNameConflicts(s: State, i: nat, form: ProductForm, newFile: string, env: Option<string>,
                                   faults: set<Call>)
    requires i < |s.products| && form.name == s.products[i].name
    requires InventoryFindUnique !in faults && Contains(s.inventories, InventoryKey, form.inventoryId)
    requires ProductFindUnique !in faults && ProductFindFirst !in faults
    ensures Update(s, s.products[i].id, form, Some(newFile), env, faults).resp
            == Response(Conflict, form.name + " already existed", NoData)
  {
    assert ProductKey(s.products[i]) == s.products[i].id;
    assert ProductName(s.products[i]) == form.name;
  }

  /**
   * Whatever integer the price and stock fields spell, that integer is stored:
   * negative values are accepted.
   */
  lemma CreateStoresParsedNumbers(s: State, form: ProductForm, file: string, newId: Id, env: Option<string>,
                                  faults: set<Call>, price: int, stock: int)
    requires CreateChecksPass(s, form, Some(file), faults)
    requires ProductCreate !in faults && !Contains(s.products, ProductKey, newId)
    requires form.price == Decimal(price) && form.stock == Decimal(stock)
    ensures var h := Create(s, form, Some(file), newId, env, faults);
            h.resp.kind == Ok && h.after.products[|s.products|].price == price
            && h.after.products[|s.products|].stock == stock
  {
    ParseIntOfDecimal(price, "");
    ParseIntOfDecimal(stock, "");
    assert Decimal(price) + "" == Decimal(price) && Decimal(stock) + "" == Decimal(stock);
  }

  /** Each product handler keeps primary keys and product names unique. */
  lemma CreatePreservesInvariants(s: State, form: ProductForm, upload: Option<string>, newId: Id,
                                  env: Option<string>, faults: set<Call>)
    requires Valid(s) && NamesUnique(s)
    ensures Valid(Create(s, form, upload, newId, env, faults).after)
    ensures NamesUnique(Create(s, form, upload, newId, env, faults).after)
  {
    var h := Create(s, form, upload, newId, env, faults);
    if h.resp.kind == Ok {
      var row := Row(newId, form, upload.value);
      UniqueAppend(s.products, ProductKey, row);
      UniqueAppend(s.products, ProductName, row);
    }
  }

  lemma UpdatePreservesInvariants(s: State, id: Id, form: ProductForm, upload: Option<string>,
                                  env: Option<string>, faults: set<Call>)
    requires Valid(s) && NamesUnique(s)
    ensures Valid(Update(s, id, form, upload, env, faults).after)
    ensures NamesUnique(Update(s, id, form, upload, env, faults).after)
  {
    var h := Update(s, id, form, upload, env, faults);
    if h.resp.kind == Ok {
      var i := IndexOf(s.products, ProductKey, id).value;
      var row := Row(id, form, upload.value);
      UniqueReplace(s.products, ProductKey, i, row);
      UniqueReplace(s.products, ProductName, i, row);
    }
  }

  lemma DeletePreservesInvariants(s: State, id: Id, faults: set<Call>)
    requires Valid(s) && NamesUnique(s)
    ensures Valid(Delete(s, id, faults).after)
    ensures NamesUnique(Delete(s, id, faults).after)
  {
    var h := Delete(s, id, faults);
    if h.resp.kind == Ok {
      var i := IndexOf(s.products, ProductKey, id).value;
      UniqueRemove(s.products, ProductKey, i);
      UniqueRemove(s.products, ProductName, i);
    }
  }
}
