/**
 * What a handler answers: the outcome kind of the JSON envelope (`success`,
 * `message`, `data`), the message and the data it carries.
 */
module Envelope {
  import opened Entities

  /**
   * Outcome kinds, following what each call evidently means: success (200), a
   * missing record (404), a uniqueness violation (400), a missing upload (400),
   * rejected credentials (401), a caught exception (500), and `Unhandled` for an
   * exception that escapes a handler without `try`/`catch` (no envelope is sent).
   */
  datatype Kind = Ok | NotFound | Conflict | BadRequest | Unauthorized | ServerError | Unhandled

  datatype Body =
    | NoData
    | ProductList(products: seq<Product>)
    | ProductData(product: Product)
    | InventoryList(inventories: seq<Inventory>)
    | InventoryData(inventory: Inventory)
    | Registered(id: Id, email: Email)
    | LoggedIn(userid: Id, email: Email, token: string)
    | ErrorDetail  // `{ error: err.message }`; the exception text is not modelled

  datatype Response = Response(kind: Kind, message: string, body: Body)

  /** The `catch` branch of a handler: a 500 envelope carrying the error detail. */
  function Failure(message: string): Response {
    Response(ServerError, message, ErrorDetail)
  }

  /** The rejected promise of a handler without `try`/`catch`. */
  const Unanswered := Response(Unhandled, "", NoData)

  /**
   * The awaited collaborator calls a handler makes. A request's set of faults
   * names those that throw (a store error, a bcrypt or JWT failure); `FsUnlink`
   * is the file removal whose callback reports an error.
   */
  datatype Call =
    | InventoryFindMany | InventoryFindUnique | InventoryFindFirst
    | InventoryCreate | InventoryUpdate | InventoryDelete
    | ProductFindMany | ProductFindUnique | ProductFindFirst
    | ProductCreate | ProductUpdate | ProductDelete
    | UserFindUnique | UserCreate
    | BcryptHash | BcryptCompare | JwtSign
    | FsUnlink
}

/** The state the handlers observe and change, as one value. */
module Backend {
  import opened Wrappers
  import opened Entities
  import opened Tables
  import opened Envelope

  /** `cookieOptions(req)` is not part of this model; its `maxAge` is what logout overrides. */
  datatype CookieOptions = CookieOptions(attributes: map<string, string>, maxAge: Option<int>)

  /** The `token` cookie as the last response set it. */
  datatype TokenCookie =
    | NotSent
    | Issued(token: string, options: CookieOptions)
    | Cleared(options: CookieOptions)

  /**
   * The three tables in the order `findMany` returns them, the file names in the
   * flat `uploads` directory, and the `token` cookie.
   */
  datatype State = State(
    inventories: seq<Inventory>,
    products: seq<Product>,
    users: map<Email, User>,
    uploads: set<string>,
    tokenCookie: TokenCookie)

  /** A handler's response together with the state it leaves. */
  datatype Handled = Handled(resp: Response, after: State)

  /** Primary keys are unique and every user is filed under its own email. */
  ghost predicate Valid(s: State) {
    && Unique(s.inventories, InventoryKey)
    && Unique(s.products, ProductKey)
    && (forall e :: e in s.users ==> s.users[e].email == e)
    && (forall e, e' :: e in s.users && e' in s.users && e != e' ==> s.users[e].id != s.users[e'].id)
  }

  /** The names the handlers keep unique by checking before they write. */
  ghost predicate NamesUnique(s: State) {
    Unique(s.inventories, InventoryName) && Unique(s.products, ProductName)
  }
}
