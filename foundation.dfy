/** Optional values: a nullable column, an absent uploaded file, a lookup that found nothing. */
module Wrappers {
  datatype Option<+T> = None | Some(value: T)
}

/** The three tables the routers read and write, as the rows the store returns. */
module Entities {
  import opened Wrappers

  /** Primary keys arrive as strings (route parameters and form fields). */
  type Id = string
  type Email = string

  datatype Inventory = Inventory(id: Id, name: string, description: string)

  /** `image` is the stored relative path (`/uploads/<file>`) or null. */
  datatype Product = Product(
    id: Id,
    name: string,
    image: Option<string>,
    price: int,
    description: string,
    stock: int,
    inventoryId: Id)

  /** `password` holds the stored bcrypt digest. */
  datatype User = User(id: Id, email: Email, password: string)

  // Column accessors used as lookup keys (`where: { id }`, `where: { name }`).
  function InventoryKey(v: Inventory): Id { v.id }
  function InventoryName(v: Inventory): string { v.name }
  function ProductKey(p: Product): Id { p.id }
  function ProductName(p: Product): string { p.name }
}

/**
 * Row lookups as the store performs them: `findUnique`/`findFirst` return the first
 * row (in table order) whose column equals the value asked for.
 */
module Tables {
  import opened Wrappers

  /** Some row's key column equals `k`. */
  ghost predicate Contains<T, K>(rows: seq<T>, key: T -> K, k: K) {
    exists j :: 0 <= j < |rows| && key(rows[j]) == k
  }

  /** No two rows share a key. */
  ghost predicate Unique<T, K>(rows: seq<T>, key: T -> K) {
    forall i, j :: 0 <= i < j < |rows| ==> key(rows[i]) != key(rows[j])
  }

  /** Position of the first row whose key is `k`, if any. */
  function IndexOf<T, K(==)>(rows: seq<T>, key: T -> K, k: K): (r: Option<nat>)
    ensures r.Some? <==> Contains(rows, key, k)
    ensures r.Some? ==> r.value < |rows| && key(rows[r.value]) == k
    ensures r.Some? ==> forall j :: 0 <= j < r.value ==> key(rows[j]) != k
  {
    if rows == [] then None
    else if key(rows[0]) == k then Some(0)
    else
      match IndexOf(rows[1..], key, k)
      case None => None
      case Some(i) => Some(i + 1)
  }

  /** The table without its row at position `i` (a `delete`). */
  function RemoveAt<T>(rows: seq<T>, i: nat): (r: seq<T>)
    requires i < |rows|
    ensures |r| == |rows| - 1
    ensures forall j :: 0 <= j < i ==> r[j] == rows[j]
    ensures forall j :: i <= j < |r| ==> r[j] == rows[j + 1]
  {
    rows[..i] + rows[i + 1..]
  }

  /** In a table with unique keys, the row found by key is the only one with that key. */
  lemma IndexOfUnique<T, K>(rows: seq<T>, key: T -> K, i: nat)
    requires Unique(rows, key) && i < |rows|
    ensures IndexOf(rows, key, key(rows[i])) == Some(i)
  {
    assert Contains(rows, key, key(rows[i]));
  }

  /** Appending a row whose key is new keeps keys unique. */
  lemma {:induction false} UniqueAppend<T, K>(rows: seq<T>, key: T -> K, x: T)
    requires Unique(rows, key) && !Contains(rows, key, key(x))
    ensures Unique(rows + [x], key)
  {
    var r := rows + [x];
    forall i, j | 0 <= i < j < |r| ensures key(r[i]) != key(r[j]) {
      if j == |rows| {
        assert r[i] == rows[i];
      }
    }
  }

  /** Overwriting row `i` with a row whose key no other row has keeps keys unique. */
  lemma {:induction false} UniqueReplace<T, K>(rows: seq<T>, key: T -> K, i: nat, x: T)
    requires Unique(rows, key) && i < |rows|
    requires forall j :: 0 <= j < |rows| && j != i ==> key(rows[j]) != key(x)
    ensures Unique(rows[i := x], key)
  {
    var r := rows[i := x];
    forall a, b | 0 <= a < b < |r| ensures key(r[a]) != key(r[b]) {
      if a != i && b != i {
        assert r[a] == rows[a] && r[b] == rows[b];
      }
    }
  }

  /** Removing a row keeps keys unique. */
  lemma {:induction false} UniqueRemove<T, K>(rows: seq<T>, key: T -> K, i: nat)
    requires Unique(rows, key) && i < |rows|
    ensures Unique(RemoveAt(rows, i), key)
  {
    var r := RemoveAt(rows, i);
    forall a, b | 0 <= a < b < |r| ensures key(r[a]) != key(r[b]) {
      var a' := if a < i then a else a + 1;
      var b' := if b < i then b else b + 1;
      assert r[a] == rows[a'] && r[b] == rows[b'] && a' < b';
    }
  }

  /** After removing the row found by a unique key, no row has that key any more. */
  lemma {:induction false} RemovedKeyIsGone<T, K>(rows: seq<T>, key: T -> K, i: nat)
    requires Unique(rows, key) && i < |rows|
    ensures !Contains(RemoveAt(rows, i), key, key(rows[i]))
  {
    var r := RemoveAt(rows, i);
    forall j | 0 <= j < |r| ensures key(r[j]) != key(rows[i]) {
      if j < i { assert r[j] == rows[j]; } else { assert r[j] == rows[j + 1]; }
    }
  }
}
