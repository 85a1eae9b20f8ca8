/**
 * The inventory router: list, get by id, create, update and delete, each a chain
 * of lookups followed by at most one write, every step inside `try`/`catch`.
 */
module InventoryRoutes {
  import opened Wrappers
  import opened Entities
  import opened Tables
  import opened Envelope
  import opened Backend

  /** GET `/`: every inventory, with a distinct message for an empty table. */
  function List(s: State, faults: set<Call>): (h: Handled)
    ensures h.after == s
    ensures InventoryFindMany in faults ==> h.resp == Failure("Failed to get all inventory")
    ensures InventoryFindMany !in faults ==>
      && h.resp.kind == Ok
      && h.resp.body == InventoryList(s.inventories)
      && (h.resp.message == "No product yet" <==> s.inventories == [])
    ensures InventoryFindMany !in faults && s.inventories != [] ==>
      h.resp == Response(Ok, "Get all inventory", InventoryList(s.inventories))
  {
    if InventoryFindMany in faults then Handled(Failure("Failed to get all inventory"), s)
    else if |s.inventories| == 0 then Handled(Response(Ok, "No product yet", InventoryList(s.inventories)), s)
    else Handled(Response(Ok, "Get all inventory", InventoryList(s.inventories)), s)
  }

  /** GET `/:id`: the record with that id, or "Id not found". */
  function Get(s: State, id: Id, faults: set<Call>): (h: Handled)
    ensures h.after == s
    ensures InventoryFindUnique in faults ==> h.resp == Failure("Failed to get inventory by id")
    ensures InventoryFindUnique !in faults ==>
      && (h.resp.kind == Ok <==> Contains(s.inventories, InventoryKey, id))
      && (h.resp.kind == Ok ==>
            h.resp.body.InventoryData? && h.resp.body.inventory in s.inventories
            && h.resp.body.inventory.id == id)
      && (h.resp.kind != Ok ==> h.resp == Response(NotFound, "Id not found", NoData))
    ensures InventoryFindUnique !in faults && h.resp.kind == Ok ==>
      h.resp == Response(Ok, "Get inventory by id",
                         InventoryData(s.inventories[IndexOf(s.inventories, InventoryKey, id).value]))
  {
    if InventoryFindUnique in faults then Handled(Failure("Failed to get inventory by id"), s)
    else
      match IndexOf(s.inventories, InventoryKey, id)
      case None => Handled(Response(NotFound, "Id not found", NoData), s)
      case Some(i) => Handled(Response(Ok, "Get inventory by id", InventoryData(s.inventories[i])), s)
  }

  /**
   * POST `/`: a new inventory unless one with that name exists. `newId` is the key
   * the store assigns; a key already in use makes the insert throw.
   */
  function Create(s: State, name: string, description: string, newId: Id, faults: set<Call>): (h: Handled)
    ensures h.after == s.(inventories := h.after.inventories)
    ensures h.resp.kind != Ok ==> h.after == s
    ensures InventoryFindFirst in faults ==> h.resp == Failure("Failed to create inventory")
    ensures InventoryFindFirst !in faults && Contains(s.inventories, InventoryName, name) ==>
      h.resp == Response(Conflict, name + " already existed", NoData)
    ensures InventoryFindFirst !in faults && !Contains(s.inventories, InventoryName, name) && h.resp.kind != Ok ==>
      h.resp == Failure("Failed to create inventory")
    ensures h.resp.kind == Ok <==>
      && InventoryFindFirst !in faults && !Contains(s.inventories, InventoryName, name)
      && InventoryCreate !in faults && !Contains(s.inventories, InventoryKey, newId)
    ensures h.resp.kind == Ok ==>
      && h.after.inventories == s.inventories + [Inventory(newId, name, description)]
      && h.resp == Response(Ok, "Inventory created", InventoryData(Inventory(newId, name, description)))
    ensures h.resp.kind in {Ok, Conflict, ServerError}
  {
    if InventoryFindFirst in faults then Handled(Failure("Failed to create inventory"), s)
    else if IndexOf(s.inventories, InventoryName, name).Some? then
      Handled(Response(Conflict, name + " already existed", NoData), s)
    else if InventoryCreate in faults || IndexOf(s.inventories, InventoryKey, newId).Some? then
      Handled(Failure("Failed to create inventory"), s)
    else
      var row := Inventory(newId, name, description);
      Handled(Response(Ok, "Inventory created", InventoryData(row)), s.(inventories := s.inventories + [row]))
  }

  /**
   * PUT `/:id`: rename and redescribe an existing inventory. The name check looks
   * at every record, the target included.
   */
  function Update(s: State, id: Id, name: string, description: string, faults: set<Call>): (h: Handled)
    ensures h.after == s.(inventories := h.after.inventories)
    ensures h.resp.kind != Ok ==> h.after == s
    ensures InventoryFindUnique in faults ==> h.resp == Failure("Failed to update inventory")
    ensures InventoryFindUnique !in faults && !Contains(s.inventories, InventoryKey, id) ==>
      h.resp == Response(NotFound, "Inventory not found", NoData)
    ensures InventoryFindUnique !in faults && Contains(s.inventories, InventoryKey, id) ==>
      && (InventoryFindFirst in faults ==> h.resp == Failure("Failed to update inventory"))
      && (InventoryFindFirst !in faults && Contains(s.inventories, InventoryName, name) ==>
            h.resp == Response(Conflict, name + " already existed", NoData))
    ensures (&& InventoryFindUnique !in faults && Contains(s.inventories, InventoryKey, id)
             && InventoryFindFirst !in faults && !Contains(s.inventories, InventoryName, name)
             && h.resp.kind != Ok) ==> h.resp == Failure("Failed to update inventory")
    ensures h.resp.kind == Ok <==>
      && InventoryFindUnique !in faults && Contains(s.inventories, InventoryKey, id)
      && InventoryFindFirst !in faults && !Contains(s.inventories, InventoryName, name)
      && InventoryUpdate !in faults
    ensures h.resp.kind == Ok ==>
      && h.after.inventories
         == s.inventories[IndexOf(s.inventories, InventoryKey, id).value := Inventory(id, name, description)]
      && |h.after.inventories| == |s.inventories|
      && (forall j :: 0 <= j < |s.inventories| && s.inventories[j].id != id ==>
            h.after.inventories[j] == s.inventories[j])
      && Inventory(id, name, description) in h.after.inventories
      && h.resp == Response(Ok, "Inventory updated", InventoryData(Inventory(id, name, description)))
  {
    if InventoryFindUnique in faults then Handled(Failure("Failed to update inventory"), s)
    else
      match IndexOf(s.inventories, InventoryKey, id)
      case None => Handled(Response(NotFound, "Inventory not found", NoData), s)
      case Some(i) =>
        if InventoryFindFirst in faults then Handled(Failure("Failed to update inventory"), s)
        else if IndexOf(s.inventories, InventoryName, name).Some? then
          Handled(Response(Conflict, name + " already existed", NoData), s)
        else if InventoryUpdate in faults then Handled(Failure("Failed to update inventory"), s)
        else
          var row := Inventory(id, name, description);
          assert s.inventories[i := row][i] == row;
          Handled(Response(Ok, "Inventory updated", InventoryData(row)),
                  s.(inventories := s.inventories[i := row]))
  }

  /**
   * DELETE `/:id`: remove an existing inventory. Products are neither consulted
   * nor changed, so products may be left pointing at the removed id.
   */
  function Delete(s: State, id: Id, faults: set<Call>): (h: Handled)
    ensures h.after == s.(inventories := h.after.inventories)
    ensures h.resp.kind != Ok ==> h.after == s
    ensures InventoryFindUnique in faults ==> h.resp == Failure("Failed to delete inventory")
    ensures InventoryFindUnique !in faults && !Contains(s.inventories, InventoryKey, id) ==>
      h.resp == Response(NotFound, "Inventory not found", NoData)
    ensures InventoryFindUnique !in faults && Contains(s.inventories, InventoryKey, id) && h.resp.kind != Ok ==>
      h.resp == Failure("Failed to delete inventory")
    ensures h.resp.kind == Ok <==>
      InventoryFindUnique !in faults && Contains(s.inventories, InventoryKey, id) && InventoryDelete !in faults
    ensures h.resp.kind == Ok ==>
      var i := IndexOf(s.inventories, InventoryKey, id).value;
      && h.after.inventories == RemoveAt(s.inventories, i)
      && h.resp == Response(Ok, "Inventory deleted", InventoryData(s.inventories[i]))
      && |h.after.inventories| == |s.inventories| - 1
      && (forall v :: v in s.inventories && v.id != id ==> v in h.after.inventories)
      && (forall v :: v in h.after.inventories ==> v in s.inventories)
      && h.resp.body.InventoryData? && h.resp.body.inventory.id == id
  {
    if InventoryFindUnique in faults then Handled(Failure("Failed to delete inventory"), s)
    else
      match IndexOf(s.inventories, InventoryKey, id)
      case None => Handled(Response(NotFound, "Inventory not found", NoData), s)
      case Some(i) =>
        if InventoryDelete in faults then Handled(Failure("Failed to delete inventory"), s)
        else
          Handled(Response(Ok, "Inventory deleted", InventoryData(s.inventories[i])),
                  s.(inventories := RemoveAt(s.inventories, i)))
  }

  // ---- Properties relating several requests ----

  /** Creating an inventory twice under one name: the second request is a conflict. */
  lemma CreateSameNameTwice(s: State, name: string, d1: string, d2: string, id1: Id, id2: Id, faults: set<Call>)
    requires Create(s, name, d1, id1, {}).resp.kind == Ok
    requires InventoryFindFirst !in faults
    ensures var second := Create(Create(s, name, d1, id1, {}).after, name, d2, id2, faults);
            second.resp == Response(Conflict, name + " already existed", NoData)
            && second.after == Create(s, name, d1, id1, {}).after
  {
    var after := Create(s, name, d1, id1, {}).after;
    assert InventoryName(after.inventories[|s.inventories|]) == name;
  }

  /**
   * Keeping an inventory's current name on update is always rejected: the name
   * check does not exclude the record being updated.
   */
  lemma UpdateKeepingNameConflicts(s: State, i: nat, description: string, faults: set<Call>)
    requires i < |s.inventories|
    requires InventoryFindUnique !in faults && InventoryFindFirst !in faults
    ensures var v := s.inventories[i];
            Update(s, v.id, v.name, description, faults).resp == Response(Conflict, v.name + " already existed", NoData)
  {
    assert InventoryKey(s.inventories[i]) == s.inventories[i].id;
    assert InventoryName(s.inventories[i]) == s.inventories[i].name;
  }

  /** After a successful delete, a get by the same id is "Id not found". */
  lemma DeleteThenGet(s: State, id: Id, faults: set<Call>, faults': set<Call>)
    requires Valid(s)
    requires Delete(s, id, faults).resp.kind == Ok
    requires InventoryFindUnique !in faults'
    ensures Get(Delete(s, id, faults).after, id, faults').resp == Response(NotFound, "Id not found", NoData)
  {
    var i := IndexOf(s.inventories, InventoryKey, id).value;
    RemovedKeyIsGone(s.inventories, InventoryKey, i);
  }

  /** After a successful create, a get by the new id answers the record just created. */
  lemma CreateThenGet(s: State, name: string, description: string, newId: Id,
                      faults: set<Call>, faults': set<Call>)
    requires Valid(s)
    requires Create(s, name, description, newId, faults).resp.kind == Ok
    requires InventoryFindUnique !in faults'
    ensures Get(Create(s, name, description, newId, faults).after, newId, faults').resp
            == Response(Ok, "Get inventory by id", InventoryData(Inventory(newId, name, description)))
  {
    var row := Inventory(newId, name, description);
    UniqueAppend(s.inventories, InventoryKey, row);
    IndexOfUnique(s.inventories + [row], InventoryKey, |s.inventories|);
  }

  /** Delete never looks at products: its outcome is the same whatever the product table holds. */
  lemma DeleteIgnoresProducts(s: State, id: Id, products: seq<Product>, faults: set<Call>)
    ensures Delete(s.(products := products), id, faults).resp == Delete(s, id, faults).resp
    ensures Delete(s.(products := products), id, faults).after.products == products
  {
  }

  /** Each successful write keeps primary keys and names unique. */
  lemma CreatePreservesInvariants(s: State, name: string, description: string, newId: Id, faults: set<Call>)
    requires Valid(s) && NamesUnique(s)
    ensures Valid(Create(s, name, description, newId, faults).after)
    ensures NamesUnique(Create(s, name, description, newId, faults).after)
  {
    var h := Create(s, name, description, newId, faults);
    if h.resp.kind == Ok {
      var row := Inventory(newId, name, description);
      UniqueAppend(s.inventories, InventoryKey, row);
      UniqueAppend(s.inventories, InventoryName, row);
    }
  }

  lemma UpdatePreservesInvariants(s: State, id: Id, name: string, description: string, faults: set<Call>)
    requires Valid(s) && NamesUnique(s)
    ensures Valid(Update(s, id, name, description, faults).after)
    ensures NamesUnique(Update(s, id, name, description, faults).after)
  {
    var h := Update(s, id, name, description, faults);
    if h.resp.kind == Ok {
      var i := IndexOf(s.inventories, InventoryKey, id).value;
      var row := Inventory(id, name, description);
      assert h.after.inventories == s.inventories[i := row];
      UniqueReplace(s.inventories, InventoryKey, i, row);
      UniqueReplace(s.inventories, InventoryName, i, row);
    }
  }

  lemma DeletePreservesInvariants(s: State, id: Id, faults: set<Call>)
    requires Valid(s) && NamesUnique(s)
    ensures Valid(Delete(s, id, faults).after)
    ensures NamesUnique(Delete(s, id, faults).after)
  {
    var h := Delete(s, id, faults);
    if h.resp.kind == Ok {
      var i := IndexOf(s.inventories, InventoryKey, id).value;
      UniqueRemove(s.inventories, InventoryKey, i);
      UniqueRemove(s.inventories, InventoryName, i);
    }
  }
}
