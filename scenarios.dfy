/**
 * The service's unit-test scenarios, each run on a freshly created, empty
 * store, with the clock readings that the identifier generator consumes
 * passed in as seeds.
 */
module Scenarios {
  import opened Wrappers
  import opened Datatypes
  import opened Crud

  /** A record read back right after it is created has the value it was created with. */
  method SetGet(value: string, seed: u64) returns (id: Id, got: Option<string>)
    ensures id == NewId(seed)
    ensures got == Some(value)
  {
    var store := new OrderedMap();
    id := CreateTodo(store, value, seed);
    got := GetTodo(store, id);
  }

  /**
   * A fresh store holding three records created from distinct clock readings:
   * their ids are distinct and listed in creation order.
   */
  method CreateThree(a: string, b: string, c: string, seedA: u64, seedB: u64, seedC: u64)
    returns (store: OrderedMap, idA: Id, idB: Id, idC: Id)
    requires seedA != seedB && seedB != seedC && seedA != seedC
    ensures fresh(store)
    ensures idA == NewId(seedA) && idB == NewId(seedB) && idC == NewId(seedC)
    ensures idA != idB && idB != idC && idA != idC
    ensures store.keys == [idA, idB, idC]
    ensures store.entries == map[idA := a, idB := b, idC := c]
    ensures store.Valid()
  {
    store := new OrderedMap();
    idA := CreateTodo(store, a, seedA);
    idB := CreateTodo(store, b, seedB);
    idC := CreateTodo(store, c, seedC);
    NewIdInjective(seedA, seedB);
    NewIdInjective(seedB, seedC);
    NewIdInjective(seedA, seedC);
  }

  /**
   * Three records created from distinct clock readings are paged in creation
   * order, and a page starting past the end is empty.
   */
  method Paging(a: string, b: string, c: string, seedA: u64, seedB: u64, seedC: u64)
    returns (idA: Id, idB: Id, idC: Id,
             firstTwo: seq<(Id, string)>, lastTwo: seq<(Id, string)>, beyond: seq<(Id, string)>)
    requires seedA != seedB && seedB != seedC && seedA != seedC
    ensures idA == NewId(seedA) && idB == NewId(seedB) && idC == NewId(seedC)
    ensures firstTwo == [(idA, a), (idB, b)]
    ensures lastTwo == [(idB, b), (idC, c)]
    ensures beyond == []
  {
    var store;
    store, idA, idB, idC := CreateThree(a, b, c, seedA, seedB, seedC);
    ThreeListed(idA, idB, idC, a, b, c);
    assert store.Iter() == [(idA, a), (idB, b), (idC, c)];
    firstTwo := GetAllTodos(store, 0, 2);
    lastTwo := GetAllTodos(store, 1, 2);
    beyond := GetAllTodos(store, 5, 2);
  }

  /** Three distinct keys inserted once each are listed in order with their values. */
  lemma ThreeListed(ka: Id, kb: Id, kc: Id, a: string, b: string, c: string)
    requires ka != kb && kb != kc && ka != kc
    ensures Pairs([ka, kb, kc], map[ka := a, kb := b, kc := c]) == [(ka, a), (kb, b), (kc, c)]
  {
    var listing := Pairs([ka, kb, kc], map[ka := a, kb := b, kc := c]);
    assert listing[0] == (ka, a) && listing[1] == (kb, b) && listing[2] == (kc, c);
  }

  /** A deleted record reads back as absent, and every page of the store is empty. */
  method Delete(value: string, seed: u64, offset: nat, limit: nat)
    returns (id: Id, got: Option<string>, all: seq<(Id, string)>)
    ensures id == NewId(seed)
    ensures got == None
    ensures all == []
  {
    var store := new OrderedMap();
    id := CreateTodo(store, value, seed);
    DeleteTodo(store, id);
    got := GetTodo(store, id);
    all := GetAllTodos(store, offset, limit);
  }

  /**
   * An updated record reads back with its new value, and, because the update
   * appends the id to the insertion order again, the full listing shows the
   * record twice.
   */
  method Update(first: string, second: string, seed: u64)
    returns (id: Id, got: Option<string>, all: seq<(Id, string)>)
    ensures id == NewId(seed)
    ensures got == Some(second)
    ensures all == [(id, second), (id, second)]
  {
    var store := new OrderedMap();
    id := CreateTodo(store, first, seed);
    UpdateTodo(store, id, second);
    got := GetTodo(store, id);
    all := GetAllTodos(store, 0, 3);
  }

  /**
   * Records created one after another from distinct clock readings, with no
   * update or delete in between, are listed in creation order by a page that
   * starts at 0 and is at least as long as the number of records.
   */
  method CreateInOrder(values: seq<string>, seeds: seq<u64>, limit: nat)
    returns (ids: seq<Id>, all: seq<(Id, string)>)
    requires |seeds| == |values| <= limit
    requires forall i, j :: 0 <= i < j < |seeds| ==> seeds[i] != seeds[j]
    ensures |ids| == |all| == |values|
    ensures forall i :: 0 <= i < |values| ==> ids[i] == NewId(seeds[i]) && all[i] == (ids[i], values[i])
  {
    var store := new OrderedMap();
    ids := [];
    var n := 0;
    while n < |values|
      invariant 0 <= n <= |values|
      invariant |ids| == n
      invariant forall i :: 0 <= i < n ==> ids[i] == NewId(seeds[i])
      invariant store.keys == ids
      invariant forall i :: 0 <= i < n ==> ids[i] in store.entries && store.entries[ids[i]] == values[i]
      invariant store.Valid()
    {
      forall i | 0 <= i < n
        ensures ids[i] != NewId(seeds[n])
      {
        NewIdInjective(seeds[i], seeds[n]);
      }
      ghost var before := store.entries;
      var id := CreateTodo(store, values[n], seeds[n]);
      assert store.entries == before[id := values[n]];
      assert store.keys == ids + [id];
      ids := ids + [id];
      n := n + 1;
    }
    all := GetAllTodos(store, 0, limit);
    assert |all| == |values|;
    forall i | 0 <= i < |values|
      ensures all[i] == (ids[i], values[i])
    {
      assert all[i] == store.Iter()[i];
    }
  }
}
