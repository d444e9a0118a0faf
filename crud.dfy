/**
 * The record operations exposed by the service: read one record, list a page
 * of records in insertion order, and create, update or delete a record. The
 * process-wide store is passed in explicitly as one `OrderedMap` object.
 */
module Crud {
  import opened Wrappers
  import opened Datatypes

  /**
   * `Iterator::skip(n)`: the elements after the first `n`; empty when `n`
   * reaches past the end.
   */
  function Skip<T>(s: seq<T>, n: nat): (r: seq<T>)
    ensures |r| == if n <= |s| then |s| - n else 0
    ensures forall i :: 0 <= i < |r| ==> r[i] == s[n + i]
  {
    if n == 0 || s == [] then s else Skip(s[1..], n - 1)
  }

  /** `Iterator::take(n)`: at most the first `n` elements. */
  function Take<T>(s: seq<T>, n: nat): (r: seq<T>)
    ensures |r| == if n <= |s| then n else |s|
    ensures forall i :: 0 <= i < |r| ==> r[i] == s[i]
  {
    if n == 0 || s == [] then [] else [s[0]] + Take(s[1..], n - 1)
  }

  /** Reads one record: its current value, or `None` for an unknown id. */
  function GetTodo(store: OrderedMap, id: Id): (r: Option<string>)
    reads store
    ensures r.Some? <==> id in store.entries
    ensures r.Some? ==> r.value == store.entries[id]
  {
    store.Get(id)
  }

  /**
   * Lists a page of records: the insertion-ordered iteration with the first
   * `offset` elements skipped, then at most `limit` elements taken. An offset
   * at or past the end gives an empty page, not an error.
   */
  function GetAllTodos(store: OrderedMap, offset: nat, limit: nat): (r: seq<(Id, string)>)
    reads store
    requires store.KeysPresent()
    ensures |r| == Min(limit, if offset <= |store.keys| then |store.keys| - offset else 0)
    ensures forall i :: 0 <= i < |r| ==>
              r[i].0 == store.keys[offset + i] && store.Get(r[i].0) == Some(r[i].1)
    ensures offset >= |store.keys| ==> r == []
    ensures offset <= |store.keys| ==> r == store.Iter()[offset..offset + |r|]
  {
    Take(Skip(store.Iter(), offset), limit)
  }

  function Min(a: nat, b: nat): nat
  {
    if a <= b then a else b
  }

  /**
   * Creates a record under the identifier generated from `seed` (the host
   * clock reading) and returns that identifier.
   */
  method CreateTodo(store: OrderedMap, value: string, seed: u64) returns (id: Id)
    modifies store
    ensures id == NewId(seed)
    ensures store.entries == old(store.entries)[id := value]
    ensures store.keys == old(store.keys) + [id]
    ensures GetTodo(store, id) == Some(value)
    ensures old(store.Valid()) ==> store.Valid()
  {
    id := NewId(seed);
    store.Insert(id, value);
  }

  /** Deletes a record; an unknown id is a no-op. */
  method DeleteTodo(store: OrderedMap, id: Id)
    modifies store
    ensures store.entries == old(store.entries) - {id}
    ensures store.keys == Without(old(store.keys), id)
    ensures GetTodo(store, id) == None
    ensures forall other :: other != id ==> GetTodo(store, other) == old(GetTodo(store, other))
    ensures old(store.Valid()) ==> store.Valid()
  {
    store.Remove(id);
  }

  /**
   * Replaces a record's value. An unknown id is inserted like a new record;
   * a known one is listed once more at the end of the insertion order.
   */
  method UpdateTodo(store: OrderedMap, id: Id, value: string)
    modifies store
    ensures store.entries == old(store.entries)[id := value]
    ensures store.keys == old(store.keys) + [id]
    ensures GetTodo(store, id) == Some(value)
    ensures forall other :: other != id ==> GetTodo(store, other) == old(GetTodo(store, other))
    ensures old(store.Valid()) ==> store.Valid()
  {
    store.Insert(id, value);
  }
}
