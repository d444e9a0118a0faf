# A verified model of the TODO store of `crud_demo_backend`

The backend keeps TODO records in one process-wide `OrderedMap`. This is a
hash table from record `Id` to text, plus a vector of keys that records the
order of insertion. It offers create, read, update and delete, and a paged
listing in insertion order. A new record's `Id` is a 62-character string
computed from a 64-bit clock reading.

The Dafny model has four modules:

- `Wrappers` (`wrappers.dfy`): the `Option` type that lookups return.
- `Datatypes` (`datatypes.dfy`, for `datatypes.rs`):
  - `Id`, a wrapper around a string.
  - The identifier generator `NewUuid`. It takes the 64-bit seed as a
    parameter of the integer type `u64`. It performs the shift, the 8-bit
    truncation and the `% 62` exactly. The shift is computed as repeated
    halving, and `ShiftRightIsDiv` proves that this is `x / 2^n`, the value
    of `>>`. The alphabet constant is written as its three runs joined
    together; it is the same 62-character string as the source's. The lemma
    `NewUuidInjective` shows that distinct seeds give distinct identifiers.
  - The class `OrderedMap`. Its field `entries` is a `map<Id, string>`
    (called `map` in the source, which is a keyword in Dafny). Its field
    `keys` is a `seq<Id>`. `Insert` and `Remove` reassign both fields in
    place. `Remove` models `Vec::retain` with a loop. The loop is specified
    by the recursive filter `Without`.
  - The object invariant `Valid()`: the keys listed in `keys` are exactly
    the domain of `entries`. `KeysPresent()` is its half that `iter`'s
    `unwrap` depends on.
- `Crud` (`crud.dfy`, for `lib.rs`): the five entry points. Each one takes
  the store object as an explicit argument instead of reading the
  thread-local `STORAGE`. `Skip` and `Take` model the iterator adaptors
  used by the paged listing.
- `Scenarios` (`scenarios.dfy`): the four unit tests of `tests.rs`
  (`SetGet`, `Paging`, `Delete`, `Update`), each run on a freshly created
  store and generalised over the record values and the clock seeds. A fifth
  scenario, `CreateInOrder`, is not one of those tests. It states the
  creation-order listing of `lib.rs` for any number of records.

Two behaviours of the code are easy to miss. The model follows the code in
both:

- Iteration unwraps each lookup and does not skip a listed key that has no
  entry. So `Iter` requires `KeysPresent()`. `Valid()` implies
  `KeysPresent()`, and `Valid()` is preserved by the constructor, `Insert`
  and `Remove`.
- Updating an existing id appends it to the order list again. The record
  then appears twice in every listing that covers both positions, so after
  an update a key is listed more than once. `Scenarios.Update` and
  `Datatypes.ReinsertListedTwice` state this. The model does not assume
  that each key is listed once.

`GetTodo` and `GetAllTodos` are functions that only `reads` the store.
This states that they do not modify it.

## Model

| member | source | states |
|---|---|---|
| `Datatypes.ShiftRight` | src/crud_demo_backend/src/datatypes.rs:94 | `seed >> n` on an unsigned 64-bit value never exceeds the value shifted |
| `Datatypes.ShiftRightIsDiv` | src/crud_demo_backend/src/datatypes.rs:94 | the shifted value is exactly `x / 2^n` rounded down, the value of `>>` on an unsigned integer |
| `Datatypes.ShiftAmount` | src/crud_demo_backend/src/datatypes.rs:92-93 | the shift for position `i` is even, below 64 and equal to twice `i % 32`, so the shift never overflows and repeats every 32 positions |
| `Datatypes.SeedByte` | src/crud_demo_backend/src/datatypes.rs:94 | the shifted seed truncated by `as u8` is below 256 |
| `Datatypes.CharIndex` | src/crud_demo_backend/src/datatypes.rs:94-95 | the alphabet index taken from the truncated seed byte is below 62 |
| `Datatypes.CharAt` | src/crud_demo_backend/src/datatypes.rs:91-96 | every generated character belongs to the 62-symbol alphabet |
| `Datatypes.NewUuid` | src/crud_demo_backend/src/datatypes.rs:87-98 | the identifier from a seed has length 62 (the alphabet's size), every character is in the alphabet, and character `i` is the alphabet symbol at `CharIndex(seed, i)`; equal seeds give equal identifiers |
| `Datatypes.NewId` | src/crud_demo_backend/src/datatypes.rs:57-59 | `Id::new` wraps a 62-character identifier drawn from the alphabet |
| `Datatypes.NewUuidPeriodic` | src/crud_demo_backend/src/datatypes.rs:90-98 | for `i < 30`, character `i` equals character `i + 32`, because the shift wraps at 64 |
| `Datatypes.NewUuidSameShift` | src/crud_demo_backend/src/datatypes.rs:90-98 | any two positions congruent modulo 32 hold the same character |
| `Datatypes.CharsetRanges` | src/crud_demo_backend/src/datatypes.rs:87 | the alphabet is `A`-`Z`, then `a`-`z`, then `0`-`9`, each run in code-point order |
| `Datatypes.CharsetIndexUnique` | src/crud_demo_backend/src/datatypes.rs:87 | no character occurs twice in the alphabet, so a character determines its index |
| `Datatypes.ShiftRightBelow` | src/crud_demo_backend/src/datatypes.rs:94 | a 64-bit seed shifted right by `n` bits is below `2^(64-n)`; at shift 62 only two bits are left |
| `Datatypes.WindowStep` | src/crud_demo_backend/src/datatypes.rs:92-95 | the seed shifted by `k` is determined by the seed shifted by `k + 2` together with the truncated byte at shift `k` modulo 62 |
| `Datatypes.WindowsAgree` | src/crud_demo_backend/src/datatypes.rs:92-95 | seeds whose bytes modulo 62 agree at every even shift from `k` to 62 agree once shifted by `k` |
| `Datatypes.SameCharIndex` | src/crud_demo_backend/src/datatypes.rs:90-98 | equal identifiers have equal alphabet indices at every position |
| `Datatypes.NewUuidInjective` | src/crud_demo_backend/src/datatypes.rs:87-98 | equal identifiers come from equal seeds: the generator is injective on 64-bit clock readings |
| `Datatypes.NewIdInjective` | src/crud_demo_backend/src/datatypes.rs:57-59 | distinct seeds give distinct `Id`s |
| `Datatypes.Without` | src/crud_demo_backend/src/datatypes.rs:42 | retaining the keys different from `k` leaves exactly the elements different from `k`, with no more elements than before |
| `Datatypes.WithoutMultiset` | src/crud_demo_backend/src/datatypes.rs:42 | the retained list has the same multiplicities as the original for every other key, and none of `k` |
| `Datatypes.WithoutAppend` | src/crud_demo_backend/src/datatypes.rs:42 | retaining distributes over concatenation, so the other keys keep their relative order |
| `Datatypes.WithoutAbsent` | src/crud_demo_backend/src/datatypes.rs:40-43 | removing a key that is not listed leaves the order list unchanged |
| `Datatypes.Pairs` | src/crud_demo_backend/src/datatypes.rs:33-37 | walking the order list and looking each key up yields one pair per listed key, in list order, with each key's current value |
| `Datatypes.ReinsertListedTwice` | src/crud_demo_backend/src/datatypes.rs:22-37 | after re-inserting a listed key, the iteration yields that key both at its old position and at the end, each time with the new value |
| `Datatypes.OrderedMap.constructor` | src/crud_demo_backend/src/datatypes.rs:14-19 | a new map has an empty table and an empty order list, and satisfies the invariant |
| `Datatypes.OrderedMap.Get` | src/crud_demo_backend/src/datatypes.rs:28-30 | a lookup returns a value exactly when the key has an entry, and then returns that entry's value |
| `Datatypes.OrderedMap.Insert` | src/crud_demo_backend/src/datatypes.rs:22-25 | the key now maps to the value, all other keys keep their values, the order list grows by exactly that key at the end (even if it was already listed), and the invariant is preserved |
| `Datatypes.OrderedMap.Iter` | src/crud_demo_backend/src/datatypes.rs:33-37 | when every listed key has an entry, iteration yields exactly one pair per listed key, in `keys` order, each with the key's current value |
| `Datatypes.OrderedMap.Remove` | src/crud_demo_backend/src/datatypes.rs:40-43 | the key's entry is gone and the key occurs nowhere in the order list, other keys keep their values and relative order, an absent key changes nothing, and the invariant is preserved |
| `Crud.Skip` | src/crud_demo_backend/src/lib.rs:40 | skipping `n` elements leaves `max(0, len - n)` elements, the `i`-th being the input's `n + i`-th |
| `Crud.Take` | src/crud_demo_backend/src/lib.rs:41 | taking `n` elements keeps `min(n, len)` elements, a prefix of the input |
| `Crud.GetTodo` | src/crud_demo_backend/src/lib.rs:28-31 | reading an id returns its stored value, or `None` exactly when the id has no entry |
| `Crud.GetAllTodos` | src/crud_demo_backend/src/lib.rs:34-45 | a page has `min(limit, max(0, n - offset))` records: the iteration's slice starting at `offset`, each with its current value; an offset at or past the end gives an empty page |
| `Crud.CreateTodo` | src/crud_demo_backend/src/lib.rs:48-55 | the returned id is the one generated from the seed, it now reads back as the given value, it is appended to the insertion order, and the invariant is preserved |
| `Crud.DeleteTodo` | src/crud_demo_backend/src/lib.rs:58-63 | the id reads back as `None`, every other id keeps its value, the id is filtered out of the order list, and the invariant is preserved |
| `Crud.UpdateTodo` | src/crud_demo_backend/src/lib.rs:66-71 | the id reads back as the new value, whether or not it existed; other ids keep their values; the id is appended to the order list again |
| `Scenarios.SetGet` | src/crud_demo_backend/src/tests.rs:3-7 | on an empty store, a created record reads back with its value |
| `Scenarios.CreateThree` | src/crud_demo_backend/src/tests.rs:11-13 | three creates from distinct seeds on a fresh store give three distinct generated ids, listed in creation order, each mapped to its value, with the invariant holding |
| `Scenarios.ThreeListed` | src/crud_demo_backend/src/datatypes.rs:33-37 | iterating three distinct keys, each inserted once, yields them in order with their values |
| `Scenarios.Paging` | src/crud_demo_backend/src/tests.rs:9-29 | with three records created from distinct seeds, their ids are the generated ones, page (0, 2) is the first two records, page (1, 2) is the last two, and page (5, 2) is empty |
| `Scenarios.Delete` | src/crud_demo_backend/src/tests.rs:31-36 | a created and then deleted record reads back as `None`, and every page of the store, for any offset and limit, is empty |
| `Scenarios.Update` | src/crud_demo_backend/src/tests.rs:38-43 | a created and then updated record reads back with the new value; the full listing shows it twice |
| `Scenarios.CreateInOrder` | src/crud_demo_backend/src/lib.rs:34-55 | creates from distinct seeds with no update or delete, followed by a page from 0 at least as long as the number of records, list the records in creation order with their values |

## Left out

- `pre_upgrade` and `post_upgrade` (`lib.rs:8-21`) are not modelled. They save the store to stable memory and restore it through the host's Candid serialisation. That is host I/O in an opaque byte format. The restore-failure policy (fall back to an empty store) is therefore not modelled either.
- The clock is not modelled. This covers `ic_cdk::api::time()` and the test build's `SystemTime` seed folding (`datatypes.rs:67-85`). The seed is a `u64` parameter of `NewUuid`, `NewId` and `CreateTodo`.
- The `thread_local!`/`RefCell` global and the `#[ic_cdk::query]`/`#[ic_cdk::update]` dispatch are not modelled. The store is one explicitly passed `OrderedMap` object.
- The `Display` implementation of `Id` and the `CandidType`, `Deserialize`, `Hash` and `Ord` derives are not modelled. `Id` is a datatype with structural equality.
- Crud.GetAllTodos: `offset` and `limit` are unbounded `nat`s. The `u64 as usize` casts, which truncate on a 32-bit wasm target, are not modelled. The model assumes both values fit in `usize`.
- Hash-table hashing and capacity are not modelled. The table is a Dafny `map`.
- Two calls reading the same clock value are not ruled out, because the clock is a parameter. Identifiers collide exactly when their seeds are equal (`Datatypes.NewUuidInjective`, `Datatypes.NewIdInjective`). `Scenarios.Paging` and `Scenarios.CreateInOrder` require distinct seeds, as the tests implicitly do.
