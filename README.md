# StringMap: a fixed-capacity, collision-refusing string-keyed slot table

This project models `StringMap<T>` from `rust-hashmap/src/lib.rs` in Dafny and
proves its behaviour. A `StringMap<T>` is a vector of `Option<MapItem<T>>`
slots whose length is fixed by `new(size)`. Every keyed operation works on
one slot only: the key's SipHash value modulo the number of slots. There is no
probing and no chaining.

- `set(key, value)` writes `(key, value)` into that slot if the slot is empty
  or already holds `key`, and returns `true`. If the slot holds another key,
  it refuses, changes nothing and returns `false`.
- `get(key)` and `get_mut(key)` return the value, or a mutable reference to
  it, only when the slot holds exactly `key`.
- `delete(key)` empties the slot unconditionally, whatever key it held.
- `load()` is the fraction of slots that are occupied.

The model has three modules:

- `Slots` (`slots.dfy`): the table as a value, a `seq` of slots. It has one
  specification function per operation (`Set`, `Get`, `Delete`, `WriteValue`
  for a write through `get_mut`'s reference, `Occupied` and `LoadOf` for
  `load`). It also has the placement invariant `Placed` (every stored key sits
  at its own index) and a map view `Contents` of the stored pairs. The
  lemmas about these are the properties of the table.
- `StringMaps` (`string_map.dfy`): the class `StringMap<T>`. Its slots are
  one `array`, updated in place. Each method is proved against the
  function of `Slots` that specifies it and keeps `Valid()`, which is
  `Placed`.
- `StringMapTests` (`string_map_tests.dfy`): the four `#[test]` functions,
  written as client methods of the class and proved for every hash (`test_load`
  for every hash that puts "hello" and "world" in different slots). `Decimal`
  stands for `i.to_string()`.

The hash is a parameter: a deterministic `string -> nat` that the
constructor stores. No lemma depends on where a particular key lands. The one
test that does depend on placement (`test_load`, which needs "hello" and
"world" in different slots) takes that placement as a precondition.

`set` refuses to write into a slot that holds another key (`lib.rs:30-43`);
`delete` clears the slot whatever it holds (`lib.rs:80`).

## Model

| member | source | states |
|---|---|---|
| `Slots.Index` | rust-hashmap/src/lib.rs:26-28 | the slot of a key is `hash(key) % n` and is a valid index `< n`; the hash is a fixed function, so the same key always gets the same slot |
| `Slots.Empty` | rust-hashmap/src/lib.rs:14-18 | a table of `n` slots has exactly `n` slots, all empty |
| `Slots.Set` | rust-hashmap/src/lib.rs:25-45 | accepted iff the key's slot is empty or holds the same key; when accepted, that slot becomes `(key, value)`; no other slot changes; when refused, the whole table is unchanged; the length never changes |
| `Slots.Get` | rust-hashmap/src/lib.rs:47-59 | returns a value iff the key's slot is occupied by exactly that key, and the value is the one stored there |
| `Slots.Delete` | rust-hashmap/src/lib.rs:75-81 | the key's slot becomes empty whatever it held; every other slot and the length are unchanged |
| `Slots.WriteValue` | rust-hashmap/src/lib.rs:66-68 | an assignment through the reference from `get_mut` replaces that slot's value and keeps its key; no other slot changes |
| `Slots.Occupied` | rust-hashmap/src/lib.rs:84-86 | the count of occupied slots lies in `[0, len]`; it is 0 iff every slot is empty, and `len` iff every slot is occupied |
| `Slots.LoadOf` | rust-hashmap/src/lib.rs:83-89 | load is (occupied, capacity) with capacity the slot count and occupied at most capacity; occupied is 0 iff the table is empty |
| `Slots.OccupiedAfterWrite` | rust-hashmap/src/lib.rs:84-86 | assigning one slot changes the occupied count by exactly what that slot gained minus what it lost |
| `Slots.SetOccupied` | rust-hashmap/src/lib.rs:30-44 | a `set` raises the count by 1 exactly when it is accepted into an empty slot; it leaves the count unchanged on a same-key overwrite or a refusal |
| `Slots.DeleteOccupied` | rust-hashmap/src/lib.rs:75-81 | `delete` lowers the count by 1 if the slot was occupied and leaves it unchanged otherwise |
| `Slots.WriteValueOccupied` | rust-hashmap/src/lib.rs:66-68 | a write through `get_mut` never changes the occupied count |
| `Slots.EmptyPlaced` | rust-hashmap/src/lib.rs:13-23 | a fresh table satisfies the placement invariant and has occupied count 0 |
| `Slots.SetPlaced` | rust-hashmap/src/lib.rs:36-41 | `set` keeps every stored key at its own index |
| `Slots.DeletePlaced` | rust-hashmap/src/lib.rs:80 | `delete` keeps every stored key at its own index |
| `Slots.WriteValuePlaced` | rust-hashmap/src/lib.rs:66-68 | a write through `get_mut` keeps every stored key at its own index |
| `Slots.GetComplete` | rust-hashmap/src/lib.rs:47-58 | in a placed table, `get(key)` returns `value` iff some slot anywhere holds `(key, value)`; `get` misses no stored pair |
| `Slots.KeysUnique` | rust-hashmap/src/lib.rs:30-34 | in a placed table, two slots never hold the same key |
| `Slots.PlacedDistinct` | rust-hashmap/src/lib.rs:30-34 | `KeysUnique` for all pairs of slots at once, the form the map-view lemmas use |
| `Slots.ContentsKeys` | rust-hashmap/src/lib.rs:8-10 | the map view has exactly the keys that some slot holds |
| `Slots.ContentsValue` | rust-hashmap/src/lib.rs:3-6 | with distinct keys, the map view gives each stored key the value stored with it |
| `Slots.ContentsSize` | rust-hashmap/src/lib.rs:84-86 | with distinct keys, the occupied count equals the number of keys in the map view |
| `Slots.LoadCountsKeys` | rust-hashmap/src/lib.rs:83-89 | in a placed table, the numerator of `load()` is the number of distinct keys stored |
| `Slots.ContentsAfterWrite` | rust-hashmap/src/lib.rs:37-40 | assigning one slot removes the pair it held from the map view and adds the new pair |
| `Slots.GetContents` | rust-hashmap/src/lib.rs:52-58 | in a placed table, `get(key)` hits iff `key` is in the map view, and it returns the map view's value |
| `Slots.SetContents` | rust-hashmap/src/lib.rs:36-44 | on the map view, an accepted `set` is the update `key := value`, and a refused one changes nothing |
| `Slots.DeleteContents` | rust-hashmap/src/lib.rs:75-81 | on the map view, `delete(key)` removes the key its slot held, which is `key` itself or another key with the same index |
| `Slots.WriteValueContents` | rust-hashmap/src/lib.rs:61-72 | on the map view, a write through `get_mut(key)`'s reference is the update `key := value` |
| `Slots.SetThenGet` | rust-hashmap/src/lib.rs:127-135 | round trip: right after an accepted `set(key, value)`, `get(key)` returns `value` |
| `Slots.SetRefused` | rust-hashmap/src/lib.rs:30-43 | a `set` of a key whose slot holds a different stored key is refused, and that other key keeps its value |
| `Slots.SingleSlotRefuses` | rust-hashmap/src/lib.rs:110-119 | with one slot that holds a key, every `set` of a different key is refused, the table is unchanged and it stays full |
| `Slots.SetTwice` | rust-hashmap/src/lib.rs:102-103 | after an accepted `set(key, v1)`, `set(key, v2)` is accepted, leaves the count unchanged, and `get(key)` then returns `v2` |
| `Slots.DeleteThenGet` | rust-hashmap/src/lib.rs:153-155 | after `delete(key)`, `get(key)` misses |
| `Slots.WriteValueThenGet` | rust-hashmap/src/lib.rs:66-68 | after a write of `value` through `get_mut(key)`'s reference, `get(key)` returns `value` |
| `Slots.DeleteAll` | rust-hashmap/src/lib.rs:153-156 | deleting a sequence of keys keeps the length; the slot of every deleted key is empty afterwards; every slot no deleted key maps to keeps its contents; every slot still occupied is unchanged |
| `Slots.DeleteAllEmpties` | rust-hashmap/src/lib.rs:153-158 | in a placed table, deleting every stored key brings the occupied count back to 0, and then every deleted key misses |
| `StringMaps.StringMap.constructor` | rust-hashmap/src/lib.rs:13-23 | `new(size)` makes exactly `size` slots, all empty, in a fresh array, and the invariant holds |
| `StringMaps.StringMap.Set` | rust-hashmap/src/lib.rs:25-45 | the new slots and the result are those of `Slots.Set` on the old slots; the invariant is kept |
| `StringMaps.StringMap.Get` | rust-hashmap/src/lib.rs:47-59 | returns `Slots.Get` of the current slots and changes nothing |
| `StringMaps.StringMap.GetMut` | rust-hashmap/src/lib.rs:61-73 | hits exactly when `get` would; a hit gives the index of the key's slot, which holds the key |
| `StringMaps.StringMap.WriteValue` | rust-hashmap/src/lib.rs:66-68 | assigning through the `get_mut` handle gives the slots of `Slots.WriteValue`; the invariant is kept |
| `StringMaps.StringMap.Delete` | rust-hashmap/src/lib.rs:75-81 | the new slots are those of `Slots.Delete` on the old slots; the invariant is kept |
| `StringMaps.StringMap.Load` | rust-hashmap/src/lib.rs:83-89 | the occupied count and the capacity of the current slots; the count is at most the capacity and is 0 iff every slot is empty |
| `StringMapTests.DecimalShape` | rust-hashmap/src/lib.rs:144 | `i.to_string()` (`Decimal`) is a non-empty string of decimal digits, one character long iff `i < 10` |
| `StringMapTests.DecimalRoundTrip` | rust-hashmap/src/lib.rs:143-144 | the decimal string of `n` consists of digits and reads back as `n` |
| `StringMapTests.DecimalDistinct` | rust-hashmap/src/lib.rs:143-144 | distinct numbers give distinct key strings |
| `StringMapTests.TestLoad` | rust-hashmap/src/lib.rs:92-107 | capacity 5, with "hello" and "world" in different slots: the first `set` is accepted, and the loads are 1/5, 2/5, 2/5, 1/5 |
| `StringMapTests.TestOverload` | rust-hashmap/src/lib.rs:109-119 | capacity 1: `set("hello")` is accepted; every `set` of "0".."9" is refused and the load stays 1/1 |
| `StringMapTests.TestGetSet` | rust-hashmap/src/lib.rs:121-136 | capacity 100: "Not Found" misses in the fresh table; both `set`s of "hello" are accepted, and `set("world", 100)` is accepted iff "world" and "hello" have different indices; each accepted `set` is read back with its value |
| `StringMapTests.KeyOutsideAbsent` | rust-hashmap/src/lib.rs:143-146 | if every stored key is one of `Decimal(lo..hi)`, a key outside that range is stored nowhere |
| `StringMapTests.SetKeysAmong` | rust-hashmap/src/lib.rs:143-148 | storing `Decimal(hi)` widens the range of possible stored keys to `lo..hi+1` |
| `StringMapTests.DeleteKeysAmong` | rust-hashmap/src/lib.rs:153-156 | in a placed table, deleting `Decimal(lo)` narrows the range of possible stored keys to `lo+1..hi` |
| `StringMapTests.ClaimedExtend` | rust-hashmap/src/lib.rs:143-148 | one more `set` outcome claims a slot exactly when it was accepted and the slot is its key's index |
| `StringMapTests.StoreStep` | rust-hashmap/src/lib.rs:30-44 | storing the next decimal key is accepted iff no earlier accepted key has its index, and afterwards the occupied slots are exactly the indices of the accepted keys |
| `StringMapTests.FirstComersExtend` | rust-hashmap/src/lib.rs:143-148 | the first-come rule for accepted keys carries over to one more `set` whose acceptance is decided by the claimed slots |
| `StringMapTests.TallyExtend` | rust-hashmap/src/lib.rs:143-151 | the running count of accepted `set`s extends by one outcome |
| `StringMapTests.RecordedExtend` | rust-hashmap/src/lib.rs:143-151 | the record of outcomes, read-backs, counts and loads extends by one step |
| `StringMapTests.StoreNext` | rust-hashmap/src/lib.rs:143-150 | one `set` of the next decimal key, then `get` when accepted: accepted iff its index is not already claimed, read back when accepted, load raised by one exactly when accepted, record extended |
| `StringMapTests.StoreDecimalKeys` | rust-hashmap/src/lib.rs:143-151 | storing "0".."99": `spots[i]` is the index of key i; key i is accepted iff no earlier accepted key has that index; each accepted `set` reads back its value; `counts` is the running number of accepted `set`s; the load after step i is `counts[i]`/100 |
| `StringMapTests.DeleteDecimalKeys` | rust-hashmap/src/lib.rs:153-158 | deleting "0".."99": each key then misses, and the final load is 0/100 |
| `StringMapTests.TestEverything` | rust-hashmap/src/lib.rs:138-159 | capacity 100: which `set`s are accepted is decided by the keys' indices alone (first come keeps the slot); each accepted one is read back; the load after each step is the running number of accepted `set`s over 100; after every key is deleted each one misses and the load is 0 |

## Left out

- SipHash (`lib.rs:1`, `lib.rs:26-28`): the hash is an arbitrary deterministic function given to the constructor. The reduction `as usize` from 64 bits is part of that function. Nothing about which keys collide is modelled.
- Floating point in `load` (`lib.rs:88`): `load` returns the occupied count and the capacity. The tests' float equalities are stated as equalities of these counts. For capacity 0, Rust computes `0.0 / 0.0`, which is NaN; the model returns `Load(0, 0)`.
- Capacity 0 for the keyed operations: `% self.items.len()` panics on an empty vector. `Set`, `Get`, `GetMut` and `Delete` require at least one slot. The panic is not modelled. `new(0)` and `load()` are still allowed.
- `get_mut`'s `Option<&mut T>`: it is modelled as the index of the slot, plus `WriteValue` for an assignment through the reference. The borrow rules are not modelled. In Rust they stop the map from changing while the reference is alive. Under them, the index stays valid, as `WriteValue` requires.
- Rust memory management: `Vec::with_capacity`, `push`, and the `key.to_owned()` copy. The vector is a fixed-length array filled with `None` by a loop. Keys are stored as string values.
- `StringMapTests.TestLoad`: it requires "hello" and "world" to have different indices modulo 5. The source test can pass only if SipHash puts "hello" and "world" in different slots modulo 5.
