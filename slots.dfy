/**
 * The slot table behind `StringMap<T>`, as values.
 *
 * A table is a sequence of slots; each slot is empty or holds one key and its
 * value. Every keyed operation looks at exactly one slot, the key's hash
 * reduced modulo the number of slots. There is no probing and no chaining:
 * two keys with the same index can never both be stored.
 *
 * The functions here are the specifications the class in module StringMaps
 * is proved against; the lemmas are the properties of the table.
 */
module Slots {

  datatype Option<T> = None | Some(value: T)

  /** One stored entry: the key (an owned copy of the caller's string) and its value. */
  datatype MapItem<T> = MapItem(key: string, value: T)

  /** A slot of the table: `None` when empty. */
  type Slot<T> = Option<MapItem<T>>

  /**
   * The hash the table is built with. It is deterministic (a function), and
   * nothing else about it is assumed: no property below depends on where a
   * given key lands.
   */
  type Hasher = string -> nat

  /** The slot a key is addressed to in a table of `n > 0` slots. */
  function Index(hash: Hasher, key: string, n: nat): (i: nat)
    requires n > 0
    ensures i < n
  {
    hash(key) % n
  }

  /** A table of `n` slots, all empty. */
  function Empty<T>(n: nat): (s: seq<Slot<T>>)
    ensures |s| == n
    ensures forall j :: 0 <= j < n ==> s[j].None?
  {
    seq(n, _ => None)
  }

  /** The slot is occupied, and by `key`. */
  predicate Holds<T>(slot: Slot<T>, key: string) {
    slot.Some? && slot.value.key == key
  }

  /** A write of `key` may go into the slot: it is empty or already holds `key`. */
  predicate Accepts<T>(slot: Slot<T>, key: string) {
    slot.None? || slot.value.key == key
  }

  /** 1 for an occupied slot, 0 for an empty one. */
  function Used<T>(slot: Slot<T>): nat {
    if slot.Some? then 1 else 0
  }

  /**
   * `set(key, value)`: the new table and whether the write was accepted.
   * It is accepted exactly when the key's slot is empty or holds the same key;
   * then that slot, and only that slot, becomes `(key, value)`. A refused
   * write leaves the whole table as it was.
   */
  function Set<T>(hash: Hasher, s: seq<Slot<T>>, key: string, value: T): (r: (seq<Slot<T>>, bool))
    requires |s| > 0
    ensures |r.0| == |s|
    ensures r.1 <==> Accepts(s[Index(hash, key, |s|)], key)
    ensures r.1 ==> r.0[Index(hash, key, |s|)] == Some(MapItem(key, value))
    ensures forall j :: 0 <= j < |s| && j != Index(hash, key, |s|) ==> r.0[j] == s[j]
    ensures !r.1 ==> r.0 == s
  {
    var i := Index(hash, key, |s|);
    var change := match s[i] case Some(item) => item.key == key case None => true;
    if change then (s[i := Some(MapItem(key, value))], true) else (s, false)
  }

  /**
   * `get(key)`: the value in the key's slot when that slot holds exactly
   * `key`, and nothing otherwise.
   */
  function Get<T>(hash: Hasher, s: seq<Slot<T>>, key: string): (r: Option<T>)
    requires |s| > 0
    ensures r.Some? <==> Holds(s[Index(hash, key, |s|)], key)
    ensures r.Some? ==> s[Index(hash, key, |s|)] == Some(MapItem(key, r.value))
  {
    var i := Index(hash, key, |s|);
    match s[i]
    case Some(item) => if item.key == key then Some(item.value) else None
    case None => None
  }

  /**
   * `delete(key)`: the key's slot becomes empty whatever it held (another
   * key included); every other slot is kept.
   */
  function Delete<T>(hash: Hasher, s: seq<Slot<T>>, key: string): (r: seq<Slot<T>>)
    requires |s| > 0
    ensures |r| == |s|
    ensures r[Index(hash, key, |s|)].None?
    ensures forall j :: 0 <= j < |s| && j != Index(hash, key, |s|) ==> r[j] == s[j]
  {
    s[Index(hash, key, |s|) := None]
  }

  /**
   * An assignment through the mutable reference `get_mut` hands out for
   * slot `i`: the value changes, the key and the occupancy do not, and no
   * other slot changes.
   */
  function WriteValue<T>(s: seq<Slot<T>>, i: nat, value: T): (r: seq<Slot<T>>)
    requires i < |s| && s[i].Some?
    ensures |r| == |s|
    ensures r[i] == Some(MapItem(s[i].value.key, value))
    ensures forall j :: 0 <= j < |s| && j != i ==> r[j] == s[j]
  {
    s[i := Some(s[i].value.(value := value))]
  }

  /** The number of occupied slots: the numerator of `load()`. */
  function Occupied<T>(s: seq<Slot<T>>): (n: nat)
    ensures n <= |s|
    ensures n == 0 <==> forall j :: 0 <= j < |s| ==> s[j].None?
    ensures n == |s| <==> forall j :: 0 <= j < |s| ==> s[j].Some?
  {
    if s == [] then 0
    else
      assert forall j :: 0 < j < |s| ==> s[j] == s[1..][j - 1];
      Used(s[0]) + Occupied(s[1..])
  }

  /** `load()`: occupied slots over all slots, kept as the two counts. */
  datatype Load = Load(occupied: nat, capacity: nat)

  function LoadOf<T>(s: seq<Slot<T>>): (r: Load)
    ensures r.capacity == |s|
    ensures r.occupied <= r.capacity
    ensures r.occupied == 0 <==> forall j :: 0 <= j < |s| ==> s[j].None?
  {
    Load(Occupied(s), |s|)
  }

  /**
   * The placement invariant: every stored key sits in the slot its hash
   * addresses. `set` only writes a key at its own index, so this holds of
   * every table the operations produce.
   */
  ghost predicate Placed<T>(hash: Hasher, s: seq<Slot<T>>) {
    forall j :: 0 <= j < |s| && s[j].Some? ==> |s| > 0 && Index(hash, s[j].value.key, |s|) == j
  }

  // ---------------------------------------------------------------------
  // Occupancy bookkeeping

  /** Overwriting one slot changes the count by what the slot lost and gained. */
  lemma {:induction false} OccupiedAfterWrite<T>(s: seq<Slot<T>>, i: nat, x: Slot<T>)
    requires i < |s|
    ensures Occupied(s[i := x]) + Used(s[i]) == Occupied(s) + Used(x)
  {
    if i == 0 {
      assert s[i := x][1..] == s[1..];
    } else {
      assert s[i := x][1..] == s[1..][i - 1 := x];
      OccupiedAfterWrite(s[1..], i - 1, x);
    }
  }

  /** An accepted `set` adds one to the count when the slot was empty and nothing when it held the key. */
  lemma SetOccupied<T>(hash: Hasher, s: seq<Slot<T>>, key: string, value: T)
    requires |s| > 0
    ensures Occupied(Set(hash, s, key, value).0)
      == Occupied(s) + (if Set(hash, s, key, value).1 && s[Index(hash, key, |s|)].None? then 1 else 0)
  {
    var i := Index(hash, key, |s|);
    if Set(hash, s, key, value).1 {
      OccupiedAfterWrite(s, i, Some(MapItem(key, value)));
    }
  }

  /** `delete` takes one off the count when the slot was occupied and leaves it otherwise. */
  lemma DeleteOccupied<T>(hash: Hasher, s: seq<Slot<T>>, key: string)
    requires |s| > 0
    ensures Occupied(Delete(hash, s, key)) == Occupied(s) - Used(s[Index(hash, key, |s|)])
  {
    OccupiedAfterWrite(s, Index(hash, key, |s|), None);
  }

  /** A write through `get_mut` never changes the count. */
  lemma WriteValueOccupied<T>(s: seq<Slot<T>>, i: nat, value: T)
    requires i < |s| && s[i].Some?
    ensures Occupied(WriteValue(s, i, value)) == Occupied(s)
  {
    OccupiedAfterWrite(s, i, Some(MapItem(s[i].value.key, value)));
  }

  // ---------------------------------------------------------------------
  // The placement invariant

  lemma EmptyPlaced<T>(hash: Hasher, n: nat)
    ensures Placed(hash, Empty<T>(n))
    ensures Occupied(Empty<T>(n)) == 0
  {
  }

  lemma SetPlaced<T>(hash: Hasher, s: seq<Slot<T>>, key: string, value: T)
    requires |s| > 0 && Placed(hash, s)
    ensures Placed(hash, Set(hash, s, key, value).0)
  {
  }

  lemma DeletePlaced<T>(hash: Hasher, s: seq<Slot<T>>, key: string)
    requires |s| > 0 && Placed(hash, s)
    ensures Placed(hash, Delete(hash, s, key))
  {
  }

  lemma WriteValuePlaced<T>(hash: Hasher, s: seq<Slot<T>>, i: nat, value: T)
    requires i < |s| && s[i].Some? && Placed(hash, s)
    ensures Placed(hash, WriteValue(s, i, value))
  {
  }

  /**
   * In a placed table `get` misses no stored key: it finds `key` with `value`
   * exactly when some slot holds that pair.
   */
  lemma GetComplete<T>(hash: Hasher, s: seq<Slot<T>>, key: string, value: T)
    requires |s| > 0 && Placed(hash, s)
    ensures Get(hash, s, key) == Some(value) <==> exists j :: 0 <= j < |s| && s[j] == Some(MapItem(key, value))
  {
    if j :| 0 <= j < |s| && s[j] == Some(MapItem(key, value)) {
      assert j == Index(hash, key, |s|);
    }
  }

  /** In a placed table no key is stored twice. */
  lemma KeysUnique<T>(hash: Hasher, s: seq<Slot<T>>, j: nat, k: nat)
    requires j < |s| && k < |s| && Placed(hash, s)
    requires s[j].Some? && s[k].Some? && s[j].value.key == s[k].value.key
    ensures j == k
  {
  }

  // ---------------------------------------------------------------------
  // The table as a map from keys to values

  /** No key is stored in two slots. */
  ghost predicate DistinctKeys<T>(s: seq<Slot<T>>) {
    forall j, k :: 0 <= j < |s| && 0 <= k < |s| && s[j].Some? && s[k].Some? && s[j].value.key == s[k].value.key ==> j == k
  }

  /** `KeysUnique` for every pair of slots at once, as the map view's lemmas use it. */
  lemma PlacedDistinct<T>(hash: Hasher, s: seq<Slot<T>>)
    requires Placed(hash, s)
    ensures DistinctKeys(s)
  {
    forall j, k | 0 <= j < |s| && 0 <= k < |s| && s[j].Some? && s[k].Some? && s[j].value.key == s[k].value.key
      ensures j == k
    {
      KeysUnique(hash, s, j, k);
    }
  }

  /** The entry of one slot. */
  function Entry<T>(slot: Slot<T>): map<string, T> {
    match slot
    case Some(item) => map[item.key := item.value]
    case None => map[]
  }

  /** The key-value pairs the table stores. */
  function Contents<T>(s: seq<Slot<T>>): map<string, T> {
    if s == [] then map[] else Entry(s[0]) + Contents(s[1..])
  }

  /** The map view has exactly the keys some slot holds. */
  lemma {:induction false} ContentsKeys<T>(s: seq<Slot<T>>, key: string)
    ensures key in Contents(s) <==> exists j :: 0 <= j < |s| && Holds(s[j], key)
  {
    if s != [] {
      ContentsKeys(s[1..], key);
      if j :| 0 < j < |s| && Holds(s[j], key) {
        assert Holds(s[1..][j - 1], key);
      }
      if j :| 0 <= j < |s| - 1 && Holds(s[1..][j], key) {
        assert Holds(s[j + 1], key);
      }
    }
  }

  /** The table without its first slot still stores no key twice, and not the first slot's key. */
  lemma DistinctTail<T>(s: seq<Slot<T>>)
    requires |s| > 0 && DistinctKeys(s)
    ensures DistinctKeys(s[1..])
    ensures s[0].Some? ==> s[0].value.key !in Contents(s[1..])
  {
    forall a, b | 0 <= a < |s| - 1 && 0 <= b < |s| - 1 && s[1..][a].Some? && s[1..][b].Some? && s[1..][a].value.key == s[1..][b].value.key
      ensures a == b
    {
      assert s[a + 1] == s[1..][a] && s[b + 1] == s[1..][b];
    }
    if s[0].Some? {
      forall j | 0 <= j < |s| - 1
        ensures !Holds(s[1..][j], s[0].value.key)
      {
        assert s[1..][j] == s[j + 1];
      }
      ContentsKeys(s[1..], s[0].value.key);
    }
  }

  /** Each stored pair is what the map view gives for its key. */
  lemma {:induction false} ContentsValue<T>(s: seq<Slot<T>>, j: nat)
    requires DistinctKeys(s) && j < |s| && s[j].Some?
    ensures s[j].value.key in Contents(s) && Contents(s)[s[j].value.key] == s[j].value.value
  {
    DistinctTail(s);
    if j > 0 {
      assert s[1..][j - 1] == s[j];
      ContentsValue(s[1..], j - 1);
      assert !Holds(s[0], s[j].value.key);
    }
  }

  /** `load()`'s numerator is the number of keys the table stores. */
  lemma {:induction false} ContentsSize<T>(s: seq<Slot<T>>)
    requires DistinctKeys(s)
    ensures |Contents(s)| == Occupied(s)
  {
    if s != [] {
      DistinctTail(s);
      ContentsSize(s[1..]);
      var c := Contents(s[1..]);
      if s[0].Some? {
        var key := s[0].value.key;
        assert (Entry(s[0]) + c).Keys == c.Keys + {key};
        assert |c.Keys + {key}| == |c.Keys| + 1;
      } else {
        assert Entry(s[0]) + c == c;
      }
    }
  }

  /** In a placed table `load()` counts the keys stored: each occupied slot holds a different one. */
  lemma LoadCountsKeys<T>(hash: Hasher, s: seq<Slot<T>>)
    requires Placed(hash, s)
    ensures LoadOf(s).occupied == |Contents(s)|
  {
    PlacedDistinct(hash, s);
    ContentsSize(s);
  }

  /**
   * Overwriting slot `i` with `x` removes the pair the slot held from the map
   * view and adds the pair of `x`, provided no key is stored twice before or
   * after.
   */
  lemma ContentsAfterWrite<T>(s: seq<Slot<T>>, i: nat, x: Slot<T>)
    requires i < |s| && DistinctKeys(s) && DistinctKeys(s[i := x])
    ensures Contents(s[i := x]) == (Contents(s) - Entry(s[i]).Keys) + Entry(x)
  {
    var t := s[i := x];
    var after, expected := Contents(t), (Contents(s) - Entry(s[i]).Keys) + Entry(x);
    forall key | key in after
      ensures key in expected && after[key] == expected[key]
    {
      ContentsKeys(t, key);
      var j :| 0 <= j < |t| && Holds(t[j], key);
      ContentsValue(t, j);
      if j != i {
        assert t[j] == s[j] && t[i] == x;
        ContentsValue(s, j);
      }
    }
    forall key | key in expected
      ensures key in after
    {
      ContentsKeys(t, key);
      if key !in Entry(x) {
        ContentsKeys(s, key);
        var j :| 0 <= j < |s| && Holds(s[j], key);
        assert j != i && Holds(t[j], key);
      } else {
        assert Holds(t[i], key);
      }
    }
    assert after == expected;
  }

  /** Dropping at most `key` and then adding `key := value` is the update `key := value`. */
  lemma UpdateAsUnion<T>(m: map<string, T>, dropped: set<string>, key: string, value: T)
    requires dropped <= {key}
    ensures (m - dropped) + map[key := value] == m[key := value]
  {
  }

  /** Clearing a slot drops its key, if it had one, and adds nothing. */
  lemma ClearedEntry<T>(m: map<string, T>, slot: Slot<T>)
    ensures (m - Entry(slot).Keys) + Entry(None) == if slot.Some? then m - {slot.value.key} else m
  {
    assert Entry<T>(None) == map[];
    if slot.None? {
      assert m - Entry(slot).Keys == m;
    }
  }

  /** In a placed table `get` agrees with the map view. */
  lemma GetContents<T>(hash: Hasher, s: seq<Slot<T>>, key: string)
    requires |s| > 0 && Placed(hash, s)
    ensures Get(hash, s, key).Some? <==> key in Contents(s)
    ensures Get(hash, s, key).Some? ==> Get(hash, s, key).value == Contents(s)[key]
  {
    PlacedDistinct(hash, s);
    ContentsKeys(s, key);
    var i := Index(hash, key, |s|);
    if Get(hash, s, key).Some? {
      ContentsValue(s, i);
    }
  }

  /** On the map view, an accepted `set(key, value)` is the update `key := value`; a refused one changes nothing. */
  lemma SetContents<T>(hash: Hasher, s: seq<Slot<T>>, key: string, value: T)
    requires |s| > 0 && Placed(hash, s)
    ensures Contents(Set(hash, s, key, value).0)
      == if Set(hash, s, key, value).1 then Contents(s)[key := value] else Contents(s)
  {
    var (r, stored) := Set(hash, s, key, value);
    if stored {
      var i := Index(hash, key, |s|);
      SetPlaced(hash, s, key, value);
      PlacedDistinct(hash, s);
      PlacedDistinct(hash, r);
      assert r == s[i := Some(MapItem(key, value))];
      ContentsAfterWrite(s, i, Some(MapItem(key, value)));
      UpdateAsUnion(Contents(s), Entry(s[i]).Keys, key, value);
    }
  }

  /**
   * On the map view, `delete(key)` removes the key its slot held, which is
   * `key` itself or another key with the same index.
   */
  lemma DeleteContents<T>(hash: Hasher, s: seq<Slot<T>>, key: string)
    requires |s| > 0 && Placed(hash, s)
    ensures s[Index(hash, key, |s|)].Some? ==>
      Contents(Delete(hash, s, key)) == Contents(s) - {s[Index(hash, key, |s|)].value.key}
    ensures s[Index(hash, key, |s|)].None? ==> Contents(Delete(hash, s, key)) == Contents(s)
  {
    var i := Index(hash, key, |s|);
    var r := Delete(hash, s, key);
    DeletePlaced(hash, s, key);
    PlacedDistinct(hash, s);
    PlacedDistinct(hash, r);
    assert r == s[i := None];
    ContentsAfterWrite(s, i, None);
    ClearedEntry(Contents(s), s[i]);
  }

  /** On the map view, a write through the handle of `key` is the update `key := value`. */
  lemma WriteValueContents<T>(hash: Hasher, s: seq<Slot<T>>, key: string, value: T)
    requires |s| > 0 && Placed(hash, s) && Get(hash, s, key).Some?
    ensures Contents(WriteValue(s, Index(hash, key, |s|), value)) == Contents(s)[key := value]
  {
    var i := Index(hash, key, |s|);
    var r := WriteValue(s, i, value);
    WriteValuePlaced(hash, s, i, value);
    PlacedDistinct(hash, s);
    PlacedDistinct(hash, r);
    assert r == s[i := Some(MapItem(key, value))];
    ContentsAfterWrite(s, i, Some(MapItem(key, value)));
    UpdateAsUnion(Contents(s), Entry(s[i]).Keys, key, value);
  }

  // ---------------------------------------------------------------------
  // Properties of single operations and of sequences of them

  /** Round trip: right after an accepted `set(key, value)`, `get(key)` is `value`. */
  lemma SetThenGet<T>(hash: Hasher, s: seq<Slot<T>>, key: string, value: T)
    requires |s| > 0 && Set(hash, s, key, value).1
    ensures Get(hash, Set(hash, s, key, value).0, key) == Some(value)
  {
  }

  /**
   * A `set` of a key whose slot is taken by another key is refused, and the
   * other key keeps its value.
   */
  lemma SetRefused<T>(hash: Hasher, s: seq<Slot<T>>, key: string, value: T, other: string, v: T)
    requires |s| > 0
    requires Get(hash, s, other) == Some(v) && other != key
    requires Index(hash, key, |s|) == Index(hash, other, |s|)
    ensures !Set(hash, s, key, value).1
    ensures Get(hash, Set(hash, s, key, value).0, other) == Some(v)
  {
  }

  /**
   * With a single slot, once a key is stored every `set` of a different key
   * is refused and the table stays full.
   */
  lemma SingleSlotRefuses<T>(hash: Hasher, s: seq<Slot<T>>, key: string, value: T)
    requires |s| == 1 && s[0].Some? && s[0].value.key != key
    ensures !Set(hash, s, key, value).1 && Set(hash, s, key, value).0 == s
    ensures Occupied(Set(hash, s, key, value).0) == 1
  {
    assert Occupied(s) == 1;
  }

  /**
   * Overwriting a key: once `set(key, v1)` was accepted, `set(key, v2)` is
   * accepted too, leaves the count as it was, and `get(key)` is `v2`.
   */
  lemma SetTwice<T>(hash: Hasher, s: seq<Slot<T>>, key: string, v1: T, v2: T)
    requires |s| > 0 && Set(hash, s, key, v1).1
    ensures Set(hash, Set(hash, s, key, v1).0, key, v2).1
    ensures Occupied(Set(hash, Set(hash, s, key, v1).0, key, v2).0) == Occupied(Set(hash, s, key, v1).0)
    ensures Get(hash, Set(hash, Set(hash, s, key, v1).0, key, v2).0, key) == Some(v2)
  {
    var s1 := Set(hash, s, key, v1).0;
    SetOccupied(hash, s1, key, v2);
  }

  /** After `delete(key)`, `get(key)` misses. */
  lemma DeleteThenGet<T>(hash: Hasher, s: seq<Slot<T>>, key: string)
    requires |s| > 0
    ensures Get(hash, Delete(hash, s, key), key) == None
  {
  }

  /** A write through the handle of key `key` is what a later `get(key)` returns. */
  lemma WriteValueThenGet<T>(hash: Hasher, s: seq<Slot<T>>, key: string, value: T)
    requires |s| > 0 && Get(hash, s, key).Some?
    ensures Get(hash, WriteValue(s, Index(hash, key, |s|), value), key) == Some(value)
  {
  }

  /** The table after deleting each of `keys` in turn. */
  function DeleteAll<T>(hash: Hasher, s: seq<Slot<T>>, keys: seq<string>): (r: seq<Slot<T>>)
    requires |s| > 0
    ensures |r| == |s|
    ensures forall m :: 0 <= m < |keys| ==> r[Index(hash, keys[m], |s|)].None?
    ensures forall j :: 0 <= j < |s| && (forall m :: 0 <= m < |keys| ==> Index(hash, keys[m], |s|) != j) ==> r[j] == s[j]
    ensures forall j :: 0 <= j < |s| && r[j].Some? ==> r[j] == s[j]
    decreases |keys|
  {
    if keys == [] then s
    else
      assert forall m :: 0 < m < |keys| ==> keys[1..][m - 1] == keys[m];
      DeleteAll(hash, Delete(hash, s, keys[0]), keys[1..])
  }

  /**
   * Deleting every stored key empties a placed table: the count returns to 0
   * and every one of the keys then misses.
   */
  lemma {:induction false} DeleteAllEmpties<T>(hash: Hasher, s: seq<Slot<T>>, keys: seq<string>)
    requires |s| > 0 && Placed(hash, s)
    requires forall j :: 0 <= j < |s| && s[j].Some? ==> s[j].value.key in keys
    ensures Occupied(DeleteAll(hash, s, keys)) == 0
    ensures forall k :: k in keys ==> Get(hash, DeleteAll(hash, s, keys), k) == None
    decreases |keys|
  {
    if keys != [] {
      var s' := Delete(hash, s, keys[0]);
      DeletePlaced(hash, s, keys[0]);
      forall j | 0 <= j < |s'| && s'[j].Some?
        ensures s'[j].value.key in keys[1..]
      {
        assert s'[j] == s[j] && j != Index(hash, keys[0], |s|);
      }
      DeleteAllEmpties(hash, s', keys[1..]);
    }
  }
}
