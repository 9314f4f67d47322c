/**
 * `StringMap<T>`: a fixed number of slots in one array, each empty or holding
 * one key and its value, addressed by `hash(key) % capacity`.
 *
 * Each method is proved against the function of module Slots that specifies
 * it; the properties of those functions (round trip, refusal, occupancy
 * bookkeeping) carry over to the object's state.
 */
module StringMaps {
  import Slots

  class StringMap<T> {
    /** The hash the table addresses its slots with. */
    const hash: Slots.Hasher
    /** The slots; the array, and so the number of slots, is fixed at construction. */
    const items: array<Slots.Slot<T>>

    /** The object invariant: every stored key sits at its own index. */
    ghost predicate Valid()
      reads this, items
    {
      Slots.Placed(hash, items[..])
    }

    /** `new(size)`: `size` slots, all empty. */
    constructor (size: nat, hash: Slots.Hasher)
      ensures Valid() && fresh(items)
      ensures this.hash == hash
      ensures items[..] == Slots.Empty(size)
    {
      this.hash := hash;
      var slots := new Slots.Slot<T>[size];
      for k := 0 to size
        invariant forall j :: 0 <= j < k ==> slots[j] == Slots.None
      {
        slots[k] := Slots.None;
      }
      items := slots;
      new;
      Slots.EmptyPlaced<T>(hash, size);
    }

    /**
     * `set(key, value)`: stores into the key's slot if it is empty or holds
     * `key`, and tells whether it did.
     */
    method Set(key: string, value: T) returns (stored: bool)
      requires Valid() && items.Length > 0
      modifies items
      ensures Valid()
      ensures (items[..], stored) == Slots.Set(hash, old(items[..]), key, value)
    {
      ghost var before := items[..];
      var i := Slots.Index(hash, key, items.Length);
      var change := match items[i] case Some(item) => item.key == key case None => true;
      if change {
        items[i] := Slots.Some(Slots.MapItem(key, value));
        stored := true;
      } else {
        stored := false;
      }
      Slots.SetPlaced(hash, before, key, value);
    }

    /** `get(key)`: the value when the key's slot holds exactly `key`. */
    method Get(key: string) returns (r: Slots.Option<T>)
      requires items.Length > 0
      ensures r == Slots.Get(hash, items[..], key)
    {
      var i := Slots.Index(hash, key, items.Length);
      r := Slots.None;
      if items[i].Some? && items[i].value.key == key {
        r := Slots.Some(items[i].value.value);
      }
    }

    /**
     * `get_mut(key)`: the same hit or miss as `get`; on a hit, a handle to the
     * stored value, which is the index of its slot (see WriteValue).
     */
    method GetMut(key: string) returns (handle: Slots.Option<nat>)
      requires items.Length > 0
      ensures handle.Some? <==> Slots.Get(hash, items[..], key).Some?
      ensures handle.Some? ==>
        handle.value == Slots.Index(hash, key, items.Length) &&
        Slots.Holds(items[handle.value], key)
    {
      var i := Slots.Index(hash, key, items.Length);
      handle := Slots.None;
      if items[i].Some? && items[i].value.key == key {
        handle := Slots.Some(i);
      }
    }

    /**
     * An assignment through the handle `GetMut` returned: only that slot's
     * value changes.
     */
    method WriteValue(handle: nat, value: T)
      requires Valid() && handle < items.Length && items[handle].Some?
      modifies items
      ensures Valid()
      ensures items[..] == Slots.WriteValue(old(items[..]), handle, value)
    {
      ghost var before := items[..];
      items[handle] := Slots.Some(items[handle].value.(value := value));
      Slots.WriteValuePlaced(hash, before, handle, value);
    }

    /** `delete(key)`: empties the key's slot, whichever key it held. */
    method Delete(key: string)
      requires Valid() && items.Length > 0
      modifies items
      ensures Valid()
      ensures items[..] == Slots.Delete(hash, old(items[..]), key)
    {
      ghost var before := items[..];
      var i := Slots.Index(hash, key, items.Length);
      items[i] := Slots.None;
      Slots.DeletePlaced(hash, before, key);
    }

    /** `load()`: how many of the slots are occupied, and how many there are. */
    function Load(): (r: Slots.Load)
      reads this, items
      ensures r.capacity == items.Length && r.occupied == Slots.Occupied(items[..])
      ensures r.occupied <= r.capacity
      ensures r.occupied == 0 <==> forall j :: 0 <= j < items.Length ==> items[j].None?
    {
      Slots.LoadOf(items[..])
    }
  }
}
