/** The persistence hook: a value mirrored under one key of the browser's key/value storage.
    Serialisation (`JSON.stringify`/`JSON.parse`) is taken to be an exact round trip, so a
    slot holds the value itself. */
module LocalStorage {
  import opened Wrappers

  /** `getStorageValue(key, defaultValue)`. Without a browser window there is no storage and
      the result is `undefined` (`None`), not the default; otherwise a stored value wins over
      the default. */
  function GetStorageValue<V>(slots: map<string, V>, key: string, default: V, hasWindow: bool): (r: Option<V>)
    ensures !hasWindow <==> r.None?
    ensures hasWindow && key !in slots ==> r == Some(default)
    ensures hasWindow && key in slots ==> r == Some(slots[key])
  {
    if !hasWindow then None
    else if key in slots then Some(slots[key])
    else Some(default)
  }

  /** After a write, a read of the same key returns what was written, whatever the default. */
  lemma ReadAfterWrite<V>(slots: map<string, V>, key: string, v: V, default: V)
    ensures GetStorageValue(slots[key := v], key, default, true) == Some(v)
  {
  }

  /** A write leaves every other key as it was. */
  lemma WriteKeepsOtherKeys<V>(slots: map<string, V>, key: string, v: V, other: string, default: V)
    requires other != key
    ensures GetStorageValue(slots[key := v], other, default, true) == GetStorageValue(slots, other, default, true)
  {
  }

  /** The browser's storage, seen at one value type. */
  class Storage<V> {
    var slots: map<string, V>

    constructor (initial: map<string, V>)
      ensures slots == initial
    {
      slots := initial;
    }

    /** `localStorage.getItem(key)`; `None` is `null`. */
    method GetItem(key: string) returns (r: Option<V>)
      ensures key in slots <==> r.Some?
      ensures r.Some? ==> r.value == slots[key]
    {
      if key in slots {
        r := Some(slots[key]);
      } else {
        r := None;
      }
    }

    /** `localStorage.setItem(key, value)`: overwrites one slot. */
    method SetItem(key: string, value: V)
      modifies this
      ensures slots == old(slots)[key := value]
    {
      slots := slots[key := value];
    }
  }

  /** One `useLocalStorage(key, defaultValue)` hook: the current value and its write-back.
      The effect that writes the value back runs after the first render and after every
      change, so between events the slot under `key` always holds the whole current value. */
  class PersistentState<V> {
    const key: string
    const storage: Storage<V>
    var value: V

    ghost predicate Valid()
      reads this, storage
    {
      key in storage.slots && storage.slots[key] == value
    }

    /** Mounting the hook in a browser: hydrate from storage or fall back to the default,
        then write the value back. */
    constructor (storage: Storage<V>, key: string, default: V)
      modifies storage
      ensures this.key == key && this.storage == storage && Valid()
      ensures value == GetStorageValue(old(storage.slots), key, default, true).value
      ensures storage.slots == old(storage.slots)[key := value]
    {
      this.key := key;
      this.storage := storage;
      this.value := GetStorageValue(storage.slots, key, default, true).value;
      new;
      storage.SetItem(key, value);
    }

    /** The setter followed by its effect: the new value replaces the old one, in memory and
        under `key`, and no other key changes. */
    method Set(v: V)
      requires Valid()
      modifies this, storage
      ensures Valid() && value == v
      ensures storage.slots == old(storage.slots)[key := v]
    {
      value := v;
      storage.SetItem(key, v);
    }
  }
}
