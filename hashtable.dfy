/** The `Hashtable` class of writer_bot_ht.py: a fixed number of slots in an
    array, string keys hashed by a base-31 polynomial, collisions resolved by
    probing backward one slot at a time. */
module HashTable {
  import opened Slots

  class Hashtable {
    /** `_size`: the number of slots, fixed at construction. */
    const size: nat
    /** `_pairs`: the slots; the array itself is never replaced, only its cells. */
    const pairs: array<Slot>

    ghost predicate Valid()
      reads pairs
    {
      pairs.Length == size && Slots.Valid(pairs[..])
    }

    /** `Hashtable(size)`: `size` empty slots. */
    constructor (size: nat)
      requires size > 0
      ensures Valid() && fresh(pairs) && this.size == size
      ensures pairs[..] == EmptySlots(size)
    {
      this.size := size;
      pairs := new Slot[size](_ => Empty);
      new;
      assert pairs[..] == EmptySlots(size);
      EmptySlotsValid(size);
    }

    /** `_hash(key)`: fold `p := 31 * p + ord(c)` over the key, then reduce
        modulo the size. */
    method Hash(key: string) returns (h: nat)
      requires size > 0
      ensures h < size && h == HashFold(key) % size
    {
      var p := 0;
      for k := 0 to |key|
        invariant p == HashFold(key[..k])
      {
        assert key[..k + 1][..k] == key[..k];
        p := 31 * p + key[k] as int;
      }
      assert key[..|key|] == key;
      h := p % size;
    }

    /** `put(key, value)`. When the probe loop gives up (the source prints
        "Hash table is full." and exits) `ok` is false and no slot changes. */
    method Put(key: string, value: string) returns (ok: bool)
      requires Valid()
      modifies pairs
      ensures Valid()
      ensures ok == Slots.Put(old(pairs[..]), key, value).Ok?
      ensures ok ==> pairs[..] == Slots.Put(old(pairs[..]), key, value).value
      ensures !ok ==> pairs[..] == old(pairs[..])
    {
      ghost var s := pairs[..];
      ghost var home := Slots.Hash(key, size);
      var index := Hash(key);
      ProbeStart(home, size);
      var count := 0;
      while pairs[index].Pair? && pairs[index].key != key
        invariant pairs[..] == s
        invariant count <= size + 1
        invariant index == ProbeIndex(home, count, size)
        invariant FindSlot(s, key, count) == FindSlot(s, key, 0)
        decreases size + 1 - count
      {
        if count > size {
          return false;
        }
        ProbeStep(home, count, size);
        index := (index - 1) % size;
        count := count + 1;
      }
      if pairs[index].Pair? {
        pairs[index] := pairs[index].(values := pairs[index].values + [value]);
      } else {
        pairs[index] := Pair(key, [value]);
      }
      ok := true;
      PutValid(s, key, value);
    }

    /** `get(key)`: the key's list, or None once the probe reaches an empty
        slot. The source's loop has no probe counter, so it only ends when
        some slot is empty or holds `key`. */
    method Get(key: string) returns (r: Option<seq<string>>)
      requires Valid() && HasStop(pairs[..], key)
      ensures r == Lookup(pairs[..], key)
      ensures r.Some? <==> Stored(pairs[..], key)
      ensures r.Some? ==> r.value == ValuesOf(pairs[..], key) && r.value != []
    {
      ghost var s := pairs[..];
      ghost var home := Slots.Hash(key, size);
      FindSlotFirst(s, key, 0);
      LookupMeaning(s, key);
      ghost var stop := FindSlot(s, key, 0).value;
      ghost var d := Distance(home, stop, size);
      assert FirstStop(s, key, stop);
      ProbeAtDistance(home, stop, size);
      var index := Hash(key);
      ProbeStart(home, size);
      ghost var count := 0;
      while pairs[index].Pair?
        invariant count <= d
        invariant index == ProbeIndex(home, count, size)
        decreases d - count
      {
        if count < d {
          assert !Stops(s, index, key);
        }
        if pairs[index].key == key {
          return Some(pairs[index].values);
        }
        ProbeStep(home, count, size);
        index := (index - 1) % size;
        count := count + 1;
      }
      return None;
    }

    /** `key in table`, by the same probe loop as `get`. */
    method Contains(key: string) returns (b: bool)
      requires Valid() && HasStop(pairs[..], key)
      ensures b == Lookup(pairs[..], key).Some?
      ensures b <==> Stored(pairs[..], key)
    {
      ghost var s := pairs[..];
      ghost var home := Slots.Hash(key, size);
      FindSlotFirst(s, key, 0);
      LookupMeaning(s, key);
      ghost var stop := FindSlot(s, key, 0).value;
      ghost var d := Distance(home, stop, size);
      assert FirstStop(s, key, stop);
      ProbeAtDistance(home, stop, size);
      var index := Hash(key);
      ProbeStart(home, size);
      ghost var count := 0;
      while pairs[index].Pair?
        invariant count <= d
        invariant index == ProbeIndex(home, count, size)
        decreases d - count
      {
        if count < d {
          assert !Stops(s, index, key);
        }
        if pairs[index].key == key {
          return true;
        }
        ProbeStep(home, count, size);
        index := (index - 1) % size;
        count := count + 1;
      }
      return false;
    }
  }
}
