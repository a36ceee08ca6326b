/**
 * The Swift `HashMap` class: 256 buckets, each nil or a linked chain of
 * key/value nodes. A bucket is a slot of a fixed array holding the chain's
 * entries in link order; the empty sequence stands for nil. `Contents` is the
 * map of strings the table represents.
 */
module HashMaps {
  import opened Wrappers
  import opened HashMapSpec

  class HashMap {
    const buckets: array<seq<KeyValue>>
    ghost var Contents: map<string, string>

    /**
     * Object invariant: 256 buckets, every bucket satisfies ChainValid, and
     * looking a key up in its bucket reports exactly what Contents holds.
     */
    ghost predicate Valid()
      reads this, buckets
    {
      buckets.Length == Modulus && TableValid(buckets[..]) && Represents(buckets[..], Contents)
    }

    /** `Array(repeating: nil, count: 256)`: every bucket empty. */
    constructor ()
      ensures Valid() && fresh(buckets)
      ensures Contents == map[]
    {
      buckets := new seq<KeyValue>[Modulus](_ => []);
      Contents := map[];
      new;
      EmptyTable(buckets[..]);
    }

    /** `get(_:)`: the value stored under `key`, or nil if it was never set. */
    method Get(key: string) returns (r: Option<string>)
      requires Valid()
      ensures r.Some? <==> key in Contents
      ensures r.Some? ==> r.value == Contents[key]
    {
      var keyMod := Mod(key);
      var linklist := buckets[keyMod];
      assert Lookup(buckets[..][Mod(key)], key) == if key in Contents then Some(Contents[key]) else None;
      if linklist == [] {
        return None;
      }
      var targetKeyValue := Find(linklist, key);
      if targetKeyValue.None? {
        return None;
      }
      r := Some(linklist[targetKeyValue.value].value);
    }

    /**
     * `set(key:value:)`: start a one-entry chain in an empty bucket, else
     * overwrite the value of the entry with this key where it stands, else
     * link a new entry after the end of the chain. Other buckets are untouched.
     */
    method Set(key: string, value: string)
      requires Valid()
      modifies this, buckets
      ensures Valid()
      ensures Contents == old(Contents)[key := value]
      ensures forall b :: 0 <= b < Modulus && b != Mod(key) ==> buckets[b] == old(buckets[b])
      ensures var chain := old(buckets[Mod(key)]);
        match Find(chain, key)
        case Some(i) => buckets[Mod(key)] == chain[i := KeyValue(key, value)]
        case None => buckets[Mod(key)] == chain + [KeyValue(key, value)]
    {
      var keyMod := Mod(key);
      var linklist := buckets[keyMod];
      ghost var table := buckets[..];
      var kv := KeyValue(key, value);
      var newChain;
      if linklist == [] {
        newChain := [kv];
        ChainSingleton(kv, keyMod);
      } else {
        var findedKeyValue := Find(linklist, key);
        if findedKeyValue.None? {
          var endNode := FindEndNode(linklist);
          assert linklist[..endNode + 1] == linklist;
          newChain := linklist[..endNode + 1] + [kv];
          ChainAppend(linklist, kv, keyMod);
        } else {
          var i := findedKeyValue.value;
          newChain := linklist[i := linklist[i].(value := value)];
          assert linklist[i].(value := value) == kv;
          ChainOverwrite(linklist, key, i, value, keyMod);
        }
      }
      TableUpdate(table, Contents, key, value, newChain);
      buckets[keyMod] := newChain;
      Contents := Contents[key := value];
      assert buckets[..] == table[keyMod := newChain];
    }
  }
}
