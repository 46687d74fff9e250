/**
 guest/9pfuse/attrcache.go: attributes cached for a limited time. Times are nanosecond counts of one
 monotonic clock, passed in where the source calls time.Now.
 */
module AttrCache {
  import opened Wrappers

  datatype Entry<A> = Entry(attr: A, expiry: nat)

  type Entries<K(==), A> = map<K, Entry<A>>

  /** The attribute a lookup at time `now` hits, if any. */
  function Lookup<K(==), A>(entries: Entries<K, A>, key: K, now: nat): Option<A> {
    if key in entries && now <= entries[key].expiry then Some(entries[key].attr) else None
  }

  /** A lookup that finds an expired entry removes it. */
  function AfterLookup<K(==), A>(entries: Entries<K, A>, key: K, now: nat): Entries<K, A> {
    if key in entries && now > entries[key].expiry then entries - {key} else entries
  }

  class AttrCache<K(==), A> {
    var entries: Entries<K, A>
    const ttl: nat

    constructor (ttl: nat)
      ensures this.ttl == ttl && entries == map[]
    {
      this.ttl := ttl;
      entries := map[];
    }

    method Get(key: K, now: nat) returns (hit: Option<A>)
      modifies this
      ensures hit == Lookup(old(entries), key, now)
      ensures entries == AfterLookup(old(entries), key, now)
      ensures if key in old(entries) && now <= old(entries)[key].expiry then
                hit == Some(old(entries)[key].attr) && entries == old(entries)
              else
                hit == None && entries == old(entries) - {key}
    {
      if key !in entries {
        return None;
      }
      if now > entries[key].expiry {
        entries := entries - {key};
        return None;
      }
      return Some(entries[key].attr);
    }

    method Put(key: K, attr: A, now: nat)
      modifies this
      ensures entries == old(entries)[key := Entry(attr, now + ttl)]
    {
      entries := entries[key := Entry(attr, now + ttl)];
    }

    method Invalidate(key: K)
      modifies this
      ensures entries == old(entries) - {key}
    {
      entries := entries - {key};
    }

    /** Drops what has expired; no lookup from now on can tell the difference. */
    method Cleanup(now: nat)
      modifies this
      ensures forall key :: key in entries <==> key in old(entries) && now <= old(entries)[key].expiry
      ensures forall key, later :: later >= now ==> Lookup(entries, key, later) == Lookup(old(entries), key, later)
    {
      var keys := entries.Keys;
      while keys != {}
        invariant keys <= entries.Keys && entries.Keys <= old(entries).Keys
        invariant forall key :: key in entries ==> entries[key] == old(entries)[key]
        invariant forall key :: key in old(entries) ==>
          if key in keys then key in entries else key in entries <==> now <= old(entries)[key].expiry
        decreases keys
      {
        var key :| key in keys;
        keys := keys - {key};
        if now > entries[key].expiry {
          entries := entries - {key};
        }
      }
    }
  }

  /** Removes every key that begins with the prefix, as text. */
  method InvalidatePrefix<A>(cache: AttrCache<string, A>, prefix: string)
    modifies cache
    ensures forall key :: key in cache.entries <==> key in old(cache.entries) && !(prefix <= key)
    ensures forall key :: key in cache.entries ==> cache.entries[key] == old(cache.entries)[key]
  {
    var keys := cache.entries.Keys;
    while keys != {}
      invariant keys <= cache.entries.Keys && cache.entries.Keys <= old(cache.entries).Keys
      invariant forall key :: key in cache.entries ==> cache.entries[key] == old(cache.entries)[key]
      invariant forall key :: key in old(cache.entries) ==>
        if key in keys then key in cache.entries else key in cache.entries <==> !(prefix <= key)
      decreases keys
    {
      var key :| key in keys;
      keys := keys - {key};
      if |key| >= |prefix| && key[..|prefix|] == prefix {
        cache.Invalidate(key);
      }
    }
  }
}
