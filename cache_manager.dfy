/** The cache manager: the memoised cache key held in the global `$sbsp`,
    the host's transient store it indexes, and the save hook that drops the
    entry. */
module CacheManager {

  datatype Option<T> = None | Some(value: T)

  /** The initial `$sbsp['cacheKey']`. */
  const BaseKey: string := "sbsp_select"

  /** The key `sbsp_getCacheKey` leaves behind when called with the screen's
      post type, given the key and flag it finds. */
  function KeyAfter(keyCreated: bool, cacheKey: string, screenPostType: string): string
  {
    if keyCreated then cacheKey else cacheKey + "_" + screenPostType
  }

  /** The global `$sbsp`: the cache key and whether its suffix was added. */
  class KeyState {
    var cacheKey: string
    var keyCreated: bool
    /** The post type whose suffix was appended, once there is one. */
    ghost var suffixType: string

    /** Before the first call the key is the base key; afterwards it is the
        base key, one `_`, and the post type of the first call. */
    ghost predicate Valid()
      reads this
    {
      cacheKey == if keyCreated then BaseKey + "_" + suffixType else BaseKey
    }

    /** The initialisation of `$sbsp` when the plugin loads. */
    constructor ()
      ensures Valid() && cacheKey == BaseKey && !keyCreated
    {
      cacheKey := BaseKey;
      keyCreated := false;
      suffixType := "";
    }

    /** `sbsp_getCacheKey()`, with the screen's post type passed in: the
        first call appends `_` and the post type and sets the flag; every
        later call returns the key as it is. */
    method GetCacheKey(screenPostType: string) returns (key: string)
      requires Valid()
      modifies this
      ensures Valid() && keyCreated && key == cacheKey
      ensures cacheKey == KeyAfter(old(keyCreated), old(cacheKey), screenPostType)
      ensures old(keyCreated) ==> unchanged(this)
      ensures !old(keyCreated) ==> suffixType == screenPostType
    {
      if !keyCreated {
        cacheKey := cacheKey + "_" + screenPostType;
        keyCreated := true;
        suffixType := screenPostType;
      }
      key := cacheKey;
    }
  }

  /** Two calls in one request return the same key, built from the first
      call's post type, whatever the second call's screen says. */
  method KeyIsComputedOnce(firstType: string, secondType: string) returns (k1: string, k2: string)
    ensures k1 == k2 == BaseKey + "_" + firstType
  {
    var sbsp := new KeyState();
    k1 := sbsp.GetCacheKey(firstType);
    k2 := sbsp.GetCacheKey(secondType);
  }

  /** What `get_transient` gives for `key`: the stored value, or nothing
      (PHP `false`). */
  function Lookup(entries: map<string, string>, key: string): Option<string>
  {
    if key in entries then Some(entries[key]) else None
  }

  /** The host's transient store, as get/set/delete over a map. */
  class TransientStore {
    var entries: map<string, string>

    constructor ()
      ensures entries == map[]
    {
      entries := map[];
    }

    /** `get_transient($key)`. */
    method Get(key: string) returns (v: Option<string>)
      ensures v == Lookup(entries, key)
    {
      v := if key in entries then Some(entries[key]) else None;
    }

    /** `set_transient($key, $value, ...)`. */
    method Set(key: string, value: string)
      modifies this
      ensures entries == old(entries)[key := value]
    {
      entries := entries[key := value];
    }

    /** `delete_transient($key)`. */
    method Delete(key: string)
      modifies this
      ensures entries == old(entries) - {key}
    {
      entries := entries - {key};
    }
  }

  /** A stored value is read back until the key is deleted, and not after. */
  lemma {:induction false} StoreRoundTrip(entries: map<string, string>, key: string, value: string, other: string)
    ensures Lookup(entries[key := value], key) == Some(value)
    ensures other != key ==> Lookup(entries[key := value], other) == Lookup(entries, other)
    ensures Lookup(entries - {key}, key) == None
  {
  }

  /** `sbsp_removeCacheKey()`, run on `save_post`, with the screen's post
      type and `is_post_type_hierarchical` passed in: the key is computed
      (and memoised) either way, and the entry is dropped only for a
      hierarchical post type. */
  method RemoveCacheKey(sbsp: KeyState, store: TransientStore, screenPostType: string,
                        isHierarchical: string -> bool)
    requires sbsp.Valid()
    modifies sbsp, store
    ensures sbsp.Valid() && sbsp.keyCreated
    ensures sbsp.cacheKey == KeyAfter(old(sbsp.keyCreated), old(sbsp.cacheKey), screenPostType)
    ensures isHierarchical(screenPostType) ==> store.entries == old(store.entries) - {sbsp.cacheKey}
    ensures !isHierarchical(screenPostType) ==> store.entries == old(store.entries)
  {
    // The debugging cookie set from this key is not modelled.
    var cookieKey := sbsp.GetCacheKey(screenPostType);
    if isHierarchical(screenPostType) {
      var key := sbsp.GetCacheKey(screenPostType);
      store.Delete(key);
    }
  }
}
