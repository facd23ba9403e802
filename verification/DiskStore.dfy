/** The chunk store of a node: write-once files behind a cache. */
module DiskStore {
  import opened Bytes
  import opened Lru
  import opened Wrappers

  /** Every cached value is what the file holds. */
  ghost predicate Coherent(list: seq<Entry>, files: map<string, seq<Byte>>) {
    forall e | e in list :: e.0 in files && files[e.0] == e.1
  }

  lemma FewerStayCoherent(list: seq<Entry>, fewer: seq<Entry>, files: map<string, seq<Byte>>)
    requires Coherent(list, files) && forall e | e in fewer :: e in list
    ensures Coherent(fewer, files)
  {}

  /**
    * Caching a value for an existing file keeps the cache coherent exactly when it is the file's, or too large to
    * cache.
    */
  lemma CachingIsCoherentIff(list: seq<Entry>, key: string, value: seq<Byte>, max: nat, files: map<string, seq<Byte>>)
    requires Coherent(list, files) && key in files
    ensures Coherent(Stored(list, key, value, max), files) <==> |value| > max || files[key] == value
  {
    hide Fit; hide Drop; hide Total;
    var all := [(key, value)] + Drop(list, key);
    DropMembers(list, key);
    FitLongest(all, max);
    if |value| <= max {
      StoredIsFirst(list, key, value, max);
      var r := Stored(list, key, value, max);
      assert r[0] in r && r[0] == (key, value);
      forall e | e in r && e != (key, value) ensures e in list { assert e in all; }
    }
  }

  class DiskStore {
    const cache: ChunkCache
    var files: map<string, seq<Byte>>

    constructor (maxBytes: int, stored: map<string, seq<Byte>>)
      ensures fresh(cache) && cache.Valid() && cache.Contents() == [] && files == stored
    {
      cache := new ChunkCache(maxBytes);
      files := stored;
    }

    ghost predicate Valid()
      reads this, cache, cache.Elements()
    {
      cache.Valid() && Coherent(cache.Contents(), files)
    }

    /** Reads through the cache: the answer is always the file's. */
    method Get(key: string) returns (r: Option<seq<Byte>>)
      requires Valid()
      modifies cache, cache.Elements()
      ensures Valid() && fresh(cache.Elements() - old(cache.Elements()))
      ensures r == if key in files then Some(files[key]) else None
      ensures cache.Contents() == if key in files then Access(old(cache.Contents()), key, files[key], cache.maxBytes)
                                  else old(cache.Contents())
    {
      hide ChunkCache.Linked; hide Fit; hide Drop; hide Find; hide UniqueKeys; hide Used; hide Stored;
      hide ChunkCache.Contents;
      ghost var list := cache.Contents();
      cache.UniquelyKeyed();
      FindMeans(list, key);
      UsedMembers(list, key);
      UsedWhenAbsent(list, key);
      r := cache.Get(key);
      if r.Some? {
        FewerStayCoherent(list, cache.Contents(), files);
      } else if key in files {
        CachingIsCoherentIff(list, key, files[key], cache.maxBytes, files);
        cache.Put(key, files[key]);
        r := Some(files[key]);
      }
    }

    static lemma UsedWhenAbsent(list: seq<Entry>, key: string)
      ensures Find(list, key) == None ==> Used(list, key) == list
    {}

    /**
      * Writes a file that is not there yet; one that is there keeps its bytes, while the cache takes the new ones.
      * A failed write leaves the files as they were.
      */
    method Put(key: string, data: seq<Byte>, fails: bool) returns (failed: bool)
      requires Valid()
      modifies this, cache, cache.Elements()
      ensures cache.Valid() && fresh(cache.Elements() - old(cache.Elements()))
      ensures failed <==> key !in old(files) && fails
      ensures files == if key in old(files) || fails then old(files) else old(files)[key := data]
      ensures Valid() <==> key !in old(files) || Find(old(cache.Contents()), key).Some?
                           || |data| > cache.maxBytes || old(files)[key] == data
    {
      hide ChunkCache.Linked; hide Fit; hide Drop; hide Find; hide UniqueKeys; hide Used; hide Stored;
      hide ChunkCache.Contents;
      ghost var list := cache.Contents();
      cache.UniquelyKeyed();
      FindMeans(list, key);
      UsedMembers(list, key);
      UsedWhenAbsent(list, key);
      var cached := cache.Get(key);
      if cached.Some? {
        FewerStayCoherent(list, cache.Contents(), files);
        return false;
      }
      if key in files {
        CachingIsCoherentIff(list, key, data, cache.maxBytes, files);
        cache.Put(key, data);
        return false;
      }
      if fails { return true; }
      files := files[key := data];
      CachingIsCoherentIff(list, key, data, cache.maxBytes, files);
      cache.Put(key, data);
      return false;
    }

    method Delete(key: string, fails: bool) returns (failed: bool)
      requires Valid()
      modifies this, cache
      ensures Valid() && cache.Elements() <= old(cache.Elements())
      ensures cache.Contents() == Drop(old(cache.Contents()), key)
      ensures failed <==> fails && key in old(files)
      ensures files == if failed then old(files) else old(files) - {key}
    {
      hide ChunkCache.Linked; hide Drop; hide ChunkCache.Contents;
      DropMembers(cache.Contents(), key);
      cache.Remove(key);
      if fails && key in files { return true; }
      files := files - {key};
      return false;
    }
  }
}
