/** The content-addressed module registry: de-duplication, eviction and the byte counter. */
module ModuleRegistry {
  import opened Common
  import opened ByteTotals

  type Hash = string

  datatype Config = Config(maxModules: nat, maxStorageBytes: nat, verifySignatures: bool)

  datatype Metadata = Metadata(signature: Option<string>)

  datatype RegistryError = StorageFull(used: nat, max: nat) | SignatureRequired

  /** The contents are the stored bytes by hash; the access counts go with them. */
  class Registry {
    const config: Config
    const contentHash: seq<byte> -> Hash
    var contents: map<Hash, seq<byte>>
    var accessCounts: map<Hash, nat>
    var totalBytes: nat
    var hits: nat
    var misses: nat

    /** Every key is the hash of its bytes, the counter is the sum of the sizes, and both limits
        hold; a limit of no modules at all still lets one in. */
    ghost predicate Valid()
      reads this
    {
      Consistent(config, contentHash, contents, accessCounts, totalBytes)
    }

    constructor (config: Config, contentHash: seq<byte> -> Hash)
      ensures Valid() && contents == map[] && hits == misses == 0
      ensures this.config == config && this.contentHash == contentHash
    {
      this.config, this.contentHash := config, contentHash;
      contents, accessCounts, totalBytes, hits, misses := map[], map[], 0, 0, 0;
      TotalEmpty<Hash>();
    }

    /** Evicts if the registry is at capacity, so that one more module fits. */
    method MakeRoom()
      requires Valid()
      modifies this
      ensures Valid() && hits == old(hits) && misses == old(misses)
      ensures AfterEviction(old(contents), old(accessCounts), config.maxModules, contents, accessCounts)
      ensures |contents| < AtLeastOne(config.maxModules)
    {
      hide Total;
      if |contents| >= config.maxModules {
        EvictLru();
      }
    }

    /** Stores a module unless its hash is present.  At capacity a least-accessed entry is evicted
        first, even if the store then fails. */
    method Store(wasmBytes: seq<byte>, metadata: Option<Metadata>) returns (r: Result<Hash, RegistryError>)
      requires Valid()
      modifies this
      ensures Valid() && hits == old(hits) && misses == old(misses)
      ensures contentHash(wasmBytes) in old(contents) ==>
        r == Ok(contentHash(wasmBytes)) && contents == old(contents) && accessCounts == old(accessCounts)
      ensures contentHash(wasmBytes) !in old(contents) ==>
        Stored(config, contentHash, old(contents), old(accessCounts), wasmBytes, metadata, r, contents, accessCounts)
      ensures r.Ok? ==> r.value == contentHash(wasmBytes) && r.value in contents && r.value in accessCounts
      ensures r.Ok? && r.value !in old(contents) ==> contents[r.value] == wasmBytes && accessCounts[r.value] == 0
      ensures r.Ok? && r.value !in old(contents) && config.verifySignatures ==>
        metadata.Some? && metadata.value.signature.Some?
      ensures r == Err(SignatureRequired) ==>
        && config.verifySignatures && (metadata.None? || metadata.value.signature.None?)
        && totalBytes + |wasmBytes| <= config.maxStorageBytes
      ensures r.Err? && r.error.StorageFull? ==>
        && r == Err(StorageFull(totalBytes, config.maxStorageBytes))
        && totalBytes + |wasmBytes| > config.maxStorageBytes
    {
      hide Total, Consistent, AfterEviction, LeastAccessed;
      KeysAgree(config, contentHash, contents, accessCounts, totalBytes);
      var hash := contentHash(wasmBytes);
      if hash in contents {
        return Ok(hash);
      }
      MakeRoom();
      ghost var kept, keptCounts := contents, accessCounts;
      EvictionShrinks(old(contents), old(accessCounts), config.maxModules, kept, keptCounts);
      UsedIsTotal(config, contentHash, contents, accessCounts, totalBytes);
      var size := |wasmBytes|;
      if totalBytes + size > config.maxStorageBytes {
        return Err(StorageFull(totalBytes, config.maxStorageBytes));
      }
      if config.verifySignatures {
        if metadata.None? || metadata.value.signature.None? {
          return Err(SignatureRequired);
        }
      }
      InsertKeepsConsistent(config, contentHash, contents, accessCounts, totalBytes, wasmBytes);
      contents := contents[hash := wasmBytes];
      accessCounts := accessCounts[hash := 0];
      totalBytes := totalBytes + size;
      return Ok(hash);
    }

    method Get(hash: Hash) returns (r: Option<(seq<byte>, nat)>)
      requires Valid()
      modifies this
      ensures Valid() && contents == old(contents)
      ensures hash in contents ==>
        && r == Some((contents[hash], accessCounts[hash])) && contentHash(contents[hash]) == hash
        && accessCounts == old(accessCounts)[hash := old(accessCounts)[hash] + 1]
        && hits == old(hits) + 1 && misses == old(misses)
      ensures hash !in contents ==>
        r == None && accessCounts == old(accessCounts) && hits == old(hits) && misses == old(misses) + 1
    {
      if hash in contents {
        hits := hits + 1;
        accessCounts := accessCounts[hash := accessCounts[hash] + 1];
        return Some((contents[hash], accessCounts[hash]));
      }
      misses := misses + 1;
      return None;
    }

    /** The counter never goes below zero: it is the sum of the sizes. */
    method Remove(hash: Hash) returns (removed: bool)
      requires Valid()
      modifies this
      ensures Valid() && removed == (hash in old(contents))
      ensures contents == old(contents) - {hash} && accessCounts == old(accessCounts) - {hash}
      ensures hits == old(hits) && misses == old(misses)
    {
      hide Total, Consistent;
      if hash in contents {
        RemoveKeepsConsistent(config, contentHash, contents, accessCounts, totalBytes, hash);
        totalBytes := totalBytes - |contents[hash]|;
        contents := contents - {hash};
        accessCounts := accessCounts - {hash};
        return true;
      }
      RemoveAbsent(config, contentHash, contents, accessCounts, totalBytes, hash);
      return false;
    }

    method Clear()
      requires Valid()
      modifies this
      ensures Valid() && contents == map[] && totalBytes == 0
      ensures hits == old(hits) && misses == old(misses)
    {
      contents, accessCounts, totalBytes := map[], map[], 0;
      TotalEmpty<Hash>();
    }

    /** Drops one entry of lowest access count, if there is any. */
    method EvictLru()
      requires Valid()
      modifies this
      ensures Valid() && hits == old(hits) && misses == old(misses)
      ensures old(contents) == map[] ==> contents == map[]
      ensures old(contents) != map[] ==> exists victim ::
        && LeastAccessed(old(accessCounts), victim)
        && contents == old(contents) - {victim} && accessCounts == old(accessCounts) - {victim}
    {
      hide Total;
      var todo := contents.Keys;
      var lru: Option<Hash> := None;
      while todo != {}
        invariant todo <= contents.Keys
        invariant lru.None? ==> todo == contents.Keys
        invariant lru.Some? ==> lru.value in accessCounts
        invariant lru.Some? ==> forall h | h in accessCounts && h !in todo :: accessCounts[lru.value] <= accessCounts[h]
      {
        var h :| h in todo;
        if lru.None? || accessCounts[h] < accessCounts[lru.value] {
          lru := Some(h);
        }
        todo := todo - {h};
      }
      if lru.Some? {
        assert LeastAccessed(accessCounts, lru.value);
        var _ := Remove(lru.value);
      }
    }
  }

  ghost predicate Consistent(config: Config, contentHash: seq<byte> -> Hash, contents: map<Hash, seq<byte>>,
                             counts: map<Hash, nat>, totalBytes: nat) {
    && counts.Keys == contents.Keys
    && (forall h | h in contents :: contentHash(contents[h]) == h)
    && totalBytes == Total(contents) <= config.maxStorageBytes
    && |contents| <= AtLeastOne(config.maxModules)
  }

  lemma RemoveKeepsConsistent(config: Config, contentHash: seq<byte> -> Hash, contents: map<Hash, seq<byte>>,
                              counts: map<Hash, nat>, totalBytes: nat, h: Hash)
    requires Consistent(config, contentHash, contents, counts, totalBytes) && h in contents
    ensures totalBytes >= |contents[h]| && |contents - {h}| == |contents| - 1
    ensures Consistent(config, contentHash, contents - {h}, counts - {h}, totalBytes - |contents[h]|)
  {
    hide Total;
    TotalRemove(contents, h);
    assert (contents - {h}).Keys == contents.Keys - {h};
  }

  lemma KeysAgree(config: Config, contentHash: seq<byte> -> Hash, contents: map<Hash, seq<byte>>,
                  counts: map<Hash, nat>, totalBytes: nat)
    requires Consistent(config, contentHash, contents, counts, totalBytes)
    ensures counts.Keys == contents.Keys
  {
    hide Total;
  }

  lemma RemoveAbsent(config: Config, contentHash: seq<byte> -> Hash, contents: map<Hash, seq<byte>>,
                     counts: map<Hash, nat>, totalBytes: nat, h: Hash)
    requires Consistent(config, contentHash, contents, counts, totalBytes) && h !in contents
    ensures contents - {h} == contents && counts - {h} == counts
  {
    hide Total;
  }

  lemma InsertKeepsConsistent(config: Config, contentHash: seq<byte> -> Hash, contents: map<Hash, seq<byte>>,
                              counts: map<Hash, nat>, totalBytes: nat, bytes: seq<byte>)
    requires Consistent(config, contentHash, contents, counts, totalBytes)
    requires contentHash(bytes) !in contents && |contents| < AtLeastOne(config.maxModules)
    requires totalBytes + |bytes| <= config.maxStorageBytes
    ensures Consistent(config, contentHash, contents[contentHash(bytes) := bytes], counts[contentHash(bytes) := 0],
                       totalBytes + |bytes|)
  {
    hide Total;
    var h := contentHash(bytes);
    TotalUpdate(contents, h, bytes);
    assert contents[h := bytes].Keys == contents.Keys + {h};
    assert |contents.Keys + {h}| == |contents| + 1;
  }

  ghost predicate LeastAccessed(counts: map<Hash, nat>, victim: Hash) {
    victim in counts && forall h | h in counts :: counts[victim] <= counts[h]
  }

  /** In plain terms: no entry has been read less often. */
  lemma LeastInPlainTerms(counts: map<Hash, nat>, victim: Hash)
    ensures LeastAccessed(counts, victim) <==> victim in counts && !exists h :: h in counts && counts[h] < counts[victim]
  {
  }

  /** What a store keeps of the earlier entries: all of them below capacity, else all but one of
      lowest access count. */
  ghost predicate AfterEviction(contents: map<Hash, seq<byte>>, counts: map<Hash, nat>, maxModules: nat,
                                kept: map<Hash, seq<byte>>, keptCounts: map<Hash, nat>) {
    if |contents| < maxModules || contents == map[] then kept == contents && keptCounts == counts
    else exists victim ::
      LeastAccessed(counts, victim) && kept == contents - {victim} && keptCounts == counts - {victim}
  }

  lemma EvictionShrinks(contents: map<Hash, seq<byte>>, counts: map<Hash, nat>, maxModules: nat,
                        kept: map<Hash, seq<byte>>, keptCounts: map<Hash, nat>)
    requires AfterEviction(contents, counts, maxModules, kept, keptCounts)
    ensures kept.Keys <= contents.Keys
  {
  }

  lemma UsedIsTotal(config: Config, contentHash: seq<byte> -> Hash, contents: map<Hash, seq<byte>>,
                    counts: map<Hash, nat>, totalBytes: nat)
    requires Consistent(config, contentHash, contents, counts, totalBytes)
    ensures totalBytes == Total(contents)
  {
    hide Total;
  }

  /** What storing new bytes does: after making room, they are added under their hash with a fresh
      count if the storage limit and the signature rule allow, and nothing more happens if not. */
  ghost predicate Stored(config: Config, contentHash: seq<byte> -> Hash, contents: map<Hash, seq<byte>>,
                         counts: map<Hash, nat>, wasmBytes: seq<byte>, metadata: Option<Metadata>,
                         r: Result<Hash, RegistryError>, contents': map<Hash, seq<byte>>, counts': map<Hash, nat>) {
    exists kept, keptCounts ::
      && AfterEviction(contents, counts, config.maxModules, kept, keptCounts)
      && r == StoreVerdict(config, Total(kept), wasmBytes, metadata, contentHash)
      && contents' == (if r.Ok? then kept[contentHash(wasmBytes) := wasmBytes] else kept)
      && counts' == (if r.Ok? then keptCounts[contentHash(wasmBytes) := 0] else keptCounts)
  }

  /** A failing store loses at most one entry, a least-accessed one, and it does so exactly if the
      registry is at capacity and not empty: the eviction comes before every check. */
  lemma FailingStoreLosesAtMostOne(config: Config, contentHash: seq<byte> -> Hash, contents: map<Hash, seq<byte>>,
                                   counts: map<Hash, nat>, wasmBytes: seq<byte>, metadata: Option<Metadata>,
                                   r: Result<Hash, RegistryError>, contents': map<Hash, seq<byte>>, counts': map<Hash, nat>)
    requires Stored(config, contentHash, contents, counts, wasmBytes, metadata, r, contents', counts') && r.Err?
    ensures |contents| < config.maxModules ==> contents' == contents
    ensures contents' == contents || exists victim :: LeastAccessed(counts, victim) && contents' == contents - {victim}
    ensures counts.Keys == contents.Keys ==> (contents' == contents <==> |contents| < config.maxModules || contents == map[])
  {
    hide Total;
    if counts.Keys == contents.Keys && |contents| >= config.maxModules && contents != map[] {
      var victim :| LeastAccessed(counts, victim) && contents' == contents - {victim};
      assert victim in contents && victim !in contents';
    }
  }

  /** A store with a large enough limit and a signature always succeeds, and the module can be read back. */
  lemma StoredIsReadable(config: Config, contentHash: seq<byte> -> Hash, contents: map<Hash, seq<byte>>,
                         counts: map<Hash, nat>, wasmBytes: seq<byte>, metadata: Option<Metadata>,
                         r: Result<Hash, RegistryError>, contents': map<Hash, seq<byte>>, counts': map<Hash, nat>)
    requires Stored(config, contentHash, contents, counts, wasmBytes, metadata, r, contents', counts')
    requires Total(contents) + |wasmBytes| <= config.maxStorageBytes
    requires config.verifySignatures ==> metadata.Some? && metadata.value.signature.Some?
    requires counts.Keys == contents.Keys
    ensures r == Ok(contentHash(wasmBytes))
    ensures contentHash(wasmBytes) in contents' && contents'[contentHash(wasmBytes)] == wasmBytes
  {
    hide Total;
    var kept, keptCounts :|
      && AfterEviction(contents, counts, config.maxModules, kept, keptCounts)
      && r == StoreVerdict(config, Total(kept), wasmBytes, metadata, contentHash)
      && contents' == (if r.Ok? then kept[contentHash(wasmBytes) := wasmBytes] else kept);
    if kept != contents {
      var victim :| LeastAccessed(counts, victim) && kept == contents - {victim};
      TotalRemove(contents, victim);
    }
  }

  /** The storage limit is checked before the signature. */
  ghost function StoreVerdict(config: Config, used: nat, wasmBytes: seq<byte>, metadata: Option<Metadata>,
                              contentHash: seq<byte> -> Hash): Result<Hash, RegistryError> {
    if used + |wasmBytes| > config.maxStorageBytes then Err(StorageFull(used, config.maxStorageBytes))
    else if config.verifySignatures && !(metadata.Some? && metadata.value.signature.Some?) then Err(SignatureRequired)
    else Ok(contentHash(wasmBytes))
  }
}
