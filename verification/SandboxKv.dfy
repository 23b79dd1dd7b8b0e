/** The embedded key-value store: quotas per namespace, and handles that share a namespace. */
module SandboxKv {
  import opened Common
  import opened ByteTotals

  datatype KvConfig = KvConfig(maxKeys: nat, maxValueSize: nat, maxNamespaceSize: nat, maxNamespaces: nat)

  datatype KvError =
    | ValueTooLarge(size: nat, max: nat)
    | TooManyKeys(count: nat, max: nat)
    | StorageExceeded(used: nat, max: nat)
    | TooManyNamespaces(count: nat, max: nat)

  type Entries = map<string, seq<byte>>

  /** All three quotas of a namespace. */
  ghost predicate WithinQuotas(config: KvConfig, entries: Entries) {
    && |entries| <= config.maxKeys
    && (forall k | k in entries :: |entries[k]| <= config.maxValueSize)
    && Total(entries) <= config.maxNamespaceSize
  }

  lemma QuotasAfterUpdate(config: KvConfig, entries: Entries, key: string, value: seq<byte>)
    requires WithinQuotas(config, entries)
    ensures WithinQuotas(config, entries[key := value]) <==>
      && |value| <= config.maxValueSize
      && (key !in entries ==> |entries| < config.maxKeys)
      && Total(entries) - (if key in entries then |entries[key]| else 0) + |value| <= config.maxNamespaceSize
  {
    hide Total;
    TotalUpdate(entries, key, value);
    var after := entries[key := value];
    assert after.Keys == entries.Keys + {key};
    assert |after| == if key in entries then |entries| else |entries| + 1 by {
      if key in entries {
        assert entries.Keys + {key} == entries.Keys;
      }
    }
    assert after[key] == value;
    assert forall k | k in after :: k == key || (k in entries && after[k] == entries[k]);
  }

  lemma QuotasAfterDelete(config: KvConfig, entries: Entries, key: string)
    requires WithinQuotas(config, entries) && key in entries
    ensures WithinQuotas(config, entries - {key}) && Total(entries - {key}) == Total(entries) - |entries[key]|
  {
    hide Total;
    TotalRemove(entries, key);
    assert (entries - {key}).Keys == entries.Keys - {key};
  }

  /** What every handle to one namespace shares. */
  class Namespace {
    const config: KvConfig
    var entries: Entries
    var totalBytes: nat

    /** The counter is the sum of the value sizes, and all quotas hold. */
    ghost predicate Valid()
      reads this
    {
      totalBytes == Total(entries) && WithinQuotas(config, entries)
    }

    constructor (config: KvConfig)
      ensures Valid() && entries == map[] && this.config == config
    {
      this.config := config;
      entries, totalBytes := map[], 0;
      TotalEmpty<string>();
    }

    method Get(key: string) returns (r: Option<seq<byte>>)
      requires Valid()
      ensures r == if key in entries then Some(entries[key]) else None
    {
      return if key in entries then Some(entries[key]) else None;
    }

    /** Succeeds exactly if the updated map is within all quotas; a rejected set changes nothing.
        The old size never exceeds the counter it is subtracted from. */
    method Set(key: string, value: seq<byte>) returns (r: Result<(), KvError>)
      requires Valid()
      modifies this
      ensures Valid()
      ensures r.Ok? <==> WithinQuotas(config, old(entries)[key := value])
      ensures entries == if r.Ok? then old(entries)[key := value] else old(entries)
      ensures |value| > config.maxValueSize ==> r == Err(ValueTooLarge(|value|, config.maxValueSize))
      ensures |value| <= config.maxValueSize && key !in old(entries) && |old(entries)| == config.maxKeys ==>
        r == Err(TooManyKeys(config.maxKeys, config.maxKeys))
      ensures r.Ok? || r.error in {
        ValueTooLarge(|value|, config.maxValueSize), TooManyKeys(config.maxKeys, config.maxKeys),
        StorageExceeded(Total(old(entries)[key := value]), config.maxNamespaceSize)}
      ensures r.Err? && r.error.StorageExceeded? ==> r.error.used > r.error.max
      ensures r.Err? && r.error.ValueTooLarge? ==> |value| > config.maxValueSize
      ensures r.Err? && r.error.TooManyKeys? ==> key !in old(entries) && |old(entries)| == config.maxKeys
    {
      hide Total;
      QuotasAfterUpdate(config, entries, key, value);
      TotalUpdate(entries, key, value);
      if |value| > config.maxValueSize {
        return Err(ValueTooLarge(|value|, config.maxValueSize));
      }
      if key in entries {
        TotalRemove(entries, key);
        var oldSize := |entries[key]|;
        var projected: nat := totalBytes - oldSize + |value|;
        if projected > config.maxNamespaceSize {
          return Err(StorageExceeded(projected, config.maxNamespaceSize));
        }
        totalBytes := totalBytes - oldSize;
        entries := entries[key := value];
        totalBytes := totalBytes + |value|;
      } else {
        if |entries| >= config.maxKeys {
          return Err(TooManyKeys(|entries|, config.maxKeys));
        }
        if totalBytes + |value| > config.maxNamespaceSize {
          return Err(StorageExceeded(totalBytes + |value|, config.maxNamespaceSize));
        }
        entries := entries[key := value];
        totalBytes := totalBytes + |value|;
      }
      return Ok(());
    }

    method Delete(key: string) returns (existed: bool)
      requires Valid()
      modifies this
      ensures Valid() && entries == old(entries) - {key} && existed == (key in old(entries))
    {
      hide Total;
      if key in entries {
        QuotasAfterDelete(config, entries, key);
        TotalRemove(entries, key);
        totalBytes := totalBytes - |entries[key]|;
        entries := entries - {key};
        return true;
      }
      assert entries - {key} == entries;
      return false;
    }

    method Clear()
      requires Valid()
      modifies this
      ensures Valid() && entries == map[]
    {
      entries, totalBytes := map[], 0;
      TotalEmpty<string>();
    }
  }

  lemma RemovedIsSmaller<V>(m: map<string, V>, k: string)
    ensures |m - {k}| <= |m| && (k in m ==> |m - {k}| < |m|)
  {
    assert (m - {k}).Keys == m.Keys - {k};
  }

  lemma RemovedThenSet<V>(m: map<string, V>, k: string, v: V)
    ensures (m - {k})[k := v] == m[k := v]
  {
  }

  /** A handle refers to its namespace whatever the store later does with the name. */
  datatype Handle = Handle(inner: Namespace, name: string)

  class Store {
    const config: KvConfig
    var namespaces: map<string, Namespace>

    /** Each live namespace is valid, no two names share one, and there are not too many. */
    ghost predicate Valid()
      reads this, namespaces.Values
    {
      && (forall n | n in namespaces :: namespaces[n].Valid() && namespaces[n].config == config)
      && (forall m, n | m in namespaces && n in namespaces && m != n :: namespaces[m] != namespaces[n])
      && |namespaces| <= config.maxNamespaces
    }

    constructor (config: KvConfig)
      ensures Valid() && namespaces == map[] && this.config == config
    {
      this.config := config;
      namespaces := map[];
    }

    /** A live name yields its namespace; a new one a fresh, empty namespace if there is room. */
    method GetNamespace(name: string) returns (r: Result<Handle, KvError>)
      requires Valid()
      modifies this
      ensures Valid()
      ensures r.Ok? <==> name in old(namespaces) || |old(namespaces)| < config.maxNamespaces
      ensures name in old(namespaces) ==> r == Ok(Handle(old(namespaces)[name], name)) && namespaces == old(namespaces)
      ensures r.Ok? && name !in old(namespaces) ==>
        fresh(r.value.inner) && r.value.inner.entries == map[] && namespaces == old(namespaces)[name := r.value.inner]
      ensures r.Ok? ==> r.value.inner.Valid() && r.value.name == name
      ensures r.Err? ==>
        namespaces == old(namespaces) && r.error == TooManyNamespaces(|namespaces|, config.maxNamespaces)
    {
      hide Total, WithinQuotas;
      if name in namespaces {
        return Ok(Handle(namespaces[name], name));
      }
      if |namespaces| >= config.maxNamespaces {
        return Err(TooManyNamespaces(|namespaces|, config.maxNamespaces));
      }
      var inner := new Namespace(config);
      assert namespaces[name := inner].Keys == namespaces.Keys + {name};
      namespaces := namespaces[name := inner];
      return Ok(Handle(inner, name));
    }

    method RemoveNamespace(name: string) returns (existed: bool)
      requires Valid()
      modifies this
      ensures Valid() && namespaces == old(namespaces) - {name} && existed == (name in old(namespaces))
    {
      hide Total, WithinQuotas, Namespace.Valid;
      existed := name in namespaces;
      RemovedIsSmaller(namespaces, name);
      namespaces := namespaces - {name};
    }
  }

  /** Two handles to one live namespace alias: a value set through one is read through the other,
      and no other namespace of the store is touched. */
  method SetThroughOneReadThroughOther(store: Store, name: string, key: string, value: seq<byte>)
    returns (a: Handle, b: Handle, seen: Option<seq<byte>>)
    requires store.Valid() && name in store.namespaces
    requires WithinQuotas(store.config, store.namespaces[name].entries[key := value])
    modifies store, store.namespaces[name]
    ensures store.Valid() && store.namespaces == old(store.namespaces)
    ensures a.inner == b.inner && seen == Some(value)
    ensures forall n | n in store.namespaces && n != name ::
      store.namespaces[n].entries == old(store.namespaces[n].entries)
  {
    hide Total, WithinQuotas;
    var first := store.GetNamespace(name);
    var second := store.GetNamespace(name);
    a, b := first.value, second.value;
    var _ := a.inner.Set(key, value);
    seen := b.inner.Get(key);
  }

  /** Removing a name and asking for it again yields a new, empty namespace; the old one is no
      longer in the store, but a handle to it still works. */
  method Recreate(store: Store, name: string) returns (now: Handle)
    requires store.Valid() && name in store.namespaces
    modifies store
    ensures store.Valid() && fresh(now.inner) && now.inner.Valid() && now.inner.entries == map[]
    ensures store.namespaces == old(store.namespaces)[name := now.inner]
    ensures forall n | n in store.namespaces :: store.namespaces[n] != old(store.namespaces[name])
  {
    hide Total, WithinQuotas, Namespace.Valid;
    ghost var before := store.namespaces;
    RemovedIsSmaller(before, name);
    var _ := store.RemoveNamespace(name);
    var again := store.GetNamespace(name);
    now := again.value;
    RemovedThenSet(before, name, now.inner);
  }

  /** What is set through a handle from before a removal is not seen through one from after it. */
  method SetThroughStaleHandle(store: Store, name: string, stale: Handle, key: string, value: seq<byte>)
    returns (now: Handle, seen: Option<seq<byte>>)
    requires store.Valid() && name in store.namespaces && stale == Handle(store.namespaces[name], name)
    modifies store, stale.inner
    ensures stale.inner != now.inner && now.inner.entries == map[] && seen == None
    ensures store.namespaces == old(store.namespaces)[name := now.inner]
  {
    hide Total, WithinQuotas;
    assert stale.inner.Valid();
    now := Recreate(store, name);
    var _ := stale.inner.Set(key, value);
    seen := now.inner.Get(key);
  }
}
