/**
 * `NamespaceManager`: DAOs for record types under namespaces that are not
 * known up front. One creator per record type is configured; the first
 * request for a (namespace, record type) pair creates a DAO with that
 * creator, sets its namespace and caches it, and later requests get the
 * cached instance. Synchronous and reactive DAOs are kept apart.
 */
module Namespaces {
  import opened Base

  /** A record class, by its name. */
  type RecordType = string

  /** A namespace name. */
  type Namespace = string

  /** A configured `Supplier` of DAOs, by an identity of its own. */
  datatype Creator = Creator(id: nat)

  /**
   * A DAO as far as the manager touches it: the creator that made it, the
   * record type it serves, whether it is reactive, and its namespace,
   * which `setNamespace` assigns. The record type is the one the manager
   * asks the creator for; that a configured `Supplier` really builds a DAO
   * for the record type it was registered under is an assumption about the
   * caller's creators, which the manager does not check.
   */
  class Dao {
    const creator: Creator
    const recordType: RecordType
    const reactive: bool
    var namespace: Option<Namespace>

    /** What `creator.get()` returns: a new DAO with no namespace set. */
    constructor(creator: Creator, recordType: RecordType, reactive: bool)
      ensures this.creator == creator && this.recordType == recordType && this.reactive == reactive
      ensures namespace == None
    {
      this.creator := creator;
      this.recordType := recordType;
      this.reactive := reactive;
      namespace := None;
    }

    /** `setNamespace`. */
    method SetNamespace(ns: Namespace)
      modifies this
      ensures namespace == Some(ns)
    {
      namespace := Some(ns);
    }
  }

  /** A cache namespace -> record type -> DAO. */
  type Cache = map<Namespace, map<RecordType, Dao>>

  /** The DAOs a cache holds. */
  ghost function Daos(cache: Cache): set<Dao>
  {
    set ns, t | ns in cache && t in cache[ns] :: cache[ns][t]
  }

  /** Whether `cache` holds a DAO for the pair. */
  predicate Holds(cache: Cache, ns: Namespace, t: RecordType)
  {
    ns in cache && t in cache[ns]
  }

  /** The cache with the pair's DAO added, creating the namespace's map if needed. */
  function Put(cache: Cache, ns: Namespace, t: RecordType, dao: Dao): (r: Cache)
    ensures r.Keys == cache.Keys + {ns}
    ensures Holds(r, ns, t) && r[ns][t] == dao
    ensures forall n, u :: Holds(r, n, u) && (n, u) != (ns, t) <==> Holds(cache, n, u) && (n, u) != (ns, t)
    ensures forall n, u :: Holds(cache, n, u) && (n, u) != (ns, t) ==> Holds(r, n, u) && r[n][u] == cache[n][u]
  {
    var inner: map<RecordType, Dao> := if ns in cache then cache[ns] else map[];
    cache[ns := inner[t := dao]]
  }

  /** The cache with the namespace's map created if it was absent: the outer `computeIfAbsent`. */
  function Touch(cache: Cache, ns: Namespace): (r: Cache)
    ensures r.Keys == cache.Keys + {ns}
    ensures forall n, u :: Holds(r, n, u) <==> Holds(cache, n, u)
    ensures forall n, u :: Holds(cache, n, u) ==> Holds(r, n, u) && r[n][u] == cache[n][u]
  {
    if ns in cache then cache else cache[ns := map[]]
  }

  /** `creators.putIfAbsent(t, creator)`: the first creator configured for a record type stays. */
  function PutIfAbsent(creators: map<RecordType, Creator>, t: RecordType, creator: Creator): (r: map<RecordType, Creator>)
    ensures r.Keys == creators.Keys + {t}
    ensures t in creators ==> r == creators
    ensures t !in creators ==> r[t] == creator
    ensures forall u :: u in creators ==> r[u] == creators[u]
  {
    if t in creators then creators else creators[t := creator]
  }

  /**
   * Every cached DAO sits under its own namespace and record type, was
   * made by the creator configured for that type, is of the cache's kind,
   * and no DAO is cached under two pairs.
   */
  ghost predicate WellCached(cache: Cache, creators: map<RecordType, Creator>, reactive: bool)
    reads Daos(cache)
  {
    && (forall ns, t :: Holds(cache, ns, t) ==>
          && cache[ns][t].namespace == Some(ns)
          && cache[ns][t].recordType == t
          && cache[ns][t].reactive == reactive
          && t in creators && cache[ns][t].creator == creators[t])
    && (forall ns, t, n, u :: Holds(cache, ns, t) && Holds(cache, n, u) && cache[ns][t] == cache[n][u] ==> ns == n && t == u)
  }

  /** `creator.get()` followed by `setNamespace(ns)`: a new DAO of the creator, with the namespace set. */
  method NewDao(creator: Creator, t: RecordType, reactive: bool, ns: Namespace) returns (dao: Dao)
    ensures fresh(dao)
    ensures dao.creator == creator && dao.recordType == t && dao.reactive == reactive
    ensures dao.namespace == Some(ns)
  {
    dao := new Dao(creator, t, reactive);
    dao.SetNamespace(ns);
  }

  class NamespaceManager {
    var syncCache: Cache
    var syncCreators: map<RecordType, Creator>
    var asyncCache: Cache
    var asyncCreators: map<RecordType, Creator>

    ghost predicate Valid()
      reads this, Daos(syncCache), Daos(asyncCache)
    {
      && WellCached(syncCache, syncCreators, false)
      && WellCached(asyncCache, asyncCreators, true)
    }

    constructor()
      ensures Valid()
      ensures syncCache == map[] && syncCreators == map[]
      ensures asyncCache == map[] && asyncCreators == map[]
    {
      syncCache := map[];
      syncCreators := map[];
      asyncCache := map[];
      asyncCreators := map[];
    }

    /** `configureDao`: the first creator configured for a record type wins; the caches are untouched. */
    method ConfigureDao(t: RecordType, creator: Creator) returns (self: NamespaceManager)
      requires Valid()
      modifies this
      ensures Valid()
      ensures self == this
      ensures syncCreators == PutIfAbsent(old(syncCreators), t, creator)
      ensures syncCache == old(syncCache)
      ensures asyncCache == old(asyncCache) && asyncCreators == old(asyncCreators)
    {
      syncCreators := PutIfAbsent(syncCreators, t, creator);
      self := this;
    }

    /** `configureAsyncDao`: as `ConfigureDao`, for reactive DAOs. */
    method ConfigureAsyncDao(t: RecordType, creator: Creator) returns (self: NamespaceManager)
      requires Valid()
      modifies this
      ensures Valid()
      ensures self == this
      ensures asyncCreators == PutIfAbsent(old(asyncCreators), t, creator)
      ensures asyncCache == old(asyncCache)
      ensures syncCache == old(syncCache) && syncCreators == old(syncCreators)
    {
      asyncCreators := PutIfAbsent(asyncCreators, t, creator);
      self := this;
    }

    /**
     * `getDaoFor`: the cached DAO when there is one; otherwise, without a
     * creator for the record type, `IllegalStateException` and no DAO
     * cached (the namespace's empty map stays); otherwise a new DAO from
     * the configured creator, with its namespace set, cached and returned.
     */
    method GetDaoFor(ns: Namespace, t: RecordType) returns (r: Result<Dao>)
      requires Valid()
      modifies this
      ensures Valid()
      ensures syncCreators == old(syncCreators)
      ensures asyncCache == old(asyncCache) && asyncCreators == old(asyncCreators)
      ensures Holds(old(syncCache), ns, t) ==> r == Ok(old(syncCache)[ns][t]) && syncCache == old(syncCache)
      ensures !Holds(old(syncCache), ns, t) && t !in syncCreators ==>
        r == Err(IllegalState) && syncCache == Touch(old(syncCache), ns)
      ensures !Holds(old(syncCache), ns, t) && t in syncCreators ==>
        && r.Ok? && fresh(r.value)
        && r.value.creator == syncCreators[t] && r.value.namespace == Some(ns)
        && syncCache == Put(old(syncCache), ns, t, r.value)
      ensures r.Ok? ==> Holds(syncCache, ns, t) && syncCache[ns][t] == r.value
      ensures r.Err? ==> r.error == IllegalState && !Holds(syncCache, ns, t)
    {
      syncCache := Touch(syncCache, ns);
      if t in syncCache[ns] {
        return Ok(syncCache[ns][t]);
      }
      if t !in syncCreators {
        return Err(IllegalState);
      }
      var dao := NewDao(syncCreators[t], t, false, ns);
      syncCache := Put(syncCache, ns, t, dao);
      r := Ok(dao);
    }

    /** `getAsyncDaoFor`: as `GetDaoFor`, over the reactive cache and creators. */
    method GetAsyncDaoFor(ns: Namespace, t: RecordType) returns (r: Result<Dao>)
      requires Valid()
      modifies this
      ensures Valid()
      ensures asyncCreators == old(asyncCreators)
      ensures syncCache == old(syncCache) && syncCreators == old(syncCreators)
      ensures Holds(old(asyncCache), ns, t) ==> r == Ok(old(asyncCache)[ns][t]) && asyncCache == old(asyncCache)
      ensures !Holds(old(asyncCache), ns, t) && t !in asyncCreators ==>
        r == Err(IllegalState) && asyncCache == Touch(old(asyncCache), ns)
      ensures !Holds(old(asyncCache), ns, t) && t in asyncCreators ==>
        && r.Ok? && fresh(r.value)
        && r.value.creator == asyncCreators[t] && r.value.namespace == Some(ns)
        && asyncCache == Put(old(asyncCache), ns, t, r.value)
      ensures r.Ok? ==> Holds(asyncCache, ns, t) && asyncCache[ns][t] == r.value
      ensures r.Err? ==> r.error == IllegalState && !Holds(asyncCache, ns, t)
    {
      asyncCache := Touch(asyncCache, ns);
      if t in asyncCache[ns] {
        return Ok(asyncCache[ns][t]);
      }
      if t !in asyncCreators {
        return Err(IllegalState);
      }
      var dao := NewDao(asyncCreators[t], t, true, ns);
      asyncCache := Put(asyncCache, ns, t, dao);
      r := Ok(dao);
    }
  }

  // ---------------------------------------------------------------------
  // The scenarios of the manager's unit tests, on a new manager

  /** A creator configured for a record type yields, for any namespace, a reactive DAO of that creator with that namespace. */
  method ConfiguredAsyncDao(ns: Namespace, t: RecordType, creator: Creator) returns (r: Result<Dao>)
    ensures r.Ok? && r.value.creator == creator && r.value.recordType == t
    ensures r.value.reactive && r.value.namespace == Some(ns)
  {
    var manager := new NamespaceManager();
    var _ := manager.ConfigureAsyncDao(t, creator);
    r := manager.GetAsyncDaoFor(ns, t);
  }

  /** Without any creator configured, asking for a DAO is an `IllegalStateException`. */
  method UnconfiguredDao(ns: Namespace, t: RecordType) returns (r: Result<Dao>, cached: bool)
    ensures r == Err(IllegalState)
    ensures !cached
  {
    var manager := new NamespaceManager();
    r := manager.GetDaoFor(ns, t);
    cached := Holds(manager.syncCache, ns, t);
  }

  /** Asking twice for the same pair gives the same instance; the second creator configured is ignored. */
  method SameDaoTwice(ns: Namespace, t: RecordType, creator: Creator, other: Creator) returns (first: Result<Dao>, second: Result<Dao>)
    ensures first.Ok? && second == first
    ensures first.value.creator == creator && first.value.namespace == Some(ns)
  {
    var manager := new NamespaceManager();
    var _ := manager.ConfigureDao(t, creator);
    var _ := manager.ConfigureDao(t, other);
    first := manager.GetDaoFor(ns, t);
    second := manager.GetDaoFor(ns, t);
  }
}
