/** The request-scoped permission cache of `api/services/permission_cache.go`:
    answers of the child permission check, remembered for a fixed time. */
module PermissionCacheModule {
  import opened Common
  import opened Records
  import opened Store
  import ChildService
  import PermissionService

  /** The map key `"<user>:<child>:<type>"`. Numerals carry no colon, so
      distinct triples give distinct keys; the triple stands for the text. */
  datatype CacheKey = CacheKey(userId: nat, childId: nat, permissionType: PermType)

  datatype CacheEntry = CacheEntry(hasPermission: bool, expiresAt: int)

  /** The answer the cache gives without asking the store: an entry whose
      expiry is still in the future. */
  function CachedAnswer(cache: map<CacheKey, CacheEntry>, key: CacheKey, now: int): (r: Option<bool>)
    ensures r.Some? <==> key in cache && now < cache[key].expiresAt
    ensures r.Some? ==> r.value == cache[key].hasPermission
  {
    if key in cache && now < cache[key].expiresAt then Some(cache[key].hasPermission) else None
  }

  /** Every entry agrees with what the store answers now. */
  predicate Agrees(cache: map<CacheKey, CacheEntry>, children: map<nat, Child>, permissions: map<nat, Permission>)
  {
    forall key :: key in cache ==>
      ChildService.CheckChildPermission(children, permissions, key.userId, key.childId, key.permissionType)
        == Ok(cache[key].hasPermission)
  }

  /** The five-minute lifetime the request context gives a new cache. */
  const DefaultTtlMs: int := 5 * MinuteMs

  class PermissionCache {
    var cache: map<CacheKey, CacheEntry>
    const ttl: int

    /** `NewPermissionCache(ttlMs)` */
    constructor (ttlMs: int)
      ensures cache == map[] && ttl == ttlMs
    {
      cache := map[];
      ttl := ttlMs;
    }

    /** A live entry answers without consulting the store; otherwise the
        store is asked, and only a successful answer is remembered, for
        `ttl` milliseconds. While the store does not change, the cache never
        disagrees with it. */
    method GetOrCheck(db: Db, userId: nat, childId: nat, t: PermType, now: int) returns (r: Result<bool>)
      requires db.Valid()
      modifies this`cache
      ensures var key := CacheKey(userId, childId, t);
        match CachedAnswer(old(cache), key, now)
        case Some(b) => r == Ok(b) && cache == old(cache)
        case None =>
          r == ChildService.CheckChildPermission(db.children, db.permissions, userId, childId, t)
          && (r.Err? ==> cache == old(cache))
          && (r.Ok? ==> cache == old(cache)[key := CacheEntry(r.value, now + ttl)])
      ensures Agrees(old(cache), db.children, db.permissions) ==> Agrees(cache, db.children, db.permissions)
      ensures Agrees(old(cache), db.children, db.permissions) ==>
        r == ChildService.CheckChildPermission(db.children, db.permissions, userId, childId, t)
    {
      var key := CacheKey(userId, childId, t);
      if key in cache && now < cache[key].expiresAt {
        return Ok(cache[key].hasPermission);
      }
      r := ChildService.CheckChildPermission(db.children, db.permissions, userId, childId, t);
      if r.Err? {
        return;
      }
      cache := cache[key := CacheEntry(r.value, now + ttl)];
    }

    /** `Clear` */
    method Clear()
      modifies this`cache
      ensures cache == map[]
    {
      cache := map[];
    }
  }

  /** `GetPermissionCacheFromContext`: the cache the request carries, or a
      new one with the default lifetime. */
  method CacheFromContext(carried: Option<PermissionCache>) returns (pc: PermissionCache)
    ensures carried.Some? ==> pc == carried.value
    ensures carried.None? ==> fresh(pc) && pc.cache == map[] && pc.ttl == DefaultTtlMs
  {
    if carried.Some? {
      pc := carried.value;
    } else {
      pc := new PermissionCache(DefaultTtlMs);
    }
  }

  /** The cache can outlive the store's answer: once a grant has been
      remembered, revoking it leaves the remembered yes in force until the
      entry expires, while the store already says no. */
  lemma RevokedGrantStaysCached(children: map<nat, Child>, permissions: map<nat, Permission>,
                                userId: nat, childId: nat, t: PermType, storedAt: int, ttl: int, now: int)
    requires childId in children && children[childId].ownerId != userId
    requires storedAt <= now < storedAt + ttl
    ensures var key := CacheKey(userId, childId, t);
      var cache := map[key := CacheEntry(true, storedAt + ttl)];
      CachedAnswer(cache, key, now) == Some(true)
      && !Agrees(cache, children, PermissionService.WithoutPair(permissions, userId, childId))
  {
    var key := CacheKey(userId, childId, t);
    PermissionService.RevokeRemovesAccess(children, permissions, userId, childId, t);
  }
}
