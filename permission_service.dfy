/** Sharing rows in `api/services/permission.go` (whose first five
    functions `backend-go/services/permission.go` repeats): granting is an
    upsert on the (user, child) pair. */
module PermissionService {
  import opened Common
  import opened Records
  import opened Store
  import opened Collections
  import ChildService

  /** The rows for one (user, child) pair. */
  function PairRows(permissions: map<nat, Permission>, userId: nat, childId: nat): set<nat>
  {
    set k | k in permissions && permissions[k].userId == userId && permissions[k].childId == childId
  }

  /** No pair has two rows. Nothing in the schema enforces this; the upsert
      keeps it. */
  predicate OneRowPerPair(permissions: map<nat, Permission>)
  {
    forall i, j ::
      (i in permissions && j in permissions && permissions[i].userId == permissions[j].userId
       && permissions[i].childId == permissions[j].childId) ==> i == j
  }

  /** The table after granting `t`: the pair's first row (least id) takes
      the new type, or a new row is added under `freshId`. */
  function Upsert(permissions: map<nat, Permission>, userId: nat, childId: nat, t: PermType,
                  freshId: nat, now: int): map<nat, Permission>
  {
    var pair := PairRows(permissions, userId, childId);
    if pair != {} then
      var k := Least(pair);
      permissions[k := permissions[k].(permissionType := t)]
    else
      permissions[freshId := Permission(freshId, userId, childId, t, now)]
  }

  /** Granting twice never produces a second row for the pair. */
  lemma UpsertKeepsOneRowPerPair(permissions: map<nat, Permission>, userId: nat, childId: nat, t: PermType,
                                 freshId: nat, now: int)
    requires freshId !in permissions && OneRowPerPair(permissions)
    ensures OneRowPerPair(Upsert(permissions, userId, childId, t, freshId, now))
    ensures |PairRows(Upsert(permissions, userId, childId, t, freshId, now), userId, childId)| == 1
  {
    var r := Upsert(permissions, userId, childId, t, freshId, now);
    var pair := PairRows(permissions, userId, childId);
    if pair != {} {
      var k := Least(pair);
      assert PairRows(r, userId, childId) == {k} by {
        forall j | j in PairRows(r, userId, childId) ensures j == k {
          assert j in pair;
        }
      }
    } else {
      forall k | k in permissions ensures !(permissions[k].userId == userId && permissions[k].childId == childId) {
        assert k !in pair;
      }
      assert PairRows(r, userId, childId) == {freshId};
    }
  }

  /** After a grant (with one row per pair), a user who does not own the
      child has exactly the access the granted type gives. */
  lemma UpsertDecidesAccess(children: map<nat, Child>, permissions: map<nat, Permission>, userId: nat,
                            childId: nat, t: PermType, freshId: nat, now: int, requested: PermType)
    requires freshId !in permissions && OneRowPerPair(permissions)
    requires childId in children && children[childId].ownerId != userId
    ensures ChildService.CheckChildPermission(children, Upsert(permissions, userId, childId, t, freshId, now),
                                              userId, childId, requested)
      == Ok(ChildService.Grants(t, requested))
  {
    var r := Upsert(permissions, userId, childId, t, freshId, now);
    UpsertKeepsOneRowPerPair(permissions, userId, childId, t, freshId, now);
    var pair := PairRows(permissions, userId, childId);
    var k := if pair != {} then Least(pair) else freshId;
    assert k in r && r[k].userId == userId && r[k].childId == childId && r[k].permissionType == t;
    assert PairRows(r, userId, childId) == {k} by {
      assert k in PairRows(r, userId, childId);
    }
    forall x: PermType ensures HasPermissionRow(r, userId, childId, x) <==> x == t {
      if HasPermissionRow(r, userId, childId, x) {
        var j :| j in r && r[j].userId == userId && r[j].childId == childId && r[j].permissionType == x;
        assert j in PairRows(r, userId, childId);
      }
    }
  }

  /** `CreatePermission`, and `CreateOrUpdatePermission`, which only calls it. */
  method CreatePermission(db: Db, userId: nat, childId: nat, t: PermType, now: int)
    requires db.Valid()
    modifies db`permissions, db`nextId
    ensures db.Valid()
    ensures db.permissions == Upsert(old(db.permissions), userId, childId, t, old(db.nextId), now)
    ensures db.nextId == if PairRows(old(db.permissions), userId, childId) == {} then old(db.nextId) + 1
                         else old(db.nextId)
  {
    var pair := PairRows(db.permissions, userId, childId);
    if pair != {} {
      var k := Least(pair);
      db.permissions := db.permissions[k := db.permissions[k].(permissionType := t)];
    } else {
      var id := db.NewId();
      db.permissions := db.permissions[id := Permission(id, userId, childId, t, now)];
    }
  }

  /** Granting each listed child to one user in turn, starting the
      counter at `nextId`: the table and the counter afterwards. */
  function GrantAll(permissions: map<nat, Permission>, userId: nat, grants: seq<ChildGrant>, nextId: nat,
                    now: int): (map<nat, Permission>, nat)
    decreases |grants|
  {
    if grants == [] then (permissions, nextId)
    else
      var g := grants[0];
      var next := if PairRows(permissions, userId, g.childId) == {} then nextId + 1 else nextId;
      GrantAll(Upsert(permissions, userId, g.childId, g.permissionType, nextId, now), userId, grants[1..],
               next, now)
  }

  /** A grant keeps every row it finds and leaves the pair it grants with
      a row, under keys still below the counter. At most one row changes:
      the pair's least row, and only in its type. A row is added only when
      the pair had none. */
  lemma UpsertKeepsRows(permissions: map<nat, Permission>, userId: nat, childId: nat, t: PermType,
                        nextId: nat, now: int)
    requires KeysBelow(permissions, nextId) && 0 < nextId
    ensures var r := Upsert(permissions, userId, childId, t, nextId, now);
      var pair := PairRows(permissions, userId, childId);
      var next := if pair == {} then nextId + 1 else nextId;
      && permissions.Keys <= r.Keys && KeysBelow(r, next)
      && (forall k :: k in permissions ==> r[k].userId == permissions[k].userId
                                             && r[k].childId == permissions[k].childId)
      && (forall k :: k in permissions && k !in pair ==> r[k] == permissions[k])
      && (forall k :: k in permissions && r[k] != permissions[k] ==>
            && (forall j :: j in pair ==> k <= j)
            && r[k] == permissions[k].(permissionType := t))
      && (forall k :: k in r && k !in permissions ==>
            k == nextId && pair == {} && r[k] == Permission(nextId, userId, childId, t, now))
      && HasAnyPermissionRow(r, userId, childId)
  {
    var r := Upsert(permissions, userId, childId, t, nextId, now);
    var pair := PairRows(permissions, userId, childId);
    var k := if pair != {} then Least(pair) else nextId;
    assert k in r && r[k].userId == userId && r[k].childId == childId;
  }

  /** After granting a list, every listed child has a row for the user and
      no pair has gained a second row. */
  lemma {:induction false} GrantAllCovers(permissions: map<nat, Permission>, userId: nat, grants: seq<ChildGrant>,
                                          nextId: nat, now: int)
    requires KeysBelow(permissions, nextId) && 0 < nextId
    ensures var (r, next) := GrantAll(permissions, userId, grants, nextId, now);
      && KeysBelow(r, next) && nextId <= next
      && (forall g :: g in grants ==> HasAnyPermissionRow(r, userId, g.childId))
      && (OneRowPerPair(permissions) ==> OneRowPerPair(r))
    decreases |grants|
  {
    if grants != [] {
      var g := grants[0];
      var p := Upsert(permissions, userId, g.childId, g.permissionType, nextId, now);
      var next := if PairRows(permissions, userId, g.childId) == {} then nextId + 1 else nextId;
      UpsertKeepsRows(permissions, userId, g.childId, g.permissionType, nextId, now);
      if OneRowPerPair(permissions) {
        UpsertKeepsOneRowPerPair(permissions, userId, g.childId, g.permissionType, nextId, now);
      }
      GrantAllCovers(p, userId, grants[1..], next, now);
      var (r, last) := GrantAll(p, userId, grants[1..], next, now);
      assert HasAnyPermissionRow(r, userId, g.childId) by {
        GrantAllKeepsRows(p, userId, grants[1..], next, now, userId, g.childId);
      }
      forall h | h in grants ensures HasAnyPermissionRow(r, userId, h.childId) {
        if h != g {
          assert h in grants[1..];
        }
      }
    }
  }

  /** A row for any pair survives a list of grants. */
  lemma {:induction false} GrantAllKeepsRows(permissions: map<nat, Permission>, userId: nat,
                                             grants: seq<ChildGrant>, nextId: nat, now: int, u: nat, c: nat)
    requires KeysBelow(permissions, nextId) && 0 < nextId
    requires HasAnyPermissionRow(permissions, u, c)
    ensures HasAnyPermissionRow(GrantAll(permissions, userId, grants, nextId, now).0, u, c)
    decreases |grants|
  {
    if grants != [] {
      var g := grants[0];
      var p := Upsert(permissions, userId, g.childId, g.permissionType, nextId, now);
      var next := if PairRows(permissions, userId, g.childId) == {} then nextId + 1 else nextId;
      UpsertKeepsRows(permissions, userId, g.childId, g.permissionType, nextId, now);
      var k :| k in permissions && permissions[k].userId == u && permissions[k].childId == c;
      assert k in p && p[k].userId == u && p[k].childId == c;
      GrantAllKeepsRows(p, userId, grants[1..], next, now, u, c);
    }
  }

  /** A loop granting each listed child to one user in turn. */
  method GrantEach(db: Db, userId: nat, grants: seq<ChildGrant>, now: int)
    requires db.Valid()
    modifies db`permissions, db`nextId
    ensures db.Valid()
    ensures (db.permissions, db.nextId) == GrantAll(old(db.permissions), userId, grants, old(db.nextId), now)
  {
    for i := 0 to |grants|
      invariant db.Valid()
      invariant GrantAll(db.permissions, userId, grants[i..], db.nextId, now)
                == GrantAll(old(db.permissions), userId, grants, old(db.nextId), now)
    {
      assert grants[i..][1..] == grants[i + 1..];
      CreatePermission(db, userId, grants[i].childId, grants[i].permissionType, now);
    }
  }

  /** `WHERE user_id = ?`, in key order. */
  function GetPermissionsByUser(permissions: map<nat, Permission>, userId: nat): (r: seq<Permission>)
    requires PermissionsKeyed(permissions)
    ensures forall p :: p in r <==> p.id in permissions && permissions[p.id] == p && p.userId == userId
    ensures forall i, j :: 0 <= i < j < |r| ==> r[i].id < r[j].id
  {
    var ids := set k | k in permissions && permissions[k].userId == userId;
    RowsAtSortedKeys(permissions, ids);
    RowsAt(permissions, SortedKeys(ids))
  }

  /** `WHERE child_id = ?`, in key order. */
  function GetPermissionsByChild(permissions: map<nat, Permission>, childId: nat): (r: seq<Permission>)
    requires PermissionsKeyed(permissions)
    ensures forall p :: p in r <==> p.id in permissions && permissions[p.id] == p && p.childId == childId
    ensures forall i, j :: 0 <= i < j < |r| ==> r[i].id < r[j].id
  {
    var ids := set k | k in permissions && permissions[k].childId == childId;
    RowsAtSortedKeys(permissions, ids);
    RowsAt(permissions, SortedKeys(ids))
  }

  /** The table without any row of the pair. */
  function WithoutPair(permissions: map<nat, Permission>, userId: nat, childId: nat): map<nat, Permission>
  {
    map k | k in permissions && !(permissions[k].userId == userId && permissions[k].childId == childId)
      :: permissions[k]
  }

  /** Revoking removes every row of the pair, so a user who does not own the
      child loses all access to it, while every other pair keeps its rows. */
  lemma RevokeRemovesAccess(children: map<nat, Child>, permissions: map<nat, Permission>, userId: nat,
                            childId: nat, requested: PermType)
    requires childId in children && children[childId].ownerId != userId
    ensures ChildService.CheckChildPermission(children, WithoutPair(permissions, userId, childId),
                                              userId, childId, requested) == Ok(false)
    ensures forall u: nat, c: nat :: (u, c) != (userId, childId) ==>
      PairRows(WithoutPair(permissions, userId, childId), u, c) == PairRows(permissions, u, c)
  {
  }

  /** `DeletePermission(userID, childID)` */
  method DeletePermission(db: Db, userId: nat, childId: nat)
    requires db.Valid()
    modifies db`permissions
    ensures db.Valid()
    ensures db.permissions == WithoutPair(old(db.permissions), userId, childId)
  {
    db.permissions := WithoutPair(db.permissions, userId, childId);
  }

  function GetPermissionByID(permissions: map<nat, Permission>, id: nat): (r: Result<Permission>)
    ensures r.Ok? <==> id in permissions
    ensures r.Ok? ==> r.value == permissions[id]
    ensures r.Err? ==> r.message == "record not found"
  {
    if id in permissions then Ok(permissions[id]) else Err("record not found")
  }

  /** Deleting by id reports no error when the row is already gone. */
  method DeletePermissionByID(db: Db, id: nat)
    requires db.Valid()
    modifies db`permissions
    ensures db.Valid()
    ensures db.permissions == old(db.permissions) - {id}
  {
    db.permissions := db.permissions - {id};
  }
}
