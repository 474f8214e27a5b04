/** Children and the access rule of `backend-go/services/child.go`. The
    `backend` copy of the file applies the same rule with the same code;
    its own create and update live in `BackendChildService`. */
module ChildService {
  import opened Common
  import opened Records
  import opened Store
  import opened Collections

  /** The access rule as the product states it: a row of the requested
      level grants access, and an EDIT row grants VIEW as well. */
  predicate Grants(row: PermType, requested: PermType)
  {
    row == Edit || row == requested
  }

  /** Owners may do anything; anyone else needs a granting row. */
  ghost predicate Authorized(children: map<nat, Child>, permissions: map<nat, Permission>,
                             userId: nat, childId: nat, requested: PermType)
    requires childId in children
  {
    || children[childId].ownerId == userId
    || exists k :: k in permissions && permissions[k].userId == userId
         && permissions[k].childId == childId && Grants(permissions[k].permissionType, requested)
  }

  /** The check every handler runs: a missing child is an error (gorm's
      not-found), the owner passes, then a row of the requested type, and
      for VIEW an EDIT row too. */
  function CheckChildPermission(children: map<nat, Child>, permissions: map<nat, Permission>,
                                userId: nat, childId: nat, requested: PermType): (r: Result<bool>)
    ensures r.Err? <==> childId !in children
    ensures r.Err? ==> r.message == "record not found"
    ensures childId in children && children[childId].ownerId == userId ==> r == Ok(true)
  {
    if childId !in children then Err("record not found")
    else if children[childId].ownerId == userId then Ok(true)
    else if HasPermissionRow(permissions, userId, childId, requested) then Ok(true)
    else if requested == View then Ok(HasPermissionRow(permissions, userId, childId, Edit))
    else Ok(false)
  }

  /** The code and the stated rule agree on every store. */
  lemma CheckChildPermissionFollowsRule(children: map<nat, Child>, permissions: map<nat, Permission>,
                                        userId: nat, childId: nat, requested: PermType)
    requires childId in children
    ensures CheckChildPermission(children, permissions, userId, childId, requested)
      == Ok(Authorized(children, permissions, userId, childId, requested))
  {
    if Authorized(children, permissions, userId, childId, requested) && children[childId].ownerId != userId {
      var k :| k in permissions && permissions[k].userId == userId && permissions[k].childId == childId
        && Grants(permissions[k].permissionType, requested);
      assert HasPermissionRow(permissions, userId, childId, permissions[k].permissionType);
    }
  }

  /** Whoever may edit a child may also view it. */
  lemma EditImpliesView(children: map<nat, Child>, permissions: map<nat, Permission>, userId: nat, childId: nat)
    requires CheckChildPermission(children, permissions, userId, childId, Edit) == Ok(true)
    ensures CheckChildPermission(children, permissions, userId, childId, View) == Ok(true)
  {
  }

  /** A VIEW row never lets a non-owner edit. */
  lemma ViewRowDoesNotGrantEdit(children: map<nat, Child>, permissions: map<nat, Permission>, userId: nat, childId: nat)
    requires childId in children && children[childId].ownerId != userId
    requires !HasPermissionRow(permissions, userId, childId, Edit)
    ensures CheckChildPermission(children, permissions, userId, childId, Edit) == Ok(false)
  {
  }

  /** `SELECT DISTINCT c.* FROM children c LEFT JOIN permissions p ON
      c.id = p.child_id WHERE c.owner_id = ? OR p.user_id = ?` */
  function VisibleChildIds(children: map<nat, Child>, permissions: map<nat, Permission>, userId: nat): set<nat>
  {
    set k | k in children && (children[k].ownerId == userId || HasAnyPermissionRow(permissions, userId, k))
  }

  /** The children a user may see, each once (in key order), and only those. */
  function GetChildrenWithPermission(children: map<nat, Child>, permissions: map<nat, Permission>,
                                     userId: nat): (r: seq<Child>)
    requires ChildrenKeyed(children)
    ensures forall c :: c in r ==> c.id in VisibleChildIds(children, permissions, userId) && children[c.id] == c
    ensures forall k :: k in VisibleChildIds(children, permissions, userId) ==> children[k] in r
    ensures forall i, j :: 0 <= i < j < |r| ==> r[i].id < r[j].id
  {
    var visible := VisibleChildIds(children, permissions, userId);
    var ks := SortedKeys(visible);
    RowsAtSortedKeys(children, visible);
    RowsAt(children, ks)
  }

  /** The visibility query and the VIEW check agree: a user sees exactly the
      children they may view. */
  lemma VisibleIffViewAllowed(children: map<nat, Child>, permissions: map<nat, Permission>, userId: nat, childId: nat)
    requires childId in children
    ensures childId in VisibleChildIds(children, permissions, userId)
      <==> CheckChildPermission(children, permissions, userId, childId, View) == Ok(true)
  {
    if HasAnyPermissionRow(permissions, userId, childId) {
      var k :| k in permissions && permissions[k].userId == userId && permissions[k].childId == childId;
      assert HasPermissionRow(permissions, userId, childId, permissions[k].permissionType);
    }
  }

  /** `First(&child, id)` mapped to the service's error text. */
  function GetChildByID(children: map<nat, Child>, id: nat): (r: Result<Child>)
    ensures r.Ok? <==> id in children
    ensures r.Ok? ==> r.value == children[id]
    ensures r.Err? ==> r.message == "child not found"
  {
    if id in children then Ok(children[id]) else Err("child not found")
  }

  method CreateChild(db: Db, name: string, grade: string, ownerId: nat, now: int) returns (child: Child)
    requires db.Valid()
    modifies db`children, db`nextId
    ensures db.Valid()
    ensures child.id !in old(db.children) && db.children == old(db.children)[child.id := child]
    ensures child.name == name && child.grade == grade && child.ownerId == ownerId
    ensures child.firstName == "" && child.lastName == "" && child.createdAt == now && child.updatedAt == now
  {
    var id := db.NewId();
    child := Child(id, name, "", "", grade, ownerId, now, now);
    db.children := db.children[id := child];
  }

  /** Changes the name and grade only; the owner never changes. */
  method UpdateChild(db: Db, id: nat, name: string, grade: string, now: int) returns (r: Result<Child>)
    requires db.Valid()
    modifies db`children
    ensures db.Valid()
    ensures id !in old(db.children) ==> r == Err("child not found") && db.children == old(db.children)
    ensures id in old(db.children) ==> r == Ok(old(db.children)[id].(name := name, grade := grade, updatedAt := now))
    ensures r.Ok? ==> db.children == old(db.children)[id := r.value]
  {
    if id !in db.children {
      return Err("child not found");
    }
    var child := db.children[id].(name := name, grade := grade, updatedAt := now);
    db.children := db.children[id := child];
    r := Ok(child);
  }

  /** Removes the child row alone: its books, permissions and invitations
      stay in their tables. */
  method DeleteChild(db: Db, id: nat) returns (r: Result<()>)
    requires db.Valid()
    modifies db`children
    ensures db.Valid()
    ensures r.Ok? <==> id in old(db.children)
    ensures r.Err? ==> r.message == "child not found"
    ensures db.children == old(db.children) - {id}
  {
    if id !in db.children {
      return Err("child not found");
    }
    db.children := db.children - {id};
    r := Ok(());
  }
}
