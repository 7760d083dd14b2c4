/**
 * The external-users table (db.py) as an in-memory store: items keyed by
 * `user_id`, plus the order in which the secondary indexes enumerate them,
 * so that "the first item of a query" is well defined.
 */
module UserStore {
  import opened Options
  import opened Text
  import opened RoleEngine

  /**
   * One user item. `email` is optional because an update of a missing key
   * creates an item holding only the attributes the update sets.
   */
  datatype UserRecord = UserRecord(
    userId: string,
    email: Option<string>,
    role: Role,
    classYear: Option<string>,
    linkedUin: Option<string>,
    personalEmail: Option<string>)

  datatype UserTable = UserTable(items: map<string, UserRecord>, order: seq<string>)

  /** The table's representation invariant: keys and index order agree, items know their key. */
  predicate Valid(t: UserTable) {
    && (forall k :: k in t.items ==> k in t.order && t.items[k].userId == k)
    && (forall j :: 0 <= j < |t.order| ==> t.order[j] in t.items)
  }

  /** The record holds a non-empty `linked_uin` (Python truthiness). */
  predicate IsLinked(u: UserRecord) {
    Truthy(u.linkedUin)
  }

  /** One UIN per account and one account per non-empty UIN. */
  predicate UinsUnique(t: UserTable) {
    forall a, b :: a in t.items && b in t.items && a != b && IsLinked(t.items[a]) ==>
      t.items[a].linkedUin != t.items[b].linkedUin
  }

  /** The secondary-index queries the service issues. */
  datatype IndexKey = ByEmail(email: string) | ByLinkedUin(uin: string)

  predicate Matches(u: UserRecord, key: IndexKey) {
    match key
    case ByEmail(e) => u.email == Some(e)
    case ByLinkedUin(x) => u.linkedUin == Some(x)
  }

  /** The `j`-th item in index order exists and matches `key`. */
  predicate HitAt(t: UserTable, key: IndexKey, j: int) {
    0 <= j < |t.order| && t.order[j] in t.items && Matches(t.items[t.order[j]], key)
  }

  /** The first item at or after position `i` of the index order that matches `key`. */
  function FirstMatchFrom(t: UserTable, key: IndexKey, i: nat): (r: Option<UserRecord>)
    requires i <= |t.order|
    decreases |t.order| - i
    ensures r.None? ==> forall j :: i <= j < |t.order| ==> !HitAt(t, key, j)
    ensures r.Some? ==> exists j :: i <= j < |t.order| && HitAt(t, key, j) && t.items[t.order[j]] == r.value
                                    && forall j' :: i <= j' < j ==> !HitAt(t, key, j')
  {
    if i == |t.order| then None
    else if HitAt(t, key, i) then Some(t.items[t.order[i]])
    else FirstMatchFrom(t, key, i + 1)
  }

  /**
   * A secondary-index query that keeps only the first item: it is a stored
   * item that matches, nothing earlier in index order matches, and in a valid
   * table `None` means no item matches at all.
   */
  function FirstMatch(t: UserTable, key: IndexKey): (r: Option<UserRecord>)
    ensures r.Some? ==> Matches(r.value, key)
    ensures r.Some? && Valid(t) ==> r.value.userId in t.items && t.items[r.value.userId] == r.value
    ensures r.Some? ==> exists j :: HitAt(t, key, j) && t.items[t.order[j]] == r.value
                                    && forall j' :: 0 <= j' < j ==> !HitAt(t, key, j')
    ensures r.None? && Valid(t) ==> forall k :: k in t.items ==> !Matches(t.items[k], key)
  {
    var r := FirstMatchFrom(t, key, 0);
    if r.None? && Valid(t) then
      assert forall k :: k in t.items ==> !Matches(t.items[k], key) by {
        forall k | k in t.items
          ensures !Matches(t.items[k], key)
        {
          var j :| 0 <= j < |t.order| && t.order[j] == k;
          assert !HitAt(t, key, j);
        }
      }
      r
    else
      r
  }

  /** `get_user_by_id`: the item stored under `userId`, if any. */
  function GetUserById(t: UserTable, userId: string): (r: Option<UserRecord>)
    ensures r.Some? <==> userId in t.items
    ensures r.Some? ==> r.value == t.items[userId]
    ensures r.Some? && Valid(t) ==> r.value.userId == userId
  {
    if userId in t.items then Some(t.items[userId]) else None
  }

  /** `get_user_by_email`: the first item of the e-mail index with that address. */
  function GetUserByEmail(t: UserTable, email: string): (r: Option<UserRecord>)
    ensures r.Some? ==> r.value.email == Some(email)
    ensures r.Some? && Valid(t) ==> r.value.userId in t.items && t.items[r.value.userId] == r.value
    ensures r.None? && Valid(t) ==> forall k :: k in t.items ==> t.items[k].email != Some(email)
  {
    FirstMatch(t, ByEmail(email))
  }

  /** `get_user_by_linked_uin`: the first item of the linked-UIN index with that UIN. */
  function GetUserByLinkedUin(t: UserTable, uin: string): (r: Option<UserRecord>)
    ensures r.Some? ==> r.value.linkedUin == Some(uin)
    ensures r.Some? && Valid(t) ==> r.value.userId in t.items && t.items[r.value.userId] == r.value
    ensures r.None? && Valid(t) ==> forall k :: k in t.items ==> t.items[k].linkedUin != Some(uin)
  {
    FirstMatch(t, ByLinkedUin(uin))
  }

  /**
   * Changing one item that stays a match, in a table whose index order is
   * unchanged, keeps that item the first match when it was before.
   */
  lemma FirstMatchSurvivesUpdate(t: UserTable, t': UserTable, u: string, key: IndexKey)
    requires Valid(t) && Valid(t') && t'.order == t.order && t'.items.Keys == t.items.Keys
    requires forall k :: k in t.items && k != u ==> t'.items[k] == t.items[k]
    requires u in t.items && FirstMatch(t, key) == Some(t.items[u])
    requires Matches(t'.items[u], key)
    ensures FirstMatch(t', key) == Some(t'.items[u])
  {
    var j0 :| HitAt(t, key, j0) && t.items[t.order[j0]] == t.items[u]
              && forall j' :: 0 <= j' < j0 ==> !HitAt(t, key, j');
    assert t.order[j0] == u by { assert t.items[t.order[j0]].userId == t.order[j0]; }
    assert HitAt(t', key, j0);
    var r := FirstMatch(t', key);
    var j :| HitAt(t', key, j) && t'.items[t'.order[j]] == r.value
             && forall j' :: 0 <= j' < j ==> !HitAt(t', key, j');
    if t'.order[j] != u {
      assert HitAt(t, key, j);
      assert false;
    }
  }

  /** In a valid table, the only item matching a key is the first match. */
  lemma FirstMatchOfOnlyMatch(t: UserTable, u: string, key: IndexKey)
    requires Valid(t) && u in t.items && Matches(t.items[u], key)
    requires forall k :: k in t.items && k != u ==> !Matches(t.items[k], key)
    ensures FirstMatch(t, key) == Some(t.items[u])
  {
    var r := FirstMatch(t, key);
    assert r.Some?;
    assert r.value.userId == u;
  }

  /** Stores `u` under `userId`, appending the key to the index order when it is new. */
  function Store(t: UserTable, userId: string, u: UserRecord): (t': UserTable)
    requires u.userId == userId
    ensures Valid(t) ==> Valid(t')
    ensures t'.items == t.items[userId := u]
  {
    UserTable(t.items[userId := u], if userId in t.items then t.order else t.order + [userId])
  }

  /**
   * `put_user`: replaces the whole item. `user_id`, `email` and `role` are
   * always written; `class_year` and `linked_uin` only when non-empty; every
   * other attribute of a previous item is gone.
   */
  function PutUser(t: UserTable, userId: string, email: string, role: Role,
                   classYear: Option<string>, linkedUin: Option<string>): (t': UserTable)
    ensures Valid(t) ==> Valid(t')
    ensures t'.items.Keys == t.items.Keys + {userId}
    ensures forall k :: k in t.items && k != userId ==> t'.items[k] == t.items[k]
    ensures var u := t'.items[userId];
            && u.userId == userId && u.email == Some(email) && u.role == role
            && (u.classYear.Some? <==> Truthy(classYear)) && (Truthy(classYear) ==> u.classYear == classYear)
            && (u.linkedUin.Some? <==> Truthy(linkedUin)) && (Truthy(linkedUin) ==> u.linkedUin == linkedUin)
            && u.personalEmail.None?
  {
    Store(t, userId, UserRecord(userId, Some(email), role, NoneIfEmpty(classYear), NoneIfEmpty(linkedUin), None))
  }

  /** Writing an item without a linked UIN cannot create a duplicate link. */
  lemma PutUnlinkedKeepsUinsUnique(t: UserTable, userId: string, email: string, role: Role,
                                   classYear: Option<string>, linkedUin: Option<string>)
    requires UinsUnique(t) && !Truthy(linkedUin)
    ensures UinsUnique(PutUser(t, userId, email, role, classYear, linkedUin))
  {
  }

  /**
   * `update_user_role_and_uin`: sets `role` and `linked_uin`, and
   * `personal_email` (trimmed and lower-cased) only when one is supplied;
   * every other attribute keeps its value. Like the store's update call, it
   * creates an item holding just these attributes when the key is missing.
   */
  function UpdateUserRoleAndUin(t: UserTable, userId: string, role: Role, linkedUin: string,
                                personalEmail: Option<string>): (t': UserTable)
    ensures Valid(t) ==> Valid(t')
    ensures t'.items.Keys == t.items.Keys + {userId}
    ensures userId in t.items ==> t'.order == t.order
    ensures forall k :: k in t.items && k != userId ==> t'.items[k] == t.items[k]
    ensures var u := t'.items[userId];
            && u.role == role && u.linkedUin == Some(linkedUin)
            && (Truthy(personalEmail) ==>
                  u.personalEmail == Some(Lower(Strip(personalEmail.value)))
                  && IsTrimmed(u.personalEmail.value) && IsLowercase(u.personalEmail.value))
            && (userId in t.items ==>
                  var prev := t.items[userId];
                  && u.userId == prev.userId && u.email == prev.email && u.classYear == prev.classYear
                  && (!Truthy(personalEmail) ==> u.personalEmail == prev.personalEmail))
            && (userId !in t.items ==>
                  && u.userId == userId && u.email.None? && u.classYear.None?
                  && (!Truthy(personalEmail) ==> u.personalEmail.None?))
  {
    var pe := if Truthy(personalEmail) then Some(Lower(Strip(personalEmail.value))) else None;
    LowerKeepsTrimmed(Strip(OrEmpty(personalEmail)));
    LowerIsLowercase(Strip(OrEmpty(personalEmail)));
    if userId in t.items then
      var u := t.items[userId];
      var u' := u.(role := role, linkedUin := Some(linkedUin),
                   personalEmail := if pe.Some? then pe else u.personalEmail);
      UserTable(t.items[userId := u'], t.order)
    else
      Store(t, userId, UserRecord(userId, None, role, None, Some(linkedUin), pe))
  }

  /** The handover's separate `SET class_year` update of an existing item. */
  function SetClassYear(t: UserTable, userId: string, classYear: string): (t': UserTable)
    requires userId in t.items
    ensures Valid(t) ==> Valid(t')
    ensures t'.items.Keys == t.items.Keys && t'.order == t.order
    ensures forall k :: k in t.items && k != userId ==> t'.items[k] == t.items[k]
    ensures t'.items[userId] == t.items[userId].(classYear := Some(classYear))
  {
    UserTable(t.items[userId := t.items[userId].(classYear := Some(classYear))], t.order)
  }
}
