/**
 * The graduation handover (handover.py): linking an external account to a
 * student UIN, as a transition of the user table.
 */
module Handover {
  import opened Options
  import opened Text
  import opened RoleEngine
  import opened UserStore
  import opened Auth

  /**
   * What an operation hands back: the success payload, a refusal carrying
   * the HTTP status the service chose, or an exception that escapes it.
   */
  datatype Reply =
    | Done(user: Option<UserRecord>, message: string)
    | Refused(status: int, message: string)
    | Raised(reason: string)

  const UserNotFound := "User not found"
  const AlreadyLinked := "Account already linked to a student UIN"
  const UinTaken := "This UIN is already linked to another account"
  const UinRequired := "UIN is required"
  const HandoverComplete := "Graduation handover complete"

  /** One link call: its reply, the user table after it, and the attribute update it pushed. */
  datatype LinkStep = LinkStep(reply: Reply, users: UserTable, attributes: Option<AttributeUpdate>)

  /** The linked-UIN index's first hit for `uin` belongs to a different account. */
  predicate UinHeldByOther(t: UserTable, userId: string, uin: string) {
    var other := GetUserByLinkedUin(t, uin);
    other.Some? && other.value.userId != userId
  }

  /** The guards that must all pass before a link writes anything. */
  predicate LinkAllowed(t: UserTable, userId: string, uin: string) {
    && userId in t.items
    && !IsLinked(t.items[userId])
    && !UinHeldByOther(t, userId, uin)
    && !AllSpace(uin)
  }

  /** The class year the identity provider is told: the new one if given, else the stored one. */
  function AnnouncedClassYear(existing: UserRecord, classYear: Option<string>): Option<string> {
    if Truthy(classYear) then classYear else existing.classYear
  }

  /**
   * `link_uin_to_user`. Guards run in order: unknown account (404), account
   * already linked (409), UIN linked to another account (409), blank UIN
   * (400); a refusal writes nothing. On success the account becomes
   * FORMER_STUDENT with the trimmed UIN, takes the trimmed class year when one
   * is given, and its role, class year and UIN are pushed to the identity
   * provider when the account has an e-mail address.
   */
  function LinkUinToUser(t: UserTable, userId: string, uin: string, classYear: Option<string>): (s: LinkStep)
    ensures userId !in t.items ==> s == LinkStep(Refused(404, UserNotFound), t, None)
    ensures userId in t.items && IsLinked(t.items[userId]) ==>
              s == LinkStep(Refused(409, AlreadyLinked), t, None)
    ensures userId in t.items && !IsLinked(t.items[userId]) && UinHeldByOther(t, userId, uin) ==>
              s == LinkStep(Refused(409, UinTaken), t, None)
    ensures userId in t.items && !IsLinked(t.items[userId]) && !UinHeldByOther(t, userId, uin) && AllSpace(uin) ==>
              s == LinkStep(Refused(400, UinRequired), t, None)
    ensures s.reply.Done? <==> LinkAllowed(t, userId, uin)
    ensures s.reply.Done? ==> userId in t.items && s.users.items.Keys == t.items.Keys && s.users.order == t.order
    ensures s.reply.Done? ==>
              var before := t.items[userId];
              var after := s.users.items[userId];
              && (forall k :: k in t.items && k != userId ==> s.users.items[k] == t.items[k])
              && after.role == FormerStudent
              && after.linkedUin == Some(Strip(uin)) && IsLinked(after)
              && after.classYear == (if Truthy(classYear) then Some(Strip(classYear.value)) else before.classYear)
              && after.userId == before.userId && after.email == before.email
              && after.personalEmail == before.personalEmail
              && s.reply == Done(Some(after), HandoverComplete)
              && s.attributes == (if Truthy(before.email) then
                                    Some(AttributeUpdate(before.email.value,
                                      CustomAttributes(FormerStudent, AnnouncedClassYear(before, classYear), Some(Strip(uin)))))
                                  else None)
    ensures Valid(t) ==> Valid(s.users)
  {
    var existing := GetUserById(t, userId);
    if existing.None? then
      LinkStep(Refused(404, UserNotFound), t, None)
    else if IsLinked(existing.value) then
      LinkStep(Refused(409, AlreadyLinked), t, None)
    else if UinHeldByOther(t, userId, uin) then
      LinkStep(Refused(409, UinTaken), t, None)
    else
      var uinClean := Strip(uin);
      StripEmptyIffBlank(uin);
      if uinClean == "" then
        LinkStep(Refused(400, UinRequired), t, None)
      else
        var t1 := UpdateUserRoleAndUin(t, userId, FormerStudent, uinClean, None);
        var t2 := if Truthy(classYear) then SetClassYear(t1, userId, Strip(classYear.value)) else t1;
        var pushed :=
          if Truthy(existing.value.email) then
            Some(AttributeUpdate(existing.value.email.value,
              CustomAttributes(FormerStudent, AnnouncedClassYear(existing.value, classYear), Some(uinClean))))
          else None;
        LinkStep(Done(GetUserById(t2, userId), HandoverComplete), t2, pushed)
  }

  /** A link with an already-trimmed UIN keeps linked UINs unique. */
  lemma LinkKeepsUinsUnique(t: UserTable, userId: string, uin: string, classYear: Option<string>)
    requires Valid(t) && UinsUnique(t)
    requires IsTrimmed(uin)
    ensures UinsUnique(LinkUinToUser(t, userId, uin, classYear).users)
  {
    var s := LinkUinToUser(t, userId, uin, classYear);
    if s.reply.Done? {
      StripOfTrimmed(uin);
      assert forall k :: k in t.items ==> t.items[k].linkedUin != Some(uin);
    }
  }

  /** A link never alters an existing UIN link and only ever moves a role to FORMER_STUDENT. */
  lemma LinkIsMonotone(t: UserTable, userId: string, uin: string, classYear: Option<string>)
    ensures var t' := LinkUinToUser(t, userId, uin, classYear).users;
            && t'.items.Keys == t.items.Keys
            && (forall k :: k in t.items && IsLinked(t.items[k]) ==> t'.items[k].linkedUin == t.items[k].linkedUin)
            && (forall k :: k in t.items ==> t'.items[k].role == t.items[k].role || t'.items[k].role == FormerStudent)
  {
  }

  /**
   * After a successful link of a trimmed UIN, the same account cannot link
   * again, and any other existing account asking for that UIN is refused with
   * 409 as well.
   */
  lemma SecondLinkConflicts(t: UserTable, a: string, uin: string, classYear: Option<string>,
                            b: string, uin2: string, classYear2: Option<string>)
    requires Valid(t) && IsTrimmed(uin)
    requires LinkUinToUser(t, a, uin, classYear).reply.Done?
    ensures LinkUinToUser(LinkUinToUser(t, a, uin, classYear).users, a, uin2, classYear2).reply
              == Refused(409, AlreadyLinked)
    ensures var t' := LinkUinToUser(t, a, uin, classYear).users;
            b != a && b in t'.items ==> LinkUinToUser(t', b, uin, classYear2).reply.Refused?
                                        && LinkUinToUser(t', b, uin, classYear2).reply.status == 409
  {
    var t' := LinkUinToUser(t, a, uin, classYear).users;
    StripOfTrimmed(uin);
    if b != a && b in t'.items && !IsLinked(t'.items[b]) {
      var held := GetUserByLinkedUin(t', uin);
      assert t'.items[a].linkedUin == Some(uin);
      assert held.Some?;
      assert held.value.userId != b;
    }
  }

  /**
   * The uniqueness guard looks up the UIN as given while the link stores it
   * trimmed: a padded copy of a UIN that another account already holds slips
   * past the guard, and two accounts end up linked to the same UIN.
   */
  lemma PaddedUinDefeatsUniqueness(t: UserTable, holder: string, newcomer: string, uin: string)
    requires Valid(t)
    requires holder in t.items && newcomer in t.items && holder != newcomer
    requires IsTrimmed(uin) && uin != "" && t.items[holder].linkedUin == Some(uin)
    requires !IsLinked(t.items[newcomer])
    requires forall k :: k in t.items ==> t.items[k].linkedUin != Some([' '] + uin)
    ensures var s := LinkUinToUser(t, newcomer, [' '] + uin, None);
            s.reply.Done? && !UinsUnique(s.users)
  {
    StripLeadingSpace(uin);
    var s := LinkUinToUser(t, newcomer, [' '] + uin, None);
    assert s.users.items[newcomer].linkedUin == s.users.items[holder].linkedUin;
  }

  /** One request to `link_uin_to_user`. */
  datatype LinkRequest = LinkRequest(userId: string, uin: string, classYear: Option<string>)

  /** The user table after serving `reqs` one after another. */
  function RunLinks(t: UserTable, reqs: seq<LinkRequest>): UserTable
    decreases |reqs|
  {
    if |reqs| == 0 then t
    else RunLinks(LinkUinToUser(t, reqs[0].userId, reqs[0].uin, reqs[0].classYear).users, reqs[1..])
  }

  /**
   * Over any sequence of link calls with trimmed UINs: UINs stay unique across
   * accounts, a UIN once linked never changes, and roles only ever move to
   * FORMER_STUDENT.
   */
  lemma {:induction false} LinksKeepInvariants(t: UserTable, reqs: seq<LinkRequest>)
    requires Valid(t) && UinsUnique(t)
    requires forall i :: 0 <= i < |reqs| ==> IsTrimmed(reqs[i].uin)
    ensures var t' := RunLinks(t, reqs);
            && Valid(t') && UinsUnique(t')
            && t'.items.Keys == t.items.Keys
            && (forall k :: k in t.items && IsLinked(t.items[k]) ==> t'.items[k].linkedUin == t.items[k].linkedUin)
            && (forall k :: k in t.items ==> t'.items[k].role == t.items[k].role || t'.items[k].role == FormerStudent)
    decreases |reqs|
  {
    if |reqs| > 0 {
      var r := reqs[0];
      var mid := LinkUinToUser(t, r.userId, r.uin, r.classYear).users;
      LinkKeepsUinsUnique(t, r.userId, r.uin, r.classYear);
      LinkIsMonotone(t, r.userId, r.uin, r.classYear);
      LinksKeepInvariants(mid, reqs[1..]);
    }
  }
}
