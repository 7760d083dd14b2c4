/**
 * Redeeming a magic-link token (graduation_claim.py): validation, which only
 * reads the token table, and the claim that provisions or reuses an account,
 * links the UIN and only then marks the token claimed.
 */
module GraduationClaim {
  import opened Options
  import opened Text
  import opened RoleEngine
  import opened UserStore
  import opened Auth
  import opened Handover
  import opened HandoverTokens

  /** What a valid token grants: the UIN, the personal e-mail and the class year. */
  datatype TokenInfo = TokenInfo(uin: Option<string>, personalEmail: string, classYear: Option<string>)

  /** The item a submitted token is looked up under: the digest of the trimmed token. */
  function LookupKey(token: string): Digest {
    Sha256(Strip(token))
  }

  /** An item that is unclaimed and not past its expiry (an item without one expires at 0). */
  predicate Usable(rec: TokenRecord, now: int) {
    !rec.claimed && rec.expiresAt.GetOr(0) >= now
  }

  /**
   * `get_token_info`: a blank, unknown, claimed or expired token yields
   * nothing; a token is still valid at the very second it expires. A valid
   * token yields its UIN, its personal e-mail trimmed and lower-cased, and its
   * class year trimmed, or nothing when that is blank.
   */
  function GetTokenInfo(tokens: TokenTable, token: string, now: int): (r: Option<TokenInfo>)
    ensures r.Some? <==> !AllSpace(token) && LookupKey(token) in tokens && Usable(tokens[LookupKey(token)], now)
    ensures r.Some? ==>
              var rec := tokens[LookupKey(token)];
              && r.value.uin == rec.uin
              && r.value.personalEmail == Lower(Strip(OrEmpty(rec.personalEmail)))
              && IsTrimmed(r.value.personalEmail) && IsLowercase(r.value.personalEmail)
              && (r.value.classYear.None? <==> AllSpace(OrEmpty(rec.classYear)))
              && (r.value.classYear.Some? ==> r.value.classYear.value == Strip(OrEmpty(rec.classYear))
                                              && r.value.classYear.value != "")
  {
    var t := Strip(token);
    StripEmptyIffBlank(token);
    if t == "" then None
    else
      var h := Sha256(t);
      if h !in tokens then None
      else
        var rec := tokens[h];
        if rec.claimed then None
        else if rec.expiresAt.GetOr(0) < now then None
        else
          var email := Strip(OrEmpty(rec.personalEmail));
          var year := Strip(OrEmpty(rec.classYear));
          LowerKeepsTrimmed(email);
          LowerIsLowercase(email);
          StripEmptyIffBlank(OrEmpty(rec.classYear));
          Some(TokenInfo(rec.uin, Lower(email), if year == "" then None else Some(year)))
  }

  /**
   * A freshly minted token validates, until its expiry, to the UIN, the
   * lower-cased e-mail and the class year it was minted with; a missing class
   * year, stored as "", reads back as nothing. After the expiry it is invalid.
   */
  lemma MintedTokenValidates(tokens: TokenTable, raw: string, uin: string, personalEmail: string,
                             classYear: Option<string>, now: int, later: int)
    requires raw != "" && IsTrimmed(raw)
    requires classYear.Some? ==> IsTrimmed(classYear.value) && classYear.value != ""
    ensures var t := tokens[Sha256(raw) := MintRecord(uin, personalEmail, classYear, now)];
            && (later <= now + TokenTtlSeconds ==>
                  GetTokenInfo(t, raw, later) == Some(TokenInfo(Some(uin), Lower(Strip(personalEmail)), classYear)))
            && (later > now + TokenTtlSeconds ==> GetTokenInfo(t, raw, later).None?)
  {
    StripOfTrimmed(raw);
    StripEmptyIffBlank(raw);
    if classYear.Some? {
      StripOfTrimmed(classYear.value);
    } else {
      assert AllSpace(OrEmpty(classYear));
    }
  }

  /**
   * The claim's write: sets `claimed` on the item under `h`, creating an item
   * that holds only `claimed` when there is none.
   */
  function MarkClaimed(tokens: TokenTable, h: Digest): (t: TokenTable)
    ensures t.Keys == tokens.Keys + {h}
    ensures t[h].claimed
    ensures h in tokens ==> t[h] == tokens[h].(claimed := true)
    ensures forall g :: g in tokens && g != h ==> t[g] == tokens[g]
  {
    if h in tokens then tokens[h := tokens[h].(claimed := true)]
    else tokens[h := TokenRecord(None, None, None, None, true)]
  }

  /** What the identity provider answered to the sign-up of a new account. */
  datatype SignUpReply =
    | Registered(userSub: Option<string>)
    | UsernameExists
    | SignUpFailed(detail: string)

  /** The two tables a claim touches. */
  datatype Stores = Stores(users: UserTable, tokens: TokenTable)

  /** One claim call: its reply, the tables after it, and the attribute update it pushed. */
  datatype ClaimStep = ClaimStep(reply: Reply, stores: Stores, attributes: Option<AttributeUpdate>)

  /** The account a claim will link, or the refusal met while getting one. */
  datatype Provision = Provisioned(userId: string, users: UserTable) | NotProvisioned(reply: Reply)

  const InvalidToken := "Invalid or expired token"
  const PasswordTooShort := "Password must be at least 10 characters"
  const MinClaimPasswordLength := 10
  const EmailAlreadyLinked := "This email is already linked to a student UIN"
  const RegistrationFailed := "Registration failed"
  const AccountExists := "An account with this email already exists. Log in and use Graduation Handover."
  const MissingUin := "linked-UIN lookup issued without a UIN"

  /**
   * Registering a new account for `email`: on a usable user id, a FRIEND item
   * with no linked UIN is written before any linking happens.
   */
  function SignUpAccount(users: UserTable, email: string, classYear: Option<string>, signUp: SignUpReply): (p: Provision)
    ensures p.Provisioned? <==> signUp.Registered? && Truthy(signUp.userSub)
    ensures p.Provisioned? ==> p.userId == signUp.userSub.value && p.users.items.Keys == users.items.Keys + {p.userId}
    ensures p.Provisioned? ==>
              && (forall k :: k in users.items && k != p.userId ==> p.users.items[k] == users.items[k])
              && p.users.items[p.userId].email == Some(email)
              && p.users.items[p.userId].role == Friend
              && !IsLinked(p.users.items[p.userId])
              && (p.users.items[p.userId].classYear.Some? <==> Truthy(classYear))
              && (Truthy(classYear) ==> p.users.items[p.userId].classYear == classYear)
              && p.users.items[p.userId].personalEmail.None?
              && (Valid(users) ==> Valid(p.users))
    ensures signUp == UsernameExists ==> p == NotProvisioned(Refused(409, AccountExists))
    ensures signUp.SignUpFailed? ==> p == NotProvisioned(Refused(500, RegistrationFailed + ": " + signUp.detail))
    ensures signUp.Registered? && !Truthy(signUp.userSub) ==> p == NotProvisioned(Refused(500, RegistrationFailed))
  {
    match signUp
    case Registered(sub) =>
      if !Truthy(sub) then NotProvisioned(Refused(500, RegistrationFailed))
      else Provisioned(sub.value, PutUser(users, sub.value, email, Friend, classYear, None))
    case UsernameExists => NotProvisioned(Refused(409, AccountExists))
    case SignUpFailed(detail) => NotProvisioned(Refused(500, RegistrationFailed + ": " + detail))
  }

  /**
   * The end of a claim once an account is known: link it to the token's UIN
   * and, only if that succeeds, mark the submitted token claimed. The reply,
   * the users and the pushed attributes are the link's own; a token without
   * a UIN raises before anything is written.
   */
  function LinkAndRedeem(st: Stores, token: string, info: TokenInfo, userId: string, users: UserTable): (c: ClaimStep)
    ensures info.uin.None? ==> c == ClaimStep(Raised(MissingUin), Stores(users, st.tokens), None)
    ensures info.uin.Some? ==>
              var link := LinkUinToUser(users, userId, info.uin.value, info.classYear);
              c.reply == link.reply && c.stores.users == link.users && c.attributes == link.attributes
    ensures !c.reply.Done? ==> c.stores.tokens == st.tokens && c.attributes.None?
    ensures c.reply.Done? ==>
              && c.stores.tokens == MarkClaimed(st.tokens, Sha256(token))
              && info.uin.Some? && userId in users.items
              && c.reply.user == Some(c.stores.users.items[userId])
              && c.reply.user.value.email == users.items[userId].email
              && c.reply.user.value.role == FormerStudent
              && c.reply.user.value.linkedUin == Some(Strip(info.uin.value))
    ensures Valid(users) ==> Valid(c.stores.users)
  {
    if info.uin.None? then
      ClaimStep(Raised(MissingUin), Stores(users, st.tokens), None)
    else
      var link := LinkUinToUser(users, userId, info.uin.value, info.classYear);
      if !link.reply.Done? then
        ClaimStep(link.reply, Stores(link.users, st.tokens), None)
      else
        ClaimStep(link.reply, Stores(link.users, MarkClaimed(st.tokens, Sha256(token))), link.attributes)
  }

  /**
   * `claim_with_password`. An invalid token is refused (400) before the
   * password is looked at; a password under 10 characters is refused (400);
   * an account for the token's e-mail that is already linked is refused (409).
   * Otherwise that account, or a newly registered FRIEND account, is linked
   * to the token's UIN; the token is marked claimed only when the link
   * succeeds, and under the digest of the token exactly as submitted.
   */
  function ClaimWithPassword(st: Stores, token: string, password: Option<string>, signUp: SignUpReply,
                             now: int): (c: ClaimStep)
    ensures GetTokenInfo(st.tokens, token, now).None? ==> c == ClaimStep(Refused(400, InvalidToken), st, None)
    ensures GetTokenInfo(st.tokens, token, now).Some? && (password.None? || |password.value| < 10) ==>
              c == ClaimStep(Refused(400, PasswordTooShort), st, None)
    ensures var info := GetTokenInfo(st.tokens, token, now);
            var existing := if info.Some? then GetUserByEmail(st.users, info.value.personalEmail) else None;
            info.Some? && password.Some? && |password.value| >= 10 && existing.Some? && IsLinked(existing.value) ==>
              c == ClaimStep(Refused(409, EmailAlreadyLinked), st, None)
    ensures !c.reply.Done? ==> c.stores.tokens == st.tokens && c.attributes.None?
    ensures c.reply.Done? ==>
              && GetTokenInfo(st.tokens, token, now).Some?
              && password.Some? && |password.value| >= 10
              && c.stores.tokens == MarkClaimed(st.tokens, Sha256(token))
    ensures c.reply.Done? ==>
              var info := GetTokenInfo(st.tokens, token, now).value;
              && info.uin.Some?
              && c.reply.user.Some?
              && (Valid(st.users) ==> c.reply.user.value.email == Some(info.personalEmail))
              && c.reply.user.value.role == FormerStudent
              && c.reply.user.value.linkedUin == Some(Strip(info.uin.value))
    ensures c.reply.Done? && Valid(st.users) ==>
              var u := c.reply.user.value;
              u.userId in c.stores.users.items && c.stores.users.items[u.userId] == u
    ensures var info := GetTokenInfo(st.tokens, token, now);
            var existing := if info.Some? then GetUserByEmail(st.users, info.value.personalEmail) else None;
            info.Some? && password.Some? && |password.value| >= 10 && existing.Some? && !IsLinked(existing.value) ==>
              c == LinkAndRedeem(st, token, info.value, existing.value.userId, st.users)
    ensures var info := GetTokenInfo(st.tokens, token, now);
            var existing := if info.Some? then GetUserByEmail(st.users, info.value.personalEmail) else None;
            info.Some? && password.Some? && |password.value| >= 10 && existing.None? ==>
              var account := SignUpAccount(st.users, info.value.personalEmail, info.value.classYear, signUp);
              && (account.NotProvisioned? ==> c == ClaimStep(account.reply, st, None))
              && (account.Provisioned? ==> c == LinkAndRedeem(st, token, info.value, account.userId, account.users))
    ensures Valid(st.users) ==> Valid(c.stores.users)
  {
    var info := GetTokenInfo(st.tokens, token, now);
    if info.None? then
      ClaimStep(Refused(400, InvalidToken), st, None)
    else if password.None? || |password.value| < MinClaimPasswordLength then
      ClaimStep(Refused(400, PasswordTooShort), st, None)
    else
      var email := info.value.personalEmail;
      var existing := GetUserByEmail(st.users, email);
      if existing.Some? && IsLinked(existing.value) then
        ClaimStep(Refused(409, EmailAlreadyLinked), st, None)
      else if existing.Some? then
        LinkAndRedeem(st, token, info.value, existing.value.userId, st.users)
      else
        var account := SignUpAccount(st.users, email, info.value.classYear, signUp);
        if account.NotProvisioned? then ClaimStep(account.reply, st, None)
        else LinkAndRedeem(st, token, info.value, account.userId, account.users)
  }

  /**
   * A token submitted without surrounding whitespace is single-use: once a
   * claim with it succeeds it never validates again, so a second claim is
   * refused as invalid whatever its password, sign-up outcome or time.
   */
  lemma ClaimIsSingleUse(st: Stores, token: string, password: Option<string>, signUp: SignUpReply, now: int,
                         password2: Option<string>, signUp2: SignUpReply, later: int)
    requires IsTrimmed(token)
    requires ClaimWithPassword(st, token, password, signUp, now).reply.Done?
    ensures var after := ClaimWithPassword(st, token, password, signUp, now).stores;
            && GetTokenInfo(after.tokens, token, later).None?
            && ClaimWithPassword(after, token, password2, signUp2, later).reply == Refused(400, InvalidToken)
  {
    StripOfTrimmed(token);
  }

  /**
   * A token submitted with leading whitespace validates under its trimmed
   * digest but is marked claimed under the untrimmed one: after a successful
   * claim it still validates exactly as before.
   */
  lemma PaddedTokenSurvivesClaim(st: Stores, token: string, password: Option<string>, signUp: SignUpReply, now: int)
    requires IsTrimmed(token) && token != ""
    requires ClaimWithPassword(st, [' '] + token, password, signUp, now).reply.Done?
    ensures var after := ClaimWithPassword(st, [' '] + token, password, signUp, now).stores;
            && GetTokenInfo(after.tokens, [' '] + token, now).Some?
            && GetTokenInfo(after.tokens, [' '] + token, now) == GetTokenInfo(st.tokens, [' '] + token, now)
            && after.tokens[Sha256([' '] + token)].claimed
  {
    StripLeadingSpace(token);
    var padded := [' '] + token;
    assert Sha256(padded) != Sha256(token) by { assert |padded| != |token|; }
  }

  /** Marking a token claimed never puts an untrimmed UIN into the token table. */
  lemma MarkClaimedKeepsUinsTrimmed(tokens: TokenTable, h: Digest)
    requires TokenUinsTrimmed(tokens)
    ensures TokenUinsTrimmed(MarkClaimed(tokens, h))
  {
  }

  lemma LinkAndRedeemKeepsUinsUnique(st: Stores, token: string, info: TokenInfo, userId: string, users: UserTable)
    requires Valid(users) && UinsUnique(users) && TokenUinsTrimmed(st.tokens)
    requires info.uin.Some? ==> IsTrimmed(info.uin.value)
    ensures var after := LinkAndRedeem(st, token, info, userId, users).stores;
            UinsUnique(after.users) && TokenUinsTrimmed(after.tokens)
  {
    MarkClaimedKeepsUinsTrimmed(st.tokens, Sha256(token));
    if info.uin.Some? {
      LinkKeepsUinsUnique(users, userId, info.uin.value, info.classYear);
    }
  }

  /**
   * When every stored token names a trimmed UIN, a claim keeps linked UINs
   * unique across accounts, and keeps the token table in that shape.
   */
  lemma ClaimKeepsUinsUnique(st: Stores, token: string, password: Option<string>, signUp: SignUpReply, now: int)
    requires Valid(st.users) && UinsUnique(st.users) && TokenUinsTrimmed(st.tokens)
    ensures var after := ClaimWithPassword(st, token, password, signUp, now).stores;
            UinsUnique(after.users) && TokenUinsTrimmed(after.tokens)
  {
    var info := GetTokenInfo(st.tokens, token, now);
    if info.Some? && password.Some? && |password.value| >= MinClaimPasswordLength {
      assert info.value.uin == st.tokens[LookupKey(token)].uin;
      var email := info.value.personalEmail;
      var existing := GetUserByEmail(st.users, email);
      var c := ClaimWithPassword(st, token, password, signUp, now);
      if existing.Some? && !IsLinked(existing.value) {
        assert c == LinkAndRedeem(st, token, info.value, existing.value.userId, st.users);
        LinkAndRedeemKeepsUinsUnique(st, token, info.value, existing.value.userId, st.users);
      } else if existing.None? {
        var account := SignUpAccount(st.users, email, info.value.classYear, signUp);
        if account.Provisioned? {
          assert c == LinkAndRedeem(st, token, info.value, account.userId, account.users);
          PutUnlinkedKeepsUinsUnique(st.users, account.userId, email, Friend, info.value.classYear, None);
          LinkAndRedeemKeepsUinsUnique(st, token, info.value, account.userId, account.users);
        }
      }
    }
  }

  /** Linking an account that is the first match for its e-mail leaves it the first match, now linked. */
  lemma LinkedAccountStaysFirst(users: UserTable, u: string, email: string, uin: string, classYear: Option<string>)
    requires Valid(users) && u in users.items && GetUserByEmail(users, email) == Some(users.items[u])
    requires LinkUinToUser(users, u, uin, classYear).reply.Done?
    ensures var linked := LinkUinToUser(users, u, uin, classYear).users;
            GetUserByEmail(linked, email) == Some(linked.items[u]) && IsLinked(linked.items[u])
  {
    var linked := LinkUinToUser(users, u, uin, classYear).users;
    FirstMatchSurvivesUpdate(users, linked, u, ByEmail(email));
  }

  /** An account registered for an e-mail no item had is, once linked, the first match for it. */
  lemma NewAccountIsOnlyMatch(users: UserTable, email: string, classYear: Option<string>, signUp: SignUpReply,
                              uin: string)
    requires Valid(users) && GetUserByEmail(users, email).None?
    requires SignUpAccount(users, email, classYear, signUp).Provisioned?
    requires var p := SignUpAccount(users, email, classYear, signUp);
             LinkUinToUser(p.users, p.userId, uin, classYear).reply.Done?
    ensures var p := SignUpAccount(users, email, classYear, signUp);
            var linked := LinkUinToUser(p.users, p.userId, uin, classYear).users;
            GetUserByEmail(linked, email) == Some(linked.items[p.userId]) && IsLinked(linked.items[p.userId])
  {
    var p := SignUpAccount(users, email, classYear, signUp);
    var linked := LinkUinToUser(p.users, p.userId, uin, classYear).users;
    FirstMatchOfOnlyMatch(linked, p.userId, ByEmail(email));
  }

  /** After a successful claim, the first account for the token's e-mail is linked. */
  lemma ClaimLeavesEmailLinked(st: Stores, token: string, password: Option<string>, signUp: SignUpReply, now: int)
    requires Valid(st.users)
    requires ClaimWithPassword(st, token, password, signUp, now).reply.Done?
    ensures var linked := ClaimWithPassword(st, token, password, signUp, now).stores.users;
            var holder := GetUserByEmail(linked, GetTokenInfo(st.tokens, token, now).value.personalEmail);
            holder.Some? && IsLinked(holder.value)
  {
    var info := GetTokenInfo(st.tokens, token, now).value;
    var email := info.personalEmail;
    var existing := GetUserByEmail(st.users, email);
    var linked := ClaimWithPassword(st, token, password, signUp, now).stores.users;
    if existing.Some? {
      var u := existing.value.userId;
      assert linked == LinkUinToUser(st.users, u, info.uin.value, info.classYear).users;
      LinkedAccountStaysFirst(st.users, u, email, info.uin.value, info.classYear);
    } else {
      var p := SignUpAccount(st.users, email, info.classYear, signUp);
      assert linked == LinkUinToUser(p.users, p.userId, info.uin.value, info.classYear).users;
      NewAccountIsOnlyMatch(st.users, email, info.classYear, signUp, info.uin.value);
    }
  }

  /**
   * The claim's last write can fail after the link has been stored. In that
   * state (the account linked, the token still unclaimed) the token still
   * validates, and a retry of the claim is refused with 409 because the
   * account for the token's e-mail is already linked.
   */
  lemma InterruptedClaimBlocksRetry(st: Stores, token: string, password: Option<string>, signUp: SignUpReply,
                                    now: int, password2: Option<string>, signUp2: SignUpReply)
    requires Valid(st.users)
    requires ClaimWithPassword(st, token, password, signUp, now).reply.Done?
    requires password2.Some? && |password2.value| >= MinClaimPasswordLength
    ensures var linked := ClaimWithPassword(st, token, password, signUp, now).stores.users;
            && GetTokenInfo(st.tokens, token, now).Some?
            && ClaimWithPassword(Stores(linked, st.tokens), token, password2, signUp2, now).reply
                 == Refused(409, EmailAlreadyLinked)
  {
    var linked := ClaimWithPassword(st, token, password, signUp, now).stores.users;
    ClaimLeavesEmailLinked(st, token, password, signUp, now);
    RetryRefusedWhenLinked(Stores(linked, st.tokens), token, password2, signUp2, now);
  }

  /** A valid token whose e-mail already belongs to a linked account is refused with 409. */
  lemma RetryRefusedWhenLinked(st: Stores, token: string, password: Option<string>, signUp: SignUpReply, now: int)
    requires GetTokenInfo(st.tokens, token, now).Some?
    requires password.Some? && |password.value| >= MinClaimPasswordLength
    requires var holder := GetUserByEmail(st.users, GetTokenInfo(st.tokens, token, now).value.personalEmail);
             holder.Some? && IsLinked(holder.value)
    ensures ClaimWithPassword(st, token, password, signUp, now).reply == Refused(409, EmailAlreadyLinked)
  {
  }
}
