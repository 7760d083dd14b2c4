/**
 * The magic-link token table shared by the scan (which mints tokens) and the
 * claim (which validates and redeems them). Only a digest of each raw token
 * is stored.
 */
module HandoverTokens {
  import opened Options
  import opened Text

  /**
   * SHA-256 of a raw token, kept symbolic: two digests are equal exactly when
   * their preimages are, so collisions are not modelled.
   */
  datatype Digest = Sha256(preimage: string)

  /**
   * One token item. Every attribute is optional because marking an unknown
   * digest as claimed creates an item holding only `claimed`.
   */
  datatype TokenRecord = TokenRecord(
    uin: Option<string>,
    personalEmail: Option<string>,
    classYear: Option<string>,
    expiresAt: Option<int>,
    claimed: bool)

  type TokenTable = map<Digest, TokenRecord>

  /** A token stays redeemable for seven days after it is minted. */
  const TokenTtlSeconds := 7 * 24 * 3600

  /**
   * The item both minting paths write: the UIN, the trimmed personal e-mail,
   * the class year or "" when there is none, an expiry one TTL after `now`,
   * and `claimed` false.
   */
  function MintRecord(uin: string, personalEmail: string, classYear: Option<string>, now: int): (r: TokenRecord)
    ensures r.uin == Some(uin) && r.personalEmail == Some(personalEmail)
    ensures r.classYear == Some(OrEmpty(classYear))
    ensures r.expiresAt == Some(now + 604800) && !r.claimed
  {
    TokenRecord(Some(uin), Some(personalEmail), Some(OrEmpty(classYear)), Some(now + TokenTtlSeconds), false)
  }

  /** Every token item that names a UIN names a trimmed one. */
  predicate TokenUinsTrimmed(tokens: TokenTable) {
    forall h :: h in tokens && tokens[h].uin.Some? ==> IsTrimmed(tokens[h].uin.value)
  }
}
