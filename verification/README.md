# Graduation handover, modelled in Dafny

This project models the graduation-handover workflow of the external-users
service (`services/external-service/`) together with the pure logic it
relies on. A student who has graduated is sent a magic link. Redeeming the
link creates an external account (or reuses an existing one), links it to
the student UIN and turns its role into FORMER_STUDENT.

Every store becomes an immutable value threaded through pure functions:
- the external-users table is a map keyed by `user_id`, plus the order in which its secondary indexes enumerate items;
- the token table is a map keyed by the SHA-256 digest of a raw token;
- the students table is a sequence of records;
- the handover log is the sequence of its entries in scan order.

Replies carry the HTTP status the service picks (400/404/409/500). A
refusal the code returns is a `Refused` reply. `Raised` covers one escaping
exception only: a claim whose token item has no UIN. The other writes of a
link or a claim are modelled as succeeding together (see "Left out").

Modules follow the source files:
- `Text`: the part of Python's `str` semantics the service uses (`strip`, `lower`, `split(c)[-1]`, string ordering, truthiness).
- `Validation`: `validation.py`.
- `RoleEngine`: `role_engine.py`.
- `UserStore`: `db.py`.
- `Auth`: `auth.py`.
- `Handover`: `handover.py`.
- `HandoverTokens`: the token item shared by minting and redemption.
- `GraduationScan`: `graduation_scan.py`.
- `GraduationClaim`: `graduation_claim.py`.
- `HandoverLog`: `handover_log.py`.

The proofs cover:
- one UIN per account across any sequence of link calls;
- a token that never validates again after a successful claim, while a failed claim leaves it usable;
- the scan's accounting (`processed + |errors| == total_eligible`);
- the round trip from a minted token back to what `get_token_info` returns;
- the newest-first, bounded and stable listing of the audit log.

Two behaviours of the code limit where these invariants hold. Both are
modelled as written and exhibited by lemmas:
- The uniqueness guard of `link_uin_to_user` looks the UIN up untrimmed but stores it trimmed. A padded copy of a linked UIN therefore gets through (`Handover.PaddedUinDefeatsUniqueness`).
- `get_token_info` looks the token up by the digest of the trimmed token, but the claim marks the digest of the token as submitted. A padded token therefore stays valid after a successful claim (`GraduationClaim.PaddedTokenSurvivesClaim`).

`link_uin_to_user` checks neither the UIN's format nor whether a personal
e-mail matches (handover.py:12-54), and the model does not check them either.

## Model

| member | source | states |
|---|---|---|
| Validation.NormalizeEmail | services/external-service/validation.py:7-14 | an address is returned exactly when the input is present and contains both '@' and '.'; it is the trimmed, lower-cased input, so it has no surrounding whitespace and no capital letter |
| Validation.NormalizeEmailIdempotent | services/external-service/validation.py:11-13 | normalising an accepted address again returns the same address |
| Validation.ValidateUin | services/external-service/validation.py:17-26 | a missing or blank UIN gets "UIN is required"; the trimmed UIN is accepted exactly when it is 7 to 15 ASCII digits and is then returned trimmed; anything else gets the numeric-format error |
| Validation.ValidateUinAcceptsDigits | services/external-service/validation.py:24-26 | every string of 7 to 15 digits is accepted unchanged |
| Validation.ValidatePasswordLength | services/external-service/validation.py:29-35 | a missing or empty password gets "Password is required"; a password is accepted exactly when it is non-empty and at least `min_len` long; a short one is rejected with a message naming the minimum |
| Validation.DefaultPasswordLength | services/external-service/validation.py:29-35 | with the default minimum of 10, a password passes exactly when it has at least 10 characters, and a short non-empty one gets "Password must be at least 10 characters" |
| Validation.ValidateClassYear | services/external-service/validation.py:38-43 | the result is absent exactly when the input is absent or blank; otherwise it is the non-empty trimmed input |
| Validation.ValidateClassYearIdempotent | services/external-service/validation.py:38-43 | validating a validated class year changes nothing |
| Text.Strip | services/external-service/validation.py:21-23 | `strip()` returns the middle of the input, with only whitespace removed at either end and no whitespace left at either end |
| Text.StripEmptyIffBlank | services/external-service/validation.py:21-23 | a stripped string is empty exactly when the input was all whitespace |
| Text.StripKeepsVisible | services/external-service/validation.py:11-12 | a visible character such as '@' is in the stripped string exactly when it is in the input |
| Text.LowerIsLowercase | services/external-service/validation.py:11 | `lower()` leaves no capital letter |
| Text.AfterLast | services/external-service/role_engine.py:20 | `split(c)[-1]` is a suffix of the input that contains no `c` and is preceded by `c` when it is not the whole input |
| RoleEngine.DomainFromEmail | services/external-service/role_engine.py:16-20 | with no '@' the domain is empty; otherwise it is the lower-cased text after some '@' of the trimmed address, with no '@' after that one |
| RoleEngine.DomainAfterLastAt | services/external-service/role_engine.py:20 | the text after the last '@' of an address, lower-cased, contains no '@' and no capital letter |
| RoleEngine.DomainOfAddress | services/external-service/role_engine.py:16-20 | for a trimmed `local@domain` whose domain has no '@', the domain found is the lower-cased domain |
| RoleEngine.PartnerDomains | services/external-service/role_engine.py:23-49 | with no directory configured the stub set {acme.com, partner.org, example.com} is used; an unreachable or malformed directory yields the empty set; a listed directory yields exactly its domains lower-cased |
| RoleEngine.ResolveRole | services/external-service/role_engine.py:52-75 | a partner domain gives PARTNER with the class year or nothing when it is falsy, whatever the flag; otherwise a claim with a missing or blank class year is rejected with the class-year message, a claim with one gives FORMER_STUDENT with the trimmed class year, and no claim gives FRIEND without a class year |
| RoleEngine.PartnerIgnoresClaim | services/external-service/role_engine.py:67-68 | for a partner address the former-student flag makes no difference and the role is PARTNER |
| RoleEngine.NoDomainNoPartner | services/external-service/role_engine.py:64-67 | an address without '@' never resolves to PARTNER, whatever the partner set |
| UserStore.FirstMatch | services/external-service/db.py:25-26 | an index query returns a stored item that matches the key with no earlier match in index order; it returns nothing only when no stored item matches |
| UserStore.FirstMatchSurvivesUpdate | services/external-service/db.py:18-26 | when only one item changes, the index order stays the same and that item still matches, an item that was the first match stays the first match |
| UserStore.FirstMatchOfOnlyMatch | services/external-service/db.py:18-26 | the only item matching a key is what the query returns |
| UserStore.GetUserById | services/external-service/db.py:12-15 | an item is returned exactly when the key is stored, and it is the stored item itself, carrying that key |
| UserStore.GetUserByEmail | services/external-service/db.py:18-26 | a returned item is stored and has that e-mail; nothing is returned only when no stored item has it |
| UserStore.GetUserByLinkedUin | services/external-service/db.py:29-37 | a returned item is stored and is linked to that UIN; nothing is returned only when no stored item is |
| UserStore.PutUser | services/external-service/db.py:40-57 | the item under `user_id` is replaced by one holding the id, e-mail and role, the class year and linked UIN only when non-empty, and nothing else; every other item is unchanged |
| UserStore.PutUnlinkedKeepsUinsUnique | services/external-service/db.py:40-57 | writing an item without a linked UIN keeps linked UINs unique |
| UserStore.UpdateUserRoleAndUin | services/external-service/db.py:60-74 | the role and linked UIN are set, and the personal e-mail too (trimmed, lower-cased) only when one is given; every other attribute keeps its value; a missing key gets an item holding just these attributes; no other item changes |
| UserStore.SetClassYear | services/external-service/handover.py:36-41 | the separate class-year update changes only that attribute of that item |
| Auth.ParseTokenFromHeader | services/external-service/auth.py:80-87 | nothing for missing or empty headers; a token exactly when the chosen header value starts with the case-sensitive "Bearer "; the token is the rest of that value trimmed |
| Auth.BearerRoundTrip | services/external-service/auth.py:85-87 | an `Authorization: Bearer <token>` header yields the token back |
| Auth.LowerCaseHeaderWins | services/external-service/auth.py:84 | a non-empty `authorization` header is read even when `Authorization` is present |
| Auth.CustomAttributes | services/external-service/auth.py:49-60 | the list starts with the role; it holds the class year exactly when one is given and the linked UIN exactly when one is given, each under its own name |
| Handover.LinkUinToUser | services/external-service/handover.py:12-54 | guards in order: unknown account 404, already linked 409, UIN held by another account 409, blank UIN 400, each leaving the table unchanged; a link happens exactly when all four pass, and then the account becomes FORMER_STUDENT linked to the trimmed UIN, takes the trimmed class year when one is given, keeps its other attributes, other accounts are unchanged, the reply is the re-read item with "Graduation handover complete", and the attributes are pushed when the account has an e-mail |
| Handover.LinkKeepsUinsUnique | services/external-service/handover.py:27-35 | a link with a trimmed UIN keeps one account per linked UIN |
| Handover.LinkIsMonotone | services/external-service/handover.py:35-41 | a link keeps the set of accounts, never changes an existing UIN link, and only ever changes a role to FORMER_STUDENT |
| Handover.SecondLinkConflicts | services/external-service/handover.py:24-29 | after a successful link of a trimmed UIN, linking the same account again gets 409, and so does another account asking for that UIN |
| Handover.PaddedUinDefeatsUniqueness | services/external-service/handover.py:27-31 | a UIN with a leading space passes the uniqueness guard although the trimmed UIN is already linked, and two accounts end up holding the same UIN |
| Handover.LinksKeepInvariants | services/external-service/handover.py:12-54 | over any sequence of link calls with trimmed UINs, the table stays well formed, linked UINs stay unique, no link is ever changed and roles only move to FORMER_STUDENT |
| HandoverTokens.MintRecord | services/external-service/graduation_scan.py:64-73 | a minted item holds the UIN, the personal e-mail, the class year or "" when there is none, an expiry 604800 seconds after `now`, and is unclaimed |
| GraduationClaim.GetTokenInfo | services/external-service/graduation_claim.py:22-45 | a token yields information exactly when it is not blank and the digest of the trimmed token names an item that is unclaimed and not yet expired (it is still valid at its expiry second); the information is the UIN, the e-mail trimmed and lower-cased, and the class year trimmed or nothing when blank |
| GraduationClaim.MintedTokenValidates | services/external-service/graduation_claim.py:22-45 | a token just minted validates up to its expiry second and gives back the UIN, the e-mail trimmed and lower-cased, and the class year it was minted with (a missing one, stored as "", reads back as nothing); after its expiry it is invalid |
| GraduationClaim.MarkClaimed | services/external-service/graduation_claim.py:98-104 | the item under the digest is claimed, created when missing; every other item is unchanged |
| GraduationClaim.SignUpAccount | services/external-service/graduation_claim.py:73-91 | an account is created exactly when sign-up returns a non-empty user id; it is a FRIEND item with the e-mail, the class year when one is given (none otherwise), no personal e-mail and no linked UIN, and every other item is kept; an existing username gets 409 and other sign-up failures get 500 |
| GraduationClaim.LinkAndRedeem | services/external-service/graduation_claim.py:93-104 | a token without a UIN raises before any write; otherwise the reply, the users and the pushed attributes are exactly those of `link_uin_to_user`; when the link fails the token table is unchanged; when it succeeds the token is marked claimed and the reply is the stored account, FORMER_STUDENT linked to the trimmed UIN |
| GraduationClaim.ClaimWithPassword | services/external-service/graduation_claim.py:48-109 | an invalid token gets 400 before the password is looked at; a password under 10 characters gets 400; an already linked account for the e-mail gets 409; an unlinked account for the e-mail is linked as `LinkAndRedeem` does; with no account, a failed sign-up returns its refusal with nothing written, and a registered one is linked as `LinkAndRedeem` does; any refusal leaves the token table unchanged; a success marks the submitted token claimed and replies with the stored account, FORMER_STUDENT with the token's e-mail and trimmed UIN |
| GraduationClaim.ClaimIsSingleUse | services/external-service/graduation_claim.py:36-37 | after a successful claim with a trimmed token the token no longer validates, and a second claim with it gets 400 |
| GraduationClaim.PaddedTokenSurvivesClaim | services/external-service/graduation_claim.py:27-30 | after a successful claim with a token carrying a leading space, the token still validates exactly as before, while an item for the padded token's digest is marked claimed |
| GraduationClaim.ClaimLeavesEmailLinked | services/external-service/graduation_claim.py:64-104 | after a successful claim, the account the e-mail lookup finds for the token's e-mail is linked, whether it existed before or was just registered |
| GraduationClaim.LinkedAccountStaysFirst | services/external-service/graduation_claim.py:64-71 | linking the account found by e-mail leaves it the account found by e-mail, now linked |
| GraduationClaim.NewAccountIsOnlyMatch | services/external-service/graduation_claim.py:73-94 | an account registered for an e-mail no item had is, once linked, the account found by that e-mail |
| GraduationClaim.RetryRefusedWhenLinked | services/external-service/graduation_claim.py:64-69 | a valid token whose e-mail already belongs to a linked account is refused with 409 |
| GraduationClaim.InterruptedClaimBlocksRetry | services/external-service/graduation_claim.py:93-104 | if the write that marks the token claimed is lost after the link was stored, the token still validates and every retry of the claim is refused with 409 |
| GraduationClaim.MarkClaimedKeepsUinsTrimmed | services/external-service/graduation_claim.py:98-104 | marking a token claimed never adds an untrimmed UIN to the token table |
| GraduationClaim.LinkAndRedeemKeepsUinsUnique | services/external-service/graduation_claim.py:93-104 | linking and redeeming keeps linked UINs unique and token UINs trimmed |
| GraduationClaim.ClaimKeepsUinsUnique | services/external-service/graduation_claim.py:48-109 | when every token item names a trimmed UIN, a claim keeps linked UINs unique |
| GraduationScan.EligibleRecords | services/external-service/graduation_scan.py:31-45 | the query returns exactly the students that are STUDENT with a graduation date no later than today, compared as text, each as many times as it occurs in the table and no other record |
| GraduationScan.ContactOf | services/external-service/graduation_scan.py:51-53 | the scan reads the UIN, the trimmed personal e-mail, and the class year trimmed or nothing when blank |
| GraduationScan.MintCount | services/external-service/graduation_scan.py:47-79 | the count is the number of positions among the first `n` eligible records whose contact is deliverable and whose token write succeeds |
| GraduationScan.ScanCounts | services/external-service/graduation_scan.py:47-81 | `processed` counts the records that got a token, and `processed` plus the number of errors equals the number of records seen |
| GraduationScan.ScanReportsEveryMiss | services/external-service/graduation_scan.py:55-79 | a record without a UIN or a usable e-mail is reported with the skip message; a record whose token write failed is reported with its UIN and the failure |
| GraduationScan.ScanTouchesOnlyMinted | services/external-service/graduation_scan.py:57-73 | the scan adds exactly the digests of the tokens it minted and leaves every other item unchanged |
| GraduationScan.ScanMintsFresh | services/external-service/graduation_scan.py:60-73 | every minted digest is stored with an unclaimed item expiring one TTL after `now` |
| GraduationScan.ScanMintsOwnItems | services/external-service/graduation_scan.py:60-73 | with distinct random draws, each minted digest holds the item minted for its own record |
| GraduationScan.ScanKeepsUinsTrimmed | services/external-service/graduation_scan.py:64-73 | minting for records with trimmed UINs keeps every token UIN trimmed |
| GraduationScan.MintAll | services/external-service/graduation_scan.py:47-81 | the loop over eligible records yields the accounting, the error entries, the minted items and the untouched rest of the table stated above |
| GraduationScan.RunScan | services/external-service/graduation_scan.py:23-81 | `total_eligible` is the number of eligible students, processed plus errors equals it, and only the digests of minted tokens are added |
| GraduationScan.TrimTrailingSlashes | services/external-service/graduation_scan.py:168 | `rstrip('/')` keeps a prefix of the base URL, removes only slashes and leaves no slash at the end |
| GraduationScan.MagicLink | services/external-service/graduation_scan.py:168 | the link starts with the base URL without trailing slashes, continues with "/#claim?token=" and ends with the raw token; for a token without '=', the text after the link's last '=' is exactly the token |
| GraduationScan.RequestEmail | services/external-service/graduation_scan.py:121-123 | the looked-up e-mail is the input (or "" when absent) trimmed and lower-cased; it contains '@' exactly when the input does |
| GraduationScan.FirstRequestMatch | services/external-service/graduation_scan.py:128-147 | the chosen record is the first STUDENT whose personal e-mail equals the request; nothing is chosen only when there is no such record |
| GraduationScan.IssueLink | services/external-service/graduation_scan.py:147-175 | a stored token yields a reply that carries the link exactly when no SES sender is configured, with the matching message; a failed write gets 500 and leaves the token table unchanged |
| GraduationScan.RequestMagicLink | services/external-service/graduation_scan.py:115-175 | 400 exactly when the e-mail lacks '@'; 404 exactly when it has one and no STUDENT record has that e-mail; otherwise the first match gets a token; a reply without a link leaves the token table unchanged |
| GraduationScan.RequestedLinkValidates | services/external-service/graduation_scan.py:152-173 | a link issued on request validates until its expiry and yields the requested e-mail |
| GraduationScan.ContactsHaveCleanClassYears | services/external-service/graduation_scan.py:53 | every class year the scan reads is either absent or non-empty and trimmed |
| GraduationScan.ScannedTokenValidates | services/external-service/graduation_scan.py:57-73 | with distinct random draws, every token minted by the scan validates until its expiry and names its own record's UIN |
| HandoverLog.LogInitiated | services/external-service/handover_log.py:23-41 | no table gives the empty id and no write; with a table the fresh id is returned whether or not the write succeeds, and a successful write appends an INITIATED entry with the personal e-mail and a 90-day expiry |
| HandoverLog.LogSuccess | services/external-service/handover_log.py:44-58 | nothing happens without a table, without an id or when the write fails; otherwise a SUCCESS entry is appended |
| HandoverLog.StoredReason | services/external-service/handover_log.py:73-74 | an empty or missing reason is not stored; otherwise its first `min(len, 500)` characters are stored |
| HandoverLog.LogFailed | services/external-service/handover_log.py:61-78 | like the success entry, with status FAILED; the reason is stored only when non-empty, and then as exactly its first `min(len, 500)` characters |
| HandoverLog.InitiatedThenSucceededCorrelate | services/external-service/handover_log.py:23-58 | an INITIATED entry followed by a SUCCESS entry share the fresh handover id |
| HandoverLog.UnconfiguredLogIsSilent | services/external-service/handover_log.py:25-26 | without a table every logging call leaves no trace |
| HandoverLog.SortNewestFirstCorrect | services/external-service/handover_log.py:91 | the sort orders entries by timestamp descending, with a missing timestamp as "", and is a permutation that keeps entries with equal timestamps in their original order |
| HandoverLog.Window | services/external-service/handover_log.py:86-90 | the entries read are a prefix of the scan order, either all entries or at least `2 * limit`, and fewer than `5 * limit` |
| HandoverLog.FullPagesReadOnePage | services/external-service/handover_log.py:86-90 | when each page returns `3 * limit` items, one page is read |
| HandoverLog.FetchWindow | services/external-service/handover_log.py:86-90 | the paging loop reads exactly that window |
| HandoverLog.ListRecent | services/external-service/handover_log.py:81-94 | empty without a table, for a non-positive limit or when the scan fails; otherwise at most `limit` entries, taken from the window, newest first |
| HandoverLog.ListRecentKeepsNewest | services/external-service/handover_log.py:91-92 | no entry of the window that was left out is newer than an entry returned |
| HandoverLog.ListRecentIsStable | services/external-service/handover_log.py:91-92 | the entries returned with a given timestamp are the first entries of the window with that timestamp, in window order |

## Left out

- Store, identity-provider and mail calls: DynamoDB, Cognito and SES are replaced by in-memory values. A failing write is modelled for the handover log (a boolean) and for minting a token (`MintAttempt`); the other writes always succeed, as the lines below on `Handover.LinkUinToUser`, `GraduationClaim.ClaimWithPassword` and `GraduationScan.MintAll` say. A sign-up outcome is a `SignUpReply` parameter.
- E-mail delivery (`_deliver_magic_link`, `_send_account_confirmation_email`) and the log lines it prints: these are best-effort side effects that change no state.
- Randomness: the raw token from `secrets.token_urlsafe` is an input (`MintAttempt`). The handover id from `uuid4` is the `freshId` parameter.
- SHA-256: it is the constructor `Sha256(preimage)`, injective by construction, so hash collisions are not modelled.
- Clock: `now` (Unix seconds) and `today`/`ts` (text) are parameters. Date formatting and the TTL computation in `_ttl_ts` become `now + TtlSeconds`.
- The partner-directory fetch: the HTTP request and the JSON decoding in `_fetch_company_domains` are replaced by a `Directory` value that is unconfigured, unreachable or listed.
- Pagination of the students table, in both `run_scan` and the self-service lookup: it is modelled as the whole table in index order.
- Pagination of the log table is kept. The 1 MB page cut-off is a `pageCap` parameter.
- The key schema of the handover-log table does not appear in these files. Entries are kept in scan order, and a write appends.
- The store's validation errors for empty key values are not modelled.
- The email-index and linked-UIN-index queries see every item at once. The delay of a global secondary index is not modelled.
- Concurrency: two simultaneous link or claim calls can race, because the code issues no conditional write. Calls are modelled one after another.
- `handler.py` (HTTP routing, body parsing, CORS), the frontend, the seed scripts and `audit_log.py` are not part of this model.
- `sign_up`, `admin_confirm_sign_up`, `confirm_sign_up`, `admin_set_user_password`, `initiate_auth` and `get_user_by_token`: these are pure identity-provider calls with no logic of their own.
- Handover.LinkUinToUser: the three writes after the guards (the role and UIN update, the class-year update, the identity-provider update) succeed or fail together. In the code an exception between them leaves a partial state, such as a linked account without its new class year, and propagates to the caller. That partial state is not modelled.
- GraduationClaim.ClaimWithPassword: the link and the token-marking write are modelled as succeeding together. The state left when only the marking write fails is exhibited separately by `GraduationClaim.InterruptedClaimBlocksRetry`. Failures of the confirmation step and of the put after sign-up are not modelled.
- GraduationScan.MintAll: the code reads the clock once per record, while the model uses one `now` for the whole scan. A failed token write is the `PutFailed` outcome; a failure of mail delivery is not modelled (the code swallows it).
- Text.Lower: it folds ASCII letters only, whereas Python's `lower()` folds every Unicode letter.
- Validation.NormalizeEmail: a non-string value (the `isinstance` checks) cannot arise in the typed model. The same holds for every `str(...)` conversion in the source.
- GraduationClaim.GetTokenInfo: a token arrives as a string, so the `token or ""` fallback for `None` is covered by the empty string.
- GraduationScan.RunScan: a student record always has its key `uin`, so the `missing uin` case covers only the empty UIN.
