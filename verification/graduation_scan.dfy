/**
 * Minting magic-link tokens (graduation_scan.py): the batch scan over
 * graduated students and the self-service request by personal e-mail.
 * Randomness and store failures arrive as `MintAttempt`s; e-mail delivery is
 * a best-effort side effect and is not modelled.
 */
module GraduationScan {
  import opened Options
  import opened Text
  import opened HandoverTokens
  import GraduationClaim

  /** A row of the students table. `uin` is its key and always present. */
  datatype StudentRecord = StudentRecord(
    uin: string,
    gradDate: Option<string>,
    accountStatus: string,
    personalEmail: Option<string>,
    classYear: Option<string>)

  const StudentStatus := "STUDENT"

  /** The scan's index query: still a STUDENT and graduated on or before `today` (YYYY-MM-DD, compared as text). */
  predicate Eligible(s: StudentRecord, today: string) {
    s.accountStatus == StudentStatus && s.gradDate.Some? && LexLe(s.gradDate.value, today)
  }

  /** Every page of the eligibility query, in index order. */
  function EligibleRecords(students: seq<StudentRecord>, today: string): (r: seq<StudentRecord>)
    ensures forall i :: 0 <= i < |r| ==> Eligible(r[i], today) && r[i] in students
    ensures forall s :: s in students && Eligible(s, today) ==> s in r
    ensures |r| <= |students|
    ensures forall s :: multiset(r)[s] == if Eligible(s, today) then multiset(students)[s] else 0
  {
    if |students| == 0 then []
    else
      var rest := EligibleRecords(students[1..], today);
      assert students == [students[0]] + students[1..];
      assert multiset(students) == multiset{students[0]} + multiset(students[1..]);
      if Eligible(students[0], today) then [students[0]] + rest else rest
  }

  /** What the scan reads from a record: the UIN, the trimmed personal e-mail and the trimmed class year. */
  datatype Contact = Contact(uin: string, email: string, classYear: Option<string>)

  /** `(personal_email or "").strip()` and `(class_year or "").strip() or None`. */
  function ContactOf(s: StudentRecord): (c: Contact)
    ensures c.uin == s.uin
    ensures c.email == Strip(OrEmpty(s.personalEmail)) && IsTrimmed(c.email)
    ensures c.classYear.None? <==> AllSpace(OrEmpty(s.classYear))
    ensures c.classYear.Some? ==> c.classYear.value == Strip(OrEmpty(s.classYear)) && IsTrimmed(c.classYear.value)
  {
    var y := Strip(OrEmpty(s.classYear));
    StripEmptyIffBlank(OrEmpty(s.classYear));
    Contact(s.uin, Strip(OrEmpty(s.personalEmail)), if y == "" then None else Some(y))
  }

  function Contacts(items: seq<StudentRecord>): (cs: seq<Contact>)
    ensures |cs| == |items|
    ensures forall i :: 0 <= i < |items| ==> cs[i] == ContactOf(items[i])
  {
    seq(|items|, i requires 0 <= i < |items| => ContactOf(items[i]))
  }

  /** A record the scan can mint for: it has a UIN and a personal e-mail containing '@'. */
  predicate Deliverable(c: Contact) {
    c.uin != [] && c.email != [] && '@' in c.email
  }

  /** One try at minting: the random token that was stored, or the store's failure. */
  datatype MintAttempt = Stored(rawToken: string) | PutFailed(detail: string)

  predicate Mints(c: Contact, a: MintAttempt) {
    Deliverable(c) && a.Stored?
  }

  function SkipMessage(uin: string): string {
    "Skip uin=" + uin + ": missing personal_email"
  }

  function FailureMessage(uin: string, detail: string): string {
    "uin=" + uin + ": " + detail
  }

  /** The scan's summary: `processed`, `total_eligible` and `errors`. */
  datatype ScanReport = ScanReport(processed: nat, totalEligible: nat, errors: seq<string>)

  /** The positions among the first `n` eligible records that get a token. */
  function MintedPositions(cs: seq<Contact>, attempt: nat -> MintAttempt, n: nat): set<nat>
    requires n <= |cs|
  {
    set i: nat | i < n && Mints(cs[i], attempt(i))
  }

  /** Extending the prefix by one record adds its position exactly when it gets a token. */
  lemma MintedPositionsStep(cs: seq<Contact>, attempt: nat -> MintAttempt, n: nat)
    requires 0 < n <= |cs|
    ensures |MintedPositions(cs, attempt, n)|
            == |MintedPositions(cs, attempt, n - 1)| + (if Mints(cs[n - 1], attempt(n - 1)) then 1 else 0)
  {
    var prev := MintedPositions(cs, attempt, n - 1);
    if Mints(cs[n - 1], attempt(n - 1)) {
      assert MintedPositions(cs, attempt, n) == prev + {n - 1};
    } else {
      assert MintedPositions(cs, attempt, n) == prev;
    }
  }

  /** How many of the first `n` eligible records get a token. */
  function MintCount(cs: seq<Contact>, attempt: nat -> MintAttempt, n: nat): (c: nat)
    requires n <= |cs|
    ensures c == |MintedPositions(cs, attempt, n)|
  {
    if n == 0 then
      assert MintedPositions(cs, attempt, 0) == {};
      0
    else
      MintedPositionsStep(cs, attempt, n);
      MintCount(cs, attempt, n - 1) + (if Mints(cs[n - 1], attempt(n - 1)) then 1 else 0)
  }

  /** The digests of the tokens minted for the first `n` eligible records. */
  function MintedDigests(cs: seq<Contact>, attempt: nat -> MintAttempt, n: nat): (ds: set<Digest>)
    requires n <= |cs|
    ensures n > 0 && Mints(cs[n - 1], attempt(n - 1)) ==> Sha256(attempt(n - 1).rawToken) in ds
  {
    if n == 0 then {}
    else
      var earlier := MintedDigests(cs, attempt, n - 1);
      if Mints(cs[n - 1], attempt(n - 1)) then earlier + {Sha256(attempt(n - 1).rawToken)} else earlier
  }

  /** No two minting records drew the same random token. */
  predicate DistinctDraws(cs: seq<Contact>, attempt: nat -> MintAttempt) {
    forall i, j :: 0 <= i < j < |cs| && Mints(cs[i], attempt(i)) && Mints(cs[j], attempt(j)) ==>
      attempt(i).rawToken != attempt(j).rawToken
  }

  /** A token item freshly written by a scan at `now`. */
  predicate FreshMint(rec: TokenRecord, now: int) {
    !rec.claimed && rec.expiresAt == Some(now + TokenTtlSeconds) && rec.uin.Some? && rec.personalEmail.Some?
  }

  /** The item minted for a deliverable record. */
  function MintFor(c: Contact, now: int): TokenRecord {
    MintRecord(c.uin, c.email, c.classYear, now)
  }

  /** What the scan has accumulated so far. */
  datatype ScanState = ScanState(processed: nat, errors: seq<string>, minted: TokenTable)

  /** One iteration of the scan loop over an eligible record. */
  function ScanStep(st: ScanState, c: Contact, a: MintAttempt, now: int): ScanState {
    if !Deliverable(c) then st.(errors := st.errors + [SkipMessage(c.uin)])
    else match a
      case Stored(raw) => st.(processed := st.processed + 1, minted := st.minted[Sha256(raw) := MintFor(c, now)])
      case PutFailed(detail) => st.(errors := st.errors + [FailureMessage(c.uin, detail)])
  }

  /** The state after the first `n` eligible records. */
  function ScanPrefix(cs: seq<Contact>, attempt: nat -> MintAttempt, tokens: TokenTable, now: int, n: nat): ScanState
    requires n <= |cs|
  {
    if n == 0 then ScanState(0, [], tokens)
    else ScanStep(ScanPrefix(cs, attempt, tokens, now, n - 1), cs[n - 1], attempt(n - 1), now)
  }

  /** Every record is counted exactly once: as processed, or as an error. */
  lemma {:induction false} ScanCounts(cs: seq<Contact>, attempt: nat -> MintAttempt, tokens: TokenTable, now: int, n: nat)
    requires n <= |cs|
    ensures ScanPrefix(cs, attempt, tokens, now, n).processed == MintCount(cs, attempt, n)
    ensures ScanPrefix(cs, attempt, tokens, now, n).processed + |ScanPrefix(cs, attempt, tokens, now, n).errors| == n
  {
    if n > 0 {
      ScanCounts(cs, attempt, tokens, now, n - 1);
    }
  }

  /** Each record that was not processed leaves its own message, and the scan goes on. */
  lemma {:induction false} ScanReportsEveryMiss(cs: seq<Contact>, attempt: nat -> MintAttempt, tokens: TokenTable, now: int, n: nat)
    requires n <= |cs|
    ensures forall j :: 0 <= j < n && !Deliverable(cs[j]) ==>
              SkipMessage(cs[j].uin) in ScanPrefix(cs, attempt, tokens, now, n).errors
    ensures forall j :: 0 <= j < n && Deliverable(cs[j]) && attempt(j).PutFailed? ==>
              FailureMessage(cs[j].uin, attempt(j).detail) in ScanPrefix(cs, attempt, tokens, now, n).errors
  {
    if n > 0 {
      ScanReportsEveryMiss(cs, attempt, tokens, now, n - 1);
      var before := ScanPrefix(cs, attempt, tokens, now, n - 1).errors;
      var after := ScanPrefix(cs, attempt, tokens, now, n).errors;
      assert forall e :: e in before ==> e in after;
    }
  }

  /** The scan adds exactly the minted digests and leaves every other token item alone. */
  lemma {:induction false} ScanTouchesOnlyMinted(cs: seq<Contact>, attempt: nat -> MintAttempt, tokens: TokenTable, now: int, n: nat)
    requires n <= |cs|
    ensures ScanPrefix(cs, attempt, tokens, now, n).minted.Keys == tokens.Keys + MintedDigests(cs, attempt, n)
    ensures forall h :: h in tokens && h !in MintedDigests(cs, attempt, n) ==>
              ScanPrefix(cs, attempt, tokens, now, n).minted[h] == tokens[h]
  {
    if n > 0 {
      ScanTouchesOnlyMinted(cs, attempt, tokens, now, n - 1);
    }
  }

  /** Every record that mints leaves its digest in the table, as an unclaimed item with a seven-day expiry. */
  lemma {:induction false} ScanMintsFresh(cs: seq<Contact>, attempt: nat -> MintAttempt, tokens: TokenTable, now: int, n: nat)
    requires n <= |cs|
    ensures forall j :: 0 <= j < n && Mints(cs[j], attempt(j)) ==>
              var m := ScanPrefix(cs, attempt, tokens, now, n).minted;
              Sha256(attempt(j).rawToken) in m && FreshMint(m[Sha256(attempt(j).rawToken)], now)
  {
    if n > 0 {
      ScanMintsFresh(cs, attempt, tokens, now, n - 1);
    }
  }

  /** With distinct random draws, each minting record's token maps to that record's own item. */
  lemma {:induction false} ScanMintsOwnItems(cs: seq<Contact>, attempt: nat -> MintAttempt, tokens: TokenTable, now: int, n: nat)
    requires n <= |cs|
    requires DistinctDraws(cs, attempt)
    ensures forall j :: 0 <= j < n && Mints(cs[j], attempt(j)) ==>
              var m := ScanPrefix(cs, attempt, tokens, now, n).minted;
              Sha256(attempt(j).rawToken) in m && m[Sha256(attempt(j).rawToken)] == MintFor(cs[j], now)
  {
    if n > 0 {
      ScanMintsOwnItems(cs, attempt, tokens, now, n - 1);
    }
  }

  /** Minting from trimmed student UINs keeps every token UIN trimmed. */
  lemma {:induction false} ScanKeepsUinsTrimmed(cs: seq<Contact>, attempt: nat -> MintAttempt, tokens: TokenTable, now: int, n: nat)
    requires n <= |cs|
    requires TokenUinsTrimmed(tokens)
    requires forall j :: 0 <= j < |cs| ==> IsTrimmed(cs[j].uin)
    ensures TokenUinsTrimmed(ScanPrefix(cs, attempt, tokens, now, n).minted)
  {
    if n > 0 {
      ScanKeepsUinsTrimmed(cs, attempt, tokens, now, n - 1);
    }
  }

  /**
   * The loop of `run_scan` over the eligible records. Every record ends up
   * either processed (a token stored) or with an error entry: skipped when it
   * has no UIN or no usable personal e-mail, failed when the store write
   * fails. A failure never stops the records after it. Tokens are stored
   * under the digest of the raw token, unclaimed, expiring seven days after
   * `now`; no other item changes.
   */
  method MintAll(cs: seq<Contact>, tokens: TokenTable, now: int, attempt: nat -> MintAttempt)
    returns (report: ScanReport, minted: TokenTable)
    ensures && report.totalEligible == |cs|
            && report.processed + |report.errors| == report.totalEligible
            && report.processed == MintCount(cs, attempt, |cs|)
    ensures forall i :: 0 <= i < |cs| && !Deliverable(cs[i]) ==> SkipMessage(cs[i].uin) in report.errors
    ensures forall i :: 0 <= i < |cs| && Deliverable(cs[i]) && attempt(i).PutFailed? ==>
              FailureMessage(cs[i].uin, attempt(i).detail) in report.errors
    ensures && minted.Keys == tokens.Keys + MintedDigests(cs, attempt, |cs|)
            && (forall h :: h in tokens && h !in MintedDigests(cs, attempt, |cs|) ==> minted[h] == tokens[h])
    ensures forall i :: 0 <= i < |cs| && Mints(cs[i], attempt(i)) ==>
              Sha256(attempt(i).rawToken) in minted && FreshMint(minted[Sha256(attempt(i).rawToken)], now)
    ensures DistinctDraws(cs, attempt) ==>
              forall i :: 0 <= i < |cs| && Mints(cs[i], attempt(i)) ==>
                Sha256(attempt(i).rawToken) in minted && minted[Sha256(attempt(i).rawToken)] == MintFor(cs[i], now)
    ensures TokenUinsTrimmed(tokens) && (forall j :: 0 <= j < |cs| ==> IsTrimmed(cs[j].uin)) ==> TokenUinsTrimmed(minted)
  {
    var st := ScanState(0, [], tokens);
    var i := 0;
    while i < |cs|
      invariant 0 <= i <= |cs|
      invariant st == ScanPrefix(cs, attempt, tokens, now, i)
    {
      st := ScanStep(st, cs[i], attempt(i), now);
      i := i + 1;
    }
    ScanCounts(cs, attempt, tokens, now, i);
    ScanReportsEveryMiss(cs, attempt, tokens, now, i);
    ScanTouchesOnlyMinted(cs, attempt, tokens, now, i);
    ScanMintsFresh(cs, attempt, tokens, now, i);
    if DistinctDraws(cs, attempt) {
      ScanMintsOwnItems(cs, attempt, tokens, now, i);
    }
    if TokenUinsTrimmed(tokens) && (forall j :: 0 <= j < |cs| ==> IsTrimmed(cs[j].uin)) {
      ScanKeepsUinsTrimmed(cs, attempt, tokens, now, i);
    }
    report := ScanReport(st.processed, |cs|, st.errors);
    minted := st.minted;
  }

  /**
   * `run_scan`: the eligibility query, then the minting loop over what the
   * scan reads from each eligible record.
   */
  method RunScan(students: seq<StudentRecord>, tokens: TokenTable, today: string, now: int,
                 attempt: nat -> MintAttempt)
    returns (report: ScanReport, minted: TokenTable)
    ensures var cs := Contacts(EligibleRecords(students, today));
            && report.totalEligible == |cs| == |EligibleRecords(students, today)|
            && report.processed + |report.errors| == report.totalEligible
            && report.processed == MintCount(cs, attempt, |cs|)
    ensures var cs := Contacts(EligibleRecords(students, today));
            && minted.Keys == tokens.Keys + MintedDigests(cs, attempt, |cs|)
            && (forall h :: h in tokens && h !in MintedDigests(cs, attempt, |cs|) ==> minted[h] == tokens[h])
    ensures TokenUinsTrimmed(tokens) && (forall s :: s in students ==> IsTrimmed(s.uin)) ==> TokenUinsTrimmed(minted)
  {
    var cs := Contacts(EligibleRecords(students, today));
    report, minted := MintAll(cs, tokens, now, attempt);
    if forall s :: s in students ==> IsTrimmed(s.uin) {
      EligibleUinsTrimmed(students, today);
    }
  }

  /** The contacts of eligible records carry the students' own UINs. */
  lemma EligibleUinsTrimmed(students: seq<StudentRecord>, today: string)
    requires forall s :: s in students ==> IsTrimmed(s.uin)
    ensures var cs := Contacts(EligibleRecords(students, today));
            forall j :: 0 <= j < |cs| ==> IsTrimmed(cs[j].uin)
  {
    var items := EligibleRecords(students, today);
    forall j | 0 <= j < |items| ensures IsTrimmed(Contacts(items)[j].uin) {
      assert items[j] in students;
    }
  }

  /** `rstrip('/')`: the address without its trailing slashes. */
  function TrimTrailingSlashes(s: string): (r: string)
    ensures |r| <= |s| && r == s[..|r|]
    ensures r == [] || r[|r| - 1] != '/'
    ensures forall i :: |r| <= i < |s| ==> s[i] == '/'
  {
    if |s| > 0 && s[|s| - 1] == '/' then TrimTrailingSlashes(s[..|s| - 1]) else s
  }

  const ClaimFragment := "/#claim?token="

  /**
   * The claim link for a raw token: the base address without trailing
   * slashes, the claim fragment, then the token. A token without '=' is
   * exactly the text after the link's last '='.
   */
  function MagicLink(baseUrl: string, raw: string): (link: string)
    ensures var base := TrimTrailingSlashes(baseUrl);
            && |link| == |base| + |ClaimFragment| + |raw|
            && link[..|base|] == base
            && link[|base|..|base| + |ClaimFragment|] == ClaimFragment
            && link[|link| - |raw|..] == raw
    ensures '=' !in raw ==> AfterLast(link, '=') == raw
  {
    var link := TrimTrailingSlashes(baseUrl) + ClaimFragment + raw;
    if '=' in raw then link
    else
      assert link[|link| - |raw| - 1] == '=';
      assert |AfterLast(link, '=')| == |raw|;
      link
  }

  const ValidEmailRequired := "Valid email is required"
  const NoEligibleRecord := "No eligible graduate account found for this email. If you recently graduated, your record may not be processed yet."
  const CheckYourEmail := "Check your email for the claim link. It expires in 7 days."
  const LinkReady := "Your claim link is ready."

  function FailedToGenerate(detail: string): string {
    "Failed to generate link: " + detail
  }

  /** The address a request is made for: `(email or "").strip().lower()`. */
  function RequestEmail(email: Option<string>): (e: string)
    ensures e == Lower(Strip(OrEmpty(email)))
    ensures IsTrimmed(e) && IsLowercase(e)
    ensures '@' in e <==> '@' in OrEmpty(email)
  {
    StripKeepsVisible(OrEmpty(email), '@');
    LowerKeepsSymbol(Strip(OrEmpty(email)), '@');
    LowerKeepsTrimmed(Strip(OrEmpty(email)));
    LowerIsLowercase(Strip(OrEmpty(email)));
    Lower(Strip(OrEmpty(email)))
  }

  /** The students-table filter: this exact personal e-mail and still a STUDENT (any graduation date). */
  predicate RequestMatch(s: StudentRecord, email: string) {
    s.personalEmail == Some(email) && s.accountStatus == StudentStatus
  }

  /** The position of the first record from `from` on that the filter keeps. */
  function FirstRequestMatch(students: seq<StudentRecord>, email: string, from: nat): (r: Option<nat>)
    requires from <= |students|
    decreases |students| - from
    ensures r.Some? ==> from <= r.value < |students| && RequestMatch(students[r.value], email)
    ensures r.Some? ==> forall j :: from <= j < r.value ==> !RequestMatch(students[j], email)
    ensures r.None? ==> forall j :: from <= j < |students| ==> !RequestMatch(students[j], email)
  {
    if from == |students| then None
    else if RequestMatch(students[from], email) then Some(from)
    else FirstRequestMatch(students, email, from + 1)
  }

  /** The answer to a magic-link request. */
  datatype LinkReply = LinkIssued(message: string, magicLink: Option<string>) | LinkRefused(status: int, message: string)

  datatype RequestOutcome = RequestOutcome(reply: LinkReply, tokens: TokenTable)

  /** Minting for the matched record and answering: the link, or a pointer to the inbox when SES is configured. */
  function IssueLink(s: StudentRecord, e: string, tokens: TokenTable, sesSender: Option<string>,
                     baseUrl: string, attempt: MintAttempt, now: int): (r: RequestOutcome)
    requires RequestMatch(s, e) && IsTrimmed(e)
    ensures r.reply.LinkIssued? <==> attempt.Stored?
    ensures r.reply.LinkIssued? ==>
              && r.tokens == tokens[Sha256(attempt.rawToken) := MintRecord(s.uin, e, ContactOf(s).classYear, now)]
              && (r.reply.magicLink.Some? <==> !Truthy(sesSender))
              && (r.reply.magicLink.Some? ==> r.reply.magicLink.value == MagicLink(baseUrl, attempt.rawToken) && r.reply.message == LinkReady)
              && (r.reply.magicLink.None? ==> r.reply.message == CheckYourEmail)
    ensures !r.reply.LinkIssued? ==> r == RequestOutcome(LinkRefused(500, FailedToGenerate(attempt.detail)), tokens)
  {
    var c := ContactOf(s);
    StripOfTrimmed(e);
    match attempt
    case Stored(raw) =>
      var minted := tokens[Sha256(raw) := MintRecord(c.uin, c.email, c.classYear, now)];
      if Truthy(sesSender) then RequestOutcome(LinkIssued(CheckYourEmail, None), minted)
      else RequestOutcome(LinkIssued(LinkReady, Some(MagicLink(baseUrl, raw))), minted)
    case PutFailed(detail) => RequestOutcome(LinkRefused(500, FailedToGenerate(detail)), tokens)
  }

  /**
   * `request_magic_link_for_email`. Only the first matching record gets a
   * token; the link itself is returned only when no SES sender is configured.
   */
  function RequestMagicLink(students: seq<StudentRecord>, tokens: TokenTable, email: Option<string>,
                            sesSender: Option<string>, baseUrl: string, attempt: MintAttempt, now: int): (r: RequestOutcome)
    ensures r.reply == LinkRefused(400, ValidEmailRequired) <==> '@' !in OrEmpty(email)
    ensures r.reply == LinkRefused(404, NoEligibleRecord) <==>
              '@' in OrEmpty(email) && forall s :: s in students ==> !RequestMatch(s, RequestEmail(email))
    ensures !r.reply.LinkIssued? ==> r.tokens == tokens
    ensures '@' in OrEmpty(email) && FirstRequestMatch(students, RequestEmail(email), 0).Some? ==>
              r == IssueLink(students[FirstRequestMatch(students, RequestEmail(email), 0).value], RequestEmail(email),
                             tokens, sesSender, baseUrl, attempt, now)
  {
    var e := RequestEmail(email);
    if e == [] || '@' !in e then RequestOutcome(LinkRefused(400, ValidEmailRequired), tokens)
    else
      match FirstRequestMatch(students, e, 0)
      case None => RequestOutcome(LinkRefused(404, NoEligibleRecord), tokens)
      case Some(i) => IssueLink(students[i], e, tokens, sesSender, baseUrl, attempt, now)
  }

  /** A link issued on request validates, for the requested address, until it expires. */
  lemma RequestedLinkValidates(students: seq<StudentRecord>, tokens: TokenTable, email: Option<string>,
                               sesSender: Option<string>, baseUrl: string, raw: string, now: int, later: int)
    requires raw != "" && IsTrimmed(raw)
    requires now <= later <= now + TokenTtlSeconds
    ensures var r := RequestMagicLink(students, tokens, email, sesSender, baseUrl, Stored(raw), now);
            r.reply.LinkIssued? ==>
              && GraduationClaim.GetTokenInfo(r.tokens, raw, later).Some?
              && GraduationClaim.GetTokenInfo(r.tokens, raw, later).value.personalEmail == RequestEmail(email)
  {
    var r := RequestMagicLink(students, tokens, email, sesSender, baseUrl, Stored(raw), now);
    if r.reply.LinkIssued? {
      var e := RequestEmail(email);
      var s := students[FirstRequestMatch(students, e, 0).value];
      GraduationClaim.MintedTokenValidates(tokens, raw, s.uin, e, ContactOf(s).classYear, now, later);
      StripOfTrimmed(e);
      LowerOfLowercase(e);
    }
  }

  /** A contact's class year, when present, is trimmed and not blank. */
  predicate ClassYearClean(c: Contact) {
    c.classYear.Some? ==> IsTrimmed(c.classYear.value) && c.classYear.value != []
  }

  lemma ContactsHaveCleanClassYears(items: seq<StudentRecord>)
    ensures forall j :: 0 <= j < |items| ==> ClassYearClean(Contacts(items)[j])
  {
    forall j | 0 <= j < |items| ensures ClassYearClean(Contacts(items)[j]) {
      StripEmptyIffBlank(OrEmpty(items[j].classYear));
    }
  }

  /** With distinct draws, every token the scan mints validates until it expires, for that record's UIN. */
  lemma ScannedTokenValidates(cs: seq<Contact>, attempt: nat -> MintAttempt, tokens: TokenTable, now: int, i: nat, later: int)
    requires i < |cs| && forall j :: 0 <= j < |cs| ==> ClassYearClean(cs[j])
    requires DistinctDraws(cs, attempt) && Mints(cs[i], attempt(i))
    requires attempt(i).rawToken != [] && IsTrimmed(attempt(i).rawToken)
    requires now <= later <= now + TokenTtlSeconds
    ensures var m := ScanPrefix(cs, attempt, tokens, now, |cs|).minted;
            && GraduationClaim.GetTokenInfo(m, attempt(i).rawToken, later).Some?
            && GraduationClaim.GetTokenInfo(m, attempt(i).rawToken, later).value.uin == Some(cs[i].uin)
  {
    ScanMintsOwnItems(cs, attempt, tokens, now, |cs|);
    var m := ScanPrefix(cs, attempt, tokens, now, |cs|).minted;
    var raw := attempt(i).rawToken;
    assert m == m[Sha256(raw) := MintFor(cs[i], now)];
    GraduationClaim.MintedTokenValidates(m, raw, cs[i].uin, cs[i].email, cs[i].classYear, now, later);
  }
}
