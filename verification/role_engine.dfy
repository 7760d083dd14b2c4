/**
 * Role resolution at registration (role_engine.py): PARTNER by e-mail domain,
 * FORMER_STUDENT by self-declaration with a class year, FRIEND otherwise.
 */
module RoleEngine {
  import opened Options
  import opened Text

  datatype Role = Partner | FormerStudent | Friend

  /** The role's name as stored in the user table and the identity provider. */
  function RoleName(role: Role): string {
    match role
    case Partner => "PARTNER"
    case FormerStudent => "FORMER_STUDENT"
    case Friend => "FRIEND"
  }

  /**
   * What the partner-company directory answered. `Listed` carries the string
   * entries of the reply, whether it was a bare list or a `domains` object; a
   * reply of any other shape is `Listed([])`. `Unreachable` covers every
   * request or decoding failure.
   */
  datatype Directory = Unconfigured | Unreachable | Listed(domains: seq<string>)

  /** The development stub used when no directory URL is configured. */
  const StubPartnerDomains: set<string> := {"acme.com", "partner.org", "example.com"}

  const ClassYearRequired := "Class Year is required when claiming Former Student"

  /** `d` is the lower-cased text after the '@' at position `k` of `t`, and that '@' is the last one. */
  predicate DomainAt(t: string, k: int, d: string) {
    0 <= k < |t| && t[k] == '@' && '@' !in t[k + 1..] && d == Lower(t[k + 1..])
  }

  /** The lower-cased text after the last '@' of `t`. */
  function DomainAfterLastAt(t: string): (d: string)
    ensures '@' in t ==> exists k :: DomainAt(t, k, d)
    ensures '@' !in d && IsLowercase(d)
  {
    var tail := AfterLast(t, '@');
    LowerKeepsSymbol(tail, '@');
    LowerIsLowercase(tail);
    if '@' in t then
      var k := |t| - |tail| - 1;
      assert DomainAt(t, k, Lower(tail)) by {
        assert t[k + 1..] == tail;
      }
      Lower(tail)
    else Lower(tail)
  }

  /**
   * `_domain_from_email`: the lower-cased text after the last '@' of the
   * trimmed address, or "" when the address is empty or has no '@'.
   */
  function DomainFromEmail(email: string): (d: string)
    ensures '@' !in email ==> d == []
    ensures '@' in email ==> exists k :: DomainAt(Strip(email), k, d)
    ensures '@' !in d && IsLowercase(d)
  {
    if |email| == 0 || '@' !in email then []
    else
      StripKeepsVisible(email, '@');
      DomainAfterLastAt(Strip(email))
  }

  /** An address `local@domain` has `domain`, lower-cased, as its domain. */
  lemma DomainOfAddress(local: string, domain: string)
    requires '@' !in domain
    requires IsTrimmed(local + "@" + domain)
    ensures DomainFromEmail(local + "@" + domain) == Lower(domain)
  {
    var e := local + "@" + domain;
    assert e[|local|] == '@';
    StripOfTrimmed(e);
    var tail := AfterLast(e, '@');
    assert tail == e[|e| - |domain|..] == domain;
  }

  /**
   * `_fetch_company_domains`: never fails. Without a configured URL it is the
   * development stub, on any failure it is empty, and otherwise it is the
   * listed domains lower-cased.
   */
  function PartnerDomains(dir: Directory): (ds: set<string>)
    ensures dir.Unconfigured? ==> ds == StubPartnerDomains
    ensures dir.Unreachable? ==> ds == {}
    ensures dir.Listed? ==> forall d :: d in ds <==> exists i :: 0 <= i < |dir.domains| && d == Lower(dir.domains[i])
  {
    match dir
    case Unconfigured => StubPartnerDomains
    case Unreachable => {}
    case Listed(names) => set n | n in names :: Lower(n)
  }

  /** The account's e-mail domain is a listed partner domain. */
  predicate IsPartnerEmail(email: string, partners: set<string>) {
    var d := DomainFromEmail(email);
    d != "" && d in partners
  }

  /** A resolved role together with the class year to store with it. */
  datatype Assignment = Assignment(role: Role, classYear: Option<string>)

  /** `resolve_role` either assigns a role or raises a validation error. */
  datatype Resolution = Resolved(assignment: Assignment) | Rejected(message: string)

  /**
   * `resolve_role`, with the partner directory passed in as `partners`.
   * Partner status wins over the former-student claim; a claim needs a
   * non-blank class year; everyone else is a FRIEND without a class year.
   */
  function ResolveRole(email: string, formerStudentClaimed: bool, classYear: Option<string>,
                       partners: set<string>): (r: Resolution)
    ensures IsPartnerEmail(email, partners) ==> r == Resolved(Assignment(Partner, NoneIfEmpty(classYear)))
    ensures r.Resolved? && r.assignment.role == Partner ==> IsPartnerEmail(email, partners)
    ensures r.Rejected? <==> !IsPartnerEmail(email, partners) && formerStudentClaimed
                               && (classYear.None? || AllSpace(classYear.value))
    ensures r.Rejected? ==> r.message == ClassYearRequired
    ensures r.Resolved? && r.assignment.role == FormerStudent ==>
              formerStudentClaimed && classYear.Some?
              && r.assignment.classYear == Some(Strip(classYear.value))
              && Strip(classYear.value) != ""
    ensures r.Resolved? && r.assignment.role == Friend <==> !IsPartnerEmail(email, partners) && !formerStudentClaimed
    ensures r.Resolved? && r.assignment.role == Friend ==> r.assignment.classYear.None?
  {
    var domain := DomainFromEmail(email);
    if domain != "" && domain in partners then
      Resolved(Assignment(Partner, NoneIfEmpty(classYear)))
    else if formerStudentClaimed then
      if classYear.None? || classYear.value == "" then
        Rejected(ClassYearRequired)
      else
        var cy := Strip(classYear.value);
        StripEmptyIffBlank(classYear.value);
        if cy == "" then Rejected(ClassYearRequired)
        else Resolved(Assignment(FormerStudent, Some(cy)))
    else
      Resolved(Assignment(Friend, None))
  }

  /** Partner status does not depend on the former-student flag. */
  lemma PartnerIgnoresClaim(email: string, classYear: Option<string>, partners: set<string>)
    requires IsPartnerEmail(email, partners)
    ensures ResolveRole(email, true, classYear, partners) == ResolveRole(email, false, classYear, partners)
    ensures ResolveRole(email, true, classYear, partners).assignment.role == Partner
  {
  }

  /** An address without a domain never resolves to PARTNER, whatever the directory lists. */
  lemma NoDomainNoPartner(email: string, claimed: bool, classYear: Option<string>, partners: set<string>)
    requires '@' !in email
    ensures var r := ResolveRole(email, claimed, classYear, partners);
            r.Resolved? ==> r.assignment.role != Partner
  {
  }
}
