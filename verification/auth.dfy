/** Identity-provider helpers (auth.py) that hold pure logic. */
module Auth {
  import opened Options
  import opened Text
  import opened RoleEngine

  const BearerPrefix := "Bearer "

  /** The header value `parse_token_from_header` reads: a non-empty lower-case key wins. */
  function AuthorizationValue(headers: map<string, string>): Option<string> {
    if "authorization" in headers && headers["authorization"] != "" then Some(headers["authorization"])
    else if "Authorization" in headers then Some(headers["Authorization"])
    else None
  }

  /**
   * `parse_token_from_header`: the trimmed text after a case-sensitive
   * "Bearer " prefix, or nothing when the headers, the header or the prefix
   * is missing. The token may be empty ("Bearer   ").
   */
  function ParseTokenFromHeader(headers: Option<map<string, string>>): (r: Option<string>)
    ensures headers.None? || headers.value == map[] ==> r.None?
    ensures r.Some? <==> headers.Some? && AuthorizationValue(headers.value).Some?
                         && BearerPrefix <= AuthorizationValue(headers.value).value
    ensures r.Some? ==> IsTrimmed(r.value)
                        && r.value == Strip(AuthorizationValue(headers.value).value[|BearerPrefix|..])
  {
    if headers.None? || headers.value == map[] then None
    else
      var auth := AuthorizationValue(headers.value);
      if auth.None? || auth.value == "" || !(BearerPrefix <= auth.value) then None
      else Some(Strip(auth.value[7..]))
  }

  /** A well-formed bearer header yields exactly the token it carries. */
  lemma BearerRoundTrip(token: string)
    requires IsTrimmed(token)
    ensures ParseTokenFromHeader(Some(map["Authorization" := BearerPrefix + token])) == Some(token)
  {
    var h := map["Authorization" := BearerPrefix + token];
    assert "authorization" !in h by { assert "authorization"[0] != "Authorization"[0]; }
    assert (BearerPrefix + token)[7..] == token;
    StripOfTrimmed(token);
  }

  /** A non-empty lower-case `authorization` header shadows `Authorization`. */
  lemma LowerCaseHeaderWins(headers: map<string, string>, token: string, other: string)
    requires IsTrimmed(token)
    requires "authorization" in headers && headers["authorization"] == BearerPrefix + token
    ensures ParseTokenFromHeader(Some(headers[ "Authorization" := other ])) == Some(token)
  {
    var h := headers["Authorization" := other];
    assert "authorization" != "Authorization" by { assert "authorization"[0] != "Authorization"[0]; }
    assert (BearerPrefix + token)[7..] == token;
    StripOfTrimmed(token);
  }

  /** One custom attribute sent to the identity provider. */
  datatype Attribute = Attribute(name: string, value: string)

  /** The attribute update for one user name: what `admin_set_custom_attributes` sends. */
  datatype AttributeUpdate = AttributeUpdate(username: string, attributes: seq<Attribute>)

  const RoleAttribute := "custom:role"
  const ClassYearAttribute := "custom:class_year"
  const LinkedUinAttribute := "custom:linked_uin"

  /** The attribute holding `name`, if the list has one. */
  function AttributeNamed(attrs: seq<Attribute>, name: string): Option<string> {
    if |attrs| == 0 then None
    else if attrs[0].name == name then Some(attrs[0].value)
    else AttributeNamed(attrs[1..], name)
  }

  /**
   * The attribute list built by `admin_set_custom_attributes`: the role
   * always comes first; class year and linked UIN follow exactly when given.
   */
  function CustomAttributes(role: Role, classYear: Option<string>, linkedUin: Option<string>): (attrs: seq<Attribute>)
    ensures |attrs| == 1 + (if classYear.Some? then 1 else 0) + (if linkedUin.Some? then 1 else 0)
    ensures attrs[0] == Attribute(RoleAttribute, RoleName(role))
    ensures AttributeNamed(attrs, RoleAttribute) == Some(RoleName(role))
    ensures AttributeNamed(attrs, ClassYearAttribute) == classYear
    ensures AttributeNamed(attrs, LinkedUinAttribute) == linkedUin
  {
    assert RoleAttribute != ClassYearAttribute && RoleAttribute != LinkedUinAttribute
      && ClassYearAttribute != LinkedUinAttribute by {
      assert RoleAttribute[7] != ClassYearAttribute[7];
      assert RoleAttribute[7] != LinkedUinAttribute[7];
      assert ClassYearAttribute[7] != LinkedUinAttribute[7];
    }
    var withYear := if classYear.Some? then [Attribute(ClassYearAttribute, classYear.value)] else [];
    var withUin := if linkedUin.Some? then [Attribute(LinkedUinAttribute, linkedUin.value)] else [];
    var attrs := [Attribute(RoleAttribute, RoleName(role))] + withYear + withUin;
    assert attrs[1..] == withYear + withUin;
    assert |withYear| > 0 ==> (withYear + withUin)[1..] == withUin;
    assert AttributeNamed(withUin, ClassYearAttribute) == None by {
      if |withUin| > 0 { assert withUin[1..] == []; }
    }
    assert AttributeNamed(withUin, LinkedUinAttribute) == linkedUin by {
      if |withUin| > 0 { assert withUin[1..] == []; }
    }
    assert AttributeNamed(withYear + withUin, ClassYearAttribute) == classYear;
    assert AttributeNamed(withYear + withUin, LinkedUinAttribute) == linkedUin;
    attrs
  }
}
