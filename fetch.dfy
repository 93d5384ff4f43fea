/** The header builders of src/utils/fetch.ts: the identity headers made
    from a decoded Firebase token, and the shared-secret header. */
module Fetch {

  /** The JavaScript values a field of the decoded token can hold
      (`undefined` included, for a missing field). */
  datatype JsValue =
    | Undefined
    | Null
    | Boolean(b: bool)
    | Number(n: int)
    | Text(s: string)
    | Object(fields: map<string, JsValue>)

  /** The token claims copied into headers, in the order they are written. */
  const Claims: seq<string> := ["user_id", "email", "name", "picture"]

  /** The identity headers, in the same order. */
  const AuthHeaderNames: seq<string> := ["x-user-id", "x-user-email", "x-user-name", "x-user-picture"]

  const TrustedEnvHeader := "x-trusted-env-secret"

  /** `token?.key`: `undefined` for a `null` or `undefined` token, for a
      primitive, and for an object without that key. */
  function OptionalField(token: JsValue, key: string): (v: JsValue)
    ensures token.Object? && key in token.fields ==> v == token.fields[key]
    ensures v != Undefined ==> token.Object? && key in token.fields
  {
    match token
    case Object(m) => if key in m then m[key] else Undefined
    case _ => Undefined
  }

  /** `createAuthHeaders(firebaseTokenJson)`: header `AuthHeaderNames[i]`
      carries claim `Claims[i]`. */
  function CreateAuthHeaders(token: JsValue): (h: map<string, JsValue>)
    ensures h.Keys == set n | n in AuthHeaderNames
    ensures forall i :: 0 <= i < |Claims| ==>
      AuthHeaderNames[i] in h && h[AuthHeaderNames[i]] == OptionalField(token, Claims[i])
    ensures (token == Undefined || token == Null) ==> forall k :: k in h ==> h[k] == Undefined
  {
    HeaderNamesFollowClaims();
    map[
      AuthHeaderNames[0] := OptionalField(token, Claims[0]),
      AuthHeaderNames[1] := OptionalField(token, Claims[1]),
      AuthHeaderNames[2] := OptionalField(token, Claims[2]),
      AuthHeaderNames[3] := OptionalField(token, Claims[3])
    ]
  }

  /** `createTrustedEnvHeaders(trustedEnvSecret)`. */
  function CreateTrustedEnvHeaders(secret: string): (h: map<string, string>)
    ensures h.Keys == {TrustedEnvHeader} && h[TrustedEnvHeader] == secret
  {
    map[TrustedEnvHeader := secret]
  }

  /** The claims read back from identity headers. */
  function ClaimsOf(h: map<string, JsValue>): JsValue
    requires forall i :: 0 <= i < |AuthHeaderNames| ==> AuthHeaderNames[i] in h
  {
    HeaderNamesFollowClaims();
    Object(map[
      Claims[0] := h[AuthHeaderNames[0]],
      Claims[1] := h[AuthHeaderNames[1]],
      Claims[2] := h[AuthHeaderNames[2]],
      Claims[3] := h[AuthHeaderNames[3]]
    ])
  }

  /** The header names follow the claims: one distinct header per claim,
      `x-user-` followed by the claim name, except that `user_id` becomes
      `x-user-id`. */
  lemma HeaderNamesFollowClaims()
    ensures |AuthHeaderNames| == |Claims|
    ensures forall i :: 0 <= i < |Claims| ==>
      AuthHeaderNames[i] == "x-user-" + (if Claims[i] == "user_id" then "id" else Claims[i])
    ensures forall i, j :: 0 <= i < j < |Claims| ==> AuthHeaderNames[i] != AuthHeaderNames[j]
    ensures forall i, j :: 0 <= i < j < |Claims| ==> Claims[i] != Claims[j]
  {
  }

  /** Reading the claims back from the headers of any token gives each
      claim's `token?.claim`. */
  lemma ClaimsOfHeaders(token: JsValue)
    ensures ClaimsOf(CreateAuthHeaders(token)) == Object(map[
      Claims[0] := OptionalField(token, Claims[0]),
      Claims[1] := OptionalField(token, Claims[1]),
      Claims[2] := OptionalField(token, Claims[2]),
      Claims[3] := OptionalField(token, Claims[3])
    ])
  {
    HeaderNamesFollowClaims();
  }

  /** A map holding exactly the four claims is the map of their values. */
  lemma ClaimMapByEntries(m: map<string, JsValue>)
    requires m.Keys == set c | c in Claims
    ensures map[Claims[0] := m[Claims[0]], Claims[1] := m[Claims[1]],
                Claims[2] := m[Claims[2]], Claims[3] := m[Claims[3]]] == m
  {
    assert forall c :: c in m <==> c == Claims[0] || c == Claims[1] || c == Claims[2] || c == Claims[3];
  }

  /** A token holding exactly the four claims comes back unchanged from its
      headers: no claim is lost, renamed or altered. */
  lemma AuthHeadersRoundTrip(m: map<string, JsValue>)
    requires m.Keys == set c | c in Claims
    ensures ClaimsOf(CreateAuthHeaders(Object(m))) == Object(m)
  {
    ClaimsOfHeaders(Object(m));
    ClaimMapByEntries(m);
    assert Claims[0] in m && Claims[1] in m && Claims[2] in m && Claims[3] in m;
  }

  /** A missing token or a missing claim never fails: its header is still
      present and holds `undefined`. */
  lemma MissingClaimIsUndefined(token: JsValue, i: nat)
    requires i < |Claims|
    requires !token.Object? || Claims[i] !in token.fields
    ensures AuthHeaderNames[i] in CreateAuthHeaders(token)
    ensures CreateAuthHeaders(token)[AuthHeaderNames[i]] == Undefined
  {
    HeaderNamesFollowClaims();
  }
}
