/**
 * The signed cursor of the inventory filter: a token binds a position to a scope and an
 * expiry time.
 */
module Cursor {
  import opened Json
  import opened Base64

  const VERSION := 1
  const MAX_BYTES := 8192

  datatype Scope = Scope(
    workspace: string,
    user: string,
    revision: string,
    surface: string,
    fingerprint: string,
    snapshot: int,
    facet: Option<string>)

  // The entries of a payload dictionary that the codec reads; an absent one is None.
  datatype Payload = Payload(
    version: Option<Json>,
    workspace: Option<Json>,
    user: Option<Json>,
    revision: Option<Json>,
    surface: Option<Json>,
    fingerprint: Option<Json>,
    snapshot: Option<Json>,
    facet: Option<Json>,
    position: Option<Json>,
    expiresAt: Option<Json>)

  datatype Parsed = NotDict | Dict(payload: Payload)

  // JSON text encoding, its parser and the keyed signature are foreign functions.
  datatype Codec = Codec(
    dumps: Payload -> seq<Byte>,
    loads: seq<Byte> -> Option<Parsed>,
    sign: seq<Byte> -> seq<Byte>,
    ttl: int)

  datatype Error = Invalid | Expired | ScopeChanged

  datatype Result<+T> = Ok(value: T) | Err(error: Error)

  datatype Decoded = Decoded(scope: Scope, position: map<string, Json>)

  // ----- encoding -----

  function PayloadOf(scope: Scope, position: map<string, Json>, expiresAt: int): Payload {
    Payload(
      Some(Int(VERSION)), Some(Str(scope.workspace)), Some(Str(scope.user)), Some(Str(scope.revision)),
      Some(Str(scope.surface)), Some(Str(scope.fingerprint)), Some(Int(scope.snapshot)),
      Some(if scope.facet.Some? then Str(scope.facet.value) else Null), Some(Obj(position)), Some(Int(expiresAt)))
  }

  function TokenOf(codec: Codec, payload: Payload): string {
    var body := codec.dumps(payload);
    Base64.Encode(body) + "." + Base64.Encode(codec.sign(body))
  }

  function Encode(codec: Codec, scope: Scope, position: map<string, Json>, now: int): Result<string> {
    var token := TokenOf(codec, PayloadOf(scope, position, now + codec.ttl));
    if |token| > MAX_BYTES then Err(Invalid) else Ok(token)
  }

  // ----- decoding -----

  // The index of the first separator.
  function FirstDot(s: string): (i: Option<nat>)
    ensures i.Some? ==> i.value < |s| && s[i.value] == '.' && '.' !in s[..i.value]
    ensures i.None? ==> '.' !in s
  {
    if s == "" then None
    else if s[0] == '.' then Some(0)
    else
      var more := FirstDot(s[1..]);
      if more.None? then None else Some(more.value + 1)
  }

  predicate RequiredText(j: Option<Json>) {
    j.Some? && j.value.Str? && j.value.s != ""
  }

  predicate OptionalText(j: Option<Json>) {
    j.None? || j.value.Null? || j.value.Str?
  }

  predicate RequiredInt(j: Option<Json>) {
    j.Some? && j.value.Int? && j.value.i >= 0
  }

  // The body of a token whose signature matches.
  function SignedBody(codec: Codec, token: string): Option<seq<Byte>> {
    var dot := FirstDot(token);
    if token == "" || |token| > MAX_BYTES || dot.None? then None
    else
      var body, signature := Base64.Decode(token[..dot.value]), Base64.Decode(token[dot.value + 1..]);
      if body.None? || signature.None? || signature.value != codec.sign(body.value) then None else body
  }

  function ReadPayload(p: Payload, now: int): Result<Decoded> {
    if p.version.None? || !PyEq(p.version.value, Int(VERSION)) then Err(Invalid)
    else if p.expiresAt.None? || !p.expiresAt.value.Int? then Err(Invalid)
    else if p.expiresAt.value.i <= now then Err(Expired)
    else if !RequiredText(p.workspace) || !RequiredText(p.user) || !RequiredText(p.revision) || !RequiredText(p.surface)
         || !RequiredText(p.fingerprint) || !RequiredInt(p.snapshot) || !OptionalText(p.facet) then Err(Invalid)
    else if p.position.None? || !p.position.value.Obj? then Err(Invalid)
    else Ok(Decoded(
      Scope(p.workspace.value.s, p.user.value.s, p.revision.value.s, p.surface.value.s, p.fingerprint.value.s,
            p.snapshot.value.i, if p.facet.Some? && p.facet.value.Str? then Some(p.facet.value.s) else None),
      p.position.value.fields))
  }

  function Inspect(codec: Codec, token: string, now: int): Result<Decoded> {
    var body := SignedBody(codec, token);
    if body.None? then Err(Invalid)
    else
      var parsed := codec.loads(body.value);
      if parsed.None? || parsed.value.NotDict? then Err(Invalid) else ReadPayload(parsed.value.payload, now)
  }

  function Decode(codec: Codec, token: string, expected: Scope, now: int): Result<Decoded> {
    var decoded := Inspect(codec, token, now);
    if decoded.Err? then decoded
    else if decoded.value.scope != expected then Err(ScopeChanged)
    else decoded
  }

  // ----- the round trip -----

  // A scope the decoder accepts: named texts and a snapshot revision that is not negative.
  predicate ValidScope(scope: Scope) {
    && scope.workspace != "" && scope.user != "" && scope.revision != "" && scope.surface != "" && scope.fingerprint != ""
    && scope.snapshot >= 0
  }

  // Splitting at the first dot recovers both parts when the first holds none.
  lemma {:induction false} SplitAtFirstDot(a: string, b: string)
    requires '.' !in a
    ensures FirstDot(a + "." + b) == Some(|a|)
    ensures (a + "." + b)[..|a|] == a && (a + "." + b)[|a| + 1..] == b
  {
    if a == "" {
      assert a + "." + b == "." + b;
    } else {
      SplitAtFirstDot(a[1..], b);
      assert (a + "." + b)[1..] == a[1..] + "." + b;
    }
  }

  // The body of an encoded token comes back, with its signature accepted.
  lemma SignedBodyOfToken(codec: Codec, payload: Payload)
    requires |TokenOf(codec, payload)| <= MAX_BYTES
    ensures SignedBody(codec, TokenOf(codec, payload)) == Some(codec.dumps(payload))
  {
    var body := codec.dumps(payload);
    EncodedHasNoDot(body);
    SplitAtFirstDot(Base64.Encode(body), Base64.Encode(codec.sign(body)));
    DecodeOfEncode(body);
    DecodeOfEncode(codec.sign(body));
  }

  // What a token issued for a scope and a position should yield at a later time.
  function Promised(scope: Scope, position: map<string, Json>, expiresAt: int, now: int): Result<Decoded> {
    if expiresAt <= now then Err(Expired)
    else if !ValidScope(scope) then Err(Invalid)
    else Ok(Decoded(scope, position))
  }

  // Reading back the payload of a scope and a position.
  lemma ReadOfPayload(scope: Scope, position: map<string, Json>, expiresAt: int, now: int)
    ensures ReadPayload(PayloadOf(scope, position, expiresAt), now) == Promised(scope, position, expiresAt, now)
  {
  }

  lemma InspectOfToken(codec: Codec, payload: Payload, now: int)
    requires |TokenOf(codec, payload)| <= MAX_BYTES && codec.loads(codec.dumps(payload)) == Some(Dict(payload))
    ensures Inspect(codec, TokenOf(codec, payload), now) == ReadPayload(payload, now)
  {
    SignedBodyOfToken(codec, payload);
  }

  // Whatever was encoded for a scope and a position, inspecting the token gives them back
  // exactly when it is not expired and the scope is valid.
  lemma InspectOfEncode(codec: Codec, scope: Scope, position: map<string, Json>, now: int, later: int)
    requires Encode(codec, scope, position, now).Ok?
    requires var p := PayloadOf(scope, position, now + codec.ttl); codec.loads(codec.dumps(p)) == Some(Dict(p))
    ensures Inspect(codec, Encode(codec, scope, position, now).value, later) == Promised(scope, position, now + codec.ttl, later)
  {
    var p := PayloadOf(scope, position, now + codec.ttl);
    calc {
      Inspect(codec, Encode(codec, scope, position, now).value, later);
      { assert Encode(codec, scope, position, now).value == TokenOf(codec, p); }
      Inspect(codec, TokenOf(codec, p), later);
      { InspectOfToken(codec, p, later); }
      ReadPayload(p, later);
      { ReadOfPayload(scope, position, now + codec.ttl, later); }
      Promised(scope, position, now + codec.ttl, later);
    }
  }

  // Decoding succeeds exactly before expiry and for the scope the token was issued for.
  lemma RoundTrip(codec: Codec, scope: Scope, position: map<string, Json>, now: int, expected: Scope, later: int)
    requires Encode(codec, scope, position, now).Ok? && ValidScope(scope)
    requires var p := PayloadOf(scope, position, now + codec.ttl); codec.loads(codec.dumps(p)) == Some(Dict(p))
    ensures Decode(codec, Encode(codec, scope, position, now).value, expected, later) ==
            if later >= now + codec.ttl then Err(Expired)
            else if expected != scope then Err(ScopeChanged)
            else Ok(Decoded(scope, position))
  {
    InspectOfEncode(codec, scope, position, now, later);
  }
}
