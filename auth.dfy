/** The optional bearer-token gate in front of the state endpoint. The
    service reads its key from the environment once and strips it; the
    empty key switches the gate off. */
module Auth {
  import opened Wrappers
  import opened Text

  /** Outcome of the gate: let the request through, 401, or 403. */
  datatype Gate = Pass | Unauthorized | Forbidden

  /** The scheme prefix, matched literally and case-sensitively. */
  const BearerPrefix: string := "Bearer "

  /** The key the service runs with: the `API_KEY` environment value,
      stripped, or the empty key when it is unset. */
  function ConfiguredKey(environment: Option<string>): (k: string)
    ensures Strip(k) == k
    ensures environment.None? ==> k == ""
    ensures environment.Some? ==> (k == "" <==> AllSpace(environment.value))
    ensures environment.Some? ==> |k| <= |environment.value|
  {
    match environment
    case None => ""
    case Some(v) =>
      StripIdempotent(v);
      StripSpec(v);
      Strip(v)
  }

  /** A whitespace-only `API_KEY` switches the gate off, like an unset one. */
  lemma BlankKeyDisablesGate(environment: string, authorization: Option<string>)
    requires AllSpace(environment)
    ensures Authorize(ConfiguredKey(Some(environment)), authorization) == Pass
  {
    StripSpec(environment);
  }

  /** A set, non-blank `API_KEY` turns the gate on: a request without a header
      is refused, and one carrying `Bearer ` and the stripped key passes. */
  lemma SetKeyEnablesGate(environment: string)
    requires !AllSpace(environment)
    ensures ConfiguredKey(Some(environment)) != ""
    ensures Authorize(ConfiguredKey(Some(environment)), None) == Unauthorized
    ensures Authorize(ConfiguredKey(Some(environment)), Some("Bearer " + Strip(environment))) == Pass
  {
    StripIdempotent(environment);
    assert ("Bearer " + Strip(environment))[7..] == Strip(environment);
  }

  /** The token a header carries: what follows the first space, stripped. */
  function Token(header: string): (t: string)
    requires StartsWith(header, BearerPrefix)
    ensures t == Strip(header[|BearerPrefix|..])
  {
    assert header == header[..6] + [' '] + header[7..];
    AfterFirstOfPrefix(header[..6], ' ', header[7..]);
    Strip(AfterFirst(header, ' ').value)
  }

  /** The decision for one request, given the configured key and the
      `Authorization` header if there is one. */
  function Authorize(apiKey: string, authorization: Option<string>): (g: Gate)
    ensures apiKey == "" ==> g == Pass
    ensures apiKey != "" && (authorization.None? || !StartsWith(authorization.value, BearerPrefix))
            ==> g == Unauthorized
    ensures apiKey != "" && authorization.Some? && StartsWith(authorization.value, BearerPrefix)
            ==> g == (if Strip(authorization.value[7..]) == apiKey then Pass else Forbidden)
    ensures g == Pass <==>
            apiKey == "" || (authorization.Some? && StartsWith(authorization.value, BearerPrefix)
                             && Strip(authorization.value[7..]) == apiKey)
  {
    if apiKey == "" then Pass
    else match authorization
      case None => Unauthorized
      case Some(h) =>
        if h == "" || !StartsWith(h, BearerPrefix) then Unauthorized
        else if Token(h) != apiKey then Forbidden
        else Pass
  }

  /** The scheme name is case-sensitive: a lower-case `bearer` is refused as a
      missing token even when the token itself is right. */
  lemma SchemeIsCaseSensitive(apiKey: string)
    requires apiKey != ""
    ensures Authorize(apiKey, Some("bearer " + apiKey)) == Unauthorized
  {
    assert ("bearer " + apiKey)[0] == 'b';
  }
}
