/**
 The configuration checks and confirmation-link construction that
 `send_confirmation_email` performs before it builds the provider request.

 The provider credential is checked first, then the sender address; a missing
 one is reported before anything else happens. The link is the configured
 base URL with every trailing '/' removed, followed by the fixed confirmation
 path and the token.
 */
module Confirmation {

  datatype Option<T> = None | Some(value: T)

  datatype Result<T, E> = Ok(value: T) | Err(error: E)

  /** The fields of the service configuration this path reads. */
  datatype Config = Config(sendgridApiKey: Option<string>, fromEmail: Option<string>, baseUrl: string)

  /** Which required configuration value is missing. */
  datatype ConfigError = MissingSendgridApiKey | MissingFromEmail

  /** What the provider request is built from once the checks pass. */
  datatype Prepared = Prepared(apiKey: string, fromEmail: string, confirmUrl: string)

  /** The path and query prefix of the confirmation link. */
  const ConfirmPath: string := "/api/v1/newsletter/confirm?token="

  predicate NoTrailingSlash(s: string)
  {
    s == [] || s[|s| - 1] != '/'
  }

  predicate AllSlashes(s: string)
  {
    forall i :: 0 <= i < |s| ==> s[i] == '/'
  }

  /** `s.trim_end_matches('/')`: `s` without the run of '/' at its end. */
  function TrimEndSlashes(s: string): (r: string)
    ensures r <= s
    ensures NoTrailingSlash(r)
    ensures AllSlashes(s[|r|..])
  {
    if s != [] && s[|s| - 1] == '/' then TrimEndSlashes(s[..|s| - 1]) else s
  }

  /** The three properties above pin the trimmed string down: any prefix of
      `s` without a trailing '/' that leaves only '/' behind is the result. */
  lemma TrimUnique(s: string, r: string)
    requires r <= s && NoTrailingSlash(r) && AllSlashes(s[|r|..])
    ensures r == TrimEndSlashes(s)
  {
    var t := TrimEndSlashes(s);
    assert r == s[..|r|] && t == s[..|t|];
  }

  /** Trimming twice is trimming once. */
  lemma TrimIdempotent(s: string)
    ensures TrimEndSlashes(TrimEndSlashes(s)) == TrimEndSlashes(s)
  {
  }

  /** An extra trailing '/' on the base URL makes no difference. */
  lemma TrimIgnoresExtraSlash(s: string)
    ensures TrimEndSlashes(s + "/") == TrimEndSlashes(s)
  {
    assert (s + "/")[..|s|] == s;
  }

  /** The confirmation link for `token` under `baseUrl`: the trimmed base
      URL, then the confirmation path, then exactly the token. */
  function ConfirmUrl(baseUrl: string, token: string): (url: string)
    ensures |url| >= |ConfirmPath| + |token|
    ensures url[|url| - |token|..] == token
    ensures url[|url| - |token| - |ConfirmPath|..|url| - |token|] == ConfirmPath
    ensures var base := url[..|url| - |token| - |ConfirmPath|];
            base <= baseUrl && NoTrailingSlash(base) && AllSlashes(baseUrl[|base|..])
  {
    var base := TrimEndSlashes(baseUrl);
    var url := base + ConfirmPath + token;
    assert url[..|base|] == base;
    assert url[|base|..|base| + |ConfirmPath|] == ConfirmPath;
    url
  }

  /** The link's base part is exactly the trimmed base URL, so there is never
      a '/' right before the confirmation path's own leading '/'. */
  lemma ConfirmUrlBase(baseUrl: string, token: string)
    ensures var url := ConfirmUrl(baseUrl, token);
            url[..|url| - |token| - |ConfirmPath|] == TrimEndSlashes(baseUrl)
    ensures var url := ConfirmUrl(baseUrl, token);
            var k := |url| - |token| - |ConfirmPath|;
            k > 0 ==> url[k - 1] != '/'
  {
    var url := ConfirmUrl(baseUrl, token);
    var base := url[..|url| - |token| - |ConfirmPath|];
    TrimUnique(baseUrl, base);
  }

  /** The token can be read back from the link: different tokens under the
      same base URL give different links. */
  lemma ConfirmUrlInjective(baseUrl: string, t1: string, t2: string)
    requires ConfirmUrl(baseUrl, t1) == ConfirmUrl(baseUrl, t2)
    ensures t1 == t2
  {
    ConfirmUrlBase(baseUrl, t1);
    ConfirmUrlBase(baseUrl, t2);
  }

  /** A base URL ending in '/' gives the same link as the one without it. */
  lemma ConfirmUrlTrailingSlash(baseUrl: string, token: string)
    ensures ConfirmUrl(baseUrl + "/", token) == ConfirmUrl(baseUrl, token)
  {
    TrimIgnoresExtraSlash(baseUrl);
  }

  /** The checks at the start of `send_confirmation_email`: the credential,
      then the sender address, then the confirmation link. Any present value
      passes, the empty string included. */
  function PrepareConfirmation(config: Config, token: string): (r: Result<Prepared, ConfigError>)
    ensures config.sendgridApiKey.None? ==> r == Err(MissingSendgridApiKey)
    ensures config.sendgridApiKey.Some? && config.fromEmail.None? ==> r == Err(MissingFromEmail)
    ensures r.Ok? <==> config.sendgridApiKey.Some? && config.fromEmail.Some?
    ensures r.Ok? ==> r.value.apiKey == config.sendgridApiKey.value
                      && r.value.fromEmail == config.fromEmail.value
                      && r.value.confirmUrl == ConfirmUrl(config.baseUrl, token)
  {
    match config.sendgridApiKey
    case None => Err(MissingSendgridApiKey)
    case Some(apiKey) =>
      match config.fromEmail
      case None => Err(MissingFromEmail)
      case Some(fromEmail) => Ok(Prepared(apiKey, fromEmail, ConfirmUrl(config.baseUrl, token)))
  }

  /** Under one configuration, two successful setups with the same link were
      for the same token. */
  lemma PreparedUrlInjective(config: Config, t1: string, t2: string)
    requires PrepareConfirmation(config, t1).Ok? && PrepareConfirmation(config, t2).Ok?
    requires PrepareConfirmation(config, t1).value.confirmUrl == PrepareConfirmation(config, t2).value.confirmUrl
    ensures t1 == t2
  {
    ConfirmUrlInjective(config.baseUrl, t1, t2);
  }
}
