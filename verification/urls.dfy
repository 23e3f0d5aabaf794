/** The host-name extraction of `src/Url.php`: a URL object built from a
    free-form string, with the URI parser, the URL validator and DNS
    resolution supplied from outside. */
module Urls {
  import opened Wrappers
  import opened PhpStrings

  /** The components the URI parser reports that the code reads: the host and
      the port, each possibly `null`. The port is kept in its decimal text
      form, as `getPort` returns it. */
  datatype UriParts = UriParts(host: Option<string>, port: Option<string>)

  /** What the URI parser does with a string: return its components or throw. */
  datatype ParseOutcome = Parsed(parts: UriParts) | Rejected

  /** The collaborators a URL needs and the model does not interpret: the URI
      parser, `filter_var(..., FILTER_VALIDATE_URL)`, and the DNS lookup
      (`gethostbyname` filtered by `FILTER_VALIDATE_IP`, `null` when the host
      does not resolve to an address). */
  datatype UrlServices = UrlServices(
    parse: string -> ParseOutcome,
    isValidUrl: string -> bool,
    resolve: string -> Option<string>)

  /** The ways building or querying a URL fails. `ParserFailure` is the
      parser's own exception escaping the first parse. */
  datatype UrlError =
    | ParserFailure(input: string)
    | CouldNotValidate(url: string)
    | CouldNotDetermineHost(url: string)
    | CouldNotResolveDns(hostName: string)

  /** The failures raised as an `InvalidUrl` exception, as opposed to the
      parser's own. */
  predicate IsInvalidUrl(e: UrlError) {
    !e.ParserFailure?
  }

  /** A successfully built URL: the input exactly as given, the parsed host
      and port, and the resolved address if any. */
  datatype Url = Url(inputUrl: string, host: string, port: Option<string>, ipAddress: Option<string>)

  /** The scheme prefix tried when the input has no host of its own. */
  const HttpsPrefix: string := "https://"

  /** The scheme prefix of `getValidUrl` for port `80`. */
  const HttpPrefix: string := "http://"

  /** `getPort`: the parsed port, or `443` when there is none. */
  function PortOf(port: Option<string>): string {
    port.GetOr("443")
  }

  /** `getValidUrl` computed from a host and a parsed port: plain HTTP for
      port `80`, HTTPS otherwise. */
  function ValidUrlFor(host: string, port: Option<string>): string {
    if PortOf(port) == "80" then HttpPrefix + host + "/" else HttpsPrefix + host + "/"
  }

  /** The components the constructor settles on: those of the input if they
      name a host, otherwise those of the input behind `https://`. */
  function HostParts(env: UrlServices, s: string): (r: Result<UriParts, UrlError>)
    ensures r.Success? ==> r.value.host.Some?
    ensures r.Success? <==>
      && env.parse(s).Parsed?
      && (env.parse(s).parts.host.Some? ||
          (env.parse(HttpsPrefix + s).Parsed? && env.parse(HttpsPrefix + s).parts.host.Some?))
  {
    match env.parse(s)
    case Rejected => Failure(ParserFailure(s))
    case Parsed(first) =>
      if first.host.Some? then Success(first)
      else
        match env.parse(HttpsPrefix + s)
        case Rejected => Failure(CouldNotValidate(s))
        case Parsed(second) =>
          if second.host.None? then Failure(CouldNotDetermineHost(s)) else Success(second)
  }

  /** `new Url(s)`. */
  function Create(env: UrlServices, s: string): (r: Result<Url, UrlError>)
    ensures r.Success? <==>
      && env.parse(s).Parsed?
      && (env.parse(s).parts.host.Some? ||
          (env.parse(HttpsPrefix + s).Parsed? && env.parse(HttpsPrefix + s).parts.host.Some?))
      && env.isValidUrl(ValidUrlFor(HostParts(env, s).value.host.value, HostParts(env, s).value.port))
    ensures r.Failure? ==> (IsInvalidUrl(r.error) <==> env.parse(s).Parsed?)
    ensures env.parse(s).Rejected? ==> r == Failure(ParserFailure(s))
    ensures r.Failure? && env.parse(s).Parsed? ==>
      r.error == CouldNotValidate(s) || r.error == CouldNotDetermineHost(s)
    ensures r == Failure(CouldNotDetermineHost(s)) <==>
      && env.parse(s).Parsed? && env.parse(s).parts.host.None?
      && env.parse(HttpsPrefix + s).Parsed? && env.parse(HttpsPrefix + s).parts.host.None?
    ensures r.Success? ==> r.value.inputUrl == s
    ensures r.Success? ==>
      && HostParts(env, s).value == UriParts(Some(r.value.host), r.value.port)
      && r.value.ipAddress == env.resolve(r.value.host)
  {
    var parts :- HostParts(env, s);
    var host := parts.host.value;
    if !env.isValidUrl(ValidUrlFor(host, parts.port)) then Failure(CouldNotValidate(s))
    else Success(Url(s, host, parts.port, env.resolve(host)))
  }

  /** `getPort`. */
  function GetPort(u: Url): string {
    PortOf(u.port)
  }

  /** `getTestURL`: host and port joined by a colon. */
  function GetTestUrl(u: Url): string {
    u.host + ":" + GetPort(u)
  }

  /** `getValidUrl`. */
  function GetValidUrl(u: Url): string {
    ValidUrlFor(u.host, u.port)
  }

  /** `__toString` and `getInputUrl`. */
  function ToString(u: Url): string {
    u.inputUrl
  }

  /** `getIp`: the resolved address, or an exception naming the input. */
  function GetIp(u: Url): (r: Result<string, UrlError>)
    ensures r.Success? <==> u.ipAddress.Some?
    ensures r.Success? ==> u.ipAddress == Some(r.value)
    ensures r.Failure? ==> r.error == CouldNotResolveDns(u.inputUrl)
  {
    match u.ipAddress
    case None => Failure(CouldNotResolveDns(u.inputUrl))
    case Some(ip) => Success(ip)
  }

  // ----- Properties -----

  /** The port defaults to 443 and an explicit port wins. */
  lemma PortDefaulting(u: Url)
    ensures u.port.None? ==> GetPort(u) == "443" && GetTestUrl(u) == u.host + ":443"
    ensures u.port.Some? ==> GetPort(u) == u.port.value
  {
  }

  /** A host found in the input itself is used; the `https://` retry happens
      only when the first parse yields no host. */
  lemma CreateUsesFirstHost(env: UrlServices, s: string, h: string, p: Option<string>)
    requires env.parse(s) == Parsed(UriParts(Some(h), p))
    requires env.isValidUrl(ValidUrlFor(h, p))
    ensures Create(env, s) == Success(Url(s, h, p, env.resolve(h)))
  {
  }

  /** A bare host name such as `spatie.be`, which parses as a path, gets its
      host from the `https://` retry. */
  lemma CreateFallsBackToHttps(env: UrlServices, s: string, p: Option<string>, h: string, q: Option<string>)
    requires env.parse(s) == Parsed(UriParts(None, p))
    requires env.parse(HttpsPrefix + s) == Parsed(UriParts(Some(h), q))
    requires env.isValidUrl(ValidUrlFor(h, q))
    ensures Create(env, s) == Success(Url(s, h, q, env.resolve(h)))
  {
  }

  /** The empty string is refused whenever the parser finds no host in it and
      the validator refuses a URL with an empty host. A parser that accepts
      the empty reference leads to an `InvalidUrl`; one that rejects it lets
      its own exception escape. */
  lemma EmptyStringFails(env: UrlServices)
    requires env.parse("").Parsed? ==> env.parse("").parts.host.None?
    requires forall p: Option<string> :: !env.isValidUrl(ValidUrlFor("", p))
    requires env.parse(HttpsPrefix).Parsed? ==>
      env.parse(HttpsPrefix).parts.host.None? || env.parse(HttpsPrefix).parts.host == Some("")
    ensures Create(env, "").Failure?
    ensures env.parse("").Parsed? ==> IsInvalidUrl(Create(env, "").error)
    ensures env.parse("").Rejected? ==> Create(env, "").error == ParserFailure("")
  {
    assert HttpsPrefix + "" == HttpsPrefix;
  }

  /** Whatever URL is built, converting it back to a string gives the input
      unchanged. */
  lemma CreateKeepsInput(env: UrlServices, s: string)
    requires Create(env, s).Success?
    ensures ToString(Create(env, s).value) == s
  {
  }

  /** `getIp` on a built URL fails exactly when the host does not resolve,
      and otherwise returns the resolved address. */
  lemma CreatedIp(env: UrlServices, s: string)
    requires Create(env, s).Success?
    ensures GetIp(Create(env, s).value).Failure? <==> env.resolve(Create(env, s).value.host).None?
    ensures GetIp(Create(env, s).value).Success? ==>
      Some(GetIp(Create(env, s).value).value) == env.resolve(Create(env, s).value.host)
  {
  }

  /** Reads the host and the scheme back out of a `getValidUrl` result. */
  function HostOfValidUrl(v: string): (r: Option<(string, bool)>)
  {
    if |v| >= |HttpsPrefix| + 1 && v[..|HttpsPrefix|] == HttpsPrefix && v[|v| - 1] == '/' then
      Some((v[|HttpsPrefix|..|v| - 1], true))
    else if |v| >= |HttpPrefix| + 1 && v[..|HttpPrefix|] == HttpPrefix && v[|v| - 1] == '/' then
      Some((v[|HttpPrefix|..|v| - 1], false))
    else None
  }

  /** `getValidUrl` loses nothing: the host can be read back, and the scheme
      is HTTP exactly when the port is `80`. */
  lemma ValidUrlRoundTrip(u: Url)
    ensures HostOfValidUrl(GetValidUrl(u)) == Some((u.host, GetPort(u) != "80"))
  {
    var v := GetValidUrl(u);
    if GetPort(u) == "80" {
      assert v == HttpPrefix + u.host + "/";
      assert v[4] == ':';
      assert v[..|HttpsPrefix|] != HttpsPrefix by {
        assert HttpsPrefix[4] == 's';
        assert v[..|HttpsPrefix|][4] == ':';
      }
      assert v[..|HttpPrefix|] == HttpPrefix;
      assert v[|HttpPrefix|..|v| - 1] == u.host;
    } else {
      assert v == HttpsPrefix + u.host + "/";
      assert v[..|HttpsPrefix|] == HttpsPrefix;
      assert v[|HttpsPrefix|..|v| - 1] == u.host;
    }
  }

  /** Splits `host:port` at its last colon. */
  function SplitTestUrl(t: string): (r: Option<(string, string)>)
    ensures r.Some? ==> r.value.0 + ":" + r.value.1 == t && ':' !in r.value.1
    decreases |t|
  {
    if |t| == 0 then None
    else if t[|t| - 1] == ':' then Some((t[..|t| - 1], ""))
    else
      match SplitTestUrl(t[..|t| - 1])
      case None => None
      case Some((h, p)) =>
        assert t == t[..|t| - 1] + [t[|t| - 1]];
        Some((h, p + [t[|t| - 1]]))
  }

  /** `getTestURL` loses nothing when the port holds no colon: splitting at
      the last colon gives back the host and the port. */
  lemma {:induction false} TestUrlRoundTrip(u: Url)
    requires ':' !in GetPort(u)
    ensures SplitTestUrl(GetTestUrl(u)) == Some((u.host, GetPort(u)))
  {
    SplitAfterLastColon(u.host, GetPort(u));
  }

  lemma {:induction false} SplitAfterLastColon(h: string, p: string)
    requires ':' !in p
    ensures SplitTestUrl(h + ":" + p) == Some((h, p))
    decreases |p|
  {
    var t := h + ":" + p;
    if |p| == 0 {
      assert t[..|t| - 1] == h;
    } else {
      var p' := p[..|p| - 1];
      assert t[..|t| - 1] == h + ":" + p';
      assert t[|t| - 1] == p[|p| - 1];
      assert p == p' + [p[|p| - 1]];
      assert ':' !in p';
      SplitAfterLastColon(h, p');
    }
  }
}
