/** The certificate object of `src/SslCertificate.php`: a downloaded, already
    parsed certificate and the trust questions asked of it. The download, the
    URI parser, DNS and the revocation-list download are supplied from
    outside; the current instant is a parameter. */
module Certificates {
  import opened Wrappers
  import opened PhpStrings
  import opened Urls
  import opened HostMatching
  import Validity
  import opened Crl

  /** One certificate of the served chain, passed through uninterpreted. */
  datatype ChainCert = ChainCert(fields: string)

  /** The parsed certificate fields the code reads. Optional fields are the
      ones the code tests with `isset` or `??`. */
  datatype CertificateFields = CertificateFields(
    subjectCommonName: string,
    issuerCommonName: string,
    serialNumber: nat,
    validFrom: int,
    validTo: int,
    subjectAltName: Option<string>,
    crlDistributionPoints: Option<string>)

  /** What the downloader hands to the constructor. */
  datatype DownloadResults = DownloadResults(
    inputDomain: string,
    tested: string,
    trusted: bool,
    dnsResolvesTo: string,
    cert: CertificateFields,
    fullChain: seq<ChainCert>)

  /** The certificate object. */
  datatype SslCertificate = SslCertificate(
    inputDomain: string,
    testedDomain: string,
    trusted: bool,
    ip: string,
    fields: CertificateFields,
    chains: seq<ChainCert>,
    crlLinks: seq<string>,
    revocation: RevocationState)

  /** The constructor: keep the downloaded data, read the distribution points
      when the extension is present, and start with nothing known about
      revocation. */
  function FromDownload(d: DownloadResults): (c: SslCertificate)
    ensures c.fields == d.cert && c.inputDomain == d.inputDomain && c.trusted == d.trusted
    ensures c.testedDomain == d.tested && c.ip == d.dnsResolvesTo && c.chains == d.fullChain
    ensures d.cert.crlDistributionPoints.None? ==> c.crlLinks == []
    ensures c.revocation.revoked.None? && c.revocation.revokedTime.None?
  {
    SslCertificate(
      d.inputDomain, d.tested, d.trusted, d.dnsResolvesTo, d.cert, d.fullChain,
      if d.cert.crlDistributionPoints.Some? then ParseCrlLinks(d.cert.crlDistributionPoints.value) else [],
      Unchecked)
  }

  // ----- Field derivations -----

  /** `hasSslChain`. */
  function HasSslChain(c: SslCertificate): (r: bool)
    ensures r <==> c.chains != []
  {
    |c.chains| >= 1
  }

  /** `hasCrlLink`: the distribution-points extension is present. */
  predicate HasCrlLink(c: SslCertificate) {
    c.fields.crlDistributionPoints.Some?
  }

  /** `getCrlLinks`: `null` without the extension. */
  function GetCrlLinks(c: SslCertificate): Option<seq<string>> {
    if !HasCrlLink(c) then None else Some(c.crlLinks)
  }

  /** `isRevoked`: `null` until a revocation list has been checked. */
  function IsRevoked(c: SslCertificate): Option<bool> {
    c.revocation.revoked
  }

  /** `getCrlRevokedTime`: the revocation instant, shown only while the
      certificate counts as revoked. */
  function GetCrlRevokedTime(c: SslCertificate): (r: Option<int>)
    ensures r.Some? ==> IsRevoked(c) == Some(true)
    ensures IsRevoked(c) == Some(true) ==> r == c.revocation.revokedTime
  {
    if IsRevoked(c) == Some(true) then c.revocation.revokedTime else None
  }

  /** The separator between the entries of the subject-alternative-name text. */
  const SanSeparator: string := ", "

  /** The prefix each entry of the subject-alternative-name text carries. */
  const DnsPrefix: string := "DNS:"

  /** `getAdditionalDomains` on the subject-alternative-name text: split it at
      every `, ` (a missing text reads as the empty string) and remove every
      `DNS:` from each piece. There is one domain more than the text has
      separators, so a missing text still gives one, empty, domain. */
  function AdditionalDomainsOf(san: Option<string>): (r: seq<string>)
    ensures |r| == 1 + OccurrenceCount(san.GetOr(""), SanSeparator)
    ensures san.None? ==> r == [""]
    ensures |r| == |Split(san.GetOr(""), SanSeparator)|
    ensures forall k :: 0 <= k < |r| ==> r[k] == RemoveAll(Split(san.GetOr(""), SanSeparator)[k], DnsPrefix)
  {
    FirstCharUniqueIsBorderFree(SanSeparator);
    SplitCount(san.GetOr(""), SanSeparator);
    var pieces := Split(san.GetOr(""), SanSeparator);
    seq(|pieces|, k requires 0 <= k < |pieces| => RemoveAll(pieces[k], DnsPrefix))
  }

  /** `getAdditionalDomains`. */
  function GetAdditionalDomains(c: SslCertificate): seq<string> {
    AdditionalDomainsOf(c.fields.subjectAltName)
  }

  /** The subject-alternative-name text a certificate carries for `domains`:
      each one prefixed with `DNS:`, joined with `, `. */
  function SanText(domains: seq<string>): string {
    Join(seq(|domains|, k requires 0 <= k < |domains| => DnsPrefix + domains[k]), SanSeparator)
  }

  /** The names `appliesToUrl` tries, in order: the subject common name, then
      the additional domains. */
  function CertificateHosts(c: SslCertificate): seq<string> {
    [c.fields.subjectCommonName] + GetAdditionalDomains(c)
  }

  /** `getDomain`: the subject common name when the requested domain occurs
      in it, otherwise the requested domain. */
  function GetDomain(c: SslCertificate): (r: string)
    ensures r == c.inputDomain || r == c.fields.subjectCommonName
    ensures |c.inputDomain| > 0 && Occurs(c.fields.subjectCommonName, c.inputDomain) ==>
      r == c.fields.subjectCommonName
    ensures !(|c.inputDomain| > 0 && Occurs(c.fields.subjectCommonName, c.inputDomain)) ==>
      r == c.inputDomain
  {
    StrContainsIff(c.fields.subjectCommonName, c.inputDomain);
    if !StrContains(c.fields.subjectCommonName, c.inputDomain) then c.inputDomain
    else c.fields.subjectCommonName
  }

  // ----- Host coverage -----

  /** A leading `*.` of a queried host is cut off once before matching. */
  function StripWildcardQuery(url: string): (r: string)
    ensures |url| >= 2 && url[..2] == "*." ==> url == "*." + r
    ensures !(|url| >= 2 && url[..2] == "*.") ==> r == url
  {
    if StartsWith(url, "*.") then Drop(url, 2) else url
  }

  /** The host compared with the certificate's names: the parsed host, or the
      query itself when the parsed host is falsy (`?:`). */
  function CandidateHost(u: Url, query: string): string {
    if IsFalsy(u.host) then query else u.host
  }

  /** `appliesToUrl(url)`. Building the URL object can throw, and the
      exception is not caught here. */
  function AppliesToUrl(env: UrlServices, c: SslCertificate, url: string): (r: Result<bool, UrlError>)
    ensures r.Failure? <==> Create(env, StripWildcardQuery(url)).Failure?
    ensures r.Success? ==>
      (r.value <==> (exists i :: 0 <= i < |CertificateHosts(c)| &&
                       WildcardHostCoversHost(CertificateHosts(c)[i],
                         CandidateHost(Create(env, StripWildcardQuery(url)).value, StripWildcardQuery(url)))))
  {
    var query := StripWildcardQuery(url);
    var u :- Create(env, query);
    Success(CoversAny(CertificateHosts(c), CandidateHost(u, query)))
  }

  // ----- Validity -----

  /** The validity window of the certificate. */
  function WindowOf(c: SslCertificate): Validity.Window {
    Validity.Window(c.fields.validFrom, c.fields.validTo)
  }

  /** `isValidUntil(t, url)`: the date test, guarded by itself; the URL
      argument is never read. */
  function IsValidUntil(c: SslCertificate, t: int, url: Option<string>): (r: bool)
    ensures r == Validity.IsValidDate(WindowOf(c), t)
    ensures c.fields.validFrom <= c.fields.validTo ==> (r <==> c.fields.validFrom <= t <= c.fields.validTo)
  {
    if !Validity.IsValidDate(WindowOf(c), t) then false
    else Validity.Between(t, c.fields.validFrom, c.fields.validTo)
  }

  /** `isValid(url)` at the instant `now`: within the window, applying to the
      given host (the originally requested domain when none is given), and
      not known to be revoked. */
  function IsValid(env: UrlServices, c: SslCertificate, now: int, url: Option<string>): (r: Result<bool, UrlError>)
    ensures r == Success(true) <==>
      && Validity.IsValidDate(WindowOf(c), now)
      && AppliesToUrl(env, c, url.GetOr(c.inputDomain)) == Success(true)
      && IsRevoked(c) != Some(true)
    ensures r.Failure? <==> Validity.IsValidDate(WindowOf(c), now) && AppliesToUrl(env, c, url.GetOr(c.inputDomain)).Failure?
    ensures r.Failure? ==> r == AppliesToUrl(env, c, url.GetOr(c.inputDomain))
  {
    if !Validity.IsValidDate(WindowOf(c), now) then Success(false)
    else
      var applies :- AppliesToUrl(env, c, url.GetOr(c.inputDomain));
      if !applies then Success(false)
      else if IsRevoked(c) == Some(true) then Success(false)
      else Success(true)
  }

  // ----- Self-signed detection -----

  /** `isSelfSigned()`: the issuer name, with a leading `*.` cut off, must make
      a URL, and the certificate must apply to it. A name that makes no URL
      means not self-signed; the check that follows builds the URL again and
      is not guarded. */
  function IsSelfSigned(env: UrlServices, c: SslCertificate): (r: Result<bool, UrlError>)
    ensures Create(env, StripWildcardQuery(c.fields.issuerCommonName)).Failure? ==> r == Success(false)
    ensures Create(env, StripWildcardQuery(c.fields.issuerCommonName)).Success? ==>
      r == AppliesToUrl(env, c, StripWildcardQuery(c.fields.issuerCommonName))
    ensures !(var i := StripWildcardQuery(c.fields.issuerCommonName); |i| >= 2 && i[..2] == "*.") ==> r.Success?
  {
    var issuer := StripWildcardQuery(c.fields.issuerCommonName);
    match Create(env, issuer)
    case Failure(_) => Success(false)
    case Success(u) => AppliesToUrl(env, c, ToString(u))
  }

  // ----- Revocation -----

  /** `withSslCrlCheck`: without distribution points nothing happens;
      otherwise the list downloaded from the first link is searched for the
      serial. The first hit marks the certificate revoked and untrusted and
      records the revocation instant; no hit marks it not revoked. Only the
      trust flag and the revocation state change. */
  function WithSslCrlCheck(c: SslCertificate, download: string -> seq<RevokedEntry>): (r: SslCertificate)
    ensures r == c.(trusted := r.trusted, revocation := r.revocation)
    ensures GetCrlLinks(c) == None || GetCrlLinks(c) == Some([]) ==> r == c
    ensures GetCrlLinks(c).Some? && |GetCrlLinks(c).value| > 0 ==>
      var entries := download(GetCrlLinks(c).value[0]);
      && r.revocation.crl == Some(entries)
      && IsRevoked(r).Some?
      && (IsRevoked(r) == Some(true) <==>
          exists j :: 0 <= j < |entries| && entries[j].userCertificate == c.fields.serialNumber)
      && (IsRevoked(r) == Some(true) ==> !r.trusted && r.revocation.revokedTime.Some?)
      && (IsRevoked(r) == Some(false) ==> r.trusted == c.trusted && r.revocation.revokedTime == c.revocation.revokedTime)
  {
    match GetCrlLinks(c)
    case None => c
    case Some(links) =>
      if |links| == 0 then c
      else
        var entries := download(links[0]);
        match FirstRevoked(entries, c.fields.serialNumber)
        case Some(k) =>
          c.(trusted := false,
             revocation := RevocationState(Some(entries), Some(true), Some(entries[k].revocationDate)))
        case None =>
          c.(revocation := c.revocation.(crl := Some(entries), revoked := Some(false)))
  }

  /** A certificate marked revoked is untrusted and knows when it was
      revoked. */
  predicate RevocationConsistent(c: SslCertificate) {
    IsRevoked(c) == Some(true) ==> !c.trusted && c.revocation.revokedTime.Some?
  }

  // ----- Properties -----

  /** The additional domains read back exactly the names a certificate was
      issued for, as long as no name holds `, ` or `DNS:`. */
  lemma AdditionalDomainsRoundTrip(domains: seq<string>)
    requires |domains| > 0
    requires forall k :: 0 <= k < |domains| ==> !Occurs(domains[k], SanSeparator) && !Occurs(domains[k], DnsPrefix)
    ensures AdditionalDomainsOf(Some(SanText(domains))) == domains
  {
    var entries := seq(|domains|, k requires 0 <= k < |domains| => DnsPrefix + domains[k]);
    FirstCharUniqueIsBorderFree(SanSeparator);
    FirstCharUniqueIsBorderFree(DnsPrefix);
    forall k | 0 <= k < |entries|
      ensures !Occurs(entries[k], SanSeparator)
    {
      NoOccurrenceInConcat(DnsPrefix, domains[k], SanSeparator);
    }
    SplitJoin(entries, SanSeparator);
    var r := AdditionalDomainsOf(Some(SanText(domains)));
    forall k | 0 <= k < |domains|
      ensures r[k] == domains[k]
    {
      RemoveAllLeading(DnsPrefix, domains[k]);
    }
  }

  /** A certificate without alternative names still yields one, empty,
      additional domain. */
  lemma MissingSanGivesOneEmptyDomain()
    ensures AdditionalDomainsOf(None) == [""]
  {
    assert !Occurs("", SanSeparator) by {
      forall i: nat ensures !OccursAt("", SanSeparator, i) { }
    }
    RemoveAllAbsent("", DnsPrefix) by {
      forall i: nat ensures !OccursAt("", DnsPrefix, i) { }
    }
  }

  /** A freshly built certificate reports a chain exactly when the download
      served one. */
  lemma ChainFromDownload(d: DownloadResults)
    ensures HasSslChain(FromDownload(d)) <==> |d.fullChain| > 0
  {
  }

  /** The requested domain can always be found in what `getDomain` returns. */
  lemma GetDomainContainsInput(c: SslCertificate)
    ensures |c.inputDomain| == 0 || Occurs(GetDomain(c), c.inputDomain)
  {
    if |c.inputDomain| > 0 && GetDomain(c) == c.inputDomain {
      assert OccursAt(c.inputDomain, c.inputDomain, 0);
    }
  }

  /** A query `*.x` is answered as the query `x`: one leading `*.` is cut off
      before anything else happens. */
  lemma AppliesToWildcardQuery(env: UrlServices, c: SslCertificate, x: string)
    requires !(|x| >= 2 && x[..2] == "*.")
    ensures AppliesToUrl(env, c, "*." + x) == AppliesToUrl(env, c, x)
  {
    assert ("*." + x)[..2] == "*.";
    assert StripWildcardQuery("*." + x) == x;
  }

  /** When the query parses to a (truthy) host, the certificate applies to it
      exactly when one of its names covers that host. */
  lemma AppliesToParsedHost(env: UrlServices, c: SslCertificate, url: string, h: string)
    requires Create(env, StripWildcardQuery(url)).Success?
    requires Create(env, StripWildcardQuery(url)).value.host == h && !IsFalsy(h)
    ensures AppliesToUrl(env, c, url) == Success(CoversAny(CertificateHosts(c), h))
  {
  }

  /** Two certificates whose names are the same set of hosts (in any order,
      with any repetition) agree on every query. */
  lemma AppliesToUrlOrderIndependent(env: UrlServices, c1: SslCertificate, c2: SslCertificate, url: string)
    requires forall x :: x in CertificateHosts(c1) <==> x in CertificateHosts(c2)
    ensures AppliesToUrl(env, c1, url) == AppliesToUrl(env, c2, url)
  {
    var query := StripWildcardQuery(url);
    if Create(env, query).Success? {
      CoversAnyOrderIndependent(CertificateHosts(c1), CertificateHosts(c2),
        CandidateHost(Create(env, query).value, query));
    }
  }

  /** Without an explicit host, `isValid` checks the originally requested
      domain. */
  lemma IsValidDefaultsToInputDomain(env: UrlServices, c: SslCertificate, now: int)
    ensures IsValid(env, c, now, None) == IsValid(env, c, now, Some(c.inputDomain))
  {
  }

  /** A valid certificate with a well-formed window is not expired. */
  lemma ValidIsNotExpired(env: UrlServices, c: SslCertificate, now: int, url: Option<string>)
    requires c.fields.validFrom <= c.fields.validTo
    requires IsValid(env, c, now, url) == Success(true)
    ensures !Validity.IsExpired(WindowOf(c), now)
  {
  }

  /** `isValidUntil` does not depend on its URL argument. */
  lemma IsValidUntilIgnoresUrl(c: SslCertificate, t: int, u1: Option<string>, u2: Option<string>)
    ensures IsValidUntil(c, t, u1) == IsValidUntil(c, t, u2)
  {
  }

  /** A freshly built certificate knows nothing about revocation, and its
      links are those read from the extension. */
  lemma FreshCertificate(d: DownloadResults)
    ensures IsRevoked(FromDownload(d)) == None
    ensures GetCrlRevokedTime(FromDownload(d)) == None
    ensures RevocationConsistent(FromDownload(d))
    ensures d.cert.crlDistributionPoints.Some? ==>
      GetCrlLinks(FromDownload(d)) == Some(ParseCrlLinks(d.cert.crlDistributionPoints.value))
    ensures d.cert.crlDistributionPoints.None? ==> GetCrlLinks(FromDownload(d)) == None
  {
  }

  /** With a link, the first entry carrying the serial decides: the
      certificate becomes revoked and untrusted, and reports that entry's
      revocation instant. */
  lemma CrlCheckRevokes(c: SslCertificate, download: string -> seq<RevokedEntry>, k: nat)
    requires GetCrlLinks(c).Some? && |GetCrlLinks(c).value| > 0
    requires var entries := download(GetCrlLinks(c).value[0]);
      k < |entries| && entries[k].userCertificate == c.fields.serialNumber &&
      forall j :: 0 <= j < k ==> entries[j].userCertificate != c.fields.serialNumber
    ensures var r := WithSslCrlCheck(c, download);
      && IsRevoked(r) == Some(true)
      && !r.trusted
      && GetCrlRevokedTime(r) == Some(download(GetCrlLinks(c).value[0])[k].revocationDate)
      && r.revocation.crl == Some(download(GetCrlLinks(c).value[0]))
  {
    var entries := download(GetCrlLinks(c).value[0]);
    var f := FirstRevoked(entries, c.fields.serialNumber);
    assert f == Some(k);
  }

  /** The check keeps a revoked certificate untrusted and dated. */
  lemma CrlCheckPreservesConsistency(c: SslCertificate, download: string -> seq<RevokedEntry>)
    requires RevocationConsistent(c)
    ensures RevocationConsistent(WithSslCrlCheck(c, download))
  {
  }
}
