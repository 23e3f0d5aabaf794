# SSL certificate trust checks, modelled in Dafny

This project models the trust checks of the `liquidweb/ssl-certificate` PHP
library. The `SslCertificate` class answers a set of questions about a
certificate that has already been downloaded and parsed:

- does it cover a given host, exactly or through a leading wildcard;
- is it inside its validity window at a given instant;
- is it expired;
- is it self-signed;
- which names does it list as additional domains;
- which revocation-list links does it carry;
- after a revocation-list check, is it revoked, and since when.

The `Url` class turns a free-form string into a host and a port. It tries
`https://` in front of the string when the string alone yields no host. It
rebuilds `http(s)://host/` for validation and `host:port` for testing.

The model is functional:

- A certificate is an immutable `Certificates.SslCertificate` value.
- `withSslCrlCheck` returns a new value.
- The current instant is a parameter.
- The collaborators the code calls but does not define are parameters, grouped in `Urls.UrlServices`:
  - the League URI parser;
  - `filter_var(..., FILTER_VALIDATE_URL)`;
  - DNS resolution.
- The revocation-list download is a function from a link to the list of revoked entries.
- An operation that can throw in PHP returns a `Result`. The `UrlError` constructors are the `InvalidUrl` exceptions, plus the parser's own exception. The failures of the revocation-list download and of a certificate without a common name are left out, as listed below.
- A `string` is a PHP byte string, one character per byte.

Modules, one per file:

- `Wrappers`: `Option` and `Result`.
- `PhpStrings`: the PHP and framework string functions the code relies on, with their edge cases:
  - `explode`, `str_replace`, `trim`, `substr`, `substr_count`;
  - `implode`, which the code does not call, as the reference inverse of `explode` in the round-trip properties;
  - `starts_with`, `ends_with`, `str_contains`;
  - PHP's falsy strings.
- `Urls`: `src/Url.php`.
- `HostMatching`: `wildcardHostCoversHost` and the loop of `appliesToUrl`.
- `Validity`: the validity-window predicates over Unix timestamps.
- `Crl`: revocation-link extraction and the revoked-list search.
- `Certificates`: the certificate object and its questions.
- `Scenarios`: the fixture certificate of `tests/SslCertificateTest.php`. It covers the certificate's additional domains, the domain tests and the boundary instants of the date tests.

## Model

| member | source | states |
|---|---|---|
| Urls.HostParts | src/Url.php:41-53 | the constructor settles on a host exactly when the first parse succeeds and either names a host or the `https://` retry does; the settled components always carry a host |
| Urls.Create | src/Url.php:37-61 | construction succeeds iff a host is found (directly or behind `https://`) and the rebuilt URL passes the validator; a failure is the parser's own exception iff the first parse is rejected and an `InvalidUrl` naming the input otherwise, `couldNotDetermineHost` exactly when both parses succeed without a host; a built URL keeps the input as given, the host and port the parse settled on, and the address DNS resolved for that host |
| Urls.CreateUsesFirstHost | src/Url.php:43-44 | a host found in the input itself is used and no retry happens |
| Urls.CreateFallsBackToHttps | src/Url.php:44-53 | a string that parses without a host (such as a bare host name) takes host and port from the `https://` retry |
| Urls.EmptyStringFails | src/Url.php:43-57 | the empty string is refused when neither parse yields a non-empty host and the validator refuses an empty host; when the parser accepts the empty reference the failure is an `InvalidUrl`, otherwise the parser's own exception |
| Urls.PortDefaulting | src/Url.php:87-90 | the port is the parsed one when present and `443` otherwise |
| Urls.ValidUrlRoundTrip | src/Url.php:97-104 | `getValidUrl` is `http://host/` iff the port is `80` and `https://host/` otherwise; the host can be read back from it |
| Urls.SplitTestUrl | src/Url.php:92-95 | splitting at the last colon gives two parts that join back with a colon to the input, the second one colon-free |
| Urls.TestUrlRoundTrip | src/Url.php:92-95 | `getTestURL` is host, colon, port: splitting it at the last colon gives back host and port when the port holds no colon |
| Urls.CreateKeepsInput | src/Url.php:22-25 | converting a built URL to a string (`__toString`, `getInputUrl`) gives the input unchanged |
| Urls.GetIp | src/Url.php:63-70 | `getIp` fails with the DNS error naming the input exactly when no address was resolved, and otherwise returns that address |
| Urls.CreatedIp | src/Url.php:59-70 | on a built URL, `getIp` fails iff the DNS lookup of the host found no address |
| HostMatching.CoversCharacterisation | src/SslCertificate.php:340-353 | for a certificate host longer than two characters, coverage holds iff the hosts are identical, or the certificate host starts with `*`, has at least as many dots as the candidate, and the candidate ends with the certificate host minus its first two characters; a certificate host of at most two characters covers only itself, plus the empty candidate when it starts with `*`, because only the empty text ends with the empty suffix |
| HostMatching.PlainHostCoversOnlyItself | src/SslCertificate.php:342-348 | a certificate host not starting with `*` covers only the identical host |
| HostMatching.WildcardCoverage | src/SslCertificate.php:346-352 | `*` plus any second byte plus a base covers exactly the hosts ending in the base with at most one dot in front of it (none unless the second byte is a dot), besides itself |
| HostMatching.WildcardCutsBytes | src/SslCertificate.php:350-352 | the two bytes cut after `*` are bytes, not characters: `*ü.com` does not cover `a.com` but covers the byte BC followed by `.com` |
| HostMatching.NoSuffixNotCovered | src/SslCertificate.php:342-352 | a host that is neither the certificate host nor ends with it minus two characters is never covered |
| HostMatching.WildcardCoversBaseDomain | src/SslCertificate.php:350-352 | `*.d` covers the bare base `d` |
| HostMatching.WildcardCoversOneLabel | src/SslCertificate.php:350-352 | `*.d` covers one dot-free label in front of `d` |
| HostMatching.WildcardCoversNoDeeper | src/SslCertificate.php:352 | `*.d` covers no host with two labels in front of `d` |
| HostMatching.WildcardIgnoresLabelBoundary | src/SslCertificate.php:352 | `*.d` also covers any dot-free text glued directly onto `d`, as the suffix test ignores label boundaries |
| HostMatching.CoversAny | src/SslCertificate.php:327-337 | the first-match loop over the certificate hosts answers true iff some certificate host covers the candidate |
| HostMatching.CoversAnyAppend | src/SslCertificate.php:325-337 | coverage by a concatenated host list is coverage by either part |
| HostMatching.CoversAnyOrderIndependent | src/SslCertificate.php:325-337 | two host lists with the same elements, in any order or multiplicity, cover the same hosts |
| Validity.IsValidDate | src/SslCertificate.php:285-292 | in a well-formed window a date is valid iff it lies between start and end, both included; a reversed window is read with its ends swapped |
| Validity.ExpiredIsNotValid | src/SslCertificate.php:247-250 | expired means strictly after the end; an expired certificate is not within its window and vice versa |
| Validity.ExpiryIsPermanent | src/SslCertificate.php:247-250 | once expired, expired at every later instant |
| Validity.ValidDatesConvex | src/SslCertificate.php:285-292 | any instant between two valid instants is valid |
| Crl.ParseCrlLinks | src/SslCertificate.php:61-74 | there is one link per occurrence of `Full Name:` in the extension text, so none without the marker; the k-th link is extracted from the piece after the k-th marker |
| Crl.ParseCrlLinksOnePerMarker | src/SslCertificate.php:61-74 | for a preamble followed by marker-separated distribution points, the links are exactly those of the points, in order, and the preamble is discarded |
| Crl.ParseCrlLinksWithoutMarker | src/SslCertificate.php:64-66 | a text without `Full Name:` yields no links |
| Crl.ExtractBetweenUriMarkers | src/SslCertificate.php:53-59 | the link of a distribution point is the trimmed text between its first and second `URI:` |
| Crl.ExtractPaddedLink | src/SslCertificate.php:53-59 | surrounding white space is removed and the link itself is kept intact |
| Crl.ExtractWithoutUri | src/SslCertificate.php:53-59 | a distribution point without `URI:` yields the empty link, as PHP does once it has gone past the notice about the missing offset |
| Crl.FirstRevoked | src/SslCertificate.php:94-102 | the search finds an entry carrying the serial with none before it, or reports that no entry carries it |
| PhpStrings.SplitCount | src/SslCertificate.php:64 | `explode` with a separator that cannot overlap itself yields one piece more than the separator occurs in the text |
| Certificates.FromDownload | src/SslCertificate.php:108-122 | the constructor keeps the downloaded fields, the tested domain, the resolved address and the served chain, reads no links without the distribution-points extension, and starts with the revocation status unknown |
| Certificates.FreshCertificate | src/SslCertificate.php:108-122 | a fresh certificate is neither revoked nor not revoked, shows no revocation instant, and its links are those parsed from the extension, or `null` without it |
| Certificates.HasSslChain | src/SslCertificate.php:124-131 | a chain is reported iff the served chain is non-empty |
| Certificates.ChainFromDownload | src/SslCertificate.php:115-131 | a freshly built certificate reports a chain iff the download served a non-empty one |
| Certificates.GetCrlRevokedTime | src/SslCertificate.php:176-181 | a revocation instant is shown only while the certificate counts as revoked, and then it is the recorded one |
| Certificates.AdditionalDomainsOf | src/SslCertificate.php:218-225 | there is one domain more than `, ` occurs in the alternative-name text, so a missing text gives the single empty domain; the k-th domain is the k-th `, `-separated piece with every `DNS:` removed |
| Certificates.AdditionalDomainsRoundTrip | src/SslCertificate.php:218-225 | the text a certificate carries for a non-empty list of names, free of `, ` and `DNS:`, is read back as exactly those names |
| Certificates.MissingSanGivesOneEmptyDomain | src/SslCertificate.php:220 | without an alternative-name text the additional domains are one empty string |
| Certificates.GetDomain | src/SslCertificate.php:193-201 | the domain is the subject common name iff the requested domain is non-empty and occurs in it, and the requested domain otherwise |
| Certificates.GetDomainContainsInput | src/SslCertificate.php:193-201 | the requested domain always occurs in the returned domain |
| Certificates.StripWildcardQuery | src/SslCertificate.php:320-322 | one leading `*.` of a query is cut off and anything else is left alone |
| Certificates.AppliesToUrl | src/SslCertificate.php:318-338 | fails iff the query, after one `*.` is cut off, does not make a URL; otherwise true iff a name of the certificate covers the parsed host, or the query when that host is falsy |
| Certificates.AppliesToWildcardQuery | src/SslCertificate.php:320-322 | the query `*.x` is answered as `x` |
| Certificates.AppliesToParsedHost | src/SslCertificate.php:323-337 | when the query yields a truthy host, the answer is whether the subject name or an additional domain covers it |
| Certificates.AppliesToUrlOrderIndependent | src/SslCertificate.php:325-337 | certificates whose name lists hold the same hosts agree on every query |
| Certificates.IsValid | src/SslCertificate.php:257-273 | `isValid` is true iff the instant is in the window, the certificate applies to the given host (the requested domain by default), and it is not known to be revoked; it throws iff the date test passes and that host makes no URL, with the exception of `appliesToUrl` |
| Certificates.IsValidDefaultsToInputDomain | src/SslCertificate.php:264 | without a host, `isValid` checks the requested domain |
| Certificates.ValidIsNotExpired | src/SslCertificate.php:247-273 | a valid certificate with a well-formed window is not expired |
| Certificates.IsValidUntil | src/SslCertificate.php:275-283 | `isValidUntil` equals the date test, and for a well-formed window holds iff the instant is between the two ends |
| Certificates.IsValidUntilIgnoresUrl | src/SslCertificate.php:275-283 | the URL argument of `isValidUntil` never changes its answer |
| Certificates.IsSelfSigned | src/SslCertificate.php:294-316 | an issuer name that, with one `*.` cut off, makes no URL means not self-signed; otherwise self-signed is exactly whether the certificate applies to that name, which cannot throw unless the name still begins with `*.` |
| Certificates.WithSslCrlCheck | src/SslCertificate.php:86-106 | without links (or with none) nothing changes; with a link the list from the first link is kept, the status becomes known and is revoked iff some entry carries the serial; revoked means untrusted with a revocation instant, not revoked keeps trust flag and instant; nothing but trust and revocation state ever changes |
| Certificates.CrlCheckRevokes | src/SslCertificate.php:92-101 | the first entry carrying the serial makes the certificate revoked and untrusted, with that entry's instant as revocation time, and keeps the downloaded list |
| Certificates.CrlCheckPreservesConsistency | src/SslCertificate.php:86-106 | a revoked certificate stays untrusted and dated across a check |
| Scenarios.FixtureCertificateHosts | tests/SslCertificateTest.php:98-105 | the fixture's alternative-name text is read as `spatie.be`, `www.spatie.be`, `*.otherdomain.com` |
| Scenarios.CoversSpatie | tests/SslCertificateTest.php:214-216 | the fixture covers `spatie.be` and `www.spatie.be` |
| Scenarios.CoversOtherDomain | tests/SslCertificateTest.php:224 | the fixture covers the bare `otherdomain.com` |
| Scenarios.CoversOneLabel | tests/SslCertificateTest.php:226-228 | the fixture covers one label in front of `otherdomain.com` |
| Scenarios.NotCoversTwoLabels | tests/SslCertificateTest.php:230-232 | the fixture does not cover two labels in front of `otherdomain.com` |
| Scenarios.NotCoversAnotherSpatie | tests/SslCertificateTest.php:218 | the fixture does not cover `another.spatie.be` |
| Scenarios.NotCoversFacebook | tests/SslCertificateTest.php:234 | the fixture does not cover `facebook.com` |
| Scenarios.NotCoversSpatieFacebook | tests/SslCertificateTest.php:236 | the fixture does not cover `spatie.be.facebook.com` |
| Scenarios.FixtureWindowBoundaries | tests/SslCertificateTest.php:124-153 | a minute inside either end of the fixture's window is valid, just outside is not, and expiry begins after the end |
| Scenarios.RevokedFixture | tests/SslCertificateTest.php:242-250 | a certificate found on its downloaded list is revoked after the check, reports a revocation instant, and is not valid |

## Left out

- `Downloader`, `SslRevocationList` and `SslChain` are not part of this model. They fetch the certificate over TLS, download revocation lists and decode ASN.1. The downloaded fields, the revoked list and the chain are inputs.
- `createForHostName` is left out because it only downloads and then constructs.
- `League\Uri\Parser` and `filter_var` are foreign library calls. They are uninterpreted parameters, which is why construction is characterised relative to them.
- `gethostbyname` is network I/O. The resolved address is an `Option` the resolver parameter returns.
- The exception classes in `src/Exceptions/InvalidUrl.php` are left out: they only build messages. The model keeps which exception is thrown and the string it names, not the message text.
- Carbon instants are Unix timestamps in seconds, and `Carbon::now()` is a parameter. `isExpired` uses the same parameter as "now".
- The serial number is a `nat`. phpseclib's `BigInteger` and the hexadecimal formatting of `getSerialNumber` are left out.
- The revocation date is the entry's instant as a timestamp. Parsing the list's `utcTime` text is left out.
- Simple accessors are left out because they read a stored field without any decision worth proving:
  - `getCertificateFields`, `getCertificateChains`, `getConnectionMeta`, `getResolvedIp`;
  - `getIssuer`, `getTestedDomain`, `getInputDomain`, `getCertificateDomain`;
  - `isTrusted`;
  - `Url::getHostName`, `Url::getValidatedURL`.

  Four more are left out for other reasons:
  - `getSignatureAlgorithm` reads a field no core operation uses and defaults it to `''`;
  - `getCrl` returns the downloaded list, or `null` without the distribution-points extension, and the list itself is the `crl` field of the revocation state;
  - `validFromDate` and `expirationDate` build Carbon objects from the two timestamps, which the model uses directly as the window.

  Their fields appear as datatype fields.
- The connection metadata is not modelled because no core operation reads it.
- Host names are compared as the code compares them, byte for byte. There is no lower-casing or other normalisation, because the code applies none.
- `extractCrlLinks` on a distribution point without `URI:` reads an undefined array offset. PHP raises an `E_NOTICE` there and goes on with `null`, which `trim` turns into `''`. The model keeps only that silent reading. An error handler that turns notices into exceptions would make the constructor throw instead, and that is not modelled.
- Strings are sequences of characters, each standing for one byte of the PHP string. The model does not restrict characters to values below 256, so a multi-byte UTF-8 character must be written as its bytes; a character above 255 has no PHP counterpart.
- A certificate without a subject or issuer common name is not modelled. In PHP `getCertificateDomain` and `getIssuer` are declared to return `string`, so a missing name raises a `TypeError`. `appliesToUrl`, `isValid`, `getDomain` and `isSelfSigned` then fail with that error, which the `catch (\Exception)` of `isSelfSigned` does not catch. Both names are plain strings in the model.
- A failing revocation-list download throws in PHP (`SslRevocationList::createFromUrl`). The model's `download` parameter is total and always returns a list, so `withSslCrlCheck` never fails here.
- `withSslCrlCheck` changes the object in place and returns it, so every alias of the original object sees the check. The model returns a new value and leaves the old one unchanged, so aliasing is not modelled.
- `withSslCrlCheck` can be applied again to an already checked certificate, and it checks again. It is not a one-time transition, because the code does not guard against a second call.
- `Between` swaps reversed bounds, as Carbon's `between` does. It does not read a reversed window as empty.
- `str_replace` and `explode` are modelled for the fixed separators the code uses: a single left-to-right pass with non-overlapping matches.
- Urls.EmptyStringFails: the empty string's failure is proved under stated assumptions about the parser and the validator, because both are uninterpreted. It is an `InvalidUrl`, as the tests expect, only when the parser accepts the empty reference; a parser that rejects it would let its own exception escape.
- Urls.TestUrlRoundTrip: stated only for ports without a colon, the only ports a URI parser reports.
- Certificates.AdditionalDomainsRoundTrip: stated only for names without `, ` or `DNS:`. Other names are split or altered by the code.
